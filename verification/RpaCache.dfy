/** The Bluetooth address hash: a lock-free one-entry cipher cache and a pool of
    scratch buffers, shared by any number of concurrent calls. AES is an
    arbitrary function from a key and a block to a block. */
module RpaCache {
  import opened Wrappers
  import opened Words

  type Byte = b: int | 0 <= b < 0x100

  type Bytes = seq<Byte>

  type Cipher = (Bytes, Bytes) -> Bytes

  ghost predicate IsCipher(aes: Cipher) {
    forall key: Bytes, block: Bytes :: |aes(key, block)| == 16
  }

  const ZEROS: Bytes := [0, 0, 0, 0, 0, 0, 0, 0, 0, 0, 0, 0, 0, 0, 0, 0]

  /** The three low bytes of prand, most significant first. */
  function PrandBytes(prand: nat): Bytes {
    [prand / 0x1_0000 % 0x100, prand / 0x100 % 0x100, prand % 0x100]
  }

  /** The 24-bit number in three bytes. */
  function Number24(b: Bytes): (n: nat)
    requires |b| == 3
    ensures n < 0x100_0000
  {
    var high: int, middle: int, low: int := b[0], b[1], b[2];
    high * 0x1_0000 + middle * 0x100 + low
  }

  /** ah of the Bluetooth Core Specification, Vol 3 Part H, section 2.2.2: prand
      padded with 104 zero bits, encrypted, and its low 24 bits. */
  function Ah(aes: Cipher, irk: Bytes, prand: nat): (hash: nat)
    ensures hash < 0x100_0000
  {
    var out := aes(irk, ZEROS[..13] + PrandBytes(prand));
    if |out| == 16 then Number24(out[13..]) else 0
  }

  // ---------- the machine ----------

  /** rpaCipher: a key and the cipher block, which remembers its own key. */
  datatype Entry = Entry(irk: Bytes, block: Bytes)

  /** The next shared or local action of a call. */
  datatype Pc = Load | Create | Store | Get | Clear | Write | Encrypt | Read | Put | Done

  datatype Call = Call(irk: Bytes, prand: nat, pc: Pc, c: Option<Entry>, buf: nat, hash: nat)

  /** The cache, the idle scratch buffers, the contents of all buffers, and all
      calls ever started. */
  datatype System = System(cache: Option<Entry>, pool: set<nat>, mem: seq<Bytes>, calls: seq<Call>)

  datatype Step =
    | Begin(irk: Bytes, prand: nat)
    | Take(i: nat, b: nat)
    | Allocate(i: nat)
    | Move(i: nat)
    | Drop(b: nat)

  predicate Enabled(s: System, step: Step) {
    match step
    case Begin(irk, _) => |irk| == 16
    case Take(i, b) => i < |s.calls| && s.calls[i].pc == Get && b in s.pool
    case Allocate(i) => i < |s.calls| && s.calls[i].pc == Get
    case Move(i) => i < |s.calls| && s.calls[i].pc != Get && s.calls[i].pc != Done && Movable(s, s.calls[i])
    case Drop(b) => b in s.pool
  }

  /** The call refers to what its next action uses. */
  predicate Movable(s: System, call: Call) {
    && (call.pc in {Clear, Write, Encrypt, Read, Put} ==> call.buf < |s.mem| && |s.mem[call.buf]| == 32)
    && (call.pc in {Store, Encrypt} ==> call.c.Some?)
  }

  /** What a call does with its buffer. */
  function Scratch(aes: Cipher, call: Call, buf: Bytes): (r: Bytes)
    requires |buf| == 32 && (call.pc == Encrypt ==> call.c.Some?)
  {
    match call.pc
    case Clear => ZEROS + buf[16..]
    case Write => buf[..13] + PrandBytes(call.prand) + buf[16..]
    case Encrypt => buf[..16] + aes(call.c.value.block, buf[..16])
    case _ => buf
  }

  function Advance(cache: Option<Entry>, call: Call, buf: Bytes): Call
    requires call.pc == Read ==> |buf| == 32
  {
    match call.pc
    case Load =>
      if cache == None || cache.value.irk != call.irk then call.(pc := Create)
      else call.(pc := Get, c := cache)
    case Create => call.(pc := Store, c := Some(Entry(call.irk, call.irk)))
    case Store => call.(pc := Get)
    case Get => call
    case Clear => call.(pc := Write)
    case Write => call.(pc := Encrypt)
    case Encrypt => call.(pc := Read)
    case Read => call.(pc := Put, hash := Number24(buf[29..]))
    case Put => call.(pc := Done)
    case Done => call
  }

  function Apply(aes: Cipher, s: System, step: Step): System
    requires Enabled(s, step)
  {
    match step
    case Begin(irk, prand) => s.(calls := s.calls + [Call(irk, prand, Load, None, 0, 0)])
    case Take(i, b) => s.(pool := s.pool - {b}, calls := s.calls[i := s.calls[i].(pc := Clear, buf := b)])
    case Allocate(i) =>
      s.(mem := s.mem + [ZEROS + ZEROS], calls := s.calls[i := s.calls[i].(pc := Clear, buf := |s.mem|)])
    case Drop(b) => s.(pool := s.pool - {b})
    case Move(i) =>
      var call := s.calls[i];
      var buf := if call.pc in {Clear, Write, Encrypt, Read, Put} then s.mem[call.buf] else [];
      System(
        if call.pc == Store then call.c else s.cache,
        if call.pc == Put then s.pool + {call.buf} else s.pool,
        if call.pc in {Clear, Write, Encrypt} then s.mem[call.buf := Scratch(aes, call, buf)] else s.mem,
        s.calls[i := Advance(s.cache, call, buf)])
  }

  function Run(aes: Cipher, s: System, steps: seq<Step>): Option<System>
    decreases |steps|
  {
    if steps == [] then Some(s)
    else if Enabled(s, steps[0]) then Run(aes, Apply(aes, s, steps[0]), steps[1..])
    else None
  }

  /** Any sequence of steps from an empty cache and pool. */
  ghost predicate Reachable(aes: Cipher, s: System) {
    exists steps :: Run(aes, System(None, {}, [], []), steps) == Some(s)
  }

  // ---------- the invariant ----------

  predicate Holds(call: Call) {
    call.pc in {Clear, Write, Encrypt, Read, Put}
  }

  predicate EntryOk(e: Option<Entry>) {
    e.Some? ==> e.value.irk == e.value.block
  }

  /** What a call has achieved before its next action. */
  ghost predicate CallOk(aes: Cipher, pool: set<nat>, mem: seq<Bytes>, call: Call) {
    && EntryOk(call.c)
    && (call.pc in {Store, Get} || Holds(call) ==> call.c.Some? && call.c.value.irk == call.irk)
    && (Holds(call) ==> call.buf < |mem| && call.buf !in pool)
    && (Holds(call) ==> BufferOk(aes, call, mem[call.buf]))
    && (call.pc in {Put, Done} ==> call.hash == Ah(aes, call.irk, call.prand))
  }

  ghost predicate BufferOk(aes: Cipher, call: Call, buf: Bytes) {
    && |buf| == 32
    && (call.pc == Write ==> buf[..16] == ZEROS)
    && (call.pc == Encrypt ==> buf[..16] == ZEROS[..13] + PrandBytes(call.prand))
    && (call.pc == Read ==> buf[16..] == aes(call.irk, ZEROS[..13] + PrandBytes(call.prand)))
  }

  ghost predicate Inv(aes: Cipher, s: System) {
    && EntryOk(s.cache)
    && (forall b | b in s.pool :: b < |s.mem|)
    && (forall b | 0 <= b < |s.mem| :: |s.mem[b]| == 32)
    && (forall i | 0 <= i < |s.calls| :: CallOk(aes, s.pool, s.mem, s.calls[i]))
    && (forall i, j | 0 <= i < j < |s.calls| && Holds(s.calls[i]) && Holds(s.calls[j]) ::
          s.calls[i].buf != s.calls[j].buf)
  }

  /** Preparing and encrypting in the scratch buffer. */
  lemma ScratchOk(aes: Cipher, call: Call, buf: Bytes)
    requires IsCipher(aes) && BufferOk(aes, call, buf) && call.pc in {Clear, Write, Encrypt}
    requires call.c.Some? && call.c.value.irk == call.c.value.block == call.irk
    ensures BufferOk(aes, Advance(None, call, buf), Scratch(aes, call, buf))
  {
    var after := Scratch(aes, call, buf);
    if call.pc == Clear {
      assert after[..16] == ZEROS;
    } else if call.pc == Write {
      assert after[..16] == ZEROS[..13] + PrandBytes(call.prand) by {
        assert buf[..13] == buf[..16][..13];
      }
    } else {
      assert after[16..] == aes(call.irk, ZEROS[..13] + PrandBytes(call.prand));
    }
  }

  /** Reading the hash from the scratch buffer. */
  lemma HashOk(aes: Cipher, call: Call, buf: Bytes)
    requires IsCipher(aes) && BufferOk(aes, call, buf) && call.pc == Read
    ensures Number24(buf[29..]) == Ah(aes, call.irk, call.prand)
  {
    assert buf[29..] == buf[16..][13..];
  }

  lemma ScratchMoverOk(aes: Cipher, s: System, i: nat)
    requires IsCipher(aes) && Inv(aes, s) && Enabled(s, Move(i)) && s.calls[i].pc in {Clear, Write, Encrypt}
    ensures var s' := Apply(aes, s, Move(i));
      EntryOk(s'.cache) && |s'.mem| == |s.mem| && CallOk(aes, s'.pool, s'.mem, s'.calls[i])
  {
    hide Scratch, PrandBytes, Number24, Ah;
    var call := s.calls[i];
    assert CallOk(aes, s.pool, s.mem, call);
    ScratchOk(aes, call, s.mem[call.buf]);
  }

  lemma ReadMoverOk(aes: Cipher, s: System, i: nat)
    requires IsCipher(aes) && Inv(aes, s) && Enabled(s, Move(i)) && s.calls[i].pc in {Read, Put}
    ensures var s' := Apply(aes, s, Move(i));
      EntryOk(s'.cache) && |s'.mem| == |s.mem| && CallOk(aes, s'.pool, s'.mem, s'.calls[i])
  {
    hide Scratch, PrandBytes, Number24, Ah;
    var call := s.calls[i];
    assert CallOk(aes, s.pool, s.mem, call);
    if call.pc == Read {
      HashOk(aes, call, s.mem[call.buf]);
    }
  }

  lemma CacheMoverOk(aes: Cipher, s: System, i: nat)
    requires IsCipher(aes) && Inv(aes, s) && Enabled(s, Move(i)) && s.calls[i].pc in {Load, Create, Store}
    ensures var s' := Apply(aes, s, Move(i));
      EntryOk(s'.cache) && |s'.mem| == |s.mem| && CallOk(aes, s'.pool, s'.mem, s'.calls[i])
  {
    hide Scratch, PrandBytes, Number24, Ah, BufferOk;
    assert CallOk(aes, s.pool, s.mem, s.calls[i]);
  }

  /** A call's own action keeps what it has achieved. */
  lemma MoverOk(aes: Cipher, s: System, i: nat)
    requires IsCipher(aes) && Inv(aes, s) && Enabled(s, Move(i))
    ensures var s' := Apply(aes, s, Move(i));
      EntryOk(s'.cache) && |s'.mem| == |s.mem| && CallOk(aes, s'.pool, s'.mem, s'.calls[i])
  {
    hide Inv, Apply, EntryOk, CallOk;
    var pc := s.calls[i].pc;
    if pc in {Clear, Write, Encrypt} {
      ScratchMoverOk(aes, s, i);
    } else if pc in {Read, Put} {
      ReadMoverOk(aes, s, i);
    } else {
      CacheMoverOk(aes, s, i);
    }
  }

  /** It does not disturb other calls, which hold other buffers. */
  lemma BystanderOk(aes: Cipher, s: System, i: nat, j: nat)
    requires Inv(aes, s) && Enabled(s, Move(i)) && j < |s.calls| && j != i
    ensures var s' := Apply(aes, s, Move(i));
      s'.calls[j] == s.calls[j] && CallOk(aes, s'.pool, s'.mem, s'.calls[j])
  {
    hide Ah, PrandBytes, Number24, Scratch;
    assert CallOk(aes, s.pool, s.mem, s.calls[i]);
    assert CallOk(aes, s.pool, s.mem, s.calls[j]);
    if Holds(s.calls[i]) && Holds(s.calls[j]) {
      assert s.calls[i].buf != s.calls[j].buf;
    }
  }

  lemma MoveKeepsMemory(aes: Cipher, s: System, i: nat)
    requires IsCipher(aes) && Inv(aes, s) && Enabled(s, Move(i))
    ensures var s' := Apply(aes, s, Move(i));
      && |s'.mem| == |s.mem|
      && (forall b | b in s'.pool :: b < |s'.mem|)
      && (forall b | 0 <= b < |s'.mem| :: |s'.mem[b]| == 32)
      && (Holds(s'.calls[i]) ==> Holds(s.calls[i]) && s'.calls[i].buf == s.calls[i].buf)
  {
    hide Ah, PrandBytes, Number24;
    var call := s.calls[i];
    assert CallOk(aes, s.pool, s.mem, call);
    if call.pc in {Clear, Write, Encrypt} {
      ScratchOk(aes, call, s.mem[call.buf]);
    }
  }

  lemma MoveKeepsInv(aes: Cipher, s: System, i: nat)
    requires IsCipher(aes) && Inv(aes, s) && Enabled(s, Move(i))
    ensures Inv(aes, Apply(aes, s, Move(i)))
  {
    hide Advance, Scratch, Ah, BufferOk;
    MoverOk(aes, s, i);
    MoveKeepsMemory(aes, s, i);
    var s' := Apply(aes, s, Move(i));
    forall j: nat | j < |s.calls| && j != i
      ensures s'.calls[j] == s.calls[j] && CallOk(aes, s'.pool, s'.mem, s'.calls[j])
    {
      BystanderOk(aes, s, i, j);
    }
  }

  /** Getting a buffer: from the pool or newly allocated. */
  lemma GetKeepsInv(aes: Cipher, s: System, step: Step)
    requires IsCipher(aes) && Inv(aes, s) && Enabled(s, step) && (step.Take? || step.Allocate?)
    ensures Inv(aes, Apply(aes, s, step))
  {
    hide Ah, PrandBytes, Number24, Advance, Scratch;
    var s' := Apply(aes, s, step);
    forall j: nat | j < |s.calls|
      ensures CallOk(aes, s'.pool, s'.mem, s'.calls[j])
    {
      assert CallOk(aes, s.pool, s.mem, s.calls[j]);
    }
  }

  lemma OtherKeepsInv(aes: Cipher, s: System, step: Step)
    requires IsCipher(aes) && Inv(aes, s) && Enabled(s, step) && (step.Begin? || step.Drop?)
    ensures Inv(aes, Apply(aes, s, step))
  {
    hide Ah, PrandBytes, Number24, Advance, Scratch;
    var s' := Apply(aes, s, step);
    forall j: nat | j < |s'.calls|
      ensures CallOk(aes, s'.pool, s'.mem, s'.calls[j])
    {
      assert j < |s.calls| ==> CallOk(aes, s.pool, s.mem, s.calls[j]);
    }
  }

  lemma StepKeepsInv(aes: Cipher, s: System, step: Step)
    requires IsCipher(aes) && Inv(aes, s) && Enabled(s, step)
    ensures Inv(aes, Apply(aes, s, step))
  {
    hide Inv;
    match step
    case Move(i) => MoveKeepsInv(aes, s, i);
    case Take(_, _) => GetKeepsInv(aes, s, step);
    case Allocate(_) => GetKeepsInv(aes, s, step);
    case Begin(_, _) => OtherKeepsInv(aes, s, step);
    case Drop(_) => OtherKeepsInv(aes, s, step);
  }

  lemma {:induction false} RunKeepsInv(aes: Cipher, s: System, steps: seq<Step>)
    requires IsCipher(aes) && Inv(aes, s) && Run(aes, s, steps).Some?
    ensures Inv(aes, Run(aes, s, steps).value)
    decreases |steps|
  {
    if steps != [] {
      StepKeepsInv(aes, s, steps[0]);
      RunKeepsInv(aes, Apply(aes, s, steps[0]), steps[1..]);
    }
  }

  lemma ReachableInv(aes: Cipher, s: System)
    requires IsCipher(aes) && Reachable(aes, s)
    ensures Inv(aes, s)
  {
    var steps :| Run(aes, System(None, {}, [], []), steps) == Some(s);
    RunKeepsInv(aes, System(None, {}, [], []), steps);
  }

  /** In every interleaving a finished call has returned ah of its own key and
      its own prand. */
  lemma EveryHashIsAh(aes: Cipher, s: System, i: nat)
    requires IsCipher(aes) && Reachable(aes, s) && i < |s.calls| && s.calls[i].pc == Done
    ensures s.calls[i].hash == Ah(aes, s.calls[i].irk, s.calls[i].prand)
  {
    ReachableInv(aes, s);
    assert CallOk(aes, s.pool, s.mem, s.calls[i]);
  }

  /** The cache never pairs a key with the cipher of another, and no scratch
      buffer is held twice or idle while held. */
  lemma CacheAndBuffersAreSafe(aes: Cipher, s: System)
    requires IsCipher(aes) && Reachable(aes, s)
    ensures s.cache.Some? ==> s.cache.value.irk == s.cache.value.block
    ensures forall i, j | 0 <= i < j < |s.calls| && Holds(s.calls[i]) && Holds(s.calls[j]) ::
              s.calls[i].buf != s.calls[j].buf
    ensures forall i | 0 <= i < |s.calls| && Holds(s.calls[i]) :: s.calls[i].buf !in s.pool
  {
    ReachableInv(aes, s);
    forall i | 0 <= i < |s.calls| && Holds(s.calls[i])
      ensures s.calls[i].buf !in s.pool
    {
      assert CallOk(aes, s.pool, s.mem, s.calls[i]);
    }
  }

  /** No call is ever stuck: an unfinished one has an enabled action. */
  lemma NoCallIsStuck(aes: Cipher, s: System, i: nat)
    requires IsCipher(aes) && Reachable(aes, s) && i < |s.calls| && s.calls[i].pc != Done
    ensures Enabled(s, if s.calls[i].pc == Get then Allocate(i) else Move(i))
  {
    ReachableInv(aes, s);
    assert CallOk(aes, s.pool, s.mem, s.calls[i]);
  }

  // ---------- what ah is ----------

  /** The number that bytes spell, most significant first. */
  function BigEndian(b: Bytes): nat {
    if b == [] then 0
    else
      var low: int := b[|b| - 1];
      BigEndian(b[..|b| - 1]) * 0x100 + low
  }

  lemma BigEndianSnoc(b: Bytes, low: Byte)
    ensures BigEndian(b + [low]) == BigEndian(b) * 0x100 + low
  {
    assert (b + [low])[..|b|] == b;
  }

  /** Bytes of one length are determined by their number. */
  lemma {:induction false} BigEndianInjective(a: Bytes, b: Bytes)
    requires |a| == |b| && BigEndian(a) == BigEndian(b)
    ensures a == b
  {
    if a != [] {
      var n := |a| - 1;
      var x: int, y: int := a[n], b[n];
      DivModUnique(BigEndian(a), 0x100, BigEndian(a[..n]), x);
      DivModUnique(BigEndian(b), 0x100, BigEndian(b[..n]), y);
      BigEndianInjective(a[..n], b[..n]);
      assert a == a[..n] + [a[n]] && b == b[..n] + [b[n]];
    }
  }

  /** Three more bytes. */
  lemma BigEndianThree(b: Bytes, t: Bytes)
    requires |t| == 3
    ensures BigEndian(b + t) == BigEndian(b) * 0x100_0000 + Number24(t)
  {
    BigEndianSnoc(b, t[0]);
    BigEndianSnoc(b + [t[0]], t[1]);
    BigEndianSnoc(b + [t[0]] + [t[1]], t[2]);
    assert b + t == b + [t[0]] + [t[1]] + [t[2]];
  }

  lemma {:induction false} ZerosSpellZero(b: Bytes)
    requires forall i | 0 <= i < |b| :: b[i] == 0
    ensures BigEndian(b) == 0
  {
    if b != [] {
      ZerosSpellZero(b[..|b| - 1]);
    }
  }

  lemma PrandSpelled(prand: nat)
    ensures Number24(PrandBytes(prand)) == prand % 0x100_0000
  {
    var x, y := prand / 0x100, prand / 0x1_0000;
    DivBounds(prand, 0x100);
    DivBounds(x, 0x100);
    DivBounds(y, 0x100);
    DivModUnique(prand, 0x1_0000, x / 0x100, x % 0x100 * 0x100 + prand % 0x100);
    DivModUnique(prand, 0x100_0000, y / 0x100, y % 0x100 * 0x1_0000 + x % 0x100 * 0x100 + prand % 0x100);
  }

  /** The block that ah encrypts exists: sixteen bytes that spell prand. */
  lemma BlockOf(prand: nat) returns (b: Bytes)
    requires prand < 0x100_0000
    ensures |b| == 16 && BigEndian(b) == prand
    ensures b == ZEROS[..13] + PrandBytes(prand)
  {
    b := ZEROS[..13] + PrandBytes(prand);
    BigEndianThree(ZEROS[..13], PrandBytes(prand));
    ZerosSpellZero(ZEROS[..13]);
    PrandSpelled(prand);
  }

  /** Section 2.2.2: ah is the cipher of the 128-bit number prand, modulo 2^24. */
  lemma AhIsTheStandard(aes: Cipher, irk: Bytes, prand: nat, b: Bytes)
    requires IsCipher(aes) && prand < 0x100_0000 && |b| == 16 && BigEndian(b) == prand
    ensures Ah(aes, irk, prand) == BigEndian(aes(irk, b)) % 0x100_0000
  {
    var block := BlockOf(prand);
    BigEndianInjective(b, block);
    var out := aes(irk, b);
    BigEndianThree(out[..13], out[13..]);
    assert out == out[..13] + out[13..];
    DivModUnique(BigEndian(out), 0x100_0000, BigEndian(out[..13]), Number24(out[13..]));
  }

  /** So in every interleaving a finished call has returned the cipher of its own
      prand under its own key, modulo 2^24. */
  lemma EveryHashIsTheStandard(aes: Cipher, s: System, i: nat) returns (b: Bytes)
    requires IsCipher(aes) && Reachable(aes, s) && i < |s.calls| && s.calls[i].pc == Done
    requires s.calls[i].prand < 0x100_0000
    ensures |b| == 16 && BigEndian(b) == s.calls[i].prand
    ensures s.calls[i].hash == BigEndian(aes(s.calls[i].irk, b)) % 0x100_0000
  {
    EveryHashIsAh(aes, s, i);
    b := BlockOf(s.calls[i].prand);
    AhIsTheStandard(aes, s.calls[i].irk, s.calls[i].prand, b);
  }
}
