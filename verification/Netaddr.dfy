/** Random prefixes and random addresses inside a prefix. */
module Netaddr {
  import opened Wrappers
  import opened SplitMix
  import opened Provider
  import opened Cidr

  datatype CidrKind = IPv4Cidr | IPv6Cidr | IPv6UlaPrefix

  datatype Addr = V4(w: bv32) | V6(hi: bv64, lo: bv64)

  datatype Prefix = Prefix(addr: Addr, bits: bv8) {
    predicate IsValid() {
      bits <= if addr.V4? then 32 else 128
    }
  }

  /** The prefix length clamped to the family, and the address length. */
  function PrefixLen(kind: CidrKind, bits: bv8): (r: (bv8, nat))
    ensures r.0 <= if r.1 == 4 then 32 else 128
    ensures r.1 == if kind.IPv4Cidr? then 4 else 16
  {
    match kind
    case IPv6Cidr => (if bits < 128 then bits else 128, 16)
    case IPv6UlaPrefix => (48, 16)
    case IPv4Cidr => (if bits < 32 then bits else 32, 4)
  }

  /** The bytes of ip with the host bits cleared. */
  function Masked(ip: seq<bv8>, bits: bv8): seq<bv8> {
    AndBytes(ip, MaskBytes(bits, 0, |ip|))
  }

  /** The bytes that Read draws from a state. */
  function RawBytes(state: bv64, n: nat): (r: seq<bv8>)
    ensures |r| == n
  {
    Concat(StreamWords(state, WordsFor(n)))[..n]
  }

  function UlaBytes(state: bv64): seq<bv8> {
    UlaOf(Stream(state, 0))
  }

  /** The unique-local prefix of one word. */
  function UlaOf(x: bv64): seq<bv8> {
    [0xfd] + Bytes(x, 5) + [0, 0, 0, 0, 0, 0, 0, 0, 0, 0]
  }

  /** fillPrefix: random bytes with the host bits cleared. */
  method FillPrefix(ip: array<bv8>, bits: bv8, p: Uint64Provider)
    requires (bits >> 3) as int < ip.Length || ((bits >> 3) as int == ip.Length && bits & 7 == 0)
    modifies ip, p
    ensures ip[..] == Masked(RawBytes(old(p.state), ip.Length), bits)
    ensures p.state == StateAfter(old(p.state), WordsFor(ip.Length))
  {
    p.Read(ip);
    hide Stream, StreamWords, Concat, MaskByte, StateAfter, WordsFor, And8;
    ghost var raw := ip[..];
    MaskHostBits(ip, bits);
    assert forall i | 0 <= i < |raw| :: ip[i] == And8(raw[i], MaskByte(bits, i));
    assert ip[..] == Masked(raw, bits);
  }

  /** fillPrefix for a unique-local prefix: 0xfd, 40 random bits, and zeros. */
  method FillUlaPrefix(ip: array<bv8>, p: Uint64Provider)
    requires ip.Length == 16
    modifies ip, p
    ensures ip[..] == UlaBytes(old(p.state)) && p.state == Advance(old(p.state))
  {
    var x := p.Sum64();
    hide Stream, Bytes, Advance;
    for i := 0 to ip.Length
      invariant p.state == Advance(old(p.state))
      invariant forall j | 0 <= j < i :: ip[j] == 0
    {
      ip[i] := 0;
    }
    ip[0] := 0xfd;
    assert ip[6..] == [0, 0, 0, 0, 0, 0, 0, 0, 0, 0];
    assert ip[..1] == [0xfd];
    PutTail(ip, 1, 5, x);
    assert ip[..] == ip[..1] + ip[1..1 + 5] + ip[1 + 5..];
    assert ip[..] == [0xfd] + Bytes(x, 5) + [0, 0, 0, 0, 0, 0, 0, 0, 0, 0];
  }

  /** The address in network bytes. */
  function FromNetwork(ip: seq<bv8>): (a: Addr)
    requires |ip| == 4 || |ip| == 16
    ensures a.V4? <==> |ip| == 4
  {
    if |ip| == 4 then V4(BigEndian32(ip)) else V6(BigEndian64(ip[..8]), BigEndian64(ip[8..]))
  }

  function NetworkPart(a: Addr, bits: bv8): Addr
    requires bits <= if a.V4? then 32 else 128
  {
    match a
    case V4(w) => V4(Net32(w, Mask32(bits)))
    case V6(hi, lo) => V6(Net64(hi, HiMask(bits)), Net64(lo, LoMask(bits)))
  }

  /** a lies inside p. */
  predicate Inside(a: Addr, p: Prefix)
    requires p.IsValid()
  {
    a.V4? == p.addr.V4? && NetworkPart(a, p.bits) == NetworkPart(p.addr, p.bits)
  }

  /** The words that one random address takes: one for IPv4, two for IPv6. */
  datatype Draw = Draw(x: bv64, y: bv64)

  function Low32(x: bv64): bv32 { (x & 0xffff_ffff) as bv32 }

  /** A random address of a valid prefix. */
  function AddrIn(p: Prefix, d: Draw): Addr
    requires p.IsValid()
  {
    match p.addr
    case V4(w) => V4(HostBits32(w, Mask32(p.bits), Low32(d.x)))
    case V6(hi, lo) => V6(HostBits64(hi, HiMask(p.bits), d.x), HostBits64(lo, LoMask(p.bits), d.y))
  }

  /** AddrIn, with the masks that it builds and the words that it draws. */
  method RandomAddrIn(prefix: Prefix, p: Uint64Provider) returns (r: Option<Addr>)
    modifies p
    ensures !prefix.IsValid() ==> r == None && p.state == old(p.state)
    ensures prefix.IsValid() ==>
              && r == Some(AddrIn(prefix, Draw(Stream(old(p.state), 0), Stream(Advance(old(p.state)), 0))))
              && Inside(r.value, prefix)
              && p.state == if prefix.addr.V4? then Advance(old(p.state)) else Advance(Advance(old(p.state)))
  {
    if !prefix.IsValid() {
      return None;
    }
    AddrInStaysInside(prefix, Draw(Stream(p.state, 0), Stream(Advance(p.state), 0)));
    hide Stream, Advance, HostBits32, HostBits64, Inside, HiMask, LoMask;
    var bits := prefix.bits;
    match prefix.addr {
      case V4(base) =>
        var x := p.Sum64();
        r := Some(V4(HostBits32(base, 0xffff_ffff << (32 - bits), Low32(x))));
      case V6(hi, lo) =>
        var hiMask, loMask := Masks(bits);
        var x := p.Sum64();
        var y := p.Sum64();
        r := Some(V6(HostBits64(hi, hiMask, x), HostBits64(lo, loMask, y)));
    }
  }

  method Masks(bits: bv8) returns (hiMask: bv64, loMask: bv64)
    requires bits <= 128
    ensures hiMask == HiMask(bits) && loMask == LoMask(bits)
  {
    hiMask, loMask := 0, 0;
    if bits <= 64 {
      hiMask := 0xffff_ffff_ffff_ffff << (64 - bits);
    } else {
      hiMask, loMask := 0xffff_ffff_ffff_ffff, 0xffff_ffff_ffff_ffff << (128 - bits);
    }
  }

  /** Prefix and CIDR: a random network of the clamped length. */
  method RandomPrefix(kind: CidrKind, bits: bv8, p: Uint64Provider) returns (r: Prefix)
    modifies p
    ensures r.IsValid()
    ensures kind.IPv4Cidr? ==> r.addr.V4? && r.bits == if bits <= 32 then bits else 32
    ensures kind.IPv6Cidr? ==> r.addr.V6? && r.bits == if bits <= 128 then bits else 128
    ensures kind.IPv6UlaPrefix? ==> r.addr.V6? && r.bits == 48
    ensures NetworkPart(r.addr, r.bits) == r.addr
    ensures !kind.IPv6UlaPrefix? ==> r == NewPrefix(RawBytes(old(p.state), PrefixLen(kind, bits).1), r.bits)
    ensures kind.IPv6UlaPrefix? ==> r.addr == FromNetwork(UlaBytes(old(p.state))) && r.addr.hi >> 56 == 0xfd
  {
    var (length, n) := PrefixLen(kind, bits);
    ClampedFits(kind, bits);
    hide NetworkPart, FromNetwork, Masked, RawBytes;
    var ip := new bv8[n];
    if kind.IPv6UlaPrefix? {
      FillUlaPrefix(ip, p);
      UlaShape(old(p.state));
      UlaPrefixHasNoHostBits(ip[..]);
    } else {
      FillPrefix(ip, length, p);
      NewPrefixHasNoHostBits(RawBytes(old(p.state), n), length);
    }
    r := Prefix(FromNetwork(ip[..]), length);
  }

  lemma UlaShape(state: bv64)
    ensures var ip := UlaBytes(state);
      |ip| == 16 && ip[0] == 0xfd && forall i | 6 <= i < 16 :: ip[i] == 0
  {
    hide Stream, Bytes;
  }

  lemma ClampedFits(kind: CidrKind, bits: bv8)
    ensures var (length, n) := PrefixLen(kind, bits);
      ((length >> 3) as int) < n || ((length >> 3) as int == n && length & 7 == 0)
  {
  }

  // ---------- laws ----------

  lemma MaskedV4(ip: seq<bv8>, bits: bv8)
    requires |ip| == 4 && bits <= 32
    ensures FromNetwork(Masked(ip, bits)) == NetworkPart(FromNetwork(ip), bits)
  {
    hide MaskByte, BigEndian32, Mask32, Net32;
    Mask32Agrees(bits);
    AndBytes32(ip, MaskBytes(bits, 0, 4));
  }

  lemma MaskedV6(ip: seq<bv8>, bits: bv8)
    requires |ip| == 16 && bits <= 128
    ensures FromNetwork(Masked(ip, bits)) == NetworkPart(FromNetwork(ip), bits)
  {
    hide MaskByte, BigEndian64, HiMask, LoMask, Net64, And8;
    HiMaskAgrees(bits);
    LoMaskAgrees(bits);
    AndBytes64(ip[..8], MaskBytes(bits, 0, 8));
    AndBytes64(ip[8..], MaskBytes(bits, 8, 8));
    assert Masked(ip, bits)[..8] == AndBytes(ip[..8], MaskBytes(bits, 0, 8));
    assert Masked(ip, bits)[8..] == AndBytes(ip[8..], MaskBytes(bits, 8, 8));
  }

  lemma NetTwice(x: bv32, m: bv32, y: bv64, n: bv64)
    ensures Net32(Net32(x, m), m) == Net32(x, m)
    ensures Net64(Net64(y, n), n) == Net64(y, n)
  {
    assert Net32(x & m, m) == x & m;
    assert Net64(y & n, n) == y & n;
  }

  /** CIDR and Prefix: a masked random address, for any random bytes. */
  function NewPrefix(raw: seq<bv8>, bits: bv8): Prefix
    requires |raw| == 4 || |raw| == 16
  {
    Prefix(FromNetwork(Masked(raw, bits)), bits)
  }

  /** A generated prefix has no host bits. */
  lemma NewPrefixHasNoHostBits(raw: seq<bv8>, bits: bv8)
    requires (|raw| == 4 && bits <= 32) || (|raw| == 16 && bits <= 128)
    ensures NewPrefix(raw, bits).IsValid()
    ensures NetworkPart(NewPrefix(raw, bits).addr, bits) == NewPrefix(raw, bits).addr
  {
    hide Net32, Net64, Mask32, HiMask, LoMask, BigEndian32, BigEndian64, Masked;
    if |raw| == 4 {
      MaskedV4(raw, bits);
      NetTwice(BigEndian32(raw), Mask32(bits), 0, 0);
    } else {
      MaskedV6(raw, bits);
      NetTwice(0, 0, BigEndian64(raw[..8]), HiMask(bits));
      NetTwice(0, 0, BigEndian64(raw[8..]), LoMask(bits));
    }
  }

  /** A unique-local prefix has no host bits below /48 and starts with fd. */
  lemma UlaPrefixHasNoHostBits(ip: seq<bv8>)
    requires |ip| == 16 && ip[0] == 0xfd && forall i | 6 <= i < 16 :: ip[i] == 0
    ensures NetworkPart(FromNetwork(ip), 48) == FromNetwork(ip)
    ensures FromNetwork(ip).hi >> 56 == 0xfd
  {
    var b := ip[..8];
    assert b[6] == 0 && b[7] == 0 && b[0] == 0xfd;
    assert forall i | 0 <= i < 8 :: ip[8..][i] == 0;
    UlaHigh(b);
    assert BigEndian64(ip[8..]) == 0;
  }

  /** The 40 random bits of a unique-local prefix, as the low bits of a word. */
  function UlaBits(ip: seq<bv8>): bv64
    requires |ip| == 16
  {
    FromBytes(ip[1..6] + [0, 0, 0])
  }

  function LowBits40(x: bv64): bv64 { x & 0xff_ffff_ffff }

  lemma FiveBytes(x: bv64)
    ensures Bytes(x, 5) == [LowByte(x), LowByte(x >> 8), LowByte(x >> 16), LowByte(x >> 24), LowByte(x >> 32)]
  {
  }

  lemma FiveBytesSpell(x: bv64)
    ensures FromBytes(Bytes(x, 5) + [0, 0, 0]) == LowBits40(x)
  {
    FiveBytes(x);
  }

  lemma BytesDetermined(b: seq<bv8>, c: seq<bv8>)
    requires |b| == 8 == |c| && FromBytes(b) == FromBytes(c)
    ensures b == c
  {
    BytesOf(b);
    BytesOf(c);
  }

  lemma BytesOf(b: seq<bv8>)
    requires |b| == 8
    ensures b == [LowByte(FromBytes(b)), LowByte(FromBytes(b) >> 8), LowByte(FromBytes(b) >> 16), LowByte(FromBytes(b) >> 24),
                  LowByte(FromBytes(b) >> 32), LowByte(FromBytes(b) >> 40), LowByte(FromBytes(b) >> 48), LowByte(FromBytes(b) >> 56)]
  {
  }

  /** A word gives the prefix whose random bits are its low 40 bits. */
  lemma UlaWhen(x: bv64, ip: seq<bv8>)
    requires |ip| == 16 && ip[0] == 0xfd && forall i | 6 <= i < 16 :: ip[i] == 0
    ensures UlaOf(x) == ip <==> LowBits40(x) == UlaBits(ip)
  {
    FiveBytesSpell(x);
    hide Bytes, FromBytes, LowBits40;
    var b, c := Bytes(x, 5) + [0, 0, 0], ip[1..6] + [0, 0, 0];
    assert UlaOf(x)[1..6] == Bytes(x, 5);
    assert ip == [0xfd] + ip[1..6] + [0, 0, 0, 0, 0, 0, 0, 0, 0, 0];
    if FromBytes(b) == FromBytes(c) {
      BytesDetermined(b, c);
      assert b[..5] == Bytes(x, 5) && c[..5] == ip[1..6];
    }
  }

  /** Moves the words of one prefix to those of another. */
  function MoveUla(a: seq<bv8>, b: seq<bv8>, x: bv64): bv64
    requires |a| == 16 && |b| == 16
  {
    Move64(UlaBits(a), UlaBits(b), x)
  }

  lemma UlaBitsLow(ip: seq<bv8>)
    requires |ip| == 16
    ensures LowBits40(UlaBits(ip)) == UlaBits(ip)
  {
    var b := ip[1..6] + [0, 0, 0];
    LowBytes(b);
  }

  lemma LowBytes(b: seq<bv8>)
    requires |b| == 8 && b[5] == 0 && b[6] == 0 && b[7] == 0
    ensures LowBits40(FromBytes(b)) == FromBytes(b)
  {
  }

  lemma LowXor(a: bv64, b: bv64)
    ensures LowBits40(Xor64(a, b)) == Xor64(LowBits40(a), LowBits40(b))
  {
  }

  lemma XorBack(y: bv64, c: bv64)
    ensures Xor64(Xor64(y, c), c) == y
  {
  }

  lemma XorTo(a: bv64, b: bv64)
    ensures Xor64(a, Xor64(a, b)) == b
  {
  }

  lemma XorSolve(y: bv64, a: bv64, b: bv64)
    ensures Xor64(y, Xor64(a, b)) == b <==> y == a
  {
    hide Xor64;
    XorBack(y, Xor64(a, b));
    XorBack(a, Xor64(a, b));
    XorTo(a, b);
  }

  lemma MovedLow(a: bv64, b: bv64, x: bv64)
    requires LowBits40(a) == a && LowBits40(b) == b
    ensures LowBits40(x) == a <==> LowBits40(Move64(a, b, x)) == b
  {
    hide LowBits40, Xor64, Move64, Mix64;
    XorTwice64(a, b, x);
    LowXor(x, Xor64(a, b));
    LowXor(a, b);
    XorSolve(LowBits40(x), a, b);
  }

  /** Every unique-local /48 comes from equally many words: the words of any two
      are in bijection. */
  lemma UlaUniform(a: seq<bv8>, b: seq<bv8>, x: bv64)
    requires |a| == 16 && a[0] == 0xfd && forall i | 6 <= i < 16 :: a[i] == 0
    requires |b| == 16 && b[0] == 0xfd && forall i | 6 <= i < 16 :: b[i] == 0
    ensures UlaOf(x) == a <==> UlaOf(MoveUla(a, b, x)) == b
    ensures MoveUla(b, a, MoveUla(a, b, x)) == x
  {
    hide UlaOf, UlaBits, LowBits40, Move64;
    UlaWhen(x, a);
    UlaWhen(MoveUla(a, b, x), b);
    UlaBitsLow(a);
    UlaBitsLow(b);
    MovedLow(UlaBits(a), UlaBits(b), x);
    MoveBack64(UlaBits(a), UlaBits(b), x);
  }

  /** And from some word. */
  lemma UlaCovers(ip: seq<bv8>)
    requires |ip| == 16 && ip[0] == 0xfd && forall i | 6 <= i < 16 :: ip[i] == 0
    ensures UlaOf(UlaBits(ip)) == ip
  {
    hide UlaOf, UlaBits, LowBits40;
    UlaBitsLow(ip);
    UlaWhen(UlaBits(ip), ip);
  }

  lemma UlaHigh(b: seq<bv8>)
    requires |b| == 8 && b[0] == 0xfd && b[6] == 0 && b[7] == 0
    ensures Net64(BigEndian64(b), HiMask(48)) == BigEndian64(b)
    ensures BigEndian64(b) >> 56 == 0xfd
  {
  }

  /** AddrIn stays inside every valid prefix, with or without host bits. */
  lemma AddrInStaysInside(p: Prefix, d: Draw)
    requires p.IsValid()
    ensures Inside(AddrIn(p, d), p)
  {
    hide HostBits32, HostBits64, Net32, Net64, Low32, Mask32, HiMask, LoMask;
    match p.addr
    case V4(w) => NetOfJoin32(w, Low32(d.x), Mask32(p.bits));
    case V6(hi, lo) =>
      NetOfJoin64(hi, d.x, HiMask(p.bits));
      NetOfJoin64(lo, d.y, LoMask(p.bits));
  }

  /** Moves the draws that give a to those that give b. */
  function MoveDraw(a: Addr, b: Addr, d: Draw): Draw
    requires a.V4? == b.V4?
  {
    match a
    case V4(w) => Draw(MoveLow(w, b.w, d.x), d.y)
    case V6(hi, lo) => Draw(Move64(hi, b.hi, d.x), Move64(lo, b.lo, d.y))
  }

  /** Moves the low half of an IPv4 draw. */
  function MoveLow(a: bv32, b: bv32, x: bv64): bv64 {
    x ^ ((a ^ b) as bv64)
  }

  lemma MoveLowIs(a: bv32, b: bv32, x: bv64)
    ensures Low32(MoveLow(a, b, x)) == Move32(a, b, Low32(x))
  {
    assert Low32(x ^ ((a ^ b) as bv64)) == Move32(a, b, (x & 0xffff_ffff) as bv32);
  }

  lemma MoveLowBack(a: bv32, b: bv32, x: bv64)
    ensures MoveLow(b, a, MoveLow(a, b, x)) == x
  {
    assert MoveLow(b, a, x ^ ((a ^ b) as bv64)) == x;
  }

  /** Every address of a prefix is drawn equally often, even when the prefix
      carries host bits: moving draws is a bijection between the draws of any
      two of its addresses. */
  lemma AddrInIsUniform(p: Prefix, a: Addr, b: Addr, d: Draw)
    requires p.IsValid() && Inside(a, p) && Inside(b, p)
    ensures AddrIn(p, d) == a <==> AddrIn(p, MoveDraw(a, b, d)) == b
    ensures MoveDraw(b, a, MoveDraw(a, b, d)) == d
  {
    hide HostBits32, HostBits64, Net32, Net64, Low32, Mask32, HiMask, LoMask, MoveLow, Move32, Move64;
    match p.addr
    case V4(w) =>
      MoveLowIs(a.w, b.w, d.x);
      MoveLowBack(a.w, b.w, d.x);
      HostBitsEqual32(w, Mask32(p.bits), a.w, b.w, Low32(d.x));
    case V6(hi, lo) =>
      HostBitsEqual64(hi, HiMask(p.bits), a.hi, b.hi, d.x);
      HostBitsEqual64(lo, LoMask(p.bits), a.lo, b.lo, d.y);
  }

  /** And every address of the prefix is drawn by some words. */
  lemma AddrInCovers(p: Prefix, a: Addr)
    requires p.IsValid() && Inside(a, p)
    ensures AddrIn(p, if a.V4? then Draw(a.w as bv64, 0) else Draw(a.hi, a.lo)) == a
  {
    hide HostBits32, HostBits64, Net32, Net64, Host32, Host64, Mask32, HiMask, LoMask;
    match p.addr
    case V4(w) =>
      LowOf(a.w);
      HostBitsAre32(w, Mask32(p.bits), a.w, a.w);
    case V6(hi, lo) =>
      HostBitsAre64(hi, HiMask(p.bits), a.hi, a.hi);
      HostBitsAre64(lo, LoMask(p.bits), a.lo, a.lo);
  }

  lemma LowOf(w: bv32)
    ensures Low32(w as bv64) == w
  {
  }

  /** IPInCIDR reads the mask from bytes; on a generated mask it is AddrIn. */
  function IpInCidr(base: Addr, mask: seq<bv8>, d: Draw): Addr
    requires |mask| == if base.V4? then 4 else 16
  {
    match base
    case V4(w) => V4(HostBits32(w, BigEndian32(mask), Low32(d.x)))
    case V6(hi, lo) => V6(HostBits64(hi, BigEndian64(mask[..8]), d.x), HostBits64(lo, BigEndian64(mask[8..]), d.y))
  }

  /** net.IPNet: an address and a mask in bytes. */
  datatype IpNet = IpNet(ip: seq<bv8>, mask: seq<bv8>)

  const MAPPED: seq<bv8> := [0, 0, 0, 0, 0, 0, 0, 0, 0, 0, 0xff, 0xff]

  /** net.IP.To4 and To16: an IPv4 address has four bytes, or sixteen with the
      mapped prefix. */
  function To4(ip: seq<bv8>): (r: Option<seq<bv8>>)
    ensures r.Some? ==> |r.value| == 4
  {
    if |ip| == 4 then Some(ip)
    else if |ip| == 16 && ip[..12] == MAPPED then Some(ip[12..])
    else None
  }

  function To16(ip: seq<bv8>): (r: Option<seq<bv8>>)
    ensures r.Some? ==> |r.value| == 16
  {
    if |ip| == 4 then Some(MAPPED + ip)
    else if |ip| == 16 then Some(ip)
    else None
  }

  /** The base address of the family of the mask. */
  function BaseOf(net: IpNet): (r: Option<Addr>)
    ensures r.Some? ==> |net.mask| == if r.value.V4? then 4 else 16
  {
    if |net.mask| == 4 then
      match To4(net.ip)
      case None => None
      case Some(b) => Some(V4(BigEndian32(b)))
    else if |net.mask| == 16 then
      match To16(net.ip)
      case None => None
      case Some(b) => Some(V6(BigEndian64(b[..8]), BigEndian64(b[8..])))
    else None
  }

  /** IPInCIDR: nothing and no draw without a network, for a mask of another
      length, or for an address of the wrong family. */
  method RandomIpInCidr(net: Option<IpNet>, p: Uint64Provider) returns (r: Option<Addr>)
    modifies p
    ensures net == None || BaseOf(net.value) == None ==> r == None && p.state == old(p.state)
    ensures net.Some? && BaseOf(net.value).Some? ==>
              var base := BaseOf(net.value).value;
              && r == Some(IpInCidr(base, net.value.mask, Draw(Stream(old(p.state), 0), Stream(Advance(old(p.state)), 0))))
              && p.state == if base.V4? then Advance(old(p.state)) else Advance(Advance(old(p.state)))
  {
    if net == None {
      return None;
    }
    hide Stream, Advance, HostBits32, HostBits64, BigEndian32, BigEndian64, To4, To16;
    var mask := net.value.mask;
    if |mask| == 4 {
      var ip4 := To4(net.value.ip);
      if ip4 == None {
        return None;
      }
      var x := p.Sum64();
      r := Some(V4(HostBits32(BigEndian32(ip4.value), BigEndian32(mask), Low32(x))));
    } else if |mask| == 16 {
      var ip6 := To16(net.value.ip);
      if ip6 == None {
        return None;
      }
      var x := p.Sum64();
      var y := p.Sum64();
      r := Some(V6(HostBits64(BigEndian64(ip6.value[..8]), BigEndian64(mask[..8]), x),
                   HostBits64(BigEndian64(ip6.value[8..]), BigEndian64(mask[8..]), y)));
    } else {
      r := None;
    }
  }

  /** An IPv4 address is the same base in four bytes and in its mapped form. */
  lemma MappedBase(ip: seq<bv8>, mask: seq<bv8>)
    requires |ip| == 4 && (|mask| == 4 || |mask| == 16)
    ensures BaseOf(IpNet([0, 0, 0, 0, 0, 0, 0, 0, 0, 0, 0xff, 0xff] + ip, mask)) == BaseOf(IpNet(ip, mask))
    ensures BaseOf(IpNet(ip, mask))
         == Some(if |mask| == 4 then V4(BigEndian32(ip)) else V6(0, 0xffff_0000_0000 | (BigEndian32(ip) as bv64)))
  {
    var mapped := MAPPED + ip;
    assert mapped[..12] == MAPPED && mapped[12..] == ip;
    if |mask| == 16 {
      MappedHalves(mapped[..8], mapped[8..], ip);
    }
    hide BigEndian32, BigEndian64;
  }

  lemma MappedHalves(high: seq<bv8>, low: seq<bv8>, ip: seq<bv8>)
    requires |high| == 8 && forall i | 0 <= i < 8 :: high[i] == 0
    requires |low| == 8 && |ip| == 4 && low[0] == 0 && low[1] == 0 && low[2] == 0xff && low[3] == 0xff
    requires low[4] == ip[0] && low[5] == ip[1] && low[6] == ip[2] && low[7] == ip[3]
    ensures BigEndian64(high) == 0
    ensures BigEndian64(low) == 0xffff_0000_0000 | (BigEndian32(ip) as bv64)
  {
    hide Word32, Word64;
    MappedWord(ip[0], ip[1], ip[2], ip[3]);
  }

  lemma MappedWord(a: bv8, b: bv8, c: bv8, d: bv8)
    ensures Word64(0, 0, 0xff, 0xff, a, b, c, d) == 0xffff_0000_0000 | (Word32(a, b, c, d) as bv64)
    ensures Word64(0, 0, 0, 0, 0, 0, 0, 0) == 0
  {
  }

  /** No other address of sixteen bytes has an IPv4 base, and no address of
      another length has any. */
  lemma NoBase(ip: seq<bv8>, mask: seq<bv8>)
    ensures |ip| != 4 && |ip| != 16 ==> BaseOf(IpNet(ip, mask)) == None
    ensures |mask| != 4 && |mask| != 16 ==> BaseOf(IpNet(ip, mask)) == None
    ensures |mask| == 4 && |ip| == 16 && ip[..12] != [0, 0, 0, 0, 0, 0, 0, 0, 0, 0, 0xff, 0xff]
        ==> BaseOf(IpNet(ip, mask)) == None
  {
  }

  /** A generated network is its own base. */
  lemma GeneratedBase(ip: seq<bv8>, bits: bv8)
    requires |ip| == 4 || |ip| == 16
    ensures BaseOf(IpNet(ip, MaskBytes(bits, 0, |ip|))) == Some(FromNetwork(ip))
  {
    hide BigEndian32, BigEndian64, MaskByte;
  }

  lemma IpInCidrIsAddrIn(p: Prefix, d: Draw)
    requires p.IsValid()
    ensures IpInCidr(p.addr, MaskBytes(p.bits, 0, if p.addr.V4? then 4 else 16), d) == AddrIn(p, d)
  {
    hide HostBits32, HostBits64, Low32, Mask32, HiMask, LoMask, BigEndian32, BigEndian64, MaskByte;
    match p.addr
    case V4(_) => Mask32Agrees(p.bits);
    case V6(_, _) =>
      HiMaskAgrees(p.bits);
      LoMaskAgrees(p.bits);
      assert MaskBytes(p.bits, 0, 16)[..8] == MaskBytes(p.bits, 0, 8);
      assert MaskBytes(p.bits, 0, 16)[8..] == MaskBytes(p.bits, 8, 8);
  }
}
