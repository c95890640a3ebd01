/** Network prefixes: byte-wise masks, word-wise masks, and random host bits. */
module Cidr {

  // ---------- byte-wise masks ----------

  /** Byte i of the mask of the first bits bits. */
  function MaskByte(bits: bv8, i: nat): bv8 {
    var full := (bits >> 3) as int;
    if i < full then 0xff
    else if i == full && bits & 7 != 0 then 0xff << (8 - (bits & 7))
    else 0
  }

  /** Clears every bit of ip after the first bits bits. */
  method MaskHostBits(ip: array<bv8>, bits: bv8)
    requires (bits >> 3) as int < ip.Length || ((bits >> 3) as int == ip.Length && bits & 7 == 0)
    modifies ip
    ensures forall i | 0 <= i < ip.Length :: ip[i] == And8(old(ip[i]), MaskByte(bits, i))
  {
    var full := (bits >> 3) as int;
    var rem := bits & 7;
    if rem != 0 {
      ip[full] := ip[full] & (0xff << (8 - rem));
      full := full + 1;
    }
    for i := full to ip.Length
      invariant forall j | 0 <= j < i :: ip[j] == And8(old(ip[j]), MaskByte(bits, j))
      invariant forall j | i <= j < ip.Length :: ip[j] == old(ip[j])
    {
      ip[i] := 0;
    }
  }

  /** Writes the mask into a zeroed buffer. */
  method FillCidrMask(mask: array<bv8>, bits: bv8)
    requires (bits >> 3) as int < mask.Length || ((bits >> 3) as int == mask.Length && bits & 7 == 0)
    requires forall i | 0 <= i < mask.Length :: mask[i] == 0
    modifies mask
    ensures forall i | 0 <= i < mask.Length :: mask[i] == MaskByte(bits, i)
  {
    var full := (bits >> 3) as int;
    for i := 0 to full
      invariant forall j | 0 <= j < i :: mask[j] == 0xff
      invariant forall j | i <= j < mask.Length :: mask[j] == 0
    {
      mask[i] := 0xff;
    }
    var rem := bits & 7;
    if rem != 0 {
      mask[full] := 0xff << (8 - rem);
    }
  }

  // ---------- word-wise masks ----------

  /** ^uint32(0) << (32 - bits) */
  function Mask32(bits: bv8): bv32
    requires bits <= 32
  {
    0xffff_ffff << (32 - bits)
  }

  /** The high and low 64-bit masks of an IPv6 prefix. */
  function HiMask(bits: bv8): bv64
    requires bits <= 128
  {
    if bits <= 64 then 0xffff_ffff_ffff_ffff << (64 - bits) else 0xffff_ffff_ffff_ffff
  }

  function LoMask(bits: bv8): bv64
    requires bits <= 128
  {
    if bits <= 64 then 0 else 0xffff_ffff_ffff_ffff << (128 - bits)
  }

  function Word32(a: bv8, b: bv8, c: bv8, d: bv8): bv32 {
    ((a as bv32) << 24) | ((b as bv32) << 16) | ((c as bv32) << 8) | (d as bv32)
  }

  function Word64(a: bv8, b: bv8, c: bv8, d: bv8, e: bv8, f: bv8, g: bv8, h: bv8): bv64 {
    ((a as bv64) << 56) | ((b as bv64) << 48) | ((c as bv64) << 40) | ((d as bv64) << 32)
    | ((e as bv64) << 24) | ((f as bv64) << 16) | ((g as bv64) << 8) | (h as bv64)
  }

  /** binary.BigEndian.Uint32 and Uint64 */
  function BigEndian32(b: seq<bv8>): bv32
    requires |b| == 4
  {
    Word32(b[0], b[1], b[2], b[3])
  }

  function BigEndian64(b: seq<bv8>): bv64
    requires |b| == 8
  {
    Word64(b[0], b[1], b[2], b[3], b[4], b[5], b[6], b[7])
  }

  /** The byte-wise IPv4 mask is the shifted word. */
  lemma Mask32Agrees(bits: bv8)
    requires bits <= 32
    ensures BigEndian32(MaskBytes(bits, 0, 4)) == Mask32(bits)
  {
  }

  /** The byte-wise IPv6 mask is the pair of shifted words. */
  lemma HiMaskAgrees(bits: bv8)
    requires bits <= 128
    ensures BigEndian64(MaskBytes(bits, 0, 8)) == HiMask(bits)
  {
  }

  lemma LoMaskAgrees(bits: bv8)
    requires bits <= 128
    ensures BigEndian64(MaskBytes(bits, 8, 8)) == LoMask(bits)
  {
  }

  function And8(a: bv8, m: bv8): bv8 { a & m }

  function AndBytes(a: seq<bv8>, m: seq<bv8>): (r: seq<bv8>)
    requires |a| == |m|
    ensures |r| == |a| && forall i | 0 <= i < |a| :: r[i] == And8(a[i], m[i])
  {
    seq(|a|, i requires 0 <= i < |a| => And8(a[i], m[i]))
  }

  /** Masking byte by byte is masking the number. */
  lemma AndBytes32(a: seq<bv8>, m: seq<bv8>)
    requires |a| == 4 && |m| == 4
    ensures BigEndian32(AndBytes(a, m)) == Net32(BigEndian32(a), BigEndian32(m))
  {
  }

  lemma AndBytes64(a: seq<bv8>, m: seq<bv8>)
    requires |a| == 8 && |m| == 8
    ensures BigEndian64(AndBytes(a, m)) == Net64(BigEndian64(a), BigEndian64(m))
  {
  }

  /** The first n bytes of the mask, starting at byte from. */
  function MaskBytes(bits: bv8, from: nat, n: nat): (r: seq<bv8>)
    ensures |r| == n && forall i | 0 <= i < n :: r[i] == MaskByte(bits, from + i)
  {
    seq(n, i requires 0 <= i < n => MaskByte(bits, from + i))
  }

  // ---------- random host bits ----------

  function Net32(x: bv32, mask: bv32): bv32 { x & mask }

  function Host32(x: bv32, mask: bv32): bv32 { x & !mask }

  function Join32(net: bv32, host: bv32): bv32 { net | host }

  /** The network bits of base and the host bits of x. */
  function HostBits32(base: bv32, mask: bv32, x: bv32): bv32 {
    Join32(Net32(base, mask), Host32(x, mask))
  }

  lemma JoinParts32(a: bv32, mask: bv32)
    ensures Join32(Net32(a, mask), Host32(a, mask)) == a
  {
    assert Join32(a & mask, a & !mask) == a;
  }

  lemma NetOfJoin32(a: bv32, x: bv32, mask: bv32)
    ensures Net32(HostBits32(a, mask, x), mask) == Net32(a, mask)
  {
    assert Join32(a & mask, x & !mask) == (a & mask) | (x & !mask);
    assert Net32((a & mask) | (x & !mask), mask) == a & mask;
  }

  lemma HostOfJoin32(a: bv32, x: bv32, mask: bv32)
    ensures Host32(HostBits32(a, mask, x), mask) == Host32(x, mask)
  {
    assert Join32(a & mask, x & !mask) == (a & mask) | (x & !mask);
    assert Host32((a & mask) | (x & !mask), mask) == x & !mask;
  }

  /** The drawn address lies in the network of base, whatever mask it has and
      whatever host bits base carries, and it takes its host bits from x. */
  lemma HostBitsAre32(base: bv32, mask: bv32, x: bv32, a: bv32)
    ensures HostBits32(base, mask, x) == a
       <==> Net32(a, mask) == Net32(base, mask) && Host32(a, mask) == Host32(x, mask)
  {
    hide Net32, Host32, Join32;
    NetOfJoin32(base, x, mask);
    HostOfJoin32(base, x, mask);
    JoinParts32(a, mask);
  }

  /** Moves the draws of a to the draws of b. */
  function Move32(a: bv32, b: bv32, x: bv32): bv32 { x ^ (a ^ b) }

  function Mix32(x: bv32, a: bv32, b: bv32): bv32 { (x ^ a) ^ b }

  lemma MoveParts32(a: bv32, b: bv32, x: bv32, mask: bv32)
    ensures Host32(Move32(a, b, x), mask) == Mix32(Host32(x, mask), Host32(a, mask), Host32(b, mask))
  {
    assert Host32(x ^ (a ^ b), mask) == ((x & !mask) ^ (a & !mask)) ^ (b & !mask);
  }

  lemma MixCancels32(a: bv32, b: bv32)
    ensures Mix32(a, a, b) == b
  {
  }

  lemma MoveBack32(a: bv32, b: bv32, x: bv32)
    ensures Move32(b, a, Move32(a, b, x)) == x
  {
    assert Move32(b, a, x ^ (a ^ b)) == x;
  }

  /** All addresses of the network are equally likely: the draws of one are
      in bijection with the draws of any other. */
  lemma HostBitsEqual32(base: bv32, mask: bv32, a: bv32, b: bv32, x: bv32)
    requires Net32(a, mask) == Net32(base, mask) == Net32(b, mask)
    ensures HostBits32(base, mask, x) == a <==> HostBits32(base, mask, Move32(a, b, x)) == b
    ensures Move32(b, a, Move32(a, b, x)) == x
  {
    hide HostBits32, Net32, Host32, Mix32, Move32;
    var y := Move32(a, b, x);
    HostBitsAre32(base, mask, x, a);
    HostBitsAre32(base, mask, y, b);
    MoveBack32(a, b, x);
    MoveParts32(a, b, x, mask);
    MoveParts32(b, a, y, mask);
    MixCancels32(Host32(a, mask), Host32(b, mask));
    MixCancels32(Host32(b, mask), Host32(a, mask));
  }

  function Net64(x: bv64, mask: bv64): bv64 { x & mask }

  function Host64(x: bv64, mask: bv64): bv64 { x & !mask }

  function Join64(net: bv64, host: bv64): bv64 { net | host }

  /** The network bits of base and the host bits of x. */
  function HostBits64(base: bv64, mask: bv64, x: bv64): bv64 {
    Join64(Net64(base, mask), Host64(x, mask))
  }

  lemma JoinParts64(a: bv64, mask: bv64)
    ensures Join64(Net64(a, mask), Host64(a, mask)) == a
  {
    assert Join64(a & mask, a & !mask) == a;
  }

  lemma NetOfJoin64(a: bv64, x: bv64, mask: bv64)
    ensures Net64(HostBits64(a, mask, x), mask) == Net64(a, mask)
  {
    assert Join64(a & mask, x & !mask) == (a & mask) | (x & !mask);
    assert Net64((a & mask) | (x & !mask), mask) == a & mask;
  }

  lemma HostOfJoin64(a: bv64, x: bv64, mask: bv64)
    ensures Host64(HostBits64(a, mask, x), mask) == Host64(x, mask)
  {
    assert Join64(a & mask, x & !mask) == (a & mask) | (x & !mask);
    assert Host64((a & mask) | (x & !mask), mask) == x & !mask;
  }

  /** The drawn address lies in the network of base, whatever mask it has and
      whatever host bits base carries, and it takes its host bits from x. */
  lemma HostBitsAre64(base: bv64, mask: bv64, x: bv64, a: bv64)
    ensures HostBits64(base, mask, x) == a
       <==> Net64(a, mask) == Net64(base, mask) && Host64(a, mask) == Host64(x, mask)
  {
    hide Net64, Host64, Join64;
    NetOfJoin64(base, x, mask);
    HostOfJoin64(base, x, mask);
    JoinParts64(a, mask);
  }

  /** Moves the draws of a to the draws of b. */
  function Move64(a: bv64, b: bv64, x: bv64): bv64 { x ^ (a ^ b) }

  function Mix64(x: bv64, a: bv64, b: bv64): bv64 { (x ^ a) ^ b }

  function Xor64(a: bv64, b: bv64): bv64 { a ^ b }

  lemma HostXor64(a: bv64, b: bv64, mask: bv64)
    ensures Host64(Xor64(a, b), mask) == Xor64(Host64(a, mask), Host64(b, mask))
  {
    hide Host64, Xor64;
    HostPart64(a, mask);
    HostPart64(b, mask);
    HostXorBits64(a, b, mask);
    XorBits64(a, b);
    XorBits64(a & !mask, b & !mask);
  }

  lemma HostPart64(a: bv64, mask: bv64)
    ensures Host64(a, mask) == a & !mask
  {
  }

  lemma XorBits64(a: bv64, b: bv64)
    ensures Xor64(a, b) == a ^ b
  {
  }

  lemma HostXorBits64(a: bv64, b: bv64, mask: bv64)
    ensures Host64(a ^ b, mask) == (a & !mask) ^ (b & !mask)
  {
  }

  lemma XorTwice64(a: bv64, b: bv64, x: bv64)
    ensures Move64(a, b, x) == Xor64(x, Xor64(a, b)) == Mix64(x, a, b)
  {
  }

  lemma MoveParts64(a: bv64, b: bv64, x: bv64, mask: bv64)
    ensures Host64(Move64(a, b, x), mask) == Mix64(Host64(x, mask), Host64(a, mask), Host64(b, mask))
  {
    hide Host64, Move64, Mix64, Xor64;
    XorTwice64(a, b, x);
    HostXor64(x, Xor64(a, b), mask);
    HostXor64(a, b, mask);
    XorTwice64(Host64(a, mask), Host64(b, mask), Host64(x, mask));
  }

  lemma MixCancels64(a: bv64, b: bv64)
    ensures Mix64(a, a, b) == b
  {
  }

  lemma MoveBack64(a: bv64, b: bv64, x: bv64)
    ensures Move64(b, a, Move64(a, b, x)) == x
  {
    assert Move64(b, a, x ^ (a ^ b)) == x;
  }

  /** All addresses of the network are equally likely: the draws of one are
      in bijection with the draws of any other. */
  lemma HostBitsEqual64(base: bv64, mask: bv64, a: bv64, b: bv64, x: bv64)
    requires Net64(a, mask) == Net64(base, mask) == Net64(b, mask)
    ensures HostBits64(base, mask, x) == a <==> HostBits64(base, mask, Move64(a, b, x)) == b
    ensures Move64(b, a, Move64(a, b, x)) == x
  {
    hide HostBits64, Net64, Host64, Mix64, Move64;
    var y := Move64(a, b, x);
    HostBitsAre64(base, mask, x, a);
    HostBitsAre64(base, mask, y, b);
    MoveBack64(a, b, x);
    MoveParts64(a, b, x, mask);
    MoveParts64(b, a, y, mask);
    MixCancels64(Host64(a, mask), Host64(b, mask));
    MixCancels64(Host64(b, mask), Host64(a, mask));
  }
}
