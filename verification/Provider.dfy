/** Providers that turn 64-bit words into bytes, and back. */
module Provider {
  import opened Wrappers
  import opened SplitMix

  // ---------- little-endian bytes ----------

  function LowByte(x: bv64): bv8 { (x & 0xff) as bv8 }

  /** The low n bytes of x, least significant first. */
  function Bytes(x: bv64, n: nat): (bs: seq<bv8>)
    ensures |bs| == n
    decreases n
  {
    if n == 0 then [] else [LowByte(x)] + Bytes(x >> 8, n - 1)
  }

  /** binary.LittleEndian.Uint64 */
  function FromBytes(b: seq<bv8>): bv64
    requires |b| == 8
  {
    (b[0] as bv64) | ((b[1] as bv64) << 8) | ((b[2] as bv64) << 16) | ((b[3] as bv64) << 24)
    | ((b[4] as bv64) << 32) | ((b[5] as bv64) << 40) | ((b[6] as bv64) << 48) | ((b[7] as bv64) << 56)
  }

  /** Little-endian: the first byte is the lowest, and the others follow it. */
  lemma LittleEndian(b: seq<bv8>)
    requires |b| == 8
    ensures FromBytes(b) & 0xff == b[0] as bv64
    ensures FromBytes(b) >> 8 == FromBytes(b[1..] + [0])
  {
  }

  lemma BytesAt(x: bv64)
    ensures Bytes(x, 8) == [LowByte(x), LowByte(x >> 8), LowByte(x >> 16), LowByte(x >> 24),
                            LowByte(x >> 32), LowByte(x >> 40), LowByte(x >> 48), LowByte(x >> 56)]
  {
  }

  lemma BytesRoundTrip(x: bv64)
    ensures FromBytes(Bytes(x, 8)) == x
  {
    BytesAt(x);
  }

  /** The bytes of consecutive words. */
  function Concat(ws: seq<bv64>): (bs: seq<bv8>)
    ensures |bs| == 8 * |ws|
  {
    if ws == [] then [] else Concat(ws[..|ws| - 1]) + Bytes(ws[|ws| - 1], 8)
  }

  lemma ConcatSnoc(ws: seq<bv64>, w: bv64)
    ensures Concat(ws + [w]) == Concat(ws) + Bytes(w, 8)
  {
    assert (ws + [w])[..|ws|] == ws;
  }

  lemma {:induction false} ConcatCons(w: bv64, ws: seq<bv64>)
    ensures Concat([w] + ws) == Bytes(w, 8) + Concat(ws)
  {
    hide Bytes;
    if ws == [] {
      ConcatSnoc([], w);
      assert [w] + ws == [] + [w];
    } else {
      var init, last := ws[..|ws| - 1], ws[|ws| - 1];
      ConcatCons(w, init);
      ConcatSnoc([w] + init, last);
      assert [w] + ws == [w] + init + [last];
      Associative(Bytes(w, 8), Concat(init), Bytes(last, 8));
    }
  }

  lemma Associative(a: seq<bv8>, b: seq<bv8>, c: seq<bv8>)
    ensures (a + b) + c == a + (b + c)
  {
  }

  /** putTail: the low n bytes of x, written in place. */
  method PutTail(out: array<bv8>, from: nat, n: nat, x0: bv64)
    requires from + n <= out.Length
    modifies out
    ensures out[..from] == old(out[..from]) && out[from + n..] == old(out[from + n..])
    ensures out[from..from + n] == Bytes(x0, n)
  {
    hide LowByte;
    var x := x0;
    for i := 0 to n
      invariant forall j | 0 <= j < from || from + n <= j < out.Length :: out[j] == old(out[j])
      invariant forall j | 0 <= j < i :: out[from + j] == Bytes(x0, n)[j]
      invariant Bytes(x, n - i) == Bytes(x0, n)[i..]
    {
      assert Bytes(x0, n)[i] == Bytes(x, n - i)[0] == LowByte(x);
      assert Bytes(x >> 8, n - i - 1) == Bytes(x, n - i)[1..];
      out[from + i] := LowByte(x);
      x := x >> 8;
    }
  }

  function WordsFor(length: nat): nat { (length + 7) / 8 }

  // ---------- the seeded provider ----------

  /** The first n words of the stream. */
  function StreamWords(seed: bv64, n: nat): (ws: seq<bv64>)
    ensures |ws| == n
  {
    if n == 0 then [] else StreamWords(seed, n - 1) + [Stream(seed, n - 1)]
  }

  class Uint64Provider {
    var state: bv64

    constructor (seed: bv64)
      ensures state == seed
    {
      state := seed;
    }

    method Sum64() returns (r: bv64)
      modifies this
      ensures state == Advance(old(state)) && r == Stream(old(state), 0)
    {
      state := Advance(state);
      r := SplitMix64(state);
      assert StateAfter(old(state), 0) == old(state);
    }

    method Sum32() returns (r: bv32)
      modifies this
      ensures state == Advance(old(state)) && r == (Stream(old(state), 0) >> 32) as bv32
    {
      var x := Sum64();
      r := (x >> 32) as bv32;
    }

    method Sum(b: seq<bv8>) returns (r: seq<bv8>)
      modifies this
      ensures state == Advance(old(state)) && r == b + Bytes(Stream(old(state), 0), 8)
    {
      var x := Sum64();
      r := b + Bytes(x, 8);
    }

    /** One 64-bit word written at offset i, or what fits of it. */
    method PutWord(out: array<bv8>, i: nat, n: nat, ghost seed: bv64, ghost k: nat)
      requires i + n <= out.Length && n <= 8
      requires state == StateAfter(seed, k) && out[..i] == Concat(StreamWords(seed, k))
      modifies this, out
      ensures state == StateAfter(seed, k + 1)
      ensures out[..i + n] == Concat(StreamWords(seed, k + 1))[..i + n]
    {
      hide Stream, StateAfter, StreamWords, Concat, Bytes;
      var x := Sum64();
      NextWord(seed, k);
      PutTail(out, i, n, x);
      BytesPrefix(x, n, 8);
      assert out[..i + n] == out[..i] + out[i..i + n];
    }

    /** Fills the whole buffer from ceil(length / 8) consecutive words. */
    method Read(out: array<bv8>)
      modifies this, out
      ensures state == StateAfter(old(state), WordsFor(out.Length))
      ensures out[..] == Concat(StreamWords(old(state), WordsFor(out.Length)))[..out.Length]
    {
      hide Stream, StateAfter, StreamWords, Concat, Bytes;
      EmptyStream(state);
      WordsForSplit(out.Length);
      ghost var k := 0;
      var i := 0;
      while i + 8 <= out.Length
        invariant i == 8 * k <= out.Length
        invariant state == StateAfter(old(state), k)
        invariant out[..i] == Concat(StreamWords(old(state), k))
      {
        PutWord(out, i, 8, old(state), k);
        i, k := i + 8, k + 1;
      }
      if i < out.Length {
        PutWord(out, i, out.Length - i, old(state), k);
      }
      assert out[..] == out[..out.Length];
    }
  }

  lemma EmptyStream(seed: bv64)
    ensures StateAfter(seed, 0) == seed && Concat(StreamWords(seed, 0)) == []
  {
  }

  lemma WordsForSplit(length: nat)
    ensures WordsFor(length) == length / 8 + (if length % 8 == 0 then 0 else 1)
  {
  }

  lemma NextWord(seed: bv64, n: nat)
    ensures Stream(StateAfter(seed, n), 0) == Stream(seed, n)
    ensures Advance(StateAfter(seed, n)) == StateAfter(seed, n + 1)
    ensures Concat(StreamWords(seed, n + 1)) == Concat(StreamWords(seed, n)) + Bytes(Stream(seed, n), 8)
  {
    assert StateAfter(StateAfter(seed, n), 0) == StateAfter(seed, n);
    ConcatSnoc(StreamWords(seed, n), Stream(seed, n));
  }

  lemma {:induction false} BytesPrefix(x: bv64, m: nat, n: nat)
    requires m <= n
    ensures Bytes(x, m) == Bytes(x, n)[..m]
    decreases m
  {
    if m > 0 {
      BytesPrefix(x >> 8, m - 1, n - 1);
    }
  }

  // ---------- a provider over a byte reader ----------

  /** readerProvider. A short read is an error and makes Sum64 panic: None. */
  class ReaderProvider {
    var source: seq<bv8>

    constructor (bytes: seq<bv8>)
      ensures source == bytes
    {
      source := bytes;
    }

    method Sum64() returns (r: Option<bv64>)
      modifies this
      ensures |old(source)| >= 8 ==> r == Some(FromBytes(old(source)[..8])) && source == old(source)[8..]
      ensures |old(source)| < 8 ==> r == None && source == []
    {
      if |source| < 8 {
        source := [];
        return None;
      }
      r := Some(FromBytes(source[..8]));
      source := source[8..];
    }
  }

  /** The words that repeated Sum64 calls decode from bytes. */
  function Decode(b: seq<bv8>): seq<bv64> {
    if |b| < 8 then [] else [FromBytes(b[..8])] + Decode(b[8..])
  }

  /** Words survive being written as bytes and read back. */
  lemma {:induction false} DecodeConcat(ws: seq<bv64>)
    ensures Decode(Concat(ws)) == ws
  {
    if ws != [] {
      var w, rest := ws[0], ws[1..];
      ConcatCons(w, rest);
      assert ws == [w] + rest;
      assert Concat(ws)[..8] == Bytes(w, 8) && Concat(ws)[8..] == Concat(rest);
      BytesRoundTrip(w);
      DecodeConcat(rest);
    }
  }

  /** A reader over the bytes of Read recovers every whole word of the stream. */
  lemma ReadThenDecode(seed: bv64, length: nat)
    ensures Decode(Concat(StreamWords(seed, WordsFor(length)))[..length]) == StreamWords(seed, length / 8)
  {
    hide Stream, StateAfter, StreamWords, Bytes, Decode, WordsFor;
    WordsForSplit(length);
    var n := length / 8;
    var whole := Concat(StreamWords(seed, n));
    var tail := if length % 8 == 0 then [] else Bytes(Stream(seed, n), 8)[..length % 8];
    if length % 8 != 0 {
      NextWord(seed, n);
    }
    assert Concat(StreamWords(seed, WordsFor(length)))[..length] == whole + tail;
    DecodeConcat(StreamWords(seed, n));
    DecodeTail(whole, tail);
  }

  lemma {:induction false} DecodeTail(b: seq<bv8>, t: seq<bv8>)
    requires |b| % 8 == 0 && |t| < 8
    ensures Decode(b + t) == Decode(b)
  {
    if b != [] {
      assert (b + t)[..8] == b[..8] && (b + t)[8..] == b[8..] + t;
      DecodeTail(b[8..], t);
    }
  }
}
