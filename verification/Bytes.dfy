/** Memory as a sequence of bytes: little-endian words and stores that splice bytes in place. */
module Bytes {

  type byte = x: int | 0 <= x < 0x100

  /** The range of values that n bytes can hold. */
  function Range(n: nat): (r: nat)
    ensures r >= 1
  {
    if n == 0 then 1 else 0x100 * Range(n - 1)
  }

  lemma RangeOfWords()
    ensures Range(1) == 0x100 && Range(4) == 0x1_0000_0000 && Range(8) == 0x1_0000_0000_0000_0000
  {
  }

  /** The n bytes of v, least significant first (x86_64 byte order). */
  function Encode(v: nat, n: nat): (b: seq<byte>)
    ensures |b| == n
  {
    if n == 0 then [] else [v % 0x100] + Encode(v / 0x100, n - 1)
  }

  function Decode(b: seq<byte>): nat {
    if b == [] then 0 else b[0] + 0x100 * Decode(b[1..])
  }

  lemma {:induction false} DecodeEncode(v: nat, n: nat)
    requires v < Range(n)
    ensures Decode(Encode(v, n)) == v
    decreases n
  {
    if n == 0 {
    } else {
      DecodeEncode(v / 0x100, n - 1);
      assert Encode(v, n)[1..] == Encode(v / 0x100, n - 1);
    }
  }

  lemma {:induction false} DecodeBound(b: seq<byte>)
    ensures Decode(b) < Range(|b|)
    decreases |b|
  {
    if b == [] {
    } else {
      DecodeBound(b[1..]);
    }
  }

  /** A memory store of the bytes b at offset off. */
  function Store(m: seq<byte>, off: nat, b: seq<byte>): (r: seq<byte>)
    requires off + |b| <= |m|
    ensures |r| == |m|
    ensures forall i :: 0 <= i < |m| ==> r[i] == if off <= i < off + |b| then b[i - off] else m[i]
  {
    m[..off] + b + m[off + |b|..]
  }

  /** A load of n bytes at offset off. */
  function Load(m: seq<byte>, off: nat, n: nat): nat
    requires off + n <= |m|
  {
    Decode(m[off..off + n])
  }

  /** x86_64 byte order, written out: the first byte of a word in memory is its least significant. */
  lemma LittleEndian(m: seq<byte>, off: nat)
    requires off + 4 <= |m|
    ensures Load(m, off, 4) == m[off] as int + 0x100 * m[off + 1] as int + 0x1_0000 * m[off + 2] as int
         + 0x100_0000 * m[off + 3] as int
    ensures off + 8 <= |m| ==> Load(m, off, 8) == Load(m, off, 4) + 0x1_0000_0000 * Load(m, off + 4, 4)
  {
    LoadFour(m, off);
    if off + 8 <= |m| {
      LoadFour(m, off + 4);
      hide Decode;
      LoadOne(m, off, 8);
      LoadOne(m, off + 1, 7);
      LoadOne(m, off + 2, 6);
      LoadOne(m, off + 3, 5);
    }
  }

  lemma LoadOne(m: seq<byte>, off: nat, n: nat)
    requires off + n <= |m| && n > 0
    ensures Load(m, off, n) == m[off] + 0x100 * Load(m, off + 1, n - 1)
  {
    assert m[off..off + n][1..] == m[off + 1..off + n];
  }

  lemma LoadFour(m: seq<byte>, off: nat)
    requires off + 4 <= |m|
    ensures Load(m, off, 4) == m[off] as int + 0x100 * m[off + 1] as int + 0x1_0000 * m[off + 2] as int
         + 0x100_0000 * m[off + 3] as int
  {
    LoadOne(m, off, 4);
    LoadOne(m, off + 1, 3);
    LoadOne(m, off + 2, 2);
    LoadOne(m, off + 3, 1);
    assert Load(m, off + 4, 0) == 0;
  }

  lemma LoadStored(m: seq<byte>, off: nat, v: nat, n: nat)
    requires off + n <= |m| && v < Range(n)
    ensures Load(Store(m, off, Encode(v, n)), off, n) == v
  {
    assert Store(m, off, Encode(v, n))[off..off + n] == Encode(v, n);
    DecodeEncode(v, n);
  }

  lemma LoadElsewhere(m: seq<byte>, off: nat, b: seq<byte>, o: nat, n: nat)
    requires off + |b| <= |m| && o + n <= |m|
    requires o + n <= off || off + |b| <= o
    ensures Load(Store(m, off, b), o, n) == Load(m, o, n)
  {
    assert Store(m, off, b)[o..o + n] == m[o..o + n];
  }

  lemma SliceOfSlice(m: seq<byte>, a: nat, b: nat, c: nat, d: nat)
    requires a <= b <= |m| && c <= d <= b - a
    ensures m[a..b][c..d] == m[a + c..a + d]
  {
    assert forall k :: 0 <= k < d - c ==> m[a..b][c..d][k] == m[a..b][c + k];
  }

  /** Storing adjacent runs of bytes one after the other is one store. */
  lemma StoreAdjacent(m: seq<byte>, off: nat, a: seq<byte>, b: seq<byte>)
    requires off + |a| + |b| <= |m|
    ensures Store(Store(m, off, a), off + |a|, b) == Store(m, off, a + b)
  {
  }

  /** A little-endian load of n bytes, most significant byte first. */
  method ReadWord(m: seq<byte>, off: nat, n: nat) returns (v: nat)
    requires off + n <= |m|
    ensures v == Load(m, off, n)
  {
    v := 0;
    var i := n;
    while i > 0
      invariant 0 <= i <= n
      invariant v == Decode(m[off + i..off + n])
    {
      i := i - 1;
      assert m[off + i..off + n][1..] == m[off + i + 1..off + n];
      v := m[off + i] + 0x100 * v;
    }
  }
}
