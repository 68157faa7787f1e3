/** Octets and the small arithmetic shared by the byte-level components. */
module Bytes {
  type byte = b: int | 0 <= b < 256

  lemma Associative<T>(a: seq<T>, b: seq<T>, c: seq<T>)
    ensures a + (b + c) == a + b + c
  {
  }

  function Min(a: int, b: int): int { if a <= b then a else b }

  function Max(a: int, b: int): int { if a >= b then a else b }

  function Pow2(k: nat): (r: nat)
    ensures r >= 1
  {
    if k == 0 then 1 else 2 * Pow2(k - 1)
  }

  /** bytes(n): n zero bytes. */
  function Zeros(n: nat): (r: seq<byte>)
    ensures |r| == n && forall i :: 0 <= i < n ==> r[i] == 0
  {
    seq(n, i => 0)
  }

  /** math.ceil(a / b) for the sizes the program divides. */
  function CeilDiv(a: nat, b: nat): nat
    requires b > 0
  {
    (a + b - 1) / b
  }

  /** CeilDiv(a, b) is the one count c with (c - 1) * b < a <= c * b. */
  lemma CeilDivBounds(a: nat, b: nat)
    requires b > 0
    ensures a <= CeilDiv(a, b) * b < a + b
  {
    var q := (a + b - 1) / b;
    assert a + b - 1 == q * b + (a + b - 1) % b;
  }

  lemma CeilDivUnique(a: nat, b: nat, c: nat)
    requires b > 0 && a <= c * b < a + b
    ensures CeilDiv(a, b) == c
  {
    CeilDivBounds(a, b);
    var d := CeilDiv(a, b);
    if d < c {
      MulMono(d + 1, c, b);
    } else if c < d {
      MulMono(c + 1, d, b);
    }
  }

  lemma MulMono(a: int, b: int, c: nat)
    requires a <= b
    ensures a * c <= b * c
  {
  }

  lemma MulStep(j: nat, b: nat, len: nat)
    requires j < b
    ensures 0 <= j * len && j * len + len <= b * len
  {
    MulMono(j + 1, b, len);
    assert (j + 1) * len == j * len + len;
  }

  lemma MulDist(i: nat, b: nat, j: nat, len: nat)
    ensures (i * b + j) * len == i * (b * len) + j * len
  {
    assert (i * b + j) * len == (i * b) * len + j * len;
    assert (i * b) * len == i * (b * len);
  }

  /** buffer[i * len : (i + 1) * len] with Python's clamping at the end. */
  function Slice<T>(buffer: seq<T>, len: nat, i: nat): (r: seq<T>)
    ensures |r| <= len
  {
    buffer[Min(i * len, |buffer|)..Min(i * len + len, |buffer|)]
  }

  lemma SubSlice<T>(buffer: seq<T>, off: nat, pieceLen: nat, lo: nat, len: nat)
    requires lo + len <= pieceLen && off + lo <= |buffer|
    ensures var piece := buffer[off..Min(off + pieceLen, |buffer|)];
      lo <= |piece| && piece[lo..Min(lo + len, |piece|)] == buffer[off + lo..Min(off + lo + len, |buffer|)]
  {
  }

  lemma SliceFrom<T>(buffer: seq<T>, len: nat, i: nat, off: nat)
    requires off == i * len
    ensures off <= |buffer| ==> Slice(buffer, len, i) == buffer[off..Min(off + len, |buffer|)]
  {
  }

  /** Block j of slice i of a buffer is block i * b + j of the buffer. */
  lemma SliceOfSlice<T>(buffer: seq<T>, len: nat, b: nat, i: nat, j: nat)
    requires j < b
    requires i * (b * len) + j * len <= |buffer|
    ensures Slice(Slice(buffer, b * len, i), len, j) == Slice(buffer, len, i * b + j)
  {
    var off, lo, pl := i * (b * len), j * len, b * len;
    MulDist(i, b, j, len);
    MulStep(j, b, len);
    SliceFrom(buffer, pl, i, off);
    SliceFrom(Slice(buffer, pl, i), len, j, lo);
    SliceFrom(buffer, len, i * b + j, off + lo);
    SubSlice(buffer, off, pl, lo, len);
  }
}
