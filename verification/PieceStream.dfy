/**
  The v1 piece hashes: a running SHA-1 object that is fed buffers of any size
  and yields one digest per pieceLength bytes, across file boundaries.
 */
module PieceStream {
  import opened Bytes
  import opened Merkle

  /** The hash object `sh`, the byte count `done` in it, and the digests so far. */
  datatype Hasher = Hasher(sh: seq<byte>, done: nat, pieces: seq<Digest>)

  const FRESH := Hasher([], 0, [])

  /** After `stream` went in: a digest for each full piece, the rest still in the hash object. */
  ghost predicate Streamed(sha1: Hash, stream: seq<byte>, pieceLength: nat, h: Hasher) {
    && h.done == |h.sh| < pieceLength
    && |stream| == |h.pieces| * pieceLength + |h.sh|
    && h.sh == stream[|h.pieces| * pieceLength..]
    && forall i :: 0 <= i < |h.pieces| ==> h.pieces[i] == sha1(Slice(stream, pieceLength, i))
  }

  function Update(sha1: Hash, h: Hasher, pieceLength: nat, part: seq<byte>): Hasher {
    if h.done + |part| == pieceLength
      then Hasher([], 0, h.pieces + [sha1(h.sh + part)])
      else Hasher(h.sh + part, h.done + |part|, h.pieces)
  }

  lemma SliceOfPrefix<T>(a: seq<T>, b: seq<T>, len: nat, i: nat)
    requires i * len + len <= |a|
    ensures Slice(a + b, len, i) == Slice(a, len, i)
  {
    assert (a + b)[i * len..i * len + len] == a[i * len..i * len + len];
  }

  lemma UpdateStreamed(sha1: Hash, stream: seq<byte>, pieceLength: nat, h: Hasher, part: seq<byte>)
    requires Streamed(sha1, stream, pieceLength, h)
    requires h.done + |part| <= pieceLength
    ensures Streamed(sha1, stream + part, pieceLength, Update(sha1, h, pieceLength, part))
  {
    var k := |h.pieces|;
    PiecesKept(sha1, stream, part, pieceLength, h.pieces);
    TailGrows(stream, part, k * pieceLength);
    if h.done + |part| == pieceLength {
      LastPiece(stream + part, pieceLength, k, h.sh + part);
    }
    hide Slice;
    assert Update(sha1, h, pieceLength, part).pieces[..k] == h.pieces;
  }

  lemma PiecesKept(sha1: Hash, stream: seq<byte>, part: seq<byte>, pieceLength: nat, pieces: seq<Digest>)
    requires |pieces| * pieceLength <= |stream|
    requires forall i :: 0 <= i < |pieces| ==> pieces[i] == sha1(Slice(stream, pieceLength, i))
    ensures forall i :: 0 <= i < |pieces| ==> pieces[i] == sha1(Slice(stream + part, pieceLength, i))
  {
    hide Slice;
    forall i | 0 <= i < |pieces|
      ensures Slice(stream + part, pieceLength, i) == Slice(stream, pieceLength, i)
    {
      MulStep(i, |pieces|, pieceLength);
      SliceOfPrefix(stream, part, pieceLength, i);
    }
  }

  /** A stream that ends with a whole piece. */
  lemma LastPiece(stream: seq<byte>, pieceLength: nat, k: nat, last: seq<byte>)
    requires |last| == pieceLength && k * pieceLength <= |stream| && stream[k * pieceLength..] == last
    ensures |stream| == (k + 1) * pieceLength && Slice(stream, pieceLength, k) == last
  {
    assert (k + 1) * pieceLength == k * pieceLength + pieceLength;
  }

  lemma TailGrows<T>(stream: seq<T>, part: seq<T>, at: nat)
    requires at <= |stream|
    ensures (stream + part)[at..] == stream[at..] + part
  {
  }

  /** One pass of the loop over the two parts of a buffer; an empty part is skipped. */
  method FeedPart(sha1: Hash, h: Hasher, pieceLength: nat, part: seq<byte>, ghost stream: seq<byte>)
    returns (h': Hasher)
    requires Streamed(sha1, stream, pieceLength, h)
    requires h.done + |part| <= pieceLength
    ensures h' == Update(sha1, h, pieceLength, part)
    ensures Streamed(sha1, stream + part, pieceLength, h')
  {
    UpdateStreamed(sha1, stream, pieceLength, h, part);
    if part == [] {
      assert h.sh + part == h.sh;
      return h;
    }
    var sh, done, pieces := h.sh + part, h.done + |part|, h.pieces;
    if done == pieceLength {
      pieces := pieces + [sha1(sh)];
      done := 0;
      sh := [];
    }
    h' := Hasher(sh, done, pieces);
  }

  /** Feeding a buffer of at most a piece: the part that completes the piece, then the rest. */
  method Feed(sha1: Hash, h: Hasher, pieceLength: nat, buffer: seq<byte>, ghost stream: seq<byte>)
    returns (h': Hasher)
    requires Streamed(sha1, stream, pieceLength, h)
    requires |buffer| <= pieceLength
    ensures Streamed(sha1, stream + buffer, pieceLength, h')
  {
    var a := Min(pieceLength - h.done, |buffer|);
    var first, second := buffer[..a], buffer[a..];
    assert (stream + first) + second == stream + buffer by {
      assert first + second == buffer;
    }
    h' := FeedPart(sha1, h, pieceLength, first, stream);
    h' := FeedPart(sha1, h', pieceLength, second, stream + first);
  }

  /** Zero padding up to the piece boundary closes the piece. */
  lemma PadStreamed(sha1: Hash, stream: seq<byte>, pieceLength: nat, h: Hasher)
    requires Streamed(sha1, stream, pieceLength, h) && h.done > 0
    ensures var pad := Zeros(pieceLength - h.done);
      Streamed(sha1, stream + pad, pieceLength, Hasher([], 0, h.pieces + [sha1(h.sh + pad)]))
  {
    UpdateStreamed(sha1, stream, pieceLength, h, Zeros(pieceLength - h.done));
  }

  function Finish(sha1: Hash, h: Hasher): seq<Digest> {
    if h.done > 0 then h.pieces + [sha1(h.sh)] else h.pieces
  }

  /** In the end the pieces are the digests of the consecutive pieceLength slices of the stream. */
  lemma FinishStreamed(sha1: Hash, stream: seq<byte>, pieceLength: nat, h: Hasher)
    requires Streamed(sha1, stream, pieceLength, h)
    ensures Finish(sha1, h) == BlockHashes(sha1, stream, pieceLength)
  {
    var k := |h.pieces|;
    var n := if h.done > 0 then k + 1 else k;
    assert (k + 1) * pieceLength == k * pieceLength + pieceLength;
    CeilDivUnique(|stream|, pieceLength, n);
    if h.done > 0 {
      assert Slice(stream, pieceLength, k) == h.sh;
    }
  }
}
