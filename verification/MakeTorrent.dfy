/**
  The torrent writer of the clients: the choice of a piece size and the
  hashing of a file or of a directory without padding files.
 */
module MakeTorrent {
  import opened Bytes
  import opened Merkle
  import opened PieceStream
  import opened MakeInfo

  const MIN_PIECE: nat := 16384
  const MAX_PIECE: nat := 8192 * 1024
  const MAX_PIECES: nat := 1024

  /** The least power of two from 16 KiB up that needs at most 1024 full pieces, capped at 8 MiB. */
  method ChoosePieceSize(dataSize: nat) returns (pieceSize: nat)
    ensures exists k: nat :: pieceSize == 16384 * Pow2(k)
    ensures 16384 <= pieceSize <= 8388608
    ensures dataSize / pieceSize <= 1024 || pieceSize == 8388608
    ensures pieceSize > 16384 ==> dataSize / (pieceSize / 2) > 1024
  {
    pieceSize := MIN_PIECE;
    ghost var k: nat := 0;
    while dataSize / pieceSize > MAX_PIECES && pieceSize < MAX_PIECE
      invariant pieceSize == MIN_PIECE * Pow2(k) && k <= 9
      invariant pieceSize > MIN_PIECE ==> dataSize / (pieceSize / 2) > MAX_PIECES
      decreases MAX_PIECE - pieceSize
    {
      PieceSizes(k);
      pieceSize := pieceSize * 2;
      k := k + 1;
    }
    PieceSizes(k);
  }

  lemma PieceSizes(k: nat)
    requires k <= 9
    ensures Pow2(k + 1) == 2 * Pow2(k) && 1 <= Pow2(k) <= 512 && (Pow2(k) < 512 ==> k < 9)
  {
    Pow2Mono(k, 9);
    assert Pow2(9) == 512 by {
      assert Pow2(3) == 8;
      assert Pow2(6) == 64;
    }
  }

  /** `r` was read up to `pos` and fits the buffer; if it does not fill it, the file ends at `pos`. */
  ghost predicate ReadInto(content: seq<byte>, pieceSize: nat, buf: seq<byte>, r: seq<byte>, pos: nat) {
    && |r| <= pos <= |content| && r == content[pos - |r|..pos]
    && |buf| + |r| <= pieceSize
    && (|buf| + |r| < pieceSize ==> pos == |content|)
  }

  /** One pass of the read loop: the bytes go into the buffer, and a filled buffer becomes a piece. */
  method TakeRead(sha1: Hash, content: seq<byte>, pieceSize: nat, buf: seq<byte>, pieces: seq<Digest>,
                  r: seq<byte>, ghost pos: nat, ghost stream: seq<byte>)
    returns (buf': seq<byte>, pieces': seq<Digest>)
    requires pieceSize > 0 && ReadInto(content, pieceSize, buf, r, pos)
    requires Streamed(sha1, stream + content[..pos - |r|], pieceSize, Hasher(buf, |buf|, pieces))
    ensures Streamed(sha1, stream + content[..pos], pieceSize, Hasher(buf', |buf'|, pieces'))
    ensures buf' == [] || pos == |content|
  {
    var h := Hasher(buf, |buf|, pieces);
    UpdateStreamed(sha1, stream + content[..pos - |r|], pieceSize, h, r);
    assert (stream + content[..pos - |r|]) + r == stream + content[..pos];
    buf', pieces' := buf + r, pieces;
    if |buf'| == pieceSize {
      pieces' := pieces' + [sha1(buf')];
      buf' := [];
    }
  }

  /** Reads up to the space left in the buffer; every filled buffer becomes a piece. */
  method HashOne(sha1: Hash, content: seq<byte>, pieceSize: nat, buf: seq<byte>, pieces: seq<Digest>,
                 ghost stream: seq<byte>)
    returns (buf': seq<byte>, pieces': seq<Digest>)
    requires pieceSize > 0 && Streamed(sha1, stream, pieceSize, Hasher(buf, |buf|, pieces))
    ensures Streamed(sha1, stream + content, pieceSize, Hasher(buf', |buf'|, pieces'))
  {
    buf', pieces' := buf, pieces;
    assert stream + content[..0] == stream;
    var pos: nat := Min(pieceSize - |buf'|, |content|);
    var r := content[..pos];
    while r != []
      invariant ReadInto(content, pieceSize, buf', r, pos)
      invariant Streamed(sha1, stream + content[..pos - |r|], pieceSize, Hasher(buf', |buf'|, pieces'))
      decreases |content| - pos, |r|
    {
      buf', pieces' := TakeRead(sha1, content, pieceSize, buf', pieces', r, pos, stream);
      var next := Min(pos + pieceSize - |buf'|, |content|);
      r := content[pos..next];
      pos := next;
      if buf' != [] {
        break;
      }
    }
    assert content[..|content|] == content;
  }

  /** A directory without padding files: the same piece digests as the v1 `MakeInfo`. */
  method HashDirectory(sha1: Hash, files: seq<SourceFile>, pieceSize: nat) returns (pieces: seq<Digest>)
    requires pieceSize > 0
    ensures pieces == BlockHashes(sha1, Concat(files), pieceSize)
  {
    var buf: seq<byte> := [];
    pieces := [];
    var n := 0;
    while n < |files|
      invariant 0 <= n <= |files|
      invariant Streamed(sha1, Concat(files[..n]), pieceSize, Hasher(buf, |buf|, pieces))
    {
      assert files[..n + 1][..n] == files[..n];
      buf, pieces := HashOne(sha1, files[n].content, pieceSize, buf, pieces, Concat(files[..n]));
      n := n + 1;
    }
    assert files[..n] == files;
    FinishStreamed(sha1, Concat(files), pieceSize, Hasher(buf, |buf|, pieces));
    if buf != [] {
      pieces := pieces + [sha1(buf)];
    }
  }

  ghost predicate SingleState(sha1: Hash, content: seq<byte>, pieceSize: nat, pos: nat, pieces: seq<Digest>)
    requires pieceSize > 0
  {
    && pos == Min(|pieces| * pieceSize, |content|)
    && (pos == |content| ==> |pieces| == CeilDiv(|content|, pieceSize))
    && forall i :: 0 <= i < |pieces| ==> pieces[i] == sha1(Slice(content, pieceSize, i))
  }

  lemma SingleStep(sha1: Hash, content: seq<byte>, pieceSize: nat, pos: nat, pieces: seq<Digest>, r: seq<byte>)
    requires pieceSize > 0 && pos < |content| && SingleState(sha1, content, pieceSize, pos, pieces)
    requires r == content[pos..pos + Min(|content| - pos, pieceSize)]
    ensures SingleState(sha1, content, pieceSize, pos + |r|, pieces + [sha1(r)])
  {
    ReadIsSlice(content, pieceSize, |pieces|, pos);
  }

  /** A single file: read and digest one piece size at a time. */
  method HashSingle(sha1: Hash, content: seq<byte>, pieceSize: nat) returns (pieces: seq<Digest>)
    requires pieceSize > 0
    ensures pieces == BlockHashes(sha1, content, pieceSize)
  {
    pieces := [];
    var pos := 0;
    var r := content[..Min(pieceSize, |content|)];
    CeilDivBounds(|content|, pieceSize);
    while r != []
      invariant 0 <= pos <= |content|
      invariant r == content[pos..pos + Min(|content| - pos, pieceSize)]
      invariant SingleState(sha1, content, pieceSize, pos, pieces)
      decreases |content| - pos
    {
      SingleStep(sha1, content, pieceSize, pos, pieces, r);
      pieces := pieces + [sha1(r)];
      pos := pos + |r|;
      r := content[pos..pos + Min(|content| - pos, pieceSize)];
    }
  }
}
