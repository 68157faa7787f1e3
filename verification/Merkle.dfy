/**
  The SHA-256 Merkle trees of BitTorrent v2 torrents (BEP 52): the in-place
  root computation and the two-layer construction of a file's "pieces root".
  The hash is a parameter, so every statement holds for any hash function.
 */
module Merkle {
  import opened Bytes

  type Digest = seq<byte>
  type Hash = seq<byte> -> Digest

  /** How two child nodes make their parent; the tree lemmas hold for any such function. */
  type Node<!D> = (D, D) -> D

  /** Hash one node, then update with the other: the digest of both, joined. */
  function Join(sha: Hash): Node<Digest> {
    (a: Digest, b: Digest) => sha(a + b)
  }

  /** 16 KiB, the leaf size of BEP 52. */
  const BLOCK_LEN: nat := 16384

  /** The padding leaf: 32 zero bytes. */
  function ZeroDigest(): Digest {
    Zeros(32)
  }

  // ---------------------------------------------------------------- powers of two

  ghost predicate IsPow2(n: nat) {
    exists k: nat :: n == Pow2(k)
  }

  lemma {:induction false} Pow2Mono(j: nat, k: nat)
    requires j <= k
    ensures Pow2(j) <= Pow2(k)
    ensures j < k ==> 2 * Pow2(j) <= Pow2(k)
    decreases k
  {
    if j < k {
      Pow2Mono(j, k - 1);
    }
  }

  lemma {:induction false} Pow2Add(j: nat, k: nat)
    ensures Pow2(j + k) == Pow2(j) * Pow2(k)
  {
    if j > 0 {
      Pow2Add(j - 1, k);
      assert Pow2(j + k) == 2 * Pow2((j - 1) + k);
    }
  }

  function DoubleUntil(p: nat, n: nat): (r: nat)
    requires p > 0
    ensures r >= p
    decreases n - p
  {
    if p >= n then p else DoubleUntil(2 * p, n)
  }

  /** The least power of two that is at least n, and 1 for n == 0. */
  function NextPow2(n: nat): (r: nat)
    ensures r >= 1
  {
    DoubleUntil(1, n)
  }

  lemma {:induction false} DoubleUntilLeast(k: nat, n: nat) returns (j: nat)
    requires k > 0 ==> Pow2(k - 1) < n
    ensures DoubleUntil(Pow2(k), n) == Pow2(j) >= n
    ensures j > 0 ==> Pow2(j - 1) < n
    decreases n - Pow2(k)
  {
    if Pow2(k) >= n {
      j := k;
    } else {
      assert Pow2(k + 1) == 2 * Pow2(k);
      j := DoubleUntilLeast(k + 1, n);
    }
  }

  /** NextPow2 is the least power of two at or above n: nothing smaller reaches n. */
  lemma NextPow2Least(n: nat) returns (j: nat)
    ensures NextPow2(n) == Pow2(j) >= n
    ensures forall i: nat :: Pow2(i) >= n ==> NextPow2(n) <= Pow2(i)
    ensures j > 0 ==> Pow2(j - 1) < n
  {
    j := DoubleUntilLeast(0, n);
    forall i: nat | Pow2(i) >= n
      ensures NextPow2(n) <= Pow2(i)
    {
      if i < j {
        Pow2Mono(i, j - 1);
      } else {
        Pow2Mono(j, i);
      }
    }
  }

  lemma NextPow2Unique(n: nat, k: nat)
    requires Pow2(k) >= n && (k > 0 ==> Pow2(k - 1) < n)
    ensures NextPow2(n) == Pow2(k)
  {
    var j := NextPow2Least(n);
    if j < k {
      Pow2Mono(j, k - 1);
    } else if k < j {
      Pow2Mono(k, j - 1);
    }
  }

  // ---------------------------------------------------------------- the tree

  function LeafAt<D>(leafs: seq<D>, i: nat, padding: D): D {
    if i < |leafs| then leafs[i] else padding
  }

  /** The first n leaves, with the padding standing in for the missing ones. */
  function Padded<D>(leafs: seq<D>, n: nat, padding: D): (r: seq<D>)
    ensures |r| == n
  {
    seq(n, i requires 0 <= i => LeafAt(leafs, i, padding))
  }

  function Parents<D>(node: Node<D>, layer: seq<D>): (r: seq<D>)
    ensures |r| == |layer| / 2
  {
    if |layer| < 2 then [] else [node(layer[0], layer[1])] + Parents(node, layer[2..])
  }

  lemma {:induction false} ParentAt<D>(node: Node<D>, layer: seq<D>, i: nat)
    requires i < |layer| / 2
    ensures Parents(node, layer)[i] == node(layer[2 * i], layer[2 * i + 1])
    decreases i
  {
    if i > 0 {
      ParentAt(node, layer[2..], i - 1);
    }
  }

  lemma ParentsAre<D>(node: Node<D>, layer: seq<D>, up: seq<D>)
    requires |up| == |layer| / 2
    requires forall i :: 0 <= i < |up| ==> up[i] == node(layer[2 * i], layer[2 * i + 1])
    ensures Parents(node, layer) == up
  {
    forall i | 0 <= i < |up|
      ensures Parents(node, layer)[i] == up[i]
    {
      ParentAt(node, layer, i);
    }
  }

  /** Layer by layer, bottom up: what the in-place loop computes. */
  function Root<D>(node: Node<D>, layer: seq<D>): D
    requires |layer| >= 1
    decreases |layer|
  {
    if |layer| == 1 then layer[0] else Root(node, Parents(node, layer))
  }

  /** The binary hash tree of BEP 52 over 2^height leaves from lo on: a node hashes its two subtrees' roots. */
  ghost function TreeRoot<D>(node: Node<D>, leaves: seq<D>, lo: nat, height: nat): D
    requires lo + Pow2(height) <= |leaves|
    decreases height
  {
    if height == 0 then leaves[lo]
    else
      node(TreeRoot(node, leaves, lo, height - 1),
           TreeRoot(node, leaves, lo + Pow2(height - 1), height - 1))
  }

  /** The i-th run of b consecutive elements. */
  function Chunk<D>(s: seq<D>, b: nat, m: nat, i: nat): (r: seq<D>)
    requires i < m && |s| == m * b
    ensures |r| == b
  {
    MulStep(i, m, b);
    s[i * b..i * b + b]
  }

  function ChunkRoots<D>(node: Node<D>, s: seq<D>, b: nat, m: nat): (r: seq<D>)
    requires b >= 1 && |s| == m * b
    ensures |r| == m
  {
    seq(m, i requires 0 <= i < m => Root(node, Chunk(s, b, m, i)))
  }

  lemma Doubled(m: nat, b: nat)
    ensures m * (2 * b) == 2 * (m * b)
  {
  }

  lemma PairInSlice<D>(s: seq<D>, lo: nat, b: nat, j: nat)
    requires 2 * lo + 2 * b <= |s| && j < b
    ensures s[2 * lo..2 * lo + 2 * b][2 * j] == s[2 * (lo + j)]
    ensures s[2 * lo..2 * lo + 2 * b][2 * j + 1] == s[2 * (lo + j) + 1]
  {
  }

  lemma ParentsOfSlice<D>(node: Node<D>, s: seq<D>, lo: nat, b: nat)
    requires 2 * lo + 2 * b <= |s|
    ensures Parents(node, s[2 * lo..2 * lo + 2 * b]) == Parents(node, s)[lo..lo + b]
  {
    hide Parents;
    var run, part := s[2 * lo..2 * lo + 2 * b], Parents(node, s)[lo..lo + b];
    forall j | 0 <= j < b
      ensures part[j] == node(run[2 * j], run[2 * j + 1])
    {
      ParentInSlice(node, s, lo, b, j);
    }
    ParentsAre(node, run, part);
  }

  lemma ParentInSlice<D>(node: Node<D>, s: seq<D>, lo: nat, b: nat, j: nat)
    requires 2 * lo + 2 * b <= |s| && j < b
    ensures var run := s[2 * lo..2 * lo + 2 * b];
      Parents(node, s)[lo..lo + b][j] == node(run[2 * j], run[2 * j + 1])
  {
    hide Parents;
    ParentAt(node, s, lo + j);
    PairInSlice(s, lo, b, j);
  }

  lemma ParentsOfChunk<D>(node: Node<D>, s: seq<D>, b: nat, m: nat, i: nat)
    requires i < m && |s| == m * (2 * b)
    ensures |Parents(node, s)| == m * b
    ensures Parents(node, Chunk(s, 2 * b, m, i)) == Chunk(Parents(node, s), b, m, i)
  {
    Doubled(m, b);
    Doubled(i, b);
    MulStep(i, m, b);
    ParentsOfSlice(node, s, i * b, b);
    assert Chunk(s, 2 * b, m, i) == s[2 * (i * b)..2 * (i * b) + 2 * b];
  }

  /** Hashing runs of 2^p leaves first and then the run roots gives the root of all leaves. */
  lemma {:induction false} Layering<D>(node: Node<D>, s: seq<D>, p: nat, m: nat)
    requires m >= 1 && |s| == m * Pow2(p)
    ensures |s| >= 1
    ensures Root(node, s) == Root(node, ChunkRoots(node, s, Pow2(p), m))
    decreases p
  {
    MulMono(1, m, Pow2(p));
    var b := Pow2(p);
    if p == 0 {
      forall i | 0 <= i < m
        ensures ChunkRoots(node, s, b, m)[i] == s[i]
      {
        assert Chunk(s, b, m, i) == [s[i]];
      }
      assert ChunkRoots(node, s, b, m) == s;
    } else {
      var h := Pow2(p - 1);
      var up := Parents(node, s);
      assert m * (2 * h) == 2 * (m * h);
      MulMono(1, m, 2 * h);
      Layering(node, up, p - 1, m);
      forall i | 0 <= i < m
        ensures ChunkRoots(node, up, h, m)[i] == ChunkRoots(node, s, b, m)[i]
      {
        ParentsOfChunk(node, s, h, m, i);
      }
      assert ChunkRoots(node, up, h, m) == ChunkRoots(node, s, b, m);
    }
  }

  lemma RootOfPair<D>(node: Node<D>, top: seq<D>)
    requires |top| == 2
    ensures Root(node, top) == node(top[0], top[1])
  {
    assert Parents(node, top) == [node(top[0], top[1])];
  }

  lemma RootOfHalves<D>(node: Node<D>, leaves: seq<D>, k: nat)
    requires k > 0 && |leaves| == Pow2(k)
    ensures var half := Pow2(k - 1);
      Root(node, leaves) == node(Root(node, leaves[..half]), Root(node, leaves[half..]))
  {
    var half := Pow2(k - 1);
    Layering(node, leaves, k - 1, 2);
    var top := ChunkRoots(node, leaves, half, 2);
    assert Chunk(leaves, half, 2, 0) == leaves[..half];
    assert Chunk(leaves, half, 2, 1) == leaves[half..];
    RootOfPair(node, top);
  }

  lemma RootOfJoined<D>(node: Node<D>, run: seq<D>, l: seq<D>, r: seq<D>, k: nat)
    requires k > 0 && |l| == |r| == Pow2(k - 1) && run == l + r
    ensures Root(node, run) == node(Root(node, l), Root(node, r))
  {
    assert run[..Pow2(k - 1)] == l && run[Pow2(k - 1)..] == r;
    RootOfHalves(node, run, k);
  }

  lemma SplitRun<D>(s: seq<D>, lo: nat, half: nat)
    requires lo + 2 * half <= |s|
    ensures s[lo..lo + 2 * half] == s[lo..lo + half] + s[lo + half..lo + half + half]
  {
  }

  lemma TreeRootNode<D>(node: Node<D>, leaves: seq<D>, lo: nat, k: nat)
    requires k > 0 && lo + Pow2(k) <= |leaves|
    ensures TreeRoot(node, leaves, lo, k)
         == node(TreeRoot(node, leaves, lo, k - 1), TreeRoot(node, leaves, lo + Pow2(k - 1), k - 1))
  {
  }

  /** On 2^k leaves the bottom-up computation is the binary tree of the standard. */
  lemma {:induction false} RootIsTreeRoot<D>(node: Node<D>, leaves: seq<D>, lo: nat, k: nat, run: seq<D>)
    requires lo + Pow2(k) <= |leaves| && run == leaves[lo..lo + Pow2(k)]
    ensures Root(node, run) == TreeRoot(node, leaves, lo, k)
    decreases k
  {
    if k > 0 {
      var half := Pow2(k - 1);
      var mid := lo + half;
      var l, r := leaves[lo..mid], leaves[mid..mid + half];
      SplitRun(leaves, lo, half);
      TreeRootNode(node, leaves, lo, k);
      hide Root, TreeRoot;
      RootIsTreeRoot(node, leaves, lo, k - 1, l);
      RootIsTreeRoot(node, leaves, mid, k - 1, r);
      RootOfJoined(node, run, l, r, k);
    }
  }

  // ---------------------------------------------------------------- in place

  /** A Python list of digests: callers share it and see it change. */
  class LeafList<D> {
    var items: seq<D>

    constructor (items: seq<D>)
      ensures this.items == items
    {
      this.items := items;
    }
  }

  /** One layer: overwrite (or append to) the list with the parents of its first 2 * half entries. */
  method HashLayer<D>(node: Node<D>, work: LeafList<D>, half: nat, padding: D)
    modifies work
    ensures |work.items| == Max(|old(work.items)|, half)
    ensures work.items[..half] == Parents(node, Padded(old(work.items), 2 * half, padding))
  {
    ghost var before := work.items;
    var i := 0;
    while i < half
      invariant 0 <= i <= half
      invariant |work.items| == Max(|before|, i)
      invariant forall j :: 0 <= j < i ==>
        work.items[j] == node(LeafAt(before, 2 * j, padding), LeafAt(before, 2 * j + 1, padding))
      invariant forall j :: i <= j < |before| ==> work.items[j] == before[j]
    {
      var node1 := if 2 * i < |work.items| then work.items[2 * i] else padding;
      var node2 := if 2 * i + 1 < |work.items| then work.items[2 * i + 1] else padding;
      assert node2 == LeafAt(before, 2 * i + 1, padding);
      assert node1 == LeafAt(before, 2 * i, padding);
      var digest := node(node1, node2);
      if i < |work.items| {
        work.items := work.items[i := digest];
      } else {
        work.items := work.items + [digest];
      }
      i := i + 1;
    }
    ParentsAre(node, Padded(before, 2 * half, padding), work.items[..half]);
  }

  /** Replacing a layer by its parents keeps the root; the stale tail of the list is never read. */
  lemma LayerStep<D>(node: Node<D>, before: seq<D>, after: seq<D>, nb: nat, padding: D)
    requires nb > 1 && |after| >= nb / 2
    requires after[..nb / 2] == Parents(node, Padded(before, 2 * (nb / 2), padding))
    ensures Root(node, Padded(after, nb / 2, padding)) == Root(node, Padded(before, nb, padding))
  {
    var layer := Padded(before, nb, padding);
    var even := Padded(before, 2 * (nb / 2), padding);
    forall i | 0 <= i < nb / 2
      ensures after[..nb / 2][i] == node(layer[2 * i], layer[2 * i + 1])
    {
      ParentAt(node, even, i);
    }
    ParentsAre(node, layer, after[..nb / 2]);
    assert Padded(after, nb / 2, padding) == after[..nb / 2];
  }

  /**
    The root over nbLeafs leaves. With inPlace the caller's list is the work
    area and is overwritten; without it the caller's list is untouched.
   */
  method MerkleRoot<D>(node: Node<D>, leafs: LeafList<D>, nbLeafs: int, padding: D, inPlace: bool)
    returns (root: D)
    modifies leafs
    ensures root == Root(node, Padded(old(leafs.items), Max(nbLeafs, 1), padding))
    ensures !inPlace ==> leafs.items == old(leafs.items)
  {
    var work := leafs;
    if !inPlace {
      work := new LeafList(leafs.items);
    }
    var nb := nbLeafs;
    while nb > 1
      invariant !inPlace ==> fresh(work) && work != leafs && leafs.items == old(leafs.items)
      invariant inPlace ==> work == leafs
      invariant Root(node, Padded(work.items, Max(nb, 1), padding))
             == Root(node, Padded(old(leafs.items), Max(nbLeafs, 1), padding))
    {
      ghost var before := work.items;
      HashLayer(node, work, nb / 2, padding);
      LayerStep(node, before, work.items, nb, padding);
      nb := nb / 2;
    }
    root := if |work.items| > 0 then work.items[0] else padding;
  }

  // ---------------------------------------------------------------- files

  /** Digests of the consecutive blocks of a buffer; the last block may be short. */
  function BlockHashes(sha: Hash, buffer: seq<byte>, blockLen: nat): (r: seq<Digest>)
    requires blockLen > 0
    ensures |r| == CeilDiv(|buffer|, blockLen)
  {
    seq(CeilDiv(|buffer|, blockLen), i requires 0 <= i < CeilDiv(|buffer|, blockLen) =>
      sha(Slice(buffer, blockLen, i)))
  }

  /** The digests of all 16 KiB blocks, with zero digests up to 2^height. */
  ghost function FlatLeaves(sha: Hash, data: seq<byte>, height: nat): (r: seq<Digest>)
    ensures |r| == Pow2(height)
  {
    Padded(BlockHashes(sha, data, BLOCK_LEN), Pow2(height), ZeroDigest())
  }

  /** The root over all 16 KiB blocks, zero-padded to a power of two. */
  function FlatRoot(sha: Hash, data: seq<byte>): Digest
    requires data != []
  {
    Root(Join(sha), Padded(BlockHashes(sha, data, BLOCK_LEN), NextPow2(CeilDiv(|data|, BLOCK_LEN)), ZeroDigest()))
  }

  /** The padding of the piece layer: the root of one piece's worth of zero digests. */
  function PiecePadding(sha: Hash, blocksPerPiece: nat): Digest {
    Root(Join(sha), Padded([], Max(blocksPerPiece, 1), ZeroDigest()))
  }

  /** How many leaves the root of one piece is taken over. */
  function PieceLeafs(size: nat, pieceLength: nat, blocks: nat): (n: nat)
    ensures n >= 1 || pieceLength < BLOCK_LEN
  {
    if size <= pieceLength then NextPow2(blocks) else pieceLength / BLOCK_LEN
  }

  function PieceRoot(sha: Hash, data: seq<byte>, pieceLength: nat, i: nat): Digest
    requires pieceLength >= BLOCK_LEN
  {
    PaddedBlocksRoot(sha, BlockHashes(sha, Slice(data, pieceLength, i), BLOCK_LEN), |data|, pieceLength)
  }

  function PaddedBlocksRoot(sha: Hash, blocks: seq<Digest>, size: nat, pieceLength: nat): Digest
    requires pieceLength >= BLOCK_LEN
  {
    Root(Join(sha), Padded(blocks, PieceLeafs(size, pieceLength, |blocks|), ZeroDigest()))
  }

  /** The piece layer: one root for each piece of the file. */
  function PieceRoots(sha: Hash, data: seq<byte>, pieceLength: nat): (r: seq<Digest>)
    requires pieceLength >= BLOCK_LEN
    ensures |r| == CeilDiv(|data|, pieceLength)
  {
    seq(CeilDiv(|data|, pieceLength), i requires 0 <= i => PieceRoot(sha, data, pieceLength, i))
  }

  function LayerRoot(sha: Hash, layer: seq<Digest>, blocksPerPiece: nat): Digest {
    Root(Join(sha), Padded(layer, NextPow2(|layer|), PiecePadding(sha, blocksPerPiece)))
  }

  lemma HalfTooSmall(half: nat, pieces: nat, b: nat, blocks: nat)
    requires half < pieces && pieces * b < blocks + b
    ensures half * b < blocks
  {
    MulStep(half, pieces, b);
  }

  /** The block count's power of two splits as piece size times the piece count's power of two. */
  lemma NextPow2Split(blocks: nat, p: nat, pieces: nat)
    requires blocks > Pow2(p) && pieces == CeilDiv(blocks, Pow2(p))
    ensures NextPow2(blocks) == NextPow2(pieces) * Pow2(p)
  {
    CeilDivBounds(blocks, Pow2(p));
    var k := NextPow2Least(pieces);
    Pow2Add(k, p);
    MulMono(pieces, Pow2(k), Pow2(p));
    if k == 0 {
      assert false;
    }
    Pow2Add(k - 1, p);
    HalfTooSmall(Pow2(k - 1), pieces, Pow2(p), blocks);
    NextPow2Unique(blocks, k + p);
  }

  /** Counting 16 KiB blocks and then grouping them by piece counts pieces. */
  lemma CeilDivCeilDiv(n: nat, len: nat, b: nat)
    requires len > 0 && b > 0
    ensures b * len > 0
    ensures CeilDiv(CeilDiv(n, len), b) == CeilDiv(n, b * len)
  {
    MulMono(1, b, len);
    var blocks := CeilDiv(n, len);
    var c := CeilDiv(blocks, b);
    CeilDivBounds(n, len);
    CeilDivBounds(blocks, b);
    assert (c * b) * len == c * (b * len);
    MulMono(blocks, c * b, len);
    MulMono(c * b, blocks + b - 1, len);
    assert (blocks + b - 1) * len == blocks * len + b * len - len;
    CeilDivUnique(n, b * len, c);
  }

  /** The blocks of piece i, and none past the last piece. */
  ghost function PieceBlocks(sha: Hash, data: seq<byte>, b: nat, i: nat): seq<Digest>
    requires b > 0
  {
    if i < CeilDiv(|data|, b * BLOCK_LEN)
      then BlockHashes(sha, Slice(data, b * BLOCK_LEN, i), BLOCK_LEN) else []
  }

  /** Piece i has a block j exactly when the file has a block i * b + j. */
  lemma BlockCount(size: nat, b: nat, i: nat, j: nat)
    requires j < b
    ensures var off := i * (b * BLOCK_LEN);
      var len := Min(b * BLOCK_LEN, size - off);
      (i * b + j < CeilDiv(size, BLOCK_LEN)) == (off + j * BLOCK_LEN < size)
      && (i < CeilDiv(size, b * BLOCK_LEN)) == (off < size)
      && (off < size ==> (j < CeilDiv(len, BLOCK_LEN)) == (off + j * BLOCK_LEN < size))
  {
    MulDist(i, b, j, BLOCK_LEN);
    CountIff(size, BLOCK_LEN, i * b + j);
    CountIff(size, b * BLOCK_LEN, i);
    var off := i * (b * BLOCK_LEN);
    if off < size {
      CountIff(Min(b * BLOCK_LEN, size - off), BLOCK_LEN, j);
    }
  }

  lemma CountIff(n: nat, len: nat, i: nat)
    requires len > 0
    ensures (i < CeilDiv(n, len)) == (i * len < n)
  {
    CeilDivBounds(n, len);
    var c := CeilDiv(n, len);
    if i < c {
      MulStep(i, c, len);
    } else {
      MulMono(c, i, len);
    }
  }

  lemma FlatLeaf(sha: Hash, data: seq<byte>, b: nat, i: nat, j: nat)
    requires j < b
    ensures LeafAt(BlockHashes(sha, data, BLOCK_LEN), i * b + j, ZeroDigest())
         == LeafAt(PieceBlocks(sha, data, b, i), j, ZeroDigest())
  {
    var off, n := i * (b * BLOCK_LEN), i * b + j;
    BlockCount(|data|, b, i, j);
    BlockLeaf(sha, data, n);
    if off < |data| {
      var piece := Slice(data, b * BLOCK_LEN, i);
      SliceFrom(data, b * BLOCK_LEN, i, off);
      assert |piece| == Min(b * BLOCK_LEN, |data| - off);
      assert off + j * BLOCK_LEN < |data| ==> Slice(piece, BLOCK_LEN, j) == Slice(data, BLOCK_LEN, n) by {
        if off + j * BLOCK_LEN < |data| {
          SliceOfSlice(data, BLOCK_LEN, b, i, j);
        }
      }
      BlockLeaf(sha, piece, j);
      hide *;
      PieceBlocksAre(sha, data, b, i);
    } else {
      hide *;
      PieceBlocksAre(sha, data, b, i);
      NoLeaf(j);
    }
  }

  lemma NoLeaf(j: nat)
    ensures LeafAt([], j, ZeroDigest()) == ZeroDigest()
  {
  }

  lemma PieceBlocksAre(sha: Hash, data: seq<byte>, b: nat, i: nat)
    requires b > 0
    ensures PieceBlocks(sha, data, b, i)
         == if i < CeilDiv(|data|, b * BLOCK_LEN) then BlockHashes(sha, Slice(data, b * BLOCK_LEN, i), BLOCK_LEN) else []
  {
  }

  lemma BlockLeaf(sha: Hash, data: seq<byte>, n: nat)
    ensures LeafAt(BlockHashes(sha, data, BLOCK_LEN), n, ZeroDigest())
         == if n < CeilDiv(|data|, BLOCK_LEN) then sha(Slice(data, BLOCK_LEN, n)) else ZeroDigest()
  {
  }

  /** Leaf run i of the padded flat tree: the blocks of piece i, or all padding past the last piece. */
  lemma ChunkOfFlat(sha: Hash, data: seq<byte>, b: nat, m: nat, i: nat)
    requires i < m && b > 0
    ensures Chunk(Padded(BlockHashes(sha, data, BLOCK_LEN), m * b, ZeroDigest()), b, m, i)
         == Padded(PieceBlocks(sha, data, b, i), b, ZeroDigest())
  {
    var all := BlockHashes(sha, data, BLOCK_LEN);
    var blocks := PieceBlocks(sha, data, b, i);
    var flat := Padded(all, m * b, ZeroDigest());
    var l, r := Chunk(flat, b, m, i), Padded(blocks, b, ZeroDigest());
    MulStep(i, m, b);
    forall j | 0 <= j < b
      ensures l[j] == r[j]
    {
      assert l[j] == flat[i * b + j] == LeafAt(all, i * b + j, ZeroDigest());
      FlatLeaf(sha, data, b, i, j);
    }
    assert l == r;
  }

  /** Run i of the flat tree has the root the piece layer holds at i, padding included. */
  lemma PieceLayerAt(sha: Hash, data: seq<byte>, b: nat, m: nat, i: nat)
    requires i < m && b > 0 && b * BLOCK_LEN >= BLOCK_LEN && |data| > b * BLOCK_LEN
    ensures Root(Join(sha), Chunk(Padded(BlockHashes(sha, data, BLOCK_LEN), m * b, ZeroDigest()), b, m, i))
         == LeafAt(PieceRoots(sha, data, b * BLOCK_LEN), i, PiecePadding(sha, b))
  {
    ChunkOfFlat(sha, data, b, m, i);
    var pl := b * BLOCK_LEN;
    assert pl / BLOCK_LEN == b;
    if i < CeilDiv(|data|, pl) {
      var blocks := BlockHashes(sha, Slice(data, pl, i), BLOCK_LEN);
      assert PieceLeafs(|data|, pl, |blocks|) == b;
      assert PieceRoots(sha, data, pl)[i] == PieceRoot(sha, data, pl, i);
    }
  }

  lemma PieceLayerIsChunkRoots(sha: Hash, data: seq<byte>, b: nat, m: nat)
    requires b > 0 && b * BLOCK_LEN >= BLOCK_LEN && |data| > b * BLOCK_LEN
    ensures ChunkRoots(Join(sha), Padded(BlockHashes(sha, data, BLOCK_LEN), m * b, ZeroDigest()), b, m)
         == Padded(PieceRoots(sha, data, b * BLOCK_LEN), m, PiecePadding(sha, b))
  {
    var flat := Padded(BlockHashes(sha, data, BLOCK_LEN), m * b, ZeroDigest());
    var l, r := ChunkRoots(Join(sha), flat, b, m), Padded(PieceRoots(sha, data, b * BLOCK_LEN), m, PiecePadding(sha, b));
    forall i | 0 <= i < m
      ensures l[i] == r[i]
    {
      PieceLayerAt(sha, data, b, m, i);
    }
    assert l == r;
  }

  /** The root of the flat block list is the root of the standard's binary tree, of the least height that holds the blocks. */
  lemma FlatRootIsTreeRoot(sha: Hash, data: seq<byte>) returns (height: nat)
    requires data != []
    ensures CeilDiv(|data|, BLOCK_LEN) <= Pow2(height)
    ensures height > 0 ==> Pow2(height - 1) < CeilDiv(|data|, BLOCK_LEN)
    ensures FlatRoot(sha, data) == TreeRoot(Join(sha), FlatLeaves(sha, data, height), 0, height)
  {
    height := NextPow2Least(CeilDiv(|data|, BLOCK_LEN));
    var leaves := FlatLeaves(sha, data, height);
    hide Root, TreeRoot;
    RootIsTreeRoot(Join(sha), leaves, 0, height, leaves);
  }

  /** A file of at most one piece: its one piece root is the root. */
  lemma OnePieceIsFlat(sha: Hash, data: seq<byte>, pieceLength: nat, blocksPerPiece: nat)
    requires pieceLength >= BLOCK_LEN && 0 < |data| <= pieceLength
    ensures LayerRoot(sha, PieceRoots(sha, data, pieceLength), blocksPerPiece) == FlatRoot(sha, data)
  {
    var layer := PieceRoots(sha, data, pieceLength);
    CeilDivUnique(|data|, pieceLength, 1);
    assert Slice(data, pieceLength, 0) == data;
    assert layer == [FlatRoot(sha, data)];
    NextPow2Unique(1, 0);
    assert Padded(layer, 1, PiecePadding(sha, blocksPerPiece)) == layer;
  }

  /** The number of leaves of the flat tree, by pieces. */
  lemma FlatLeafCount(size: nat, p: nat)
    requires Pow2(p) * BLOCK_LEN >= BLOCK_LEN && size > Pow2(p) * BLOCK_LEN
    ensures NextPow2(CeilDiv(size, BLOCK_LEN)) == NextPow2(CeilDiv(size, Pow2(p) * BLOCK_LEN)) * Pow2(p)
  {
    CeilDivCeilDiv(size, BLOCK_LEN, Pow2(p));
    CountIff(size, BLOCK_LEN, Pow2(p));
    NextPow2Split(CeilDiv(size, BLOCK_LEN), p, CeilDiv(size, Pow2(p) * BLOCK_LEN));
  }

  /**
    The root built in two layers is the root of the flat list of blocks, for
    every non-empty file and every power-of-two piece length of at least 16 KiB.
   */
  lemma TwoLayersAreFlat(sha: Hash, data: seq<byte>, p: nat)
    requires data != []
    ensures Pow2(p) * BLOCK_LEN >= BLOCK_LEN
    ensures LayerRoot(sha, PieceRoots(sha, data, Pow2(p) * BLOCK_LEN), Pow2(p)) == FlatRoot(sha, data)
  {
    var b := Pow2(p);
    MulMono(1, b, BLOCK_LEN);
    if |data| <= b * BLOCK_LEN {
      OnePieceIsFlat(sha, data, b * BLOCK_LEN, b);
    } else {
      FlatLeafCount(|data|, p);
      var m := NextPow2(CeilDiv(|data|, b * BLOCK_LEN));
      Layering(Join(sha), Padded(BlockHashes(sha, data, BLOCK_LEN), m * b, ZeroDigest()), p, m);
      PieceLayerIsChunkRoots(sha, data, b, m);
    }
  }

  // ---------------------------------------------------------------- the standard's tree

  /** Leaf i of BEP 52: the digest of the i-th 16 KiB of the file, and 32 zero bytes past its end. */
  ghost function StandardLeaf(sha: Hash, data: seq<byte>, i: nat): Digest {
    var at := i * 16384;
    if at + 16384 <= |data| then sha(data[at..at + 16384])
    else if at < |data| then sha(data[at..])
    else seq(32, _ => 0)
  }

  /** Node i of the layer at this height: the digest of its left child's digest followed by its right child's. */
  ghost function StandardTree(sha: Hash, data: seq<byte>, i: nat, height: nat): Digest
    decreases height
  {
    if height == 0 then StandardLeaf(sha, data, i)
    else sha(StandardTree(sha, data, 2 * i, height - 1) + StandardTree(sha, data, 2 * i + 1, height - 1))
  }

  /** How often `span` bytes must be doubled to hold `size` of them. */
  ghost function HeightOver(size: nat, span: nat): nat
    requires span > 0
    decreases size - span
  {
    if size <= span then 0 else 1 + HeightOver(size, 2 * span)
  }

  /** The pieces root of BEP 52: the top of the lowest binary tree whose 16 KiB leaves hold the file. */
  ghost function StandardRoot(sha: Hash, data: seq<byte>): Digest {
    StandardTree(sha, data, 0, HeightOver(|data|, 16384))
  }

  lemma {:induction false} HeightOverIs(size: nat, k: nat, height: nat)
    requires k <= height && size <= Pow2(height) * 16384
    requires height > 0 ==> Pow2(height - 1) * 16384 < size
    ensures Pow2(k) * 16384 > 0 && HeightOver(size, Pow2(k) * 16384) == height - k
    decreases height - k
  {
    MulMono(1, Pow2(k), 16384);
    if k < height {
      Pow2Mono(k, height - 1);
      MulMono(Pow2(k), Pow2(height - 1), 16384);
      HeightOverIs(size, k + 1, height);
      assert Pow2(k + 1) * 16384 == 2 * (Pow2(k) * 16384);
    }
  }

  lemma StandardLeafIs(sha: Hash, data: seq<byte>, i: nat)
    ensures LeafAt(BlockHashes(sha, data, BLOCK_LEN), i, ZeroDigest()) == StandardLeaf(sha, data, i)
  {
    BlockLeaf(sha, data, i);
    CountIff(|data|, BLOCK_LEN, i);
    if i * BLOCK_LEN < |data| {
      SliceFrom(data, BLOCK_LEN, i, i * BLOCK_LEN);
      assert data[i * BLOCK_LEN..|data|] == data[i * BLOCK_LEN..];
    } else {
      assert ZeroDigest() == seq(32, _ => 0);
    }
  }

  lemma ChildSpans(i: nat, height: nat)
    requires height > 0
    ensures var half := Pow2(height - 1);
      && (2 * i) * half == i * Pow2(height) && (2 * i + 1) * half == i * Pow2(height) + half
      && (2 * i + 1 + 1) * half == (i + 1) * Pow2(height)
      && (2 * i + 1) * half <= (i + 1) * Pow2(height)
  {
    var half := Pow2(height - 1);
    assert i * (2 * half) == (2 * i) * half;
  }

  lemma StandardNode(sha: Hash, data: seq<byte>, i: nat, height: nat, left: Digest, right: Digest)
    requires height > 0
    requires left == StandardTree(sha, data, 2 * i, height - 1) && right == StandardTree(sha, data, 2 * i + 1, height - 1)
    ensures StandardTree(sha, data, i, height) == Join(sha)(left, right)
  {
  }

  lemma SpanEnds(i: nat, height: nat, n: nat)
    requires (i + 1) * Pow2(height) <= n
    ensures i * Pow2(height) + Pow2(height) <= n
    ensures height == 0 ==> i * Pow2(height) == i
  {
    assert (i + 1) * Pow2(height) == i * Pow2(height) + Pow2(height);
  }

  lemma TreeRootLeaf(sha: Hash, data: seq<byte>, n: nat, i: nat)
    requires i + 1 <= n
    ensures TreeRoot(Join(sha), Padded(BlockHashes(sha, data, BLOCK_LEN), n, ZeroDigest()), i, 0) == StandardTree(sha, data, i, 0)
  {
    hide BlockHashes, StandardLeaf;
    StandardLeafIs(sha, data, i);
  }

  /** Over the padded blocks, each whole subtree is a node of the standard's tree. */
  lemma {:induction false} TreeRootIsStandard(sha: Hash, data: seq<byte>, n: nat, i: nat, height: nat, lo: nat)
    requires lo == i * Pow2(height) && (i + 1) * Pow2(height) <= n
    ensures lo + Pow2(height) <= n
    ensures TreeRoot(Join(sha), Padded(BlockHashes(sha, data, BLOCK_LEN), n, ZeroDigest()), lo, height)
         == StandardTree(sha, data, i, height)
    decreases height
  {
    hide Padded, BlockHashes, TreeRoot, StandardTree, ZeroDigest, Join, Pow2;
    SpanEnds(i, height, n);
    if height == 0 {
      OnePow2();
      TreeRootLeaf(sha, data, n, i);
    } else {
      ChildSpans(i, height);
      TreeRootNode(Join(sha), Padded(BlockHashes(sha, data, BLOCK_LEN), n, ZeroDigest()), lo, height);
      TreeRootIsStandard(sha, data, n, 2 * i, height - 1, lo);
      TreeRootIsStandard(sha, data, n, 2 * i + 1, height - 1, lo + Pow2(height - 1));
      StandardNode(sha, data, i, height, StandardTree(sha, data, 2 * i, height - 1),
        StandardTree(sha, data, 2 * i + 1, height - 1));
    }
  }

  lemma OnePow2()
    ensures Pow2(0) == 1
  {
  }

  /** The root of the flat block list is the root of the standard's tree. */
  lemma FlatRootIsStandard(sha: Hash, data: seq<byte>)
    requires data != []
    ensures FlatRoot(sha, data) == StandardRoot(sha, data)
  {
    var height := FlatRootIsTreeRoot(sha, data);
    CeilDivBounds(|data|, BLOCK_LEN);
    MulMono(CeilDiv(|data|, BLOCK_LEN), Pow2(height), BLOCK_LEN);
    if height > 0 {
      CountIff(|data|, BLOCK_LEN, Pow2(height - 1));
    }
    HeightOverIs(|data|, 0, height);
    TreeRootIsStandard(sha, data, Pow2(height), 0, height, 0);
  }

  /** In a file of several pieces, piece root i is node i of the standard's layer at the height of a piece. */
  lemma PieceRootIsStandard(sha: Hash, data: seq<byte>, p: nat, i: nat)
    requires Pow2(p) * BLOCK_LEN >= BLOCK_LEN && |data| > Pow2(p) * BLOCK_LEN
    requires i < |PieceRoots(sha, data, Pow2(p) * BLOCK_LEN)|
    ensures PieceRoots(sha, data, Pow2(p) * BLOCK_LEN)[i] == StandardTree(sha, data, i, p)
  {
    var b, m := Pow2(p), i + 1;
    var leaves := Padded(BlockHashes(sha, data, BLOCK_LEN), m * b, ZeroDigest());
    PieceLayerAt(sha, data, b, m, i);
    MulStep(i, m, b);
    hide Root, TreeRoot, StandardTree;
    RootIsTreeRoot(Join(sha), leaves, i * b, p, Chunk(leaves, b, m, i));
    TreeRootIsStandard(sha, data, m * b, i, p, i * b);
  }

  /** The padding of the piece layer is the standard's tree over a piece's worth of zero leaves. */
  lemma PiecePaddingIsStandard(sha: Hash, p: nat)
    ensures PiecePadding(sha, Pow2(p)) == StandardTree(sha, [], 0, p)
  {
    var leaves := Padded(BlockHashes(sha, [], BLOCK_LEN), Pow2(p), ZeroDigest());
    CeilDivUnique(0, BLOCK_LEN, 0);
    assert leaves == Padded([], Pow2(p), ZeroDigest());
    RootIsTreeRoot(Join(sha), leaves, 0, p, leaves);
    TreeRootIsStandard(sha, [], Pow2(p), 0, p, 0);
  }
}
