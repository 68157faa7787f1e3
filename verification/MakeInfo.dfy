/**
  Building the info dictionary: the loop over the files that feeds the v1 piece
  stream, pads it in hybrid mode, and builds the v2 file tree and piece layers.
 */
module MakeInfo {
  import opened Bytes
  import opened Merkle
  import opened PieceStream
  import opened Wrappers

  datatype Format = V1 | V2 | Hybrid {
    predicate IncludesV1() { V1? || Hybrid? }
    predicate IncludesV2() { V2? || Hybrid? }
  }

  type Name = seq<byte>
  type Path = seq<Name>

  datatype SourceFile = SourceFile(path: Path, content: seq<byte>)

  /** What is hashed: one file, or a directory with its files in hashing order. */
  datatype Source = SingleFile(file: SourceFile) | Directory(files: seq<SourceFile>) {
    function Subs(): seq<SourceFile> {
      if SingleFile? then [file] else files
    }
  }

  /** A record of the v1 `files` list. */
  datatype FileEntry = Real(length: nat, path: Path) | Pad(length: nat)

  /** The nested dictionaries of the v2 `file tree`; a file is a dictionary with the empty name in it. */
  datatype Tree = Leaf(length: nat, piecesRoot: Digest) | Dict(items: map<Name, Tree>)

  datatype Layout = Files(entries: seq<FileEntry>) | Length(length: Option<nat>)

  datatype Info = Info(pieces: Option<seq<Digest>>, layout: Option<Layout>,
                       fileTree: Option<Tree>, pieceLayers: Option<map<Digest, seq<byte>>>)

  datatype Result<+T> = Ok(value: T) | ValueError

  // ---------------------------------------------------------------- the v1 files list

  function TotalLength(entries: seq<FileEntry>): nat {
    if entries == [] then 0 else TotalLength(entries[..|entries| - 1]) + entries[|entries| - 1].length
  }

  function Reals(entries: seq<FileEntry>): seq<FileEntry> {
    if entries == [] then []
    else Reals(entries[..|entries| - 1]) + (if entries[|entries| - 1].Real? then [entries[|entries| - 1]] else [])
  }

  /** The bytes the recorded entries stand for: file contents in order, and zeros for each pad. */
  ghost function Recorded(entries: seq<FileEntry>, files: seq<SourceFile>): seq<byte> {
    if entries == [] then []
    else
      var n, last := |entries| - 1, entries[|entries| - 1];
      if last.Pad? then Recorded(entries[..n], files) + Zeros(last.length)
      else if files == [] then []
      else Recorded(entries[..n], files[..|files| - 1]) + files[|files| - 1].content
  }

  ghost function RealEntries(files: seq<SourceFile>): seq<FileEntry> {
    seq(|files|, i requires 0 <= i < |files| => Real(|files[i].content|, files[i].path))
  }

  /** The entries describe exactly the files, in order, and possibly pads between them. */
  ghost predicate Describes(entries: seq<FileEntry>, files: seq<SourceFile>) {
    && Reals(entries) == RealEntries(files)
    && |Recorded(entries, files)| == TotalLength(entries)
  }

  ghost predicate Aligned(entries: seq<FileEntry>, pieceLength: nat)
    requires pieceLength > 0
  {
    forall i :: 0 <= i < |entries| && entries[i].Real? ==> TotalLength(entries[..i]) % pieceLength == 0
  }

  ghost predicate NoPads(entries: seq<FileEntry>) {
    forall i :: 0 <= i < |entries| ==> entries[i].Real?
  }

  /** Hybrid records: behind each file that ends off a piece boundary, one pad up to the boundary. */
  ghost function PaddedEntries(files: seq<SourceFile>, pieceLength: nat): seq<FileEntry>
    requires pieceLength > 0
  {
    if files == [] then []
    else
      var n, f := |files| - 1, files[|files| - 1];
      Closed(PaddedEntries(files[..n], pieceLength) + [Real(|f.content|, f.path)], pieceLength)
  }

  function Closed(entries: seq<FileEntry>, pieceLength: nat): seq<FileEntry>
    requires pieceLength > 0
  {
    var over := Over(entries, pieceLength);
    if over == 0 then entries else entries + [Pad(pieceLength - over)]
  }

  /** How far the entries reach past their last piece boundary. */
  function Over(entries: seq<FileEntry>, pieceLength: nat): (r: nat)
    requires pieceLength > 0
    ensures r < pieceLength
  {
    TotalLength(entries) % pieceLength
  }

  /** Every pad is shorter than a piece and directly follows a file that ends off a boundary, which it fills up to. */
  ghost predicate PadsTight(entries: seq<FileEntry>, pieceLength: nat)
    requires pieceLength > 0
  {
    forall i :: 0 <= i < |entries| && entries[i].Pad? ==>
      && i > 0 && entries[i - 1].Real? && 0 < entries[i].length < pieceLength
      && Over(entries[..i], pieceLength) == pieceLength - entries[i].length
  }

  lemma TightSnoc(entries: seq<FileEntry>, last: FileEntry, pieceLength: nat)
    requires pieceLength > 0 && PadsTight(entries, pieceLength)
    requires last.Pad? ==>
      && entries != [] && entries[|entries| - 1].Real? && 0 < last.length < pieceLength
      && Over(entries, pieceLength) == pieceLength - last.length
    ensures PadsTight(entries + [last], pieceLength)
  {
    hide Over;
    var more := entries + [last];
    forall i | 0 <= i < |more| && more[i].Pad?
      ensures i > 0 && more[i - 1].Real? && 0 < more[i].length < pieceLength
      ensures Over(more[..i], pieceLength) == pieceLength - more[i].length
    {
      assert more[..i] == entries[..i];
      if i == |entries| {
        assert entries[..i] == entries;
      }
    }
  }

  lemma {:induction false} PaddedEntriesTight(files: seq<SourceFile>, pieceLength: nat)
    requires pieceLength > 0
    ensures PadsTight(PaddedEntries(files, pieceLength), pieceLength)
    decreases |files|
  {
    if files != [] {
      var n, f := |files| - 1, files[|files| - 1];
      var before, record := PaddedEntries(files[..n], pieceLength), Real(|f.content|, f.path);
      PaddedEntriesTight(files[..n], pieceLength);
      TightSnoc(before, record, pieceLength);
      hide Over, PadsTight;
      var over := Over(before + [record], pieceLength);
      if over != 0 {
        TightSnoc(before + [record], Pad(pieceLength - over), pieceLength);
      }
    }
  }

  lemma AddReal(entries: seq<FileEntry>, files: seq<SourceFile>, f: SourceFile)
    requires Describes(entries, files)
    ensures var more := entries + [Real(|f.content|, f.path)];
      && Describes(more, files + [f])
      && Recorded(more, files + [f]) == Recorded(entries, files) + f.content
      && TotalLength(more) == TotalLength(entries) + |f.content|
  {
    assert (entries + [Real(|f.content|, f.path)])[..|entries|] == entries && (files + [f])[..|files|] == files;
  }

  lemma AddPad(entries: seq<FileEntry>, files: seq<SourceFile>, n: nat)
    requires Describes(entries, files)
    ensures var more := entries + [Pad(n)];
      && Describes(more, files)
      && Recorded(more, files) == Recorded(entries, files) + Zeros(n)
      && TotalLength(more) == TotalLength(entries) + n
  {
    assert (entries + [Pad(n)])[..|entries|] == entries;
  }

  lemma AlignedSnoc(entries: seq<FileEntry>, last: FileEntry, pieceLength: nat)
    requires pieceLength > 0 && Aligned(entries, pieceLength)
    requires last.Real? ==> TotalLength(entries) % pieceLength == 0
    ensures Aligned(entries + [last], pieceLength)
  {
    var more := entries + [last];
    forall i | 0 <= i < |more| && more[i].Real?
      ensures TotalLength(more[..i]) % pieceLength == 0
    {
      assert more[..i] == entries[..i];
      if i == |entries| {
        assert entries[..i] == entries;
      }
    }
  }

  /** Without pads the recorded bytes are the plain concatenation of the files. */
  ghost function Concat(files: seq<SourceFile>): seq<byte> {
    if files == [] then [] else Concat(files[..|files| - 1]) + files[|files| - 1].content
  }

  lemma {:induction false} RecordedWithoutPads(entries: seq<FileEntry>, files: seq<SourceFile>)
    requires NoPads(entries) && |entries| == |files|
    ensures Recorded(entries, files) == Concat(files)
  {
    if entries != [] {
      RecordedWithoutPads(entries[..|entries| - 1], files[..|files| - 1]);
    }
  }

  lemma {:induction false} RealsWithoutPads(entries: seq<FileEntry>)
    requires NoPads(entries)
    ensures Reals(entries) == entries
  {
    if entries != [] {
      RealsWithoutPads(entries[..|entries| - 1]);
    }
  }

  // ---------------------------------------------------------------- the v2 file tree

  const EMPTY_NAME: Name := []

  /** Walk (and make) the directories of the path, then bind its last name to a fresh file. */
  function Insert(tree: Tree, path: Path, leaf: Tree): Tree
    requires path != [] && tree.Dict?
    decreases |path|
  {
    if |path| == 1 then Dict(tree.items[path[0] := Dict(map[EMPTY_NAME := leaf])])
    else
      var child := if path[0] in tree.items && tree.items[path[0]].Dict? then tree.items[path[0]] else Dict(map[]);
      Dict(tree.items[path[0] := Insert(child, path[1..], leaf)])
  }

  function Lookup(tree: Tree, path: Path): Option<Tree> {
    if tree.Leaf? then None
    else if path == [] then
      (if EMPTY_NAME in tree.items && tree.items[EMPTY_NAME].Leaf? then Some(tree.items[EMPTY_NAME]) else None)
    else if path[0] in tree.items then Lookup(tree.items[path[0]], path[1..])
    else None
  }

  ghost predicate ValidPath(path: Path) {
    path != [] && forall i :: 0 <= i < |path| ==> path[i] != EMPTY_NAME
  }

  /** An insertion is seen at its own path, hides everything below it, and changes nothing else. */
  lemma {:induction false} LookupInsert(tree: Tree, p: Path, leaf: Tree, q: Path)
    requires tree.Dict? && leaf.Leaf? && ValidPath(p) && (q == [] || ValidPath(q))
    ensures Lookup(Insert(tree, p, leaf), q)
         == if q == p then Some(leaf) else if p < q then None else Lookup(tree, q)
    decreases |p|
  {
    var after := Insert(tree, p, leaf);
    if q == [] {
    } else if q[0] != p[0] {
    } else if |p| == 1 {
      var file := Dict(map[EMPTY_NAME := leaf]);
      assert Lookup(after, q) == Lookup(file, q[1..]);
      if |q| > 1 {
        assert q[1..][0] == q[1];
        assert p < q;
      } else {
        assert q == p;
      }
    } else {
      var child := if p[0] in tree.items && tree.items[p[0]].Dict? then tree.items[p[0]] else Dict(map[]);
      assert forall i :: 0 <= i < |p| - 1 ==> p[1..][i] == p[i + 1];
      assert forall i :: 0 <= i < |q| - 1 ==> q[1..][i] == q[i + 1];
      LookupInsert(child, p[1..], leaf, q[1..]);
      assert Lookup(child, q[1..]) == Lookup(tree, q);
    }
  }

  /** The digest stored for a file; an empty file gets the padding of the piece layer. */
  function FileRoot(sha: Hash, content: seq<byte>, pieceLength: nat): Digest
    requires pieceLength >= BLOCK_LEN
  {
    LayerRoot(sha, PieceRoots(sha, content, pieceLength), pieceLength / BLOCK_LEN)
  }

  function TreeOf(sha: Hash, files: seq<SourceFile>, pieceLength: nat): (t: Tree)
    requires pieceLength >= BLOCK_LEN && forall i :: 0 <= i < |files| ==> files[i].path != []
    ensures t.Dict?
  {
    if files == [] then Dict(map[])
    else
      var f := files[|files| - 1];
      Insert(TreeOf(sha, files[..|files| - 1], pieceLength), f.path,
        Leaf(|f.content|, FileRoot(sha, f.content, pieceLength)))
  }

  /** Paths as a directory walk gives them: no name is empty and no file lies under another. */
  ghost predicate PathsOfFiles(files: seq<SourceFile>) {
    && (forall i :: 0 <= i < |files| ==> ValidPath(files[i].path))
    && forall i, j :: 0 <= i < |files| && 0 <= j < |files| && i != j ==> !(files[i].path <= files[j].path)
  }

  /** The tree holds every file under its path, and no other path leads to a file. */
  lemma {:induction false} TreeHoldsFiles(sha: Hash, files: seq<SourceFile>, pieceLength: nat, q: Path)
    requires pieceLength >= BLOCK_LEN && PathsOfFiles(files) && ValidPath(q)
    ensures forall i :: 0 <= i < |files| && files[i].path == q ==>
      Lookup(TreeOf(sha, files, pieceLength), q)
        == Some(Leaf(|files[i].content|, FileRoot(sha, files[i].content, pieceLength)))
    ensures Lookup(TreeOf(sha, files, pieceLength), q).Some? <==>
      exists i :: 0 <= i < |files| && files[i].path == q
  {
    if files == [] {
      assert Lookup(Dict(map[]), q) == None;
    } else {
      var n := |files| - 1;
      var front, f := files[..n], files[n];
      UnrelatedFront(files);
      TreeHoldsFiles(sha, front, pieceLength, q);
      LookupInsert(TreeOf(sha, front, pieceLength), f.path, Leaf(|f.content|, FileRoot(sha, f.content, pieceLength)), q);
      var t, t' := TreeOf(sha, front, pieceLength), TreeOf(sha, files, pieceLength);
      assert t' == Insert(t, f.path, Leaf(|f.content|, FileRoot(sha, f.content, pieceLength)));
      hide TreeOf, FileRoot, Insert, Lookup, PathsOfFiles, ValidPath;
      forall i | 0 <= i < |files| && files[i].path == q
        ensures Lookup(t', q) == Some(Leaf(|files[i].content|, FileRoot(sha, files[i].content, pieceLength)))
      {
        if i < n {
          assert front[i] == files[i];
        }
      }
      if Lookup(t', q).Some? && q != f.path {
        var i :| 0 <= i < n && front[i].path == q;
        assert files[i].path == q;
      }
    }
  }

  /** The last file of a plain list lies neither above nor below an earlier one. */
  lemma UnrelatedFront(files: seq<SourceFile>)
    requires PathsOfFiles(files) && files != []
    ensures PathsOfFiles(files[..|files| - 1]) && ValidPath(files[|files| - 1].path)
    ensures forall i :: 0 <= i < |files| - 1 ==>
      !(files[i].path <= files[|files| - 1].path) && !(files[|files| - 1].path <= files[i].path)
  {
    hide ValidPath;
  }

  /** An empty file is stored with the root over a whole piece of zero leaves. */
  lemma EmptyFileRoot(sha: Hash, pieceLength: nat)
    requires pieceLength >= 16384 && IsPow2(pieceLength)
    ensures FileRoot(sha, [], pieceLength) == StandardTree(sha, [], 0, HeightOver(pieceLength, 16384))
  {
    var p := PieceHeight(pieceLength);
    CeilDivUnique(0, pieceLength, 0);
    PiecePaddingIsStandard(sha, p);
    BlocksInPiece(p);
  }

  /** The root stored for a non-empty file is the standard's pieces root, for every piece length v2 admits. */
  lemma FileRootIsStandard(sha: Hash, content: seq<byte>, pieceLength: nat)
    requires content != [] && pieceLength >= 16384 && IsPow2(pieceLength)
    ensures FileRoot(sha, content, pieceLength) == StandardRoot(sha, content)
  {
    var p := PieceHeight(pieceLength);
    hide FlatRoot, StandardRoot, LayerRoot, PieceRoots;
    FlatRootIsStandard(sha, content);
    TwoLayersAreFlat(sha, content, p);
    BlocksInPiece(p);
  }

  /** A power of two from 16 KiB up is 16 KiB doubled as often as the standard's tree of one piece is high. */
  lemma PieceHeight(pieceLength: nat) returns (p: nat)
    requires pieceLength >= 16384 && IsPow2(pieceLength)
    ensures pieceLength == Pow2(p) * BLOCK_LEN && p == HeightOver(pieceLength, 16384)
  {
    var k: nat :| pieceLength == Pow2(k);
    assert Pow2(14) == 16384 by {
      assert Pow2(4) == 16 && Pow2(8) == 256 && Pow2(12) == 4096;
    }
    if k < 14 {
      Pow2Mono(k, 14);
      assert false;
    }
    p := k - 14;
    Pow2Add(p, 14);
    HeightOverIs(pieceLength, 0, p);
  }

  lemma BlocksInPiece(p: nat)
    ensures (Pow2(p) * BLOCK_LEN) / BLOCK_LEN == Pow2(p)
  {
  }

  // ---------------------------------------------------------------- piece layers

  function JoinAll(layer: seq<Digest>): seq<byte> {
    if layer == [] then [] else JoinAll(layer[..|layer| - 1]) + layer[|layer| - 1]
  }

  /** Cut a stored layer back into 32-byte digests. */
  function Split(bytes: seq<byte>): seq<Digest> {
    seq(|bytes| / 32, i requires 0 <= i < |bytes| / 32 => bytes[32 * i..32 * i + 32])
  }

  lemma {:induction false} SplitJoinAll(layer: seq<Digest>)
    requires forall i :: 0 <= i < |layer| ==> |layer[i]| == 32
    ensures |JoinAll(layer)| == 32 * |layer|
    ensures Split(JoinAll(layer)) == layer
  {
    if layer != [] {
      var n := |layer| - 1;
      var front := layer[..n];
      SplitJoinAll(front);
      var bytes := JoinAll(front);
      var l := Split(JoinAll(layer));
      forall i | 0 <= i < |layer|
        ensures l[i] == layer[i]
      {
        if i < n {
          assert (bytes + layer[n])[32 * i..32 * i + 32] == bytes[32 * i..32 * i + 32];
          assert Split(bytes)[i] == front[i];
        } else {
          assert (bytes + layer[n])[32 * n..32 * n + 32] == layer[n];
        }
      }
      assert l == layer;
    }
  }

  /** Each file longer than a piece has its layer stored under its root, and only such layers are stored. */
  ghost predicate LayersOf(sha: Hash, files: seq<SourceFile>, pieceLength: nat, layers: map<Digest, seq<byte>>)
    requires pieceLength >= BLOCK_LEN
  {
    && (forall i :: 0 <= i < |files| && |files[i].content| > pieceLength ==>
          FileRoot(sha, files[i].content, pieceLength) in layers)
    && (forall root :: root in layers ==> exists i :: LayerFrom(sha, files, pieceLength, root, layers[root], i))
  }

  ghost predicate LayerFrom(sha: Hash, files: seq<SourceFile>, pieceLength: nat, root: Digest, layer: seq<byte>, i: int)
    requires pieceLength >= BLOCK_LEN
  {
    && 0 <= i < |files| && |files[i].content| > pieceLength
    && root == FileRoot(sha, files[i].content, pieceLength)
    && layer == JoinAll(PieceRoots(sha, files[i].content, pieceLength))
  }

  lemma RootLength(sha: Hash, layer: seq<Digest>)
    requires |layer| >= 1 && forall x :: |sha(x)| == 32
    requires forall i :: 0 <= i < |layer| ==> |layer[i]| == 32
    ensures |Root(Join(sha), layer)| == 32
    decreases |layer|
  {
    if |layer| > 1 {
      forall i | 0 <= i < |layer| / 2
        ensures |Parents(Join(sha), layer)[i]| == 32
      {
        ParentAt(Join(sha), layer, i);
      }
      RootLength(sha, Parents(Join(sha), layer));
    }
  }

  lemma PieceRootLength(sha: Hash, content: seq<byte>, pieceLength: nat, k: nat)
    requires pieceLength >= BLOCK_LEN && forall x :: |sha(x)| == 32
    ensures |PieceRoot(sha, content, pieceLength, k)| == 32
  {
    var blocks := BlockHashes(sha, Slice(content, pieceLength, k), BLOCK_LEN);
    assert forall i :: 0 <= i < |blocks| ==> blocks[i] == sha(Slice(Slice(content, pieceLength, k), BLOCK_LEN, i));
    var leaves := Padded(blocks, PieceLeafs(|content|, pieceLength, |blocks|), ZeroDigest());
    assert forall i :: 0 <= i < |leaves| ==> leaves[i] == LeafAt(blocks, i, ZeroDigest());
    RootLength(sha, leaves);
  }

  /** A stored layer, cut into digests again, hashes back to the root it is stored under. */
  lemma LayersHashBack(sha: Hash, files: seq<SourceFile>, pieceLength: nat, layers: map<Digest, seq<byte>>, root: Digest)
    requires pieceLength >= BLOCK_LEN && LayersOf(sha, files, pieceLength, layers) && root in layers
    requires forall x :: |sha(x)| == 32
    ensures LayerRoot(sha, Split(layers[root]), pieceLength / BLOCK_LEN) == root
  {
    var i :| LayerFrom(sha, files, pieceLength, root, layers[root], i);
    var content := files[i].content;
    var roots := PieceRoots(sha, content, pieceLength);
    forall k | 0 <= k < |roots|
      ensures |roots[k]| == 32
    {
      PieceRootLength(sha, content, pieceLength, k);
    }
    SplitJoinAll(roots);
  }

  /** The layer of a file as the standard has it: the 32-byte nodes at the height of a piece, left to right. */
  ghost predicate IsStandardLayer(sha: Hash, content: seq<byte>, pieceLength: nat, layer: seq<byte>) {
    && |layer| % 32 == 0
    && (forall k: nat :: 32 * k < |layer| <==> k * pieceLength < |content|)
    && forall k: nat :: 32 * k < |layer| ==>
         layer[32 * k..32 * k + 32] == StandardTree(sha, content, k, HeightOver(pieceLength, 16384))
  }

  lemma JoinAllAt(layer: seq<Digest>, k: nat)
    requires k < |layer| && forall i :: 0 <= i < |layer| ==> |layer[i]| == 32
    ensures |JoinAll(layer)| == 32 * |layer| && JoinAll(layer)[32 * k..32 * k + 32] == layer[k]
  {
    SplitJoinAll(layer);
    assert Split(JoinAll(layer))[k] == layer[k];
  }

  /** A joined layer of a file of several pieces is the standard's. */
  lemma JoinedLayerIsStandard(sha: Hash, content: seq<byte>, pieceLength: nat)
    requires pieceLength >= 16384 && IsPow2(pieceLength) && |content| > pieceLength
    requires forall x :: |sha(x)| == 32
    ensures IsStandardLayer(sha, content, pieceLength, JoinAll(PieceRoots(sha, content, pieceLength)))
  {
    var p := PieceHeight(pieceLength);
    var roots := PieceRoots(sha, content, pieceLength);
    var layer := JoinAll(roots);
    hide PieceRoot, StandardTree, JoinAll, CeilDiv, HeightOver, Pow2;
    forall k | 0 <= k < |roots|
      ensures |roots[k]| == 32
    {
      PieceRootLength(sha, content, pieceLength, k);
    }
    SplitJoinAll(roots);
    forall k: nat
      ensures 32 * k < |layer| <==> k * pieceLength < |content|
      ensures 32 * k < |layer| ==> layer[32 * k..32 * k + 32] == StandardTree(sha, content, k, p)
    {
      CountIff(|content|, pieceLength, k);
      if k < |roots| {
        JoinAllAt(roots, k);
        PieceRootIsStandard(sha, content, p, k);
      }
    }
  }

  /** What v2 stores for the files: each one's length and pieces root under its path, and no other file. */
  ghost predicate HoldsStandardRoots(sha: Hash, files: seq<SourceFile>, pieceLength: nat, tree: Tree) {
    && (forall i :: 0 <= i < |files| ==>
          Lookup(tree, files[i].path) == Some(Leaf(|files[i].content|,
            if files[i].content != [] then StandardRoot(sha, files[i].content)
            else StandardTree(sha, [], 0, HeightOver(pieceLength, 16384)))))
    && forall q :: ValidPath(q) && Lookup(tree, q).Some? ==> exists i :: 0 <= i < |files| && files[i].path == q
  }

  /** Under its pieces root, the layer of every file longer than a piece, and no other layer. */
  ghost predicate HoldsStandardLayers(sha: Hash, files: seq<SourceFile>, pieceLength: nat, layers: map<Digest, seq<byte>>) {
    && (forall i :: 0 <= i < |files| && |files[i].content| > pieceLength ==> StandardRoot(sha, files[i].content) in layers)
    && forall root :: root in layers ==> exists i :: IsStandardLayerOf(sha, files, pieceLength, root, layers[root], i)
  }

  ghost predicate IsStandardLayerOf(sha: Hash, files: seq<SourceFile>, pieceLength: nat, root: Digest,
                                    layer: seq<byte>, i: int) {
    && 0 <= i < |files| && |files[i].content| > pieceLength
    && root == StandardRoot(sha, files[i].content)
    && IsStandardLayer(sha, files[i].content, pieceLength, layer)
  }

  lemma StoredLayerIsStandard(sha: Hash, files: seq<SourceFile>, pieceLength: nat, root: Digest, layer: seq<byte>, i: int)
    requires pieceLength >= 16384 && IsPow2(pieceLength) && LayerFrom(sha, files, pieceLength, root, layer, i)
    requires forall x :: |sha(x)| == 32
    ensures IsStandardLayerOf(sha, files, pieceLength, root, layer, i)
  {
    hide FileRoot, StandardRoot, IsStandardLayer, PieceRoots, JoinAll;
    FileRootIsStandard(sha, files[i].content, pieceLength);
    JoinedLayerIsStandard(sha, files[i].content, pieceLength);
  }

  lemma TreeIsStandard(sha: Hash, files: seq<SourceFile>, pieceLength: nat)
    requires pieceLength >= 16384 && IsPow2(pieceLength) && PathsOfFiles(files)
    ensures HoldsStandardRoots(sha, files, pieceLength, TreeOf(sha, files, pieceLength))
  {
    var tree := TreeOf(sha, files, pieceLength);
    hide TreeOf, FileRoot, Lookup, StandardRoot, StandardTree, ValidPath, HeightOver;
    forall i | 0 <= i < |files|
      ensures Lookup(tree, files[i].path) == Some(Leaf(|files[i].content|,
        if files[i].content != [] then StandardRoot(sha, files[i].content)
        else StandardTree(sha, [], 0, HeightOver(pieceLength, 16384))))
    {
      TreeHoldsFiles(sha, files, pieceLength, files[i].path);
      if files[i].content == [] {
        EmptyFileRoot(sha, pieceLength);
      } else {
        FileRootIsStandard(sha, files[i].content, pieceLength);
      }
    }
    forall q | ValidPath(q) && Lookup(tree, q).Some?
      ensures exists i :: 0 <= i < |files| && files[i].path == q
    {
      TreeHoldsFiles(sha, files, pieceLength, q);
    }
  }

  lemma LayersAreStandard(sha: Hash, files: seq<SourceFile>, pieceLength: nat, layers: map<Digest, seq<byte>>)
    requires pieceLength >= 16384 && IsPow2(pieceLength) && LayersOf(sha, files, pieceLength, layers)
    requires forall x :: |sha(x)| == 32
    ensures HoldsStandardLayers(sha, files, pieceLength, layers)
  {
    hide FileRoot, StandardRoot, IsStandardLayerOf, LayerFrom, IsPow2;
    forall i | 0 <= i < |files| && |files[i].content| > pieceLength
      ensures StandardRoot(sha, files[i].content) in layers
    {
      FileRootIsStandard(sha, files[i].content, pieceLength);
    }
    forall root | root in layers
      ensures exists i :: IsStandardLayerOf(sha, files, pieceLength, root, layers[root], i)
    {
      var i :| LayerFrom(sha, files, pieceLength, root, layers[root], i);
      StoredLayerIsStandard(sha, files, pieceLength, root, layers[root], i);
    }
  }

  lemma LayersSnoc(sha: Hash, files: seq<SourceFile>, f: SourceFile, pieceLength: nat,
                   layers: map<Digest, seq<byte>>, layers': map<Digest, seq<byte>>)
    requires pieceLength >= BLOCK_LEN && LayersOf(sha, files, pieceLength, layers)
    requires layers' == if |f.content| > pieceLength
      then layers[FileRoot(sha, f.content, pieceLength) := JoinAll(PieceRoots(sha, f.content, pieceLength))]
      else layers
    ensures LayersOf(sha, files + [f], pieceLength, layers')
  {
    var all := files + [f];
    forall root | root in layers'
      ensures exists i :: LayerFrom(sha, all, pieceLength, root, layers'[root], i)
    {
      if |f.content| > pieceLength && root == FileRoot(sha, f.content, pieceLength) {
        assert LayerFrom(sha, all, pieceLength, root, layers'[root], |files|);
      } else {
        var i :| LayerFrom(sha, files, pieceLength, root, layers[root], i);
        assert LayerFrom(sha, all, pieceLength, root, layers'[root], i);
      }
    }
  }

  // ---------------------------------------------------------------- the loops

  /** The hash input so far, for the formats that keep a v1 piece stream. */
  ghost predicate StreamedIf(v1: bool, sha1: Hash, stream: seq<byte>, pieceLength: nat, h: Hasher) {
    if v1 then Streamed(sha1, stream, pieceLength, h) else h == FRESH
  }

  /** The root of one piece: its block digests, hashed in place over the piece's leaf count. */
  method RootOfPiece(sha256: Hash, buffer: seq<byte>, size: nat, pieceLength: nat) returns (root: Digest)
    requires pieceLength >= BLOCK_LEN
    ensures root == PaddedBlocksRoot(sha256, BlockHashes(sha256, buffer, BLOCK_LEN), size, pieceLength)
  {
    var blockHashes := new LeafList(BlockHashes(sha256, buffer, BLOCK_LEN));
    var numLeafs := PieceLeafs(size, pieceLength, |blockHashes.items|);
    root := MerkleRoot(Join(sha256), blockHashes, numLeafs, ZeroDigest(), true);
  }

  /** The read at position k * pieceLength is slice k, and the last read ends the file. */
  lemma ReadIsSlice<T>(content: seq<T>, pieceLength: nat, k: nat, pos: nat)
    requires pieceLength > 0 && pos == Min(k * pieceLength, |content|) < |content|
    ensures var next := pos + Min(|content| - pos, pieceLength);
      && content[pos..next] == Slice(content, pieceLength, k)
      && next == Min((k + 1) * pieceLength, |content|)
      && k + 1 <= CeilDiv(|content|, pieceLength)
      && (next == |content| ==> k + 1 == CeilDiv(|content|, pieceLength))
  {
    assert (k + 1) * pieceLength == k * pieceLength + pieceLength;
    CountIff(|content|, pieceLength, k);
    CountIff(|content|, pieceLength, k + 1);
  }

  ghost predicate FirstRoots(sha256: Hash, content: seq<byte>, pieceLength: nat, k: nat, roots: seq<Digest>)
    requires pieceLength >= BLOCK_LEN
  {
    |roots| == k && forall i :: 0 <= i < k ==> roots[i] == PieceRoot(sha256, content, pieceLength, i)
  }

  /** After k reads the cursor is at `pos`, the v1 stream has that much of the file, and k roots are known. */
  ghost predicate ReadState(sha1: Hash, sha256: Hash, format: Format, content: seq<byte>, pieceLength: nat,
                            stream: seq<byte>, k: nat, pos: nat, h: Hasher, filePieces: seq<Digest>)
    requires pieceLength > 0 && (format.IncludesV2() ==> pieceLength >= BLOCK_LEN)
  {
    && pos == Min(k * pieceLength, |content|)
    && (pos == |content| ==> k == CeilDiv(|content|, pieceLength))
    && StreamedIf(format.IncludesV1(), sha1, stream + content[..pos], pieceLength, h)
    && (format.IncludesV2() ==> FirstRoots(sha256, content, pieceLength, k, filePieces))
  }

  lemma StreamGrows(stream: seq<byte>, content: seq<byte>, pos: nat, next: nat)
    requires pos <= next <= |content|
    ensures stream + content[..next] == (stream + content[..pos]) + content[pos..next]
  {
  }

  /** One read of the file: at most a piece, fed to the v1 stream and hashed to a v2 piece root. */
  method HashPiece(sha1: Hash, sha256: Hash, format: Format, content: seq<byte>, pieceLength: nat,
                   pos: nat, h: Hasher, filePieces: seq<Digest>, ghost stream: seq<byte>, ghost k: nat)
    returns (pos': nat, h': Hasher, filePieces': seq<Digest>)
    requires pieceLength > 0 && (format.IncludesV2() ==> pieceLength >= BLOCK_LEN)
    requires pos < |content| && ReadState(sha1, sha256, format, content, pieceLength, stream, k, pos, h, filePieces)
    ensures ReadState(sha1, sha256, format, content, pieceLength, stream, k + 1, pos', h', filePieces')
    ensures pos < pos' <= |content|
  {
    ReadIsSlice(content, pieceLength, k, pos);
    hide Streamed, Slice, CeilDiv, BlockHashes, PaddedBlocksRoot, FirstRoots;
    h', filePieces' := h, filePieces;
    var toRead := Min(|content| - pos, pieceLength);
    var buffer := content[pos..pos + toRead];
    pos' := pos + toRead;
    if format.IncludesV1() {
      StreamGrows(stream, content, pos, pos');
      h' := Feed(sha1, h, pieceLength, buffer, stream + content[..pos]);
    }
    if format.IncludesV2() {
      var root := RootOfPiece(sha256, buffer, |content|, pieceLength);
      RootAppended(sha256, content, pieceLength, k, filePieces, buffer);
      filePieces' := filePieces + [root];
    }
  }

  lemma RootAppended(sha256: Hash, content: seq<byte>, pieceLength: nat, k: nat, filePieces: seq<Digest>, buffer: seq<byte>)
    requires pieceLength >= BLOCK_LEN && FirstRoots(sha256, content, pieceLength, k, filePieces)
    requires buffer == Slice(content, pieceLength, k)
    ensures FirstRoots(sha256, content, pieceLength, k + 1,
      filePieces + [PaddedBlocksRoot(sha256, BlockHashes(sha256, buffer, BLOCK_LEN), |content|, pieceLength)])
  {
    hide PaddedBlocksRoot, BlockHashes, Slice;
  }

  lemma ReadStart(sha1: Hash, sha256: Hash, format: Format, content: seq<byte>, pieceLength: nat,
                  stream: seq<byte>, h: Hasher)
    requires pieceLength > 0 && (format.IncludesV2() ==> pieceLength >= BLOCK_LEN)
    requires StreamedIf(format.IncludesV1(), sha1, stream, pieceLength, h)
    ensures ReadState(sha1, sha256, format, content, pieceLength, stream, 0, 0, h, [])
  {
    assert stream + content[..0] == stream;
    CeilDivBounds(|content|, pieceLength);
  }

  lemma ReadEnd(sha1: Hash, sha256: Hash, format: Format, content: seq<byte>, pieceLength: nat,
                stream: seq<byte>, k: nat, h: Hasher, filePieces: seq<Digest>)
    requires pieceLength > 0 && (format.IncludesV2() ==> pieceLength >= BLOCK_LEN)
    requires ReadState(sha1, sha256, format, content, pieceLength, stream, k, |content|, h, filePieces)
    ensures StreamedIf(format.IncludesV1(), sha1, stream + content, pieceLength, h)
    ensures format.IncludesV2() ==> filePieces == PieceRoots(sha256, content, pieceLength)
  {
    assert content[..|content|] == content;
  }

  /** Read a file piece by piece; feed the v1 stream and collect the v2 piece roots. */
  method HashFile(sha1: Hash, sha256: Hash, format: Format, content: seq<byte>, pieceLength: nat,
                  h: Hasher, ghost stream: seq<byte>)
    returns (h': Hasher, filePieces: seq<Digest>)
    requires pieceLength > 0 && (format.IncludesV2() ==> pieceLength >= BLOCK_LEN)
    requires StreamedIf(format.IncludesV1(), sha1, stream, pieceLength, h)
    ensures StreamedIf(format.IncludesV1(), sha1, stream + content, pieceLength, h')
    ensures format.IncludesV2() ==> filePieces == PieceRoots(sha256, content, pieceLength)
  {
    hide ReadState, StreamedIf;
    ReadStart(sha1, sha256, format, content, pieceLength, stream, h);
    filePieces := [];
    h' := h;
    var pos: nat := 0;
    ghost var k: nat := 0;
    while pos < |content|
      invariant pos <= |content|
      invariant ReadState(sha1, sha256, format, content, pieceLength, stream, k, pos, h', filePieces)
    {
      pos, h', filePieces := HashPiece(sha1, sha256, format, content, pieceLength, pos, h', filePieces, stream, k);
      k := k + 1;
    }
    ReadEnd(sha1, sha256, format, content, pieceLength, stream, k, h', filePieces);
  }

  /** Hybrid torrents of several files are padded to a piece boundary after every file. */
  predicate PadsFiles(format: Format, source: Source) {
    format == Hybrid && |source.Subs()| > 1
  }

  /** What the finished info dictionary says about the v1 part. */
  ghost predicate V1Part(source: Source, pieceLength: nat, padded: bool, entries: seq<FileEntry>)
    requires pieceLength > 0
  {
    && Describes(entries, source.Subs())
    && (if padded then
          && entries == PaddedEntries(source.Subs(), pieceLength)
          && Aligned(entries, pieceLength) && TotalLength(entries) % pieceLength == 0
        else NoPads(entries))
  }

  /** The v1 state after the first files: what is recorded is what went into the stream. */
  ghost predicate V1State(sha1: Hash, format: Format, padded: bool, subs: seq<SourceFile>, pieceLength: nat,
                          files: seq<FileEntry>, h: Hasher)
    requires pieceLength > 0
  {
    && Describes(files, subs)
    && (if padded then files == PaddedEntries(subs, pieceLength) && Aligned(files, pieceLength) && h.done == 0
        else NoPads(files))
    && StreamedIf(format.IncludesV1(), sha1, Recorded(files, subs), pieceLength, h)
  }

  /** Hybrid padding: a padding record and its zeros, which close the open piece. */
  method PadFile(sha1: Hash, pieceLength: nat, files: seq<FileEntry>, h: Hasher, ghost subs: seq<SourceFile>)
    returns (files': seq<FileEntry>, h': Hasher)
    requires pieceLength > 0 && Describes(files, subs) && Aligned(files, pieceLength)
    requires Streamed(sha1, Recorded(files, subs), pieceLength, h)
    ensures files' == if h.done > 0 then files + [Pad(pieceLength - h.done)] else files
    ensures files' == Closed(files, pieceLength)
    ensures Describes(files', subs) && Aligned(files', pieceLength)
    ensures Streamed(sha1, Recorded(files', subs), pieceLength, h') && h'.done == 0
  {
    assert h.done < pieceLength;
    hide Describes, Recorded, Aligned, Streamed, Over, TotalLength;
    files', h' := files, h;
    DoneIsRest(sha1, files, subs, pieceLength, h);
    if h.done > 0 {
      var padding := pieceLength - h.done;
      PadStreamed(sha1, Recorded(files, subs), pieceLength, h);
      AddPad(files, subs, padding);
      AlignedSnoc(files, Pad(padding), pieceLength);
      files' := files + [Pad(padding)];
      h' := Hasher([], 0, h.pieces + [sha1(h.sh + Zeros(padding))]);
    }
  }

  /** What is in the hash object is what the recorded lengths leave over. */
  lemma DoneIsRest(sha1: Hash, files: seq<FileEntry>, subs: seq<SourceFile>, pieceLength: nat, h: Hasher)
    requires pieceLength > 0 && Describes(files, subs) && Streamed(sha1, Recorded(files, subs), pieceLength, h)
    ensures h.done == Over(files, pieceLength)
  {
    hide Recorded, TotalLength;
    RestOfMultiple(|h.pieces|, pieceLength, h.done);
    assert |Recorded(files, subs)| == TotalLength(files);
  }

  lemma RestOfMultiple(k: nat, n: nat, rest: nat)
    requires rest < n
    ensures (k * n + rest) % n == rest
  {
    var m := k * n + rest;
    var q := m / n;
    assert m == q * n + m % n;
    if q < k {
      MulMono(q + 1, k, n);
    } else if k < q {
      MulMono(k + 1, q, n);
    }
  }

  /** The record of a file keeps a padded list aligned, since the stream is at a piece boundary. */
  lemma RecordFile(sha1: Hash, format: Format, padded: bool, subs: seq<SourceFile>, pieceLength: nat,
                   files: seq<FileEntry>, h: Hasher, f: SourceFile)
    requires pieceLength > 0 && V1State(sha1, format, padded, subs, pieceLength, files, h)
    requires padded ==> format.IncludesV1()
    ensures var more := files + [Real(|f.content|, f.path)];
      && Describes(more, subs + [f])
      && Recorded(more, subs + [f]) == Recorded(files, subs) + f.content
      && (if padded then Aligned(more, pieceLength) else NoPads(more))
  {
    AddReal(files, subs, f);
    hide Describes, Recorded, Streamed;
    if padded {
      BoundaryTotal(sha1, Recorded(files, subs), pieceLength, h);
      AlignedSnoc(files, Real(|f.content|, f.path), pieceLength);
    }
  }

  /** One file: its record, its bytes and, where the format pads, the padding record and its zeros. */
  method AddFile(sha1: Hash, sha256: Hash, format: Format, padded: bool, f: SourceFile, pieceLength: nat,
                 files: seq<FileEntry>, h: Hasher, ghost subs: seq<SourceFile>, ghost subs': seq<SourceFile>)
    returns (files': seq<FileEntry>, h': Hasher, filePieces: seq<Digest>)
    requires subs' == subs + [f]
    requires pieceLength > 0 && (format.IncludesV2() ==> pieceLength >= BLOCK_LEN)
    requires padded ==> format.IncludesV1()
    requires V1State(sha1, format, padded, subs, pieceLength, files, h)
    ensures V1State(sha1, format, padded, subs', pieceLength, files', h')
    ensures format.IncludesV2() ==> filePieces == PieceRoots(sha256, f.content, pieceLength)
  {
    RecordFile(sha1, format, padded, subs, pieceLength, files, h, f);
    files' := files + [Real(|f.content|, f.path)];
    h', filePieces := HashFile(sha1, sha256, format, f.content, pieceLength, h, Recorded(files, subs));
    if padded {
      files', h' := PadFile(sha1, pieceLength, files', h', subs');
      assert subs'[..|subs|] == subs && subs'[|subs|] == f;
    }
  }

  ghost predicate V2State(sha256: Hash, subs: seq<SourceFile>, pieceLength: nat, fileTree: Tree,
                          pieceLayers: map<Digest, seq<byte>>)
    requires pieceLength >= BLOCK_LEN && forall i :: 0 <= i < |subs| ==> subs[i].path != []
  {
    fileTree == TreeOf(sha256, subs, pieceLength) && LayersOf(sha256, subs, pieceLength, pieceLayers)
  }

  /** The v2 entry of one file: its root into the tree and, for more than one piece, its layer. */
  method AddToTree(sha256: Hash, f: SourceFile, pieceLength: nat, filePieces: seq<Digest>, piecePadding: Digest,
                   fileTree: Tree, pieceLayers: map<Digest, seq<byte>>, ghost subs: seq<SourceFile>,
                   ghost subs': seq<SourceFile>)
    returns (tree': Tree, layers': map<Digest, seq<byte>>)
    requires subs' == subs + [f]
    requires pieceLength >= BLOCK_LEN && forall i :: 0 <= i < |subs'| ==> subs'[i].path != []
    requires piecePadding == PiecePadding(sha256, pieceLength / BLOCK_LEN)
    requires filePieces == PieceRoots(sha256, f.content, pieceLength)
    requires subs <= subs' && V2State(sha256, subs, pieceLength, fileTree, pieceLayers)
    ensures V2State(sha256, subs', pieceLength, tree', layers')
  {
    assert subs'[|subs|] == f;
    var leafs := new LeafList(filePieces);
    var piecesRoot := MerkleRoot(Join(sha256), leafs, NextPow2(|filePieces|), piecePadding, false);
    assert piecesRoot == FileRoot(sha256, f.content, pieceLength);
    assert subs'[..|subs'| - 1] == subs;
    tree' := Insert(fileTree, f.path, Leaf(|f.content|, piecesRoot));
    layers' := pieceLayers;
    CountIff(|f.content|, pieceLength, 1);
    if |leafs.items| > 1 {
      layers' := layers'[piecesRoot := JoinAll(leafs.items)];
    }
    LayersSnoc(sha256, subs, f, pieceLength, pieceLayers, layers');
  }

  /** The loop over the files. */
  method AddFiles(sha1: Hash, sha256: Hash, format: Format, subs: seq<SourceFile>, pieceLength: nat,
                  piecePadding: Digest)
    returns (files: seq<FileEntry>, h: Hasher, fileTree: Tree, pieceLayers: map<Digest, seq<byte>>)
    requires pieceLength > 0 && (format.IncludesV2() ==> pieceLength >= BLOCK_LEN)
    requires format.IncludesV2() ==> piecePadding == PiecePadding(sha256, pieceLength / BLOCK_LEN)
    requires forall i :: 0 <= i < |subs| ==> subs[i].path != []
    ensures V1State(sha1, format, format == Hybrid && |subs| > 1, subs, pieceLength, files, h)
    ensures format.IncludesV2() ==> V2State(sha256, subs, pieceLength, fileTree, pieceLayers)
  {
    hide V1State, V2State;
    var isMultiFile := |subs| > 1;
    var padded := format == Hybrid && isMultiFile;
    files, h, fileTree, pieceLayers := [], FRESH, Dict(map[]), map[];
    var n := 0;
    EmptyStart(sha1, sha256, format, padded, pieceLength);
    while n < |subs|
      invariant 0 <= n <= |subs|
      invariant V1State(sha1, format, padded, subs[..n], pieceLength, files, h)
      invariant format.IncludesV2() ==> V2State(sha256, subs[..n], pieceLength, fileTree, pieceLayers)
    {
      assert subs[..n + 1] == subs[..n] + [subs[n]];
      var filePieces;
      files, h, filePieces := AddFile(sha1, sha256, format, padded, subs[n], pieceLength, files, h,
        subs[..n], subs[..n + 1]);
      if format.IncludesV2() {
        fileTree, pieceLayers := AddToTree(sha256, subs[n], pieceLength, filePieces, piecePadding, fileTree,
          pieceLayers, subs[..n], subs[..n + 1]);
      }
      n := n + 1;
    }
    assert subs[..n] == subs;
  }

  lemma V2IsStandard(sha: Hash, files: seq<SourceFile>, pieceLength: nat, layers: map<Digest, seq<byte>>)
    requires pieceLength >= 16384 && IsPow2(pieceLength)
    requires (forall i :: 0 <= i < |files| ==> files[i].path != []) && LayersOf(sha, files, pieceLength, layers)
    ensures PathsOfFiles(files) ==> HoldsStandardRoots(sha, files, pieceLength, TreeOf(sha, files, pieceLength))
    ensures (forall x :: |sha(x)| == 32) ==> HoldsStandardLayers(sha, files, pieceLength, layers)
  {
    if PathsOfFiles(files) {
      TreeIsStandard(sha, files, pieceLength);
    }
    if forall x :: |sha(x)| == 32 {
      LayersAreStandard(sha, files, pieceLength, layers);
    }
  }

  /** The whole of `makeinfo`, from the check of the piece length to the parts of the info dictionary. */
  method MakeInfo(sha1: Hash, sha256: Hash, source: Source, pieceLength: nat, format: Format)
    returns (r: Result<Info>, entries: seq<FileEntry>)
    requires pieceLength > 0
    requires forall i :: 0 <= i < |source.Subs()| ==> source.Subs()[i].path != []
    ensures r.ValueError? <==> format != V1 && (!IsPow2(pieceLength) || pieceLength < 16384)
    // v1: the digests of consecutive slices of the recorded bytes
    ensures r.Ok? && format != V2 ==>
      && V1Part(source, pieceLength, PadsFiles(format, source), entries)
      && r.value.pieces == Some(BlockHashes(sha1, Recorded(entries, source.Subs()), pieceLength))
      && r.value.layout == Some(if |source.Subs()| > 1 then Files(entries)
                                else Length(if source.SingleFile? then Some(|source.file.content|) else None))
    // v2: the tree and the layers of the files
    ensures r.Ok? && format != V1 ==>
      && r.value.fileTree == Some(TreeOf(sha256, source.Subs(), pieceLength))
      && r.value.pieceLayers.Some? && LayersOf(sha256, source.Subs(), pieceLength, r.value.pieceLayers.value)
    ensures r.Ok? && format != V1 && PathsOfFiles(source.Subs()) ==>
      HoldsStandardRoots(sha256, source.Subs(), pieceLength, r.value.fileTree.value)
    ensures r.Ok? && format != V1 && (forall x :: |sha256(x)| == 32) ==>
      HoldsStandardLayers(sha256, source.Subs(), pieceLength, r.value.pieceLayers.value)
    ensures r.Ok? && format == V2 ==> r.value.pieces == None && r.value.layout == None
    ensures r.Ok? && format == V1 ==> r.value.fileTree == None && r.value.pieceLayers == None
  {
    Pow2Test(pieceLength);
    var piecePadding := [];
    if format.IncludesV2() {
      if NextPow2(pieceLength) != pieceLength || pieceLength < BLOCK_LEN {
        return ValueError, [];
      }
      var none := new LeafList([]);
      piecePadding := MerkleRoot(Join(sha256), none, pieceLength / BLOCK_LEN, ZeroDigest(), true);
    }
    var files, h, fileTree, pieceLayers :=
      AddFiles(sha1, sha256, format, source.Subs(), pieceLength, piecePadding);
    entries := files;
    var pieces := Finish(sha1, h);
    if format.IncludesV1() {
      FinishStreamed(sha1, Recorded(files, source.Subs()), pieceLength, h);
      if PadsFiles(format, source) {
        BoundaryTotal(sha1, Recorded(files, source.Subs()), pieceLength, h);
      }
    }
    var length: Option<nat> := if source.SingleFile? then Some(|source.file.content|) else None;
    var layout := if |source.Subs()| > 1 then Files(files) else Length(length);
    r := Ok(Info(
      if format.IncludesV1() then Some(pieces) else None,
      if format.IncludesV1() then Some(layout) else None,
      if format.IncludesV2() then Some(fileTree) else None,
      if format.IncludesV2() then Some(pieceLayers) else None));
    if format.IncludesV2() {
      V2IsStandard(sha256, source.Subs(), pieceLength, pieceLayers);
    }
  }

  lemma EmptyStart(sha1: Hash, sha256: Hash, format: Format, padded: bool, pieceLength: nat)
    requires pieceLength > 0
    ensures V1State(sha1, format, padded, [], pieceLength, [], FRESH)
    ensures pieceLength >= BLOCK_LEN ==> V2State(sha256, [], pieceLength, Dict(map[]), map[])
  {
  }

  lemma Pow2Test(n: nat)
    ensures IsPow2(n) <==> NextPow2(n) == n && n > 0
  {
    var j := NextPow2Least(n);
    if IsPow2(n) {
      var k: nat :| n == Pow2(k);
      assert NextPow2(n) <= Pow2(k);
    }
  }

  /** With an empty hash object the stream is a whole number of pieces. */
  lemma BoundaryTotal(sha1: Hash, stream: seq<byte>, pieceLength: nat, h: Hasher)
    requires pieceLength > 0 && Streamed(sha1, stream, pieceLength, h) && h.done == 0
    ensures |stream| % pieceLength == 0
  {
    RestOfMultiple(|h.pieces|, pieceLength, 0);
  }

  lemma ExactPieces(total: nat, pieceLength: nat)
    requires pieceLength > 0 && total % pieceLength == 0
    ensures total == pieceLength * CeilDiv(total, pieceLength)
  {
    var q := total / pieceLength;
    assert total == q * pieceLength;
    CeilDivUnique(total, pieceLength, q);
  }

  lemma {:induction false} RealsKeepPlaces(entries: seq<FileEntry>, i: nat)
    requires i < |entries| && entries[i].Real?
    ensures |Reals(entries[..i])| < |Reals(entries)| && Reals(entries)[|Reals(entries[..i])|] == entries[i]
    decreases |entries|
  {
    var n := |entries| - 1;
    if i < n {
      RealsKeepPlaces(entries[..n], i);
      assert entries[..n][..i] == entries[..i];
    }
  }

  /** Padded or not, a record that is no pad is the record of the file it is counted as, with its length and path. */
  lemma RecordsAreFiles(source: Source, pieceLength: nat, padded: bool, entries: seq<FileEntry>, i: nat)
    requires pieceLength > 0 && V1Part(source, pieceLength, padded, entries)
    requires i < |entries| && entries[i].Real?
    ensures |Reals(entries)| == |source.Subs()| && |Reals(entries[..i])| < |source.Subs()|
    ensures var f := source.Subs()[|Reals(entries[..i])|];
      entries[i] == Real(|f.content|, f.path)
  {
    RealsKeepPlaces(entries, i);
  }

  /** Padded: each pad is shorter than a piece and fills up behind a file that ends off a boundary. */
  lemma PaddedPartIsTight(source: Source, pieceLength: nat, entries: seq<FileEntry>)
    requires pieceLength > 0 && V1Part(source, pieceLength, true, entries)
    ensures PadsTight(entries, pieceLength)
  {
    PaddedEntriesTight(source.Subs(), pieceLength);
  }

  /** The files one after the other, each filled up with zero bytes to a multiple of the piece length. */
  ghost function AlignedConcat(files: seq<SourceFile>, pieceLength: nat): seq<byte>
    requires pieceLength > 0
  {
    if files == [] then []
    else
      var content := files[|files| - 1].content;
      AlignedConcat(files[..|files| - 1], pieceLength) + content + Fill(|content|, pieceLength)
  }

  ghost function Fill(size: nat, pieceLength: nat): seq<byte>
    requires pieceLength > 0
  {
    if size % pieceLength == 0 then [] else seq(pieceLength - size % pieceLength, _ => 0)
  }

  lemma SameOver(a: nat, b: nat, n: nat)
    requires n > 0 && a % n == 0
    ensures (a + b) % n == b % n
  {
    var k := a / n + b / n;
    assert a + b == k * n + b % n by {
      assert (a / n) * n + (b / n) * n == k * n;
    }
    RestOfMultiple(k, n, b % n);
  }

  lemma FilledUp(a: nat, n: nat)
    requires n > 0 && a % n != 0
    ensures (a + (n - a % n)) % n == 0
  {
    assert a + (n - a % n) == (a / n + 1) * n + 0;
    RestOfMultiple(a / n + 1, n, 0);
  }

  /** A file recorded behind entries that end at a boundary reaches as far past one as its own length does. */
  lemma OverOfNext(front: seq<FileEntry>, files: seq<SourceFile>, f: SourceFile, pieceLength: nat)
    requires pieceLength > 0 && Describes(front, files) && Over(front, pieceLength) == 0
    ensures var over := Over(front + [Real(|f.content|, f.path)], pieceLength);
      Fill(|f.content|, pieceLength) == if over == 0 then [] else Zeros(pieceLength - over)
  {
    AddReal(front, files, f);
    hide Describes, Recorded, TotalLength;
    SameOver(TotalLength(front), |f.content|, pieceLength);
    if |f.content| % pieceLength != 0 {
      assert Zeros(pieceLength - |f.content| % pieceLength) == Fill(|f.content|, pieceLength);
    }
  }

  /** Closing the entries ends them at a boundary, with zeros for what was missing. */
  lemma ClosedEnds(entries: seq<FileEntry>, files: seq<SourceFile>, pieceLength: nat)
    requires pieceLength > 0 && Describes(entries, files)
    ensures var closed, over := Closed(entries, pieceLength), Over(entries, pieceLength);
      && Describes(closed, files) && Over(closed, pieceLength) == 0
      && Recorded(closed, files) == Recorded(entries, files) + (if over == 0 then [] else Zeros(pieceLength - over))
  {
    var over := Over(entries, pieceLength);
    if over != 0 {
      AddPad(entries, files, pieceLength - over);
      hide Describes, Recorded, TotalLength;
      FilledUp(TotalLength(entries), pieceLength);
    }
  }

  lemma {:induction false} PaddedEntriesAlign(files: seq<SourceFile>, pieceLength: nat)
    requires pieceLength > 0
    ensures var entries := PaddedEntries(files, pieceLength);
      && Describes(entries, files) && Over(entries, pieceLength) == 0
      && Recorded(entries, files) == AlignedConcat(files, pieceLength)
    decreases |files|
  {
    if files == [] {
      NoEntries(pieceLength);
    } else {
      hide Describes, Recorded, TotalLength, Over, Closed, Fill;
      var n, f := |files| - 1, files[|files| - 1];
      var front := PaddedEntries(files[..n], pieceLength);
      PaddedEntriesAlign(files[..n], pieceLength);
      assert files == files[..n] + [f];
      AddReal(front, files[..n], f);
      OverOfNext(front, files[..n], f, pieceLength);
      ClosedEnds(front + [Real(|f.content|, f.path)], files, pieceLength);
    }
  }

  lemma NoEntries(pieceLength: nat)
    requires pieceLength > 0
    ensures Describes([], []) && Over([], pieceLength) == 0 && Recorded([], []) == []
  {
    RestOfMultiple(0, pieceLength, 0);
  }

  /** Padded: what is hashed are the files, each filled up with zeros to a piece boundary. */
  lemma PaddedIsAlignedConcat(source: Source, pieceLength: nat, entries: seq<FileEntry>)
    requires pieceLength > 0 && V1Part(source, pieceLength, true, entries)
    ensures Recorded(entries, source.Subs()) == AlignedConcat(source.Subs(), pieceLength)
  {
    PaddedEntriesAlign(source.Subs(), pieceLength);
  }

  /** Padded (hybrid, several files): the listed lengths fill the pieces exactly. */
  lemma PaddedLengthsFillPieces(sha1: Hash, source: Source, pieceLength: nat, entries: seq<FileEntry>)
    requires pieceLength > 0 && V1Part(source, pieceLength, true, entries)
    ensures TotalLength(entries) == pieceLength * |BlockHashes(sha1, Recorded(entries, source.Subs()), pieceLength)|
  {
    ExactPieces(TotalLength(entries), pieceLength);
  }

  /** Unpadded: one record per file, and the stream is the concatenation of the files. */
  lemma UnpaddedIsConcat(source: Source, pieceLength: nat, entries: seq<FileEntry>)
    requires pieceLength > 0 && V1Part(source, pieceLength, false, entries)
    ensures entries == RealEntries(source.Subs())
    ensures |entries| == |source.Subs()|
    ensures forall i :: 0 <= i < |entries| ==> entries[i] == Real(|source.Subs()[i].content|, source.Subs()[i].path)
    ensures Recorded(entries, source.Subs()) == Concat(source.Subs())
  {
    RealsWithoutPads(entries);
    RecordedWithoutPads(entries, source.Subs());
  }
}
