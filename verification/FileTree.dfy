/**
  The file trees the clients show: for v1 torrents built from the list of
  paths, with directory sizes added up file by file; for v2 torrents copied
  from the metadata's nested dictionaries.
 */
module FileTree {
  import opened Bytes
  import opened Wrappers

  /** A path is the list of its names; a name is known only by its identity. */
  type Name = nat
  type Path = seq<Name>

  /** A directory's contents, by name, in the order they were inserted. */
  datatype Items<T> = Nil | Cons(name: Name, node: T, rest: Items<T>)

  datatype Node = File | Dir(items: Items<Node>)

  function Find(items: Items<Node>, n: Name): Option<Node> {
    if items.Nil? then None else if items.name == n then Some(items.node) else Find(items.rest, n)
  }

  /** contents[n] = x */
  function SetItem(items: Items<Node>, n: Name, x: Node): Items<Node> {
    if items.Nil? then Cons(n, x, Nil)
    else if items.name == n then Cons(n, x, items.rest)
    else Cons(items.name, items.node, SetItem(items.rest, n, x))
  }

  function Lookup(t: Node, q: Path): Option<Node>
    decreases |q|
  {
    if q == [] then Some(t)
    else if t.File? then None
    else
      match Find(t.items, q[0])
      case None => None
      case Some(child) => Lookup(child, q[1..])
  }

  /** Where no name on the way is a file. */
  predicate CanInsert(t: Node, p: Path)
    decreases |p|
  {
    t.Dir? && p != [] &&
    (|p| == 1 ||
     match Find(t.items, p[0])
     case None => true
     case Some(child) => CanInsert(child, p[1..]))
  }

  lemma {:induction false} EmptyCanInsert(p: Path)
    requires p != []
    ensures CanInsert(Dir(Nil), p)
  {
  }

  /** Walk down, making directories, and put the file into the last one. */
  function Insert(t: Node, p: Path): (r: Node)
    requires CanInsert(t, p)
    ensures r.Dir?
    decreases |p|
  {
    if |p| == 1 then Dir(SetItem(t.items, p[0], File))
    else
      var child := Find(t.items, p[0]);
      assert CanInsert(Dir(Nil), p[1..]) by { EmptyCanInsert(p[1..]); }
      Dir(SetItem(t.items, p[0], Insert(if child.Some? then child.value else Dir(Nil), p[1..])))
  }

  lemma {:induction false} FindSet(items: Items<Node>, n: Name, x: Node, m: Name)
    ensures Find(SetItem(items, n, x), m) == if m == n then Some(x) else Find(items, m)
    decreases items
  {
    if items.Cons? && items.name != n {
      FindSet(items.rest, n, x, m);
    }
  }

  /** The names of a directory, in the order they are shown. */
  ghost function Names(items: Items<Node>): seq<Name> {
    if items.Nil? then [] else [items.name] + Names(items.rest)
  }

  /** A name that is there keeps its place, a new one comes last. */
  lemma {:induction false} SetItemNames(items: Items<Node>, n: Name, x: Node)
    ensures Names(SetItem(items, n, x)) == if n in Names(items) then Names(items) else Names(items) + [n]
    decreases items
  {
    if items.Cons? && items.name != n {
      SetItemNames(items.rest, n, x);
      assert [items.name] + Names(items.rest) + [n] == [items.name] + (Names(items.rest) + [n]);
    }
  }

  /** An insertion shows at its path, leaves nothing below it, extends the directories above it, and changes nothing else. */
  lemma {:induction false} LookupInsert(t: Node, p: Path, q: Path)
    requires CanInsert(t, p)
    ensures q == p ==> Lookup(Insert(t, p), q) == Some(File)
    ensures q < p ==>
      var below := if Lookup(t, q).Some? then Lookup(t, q).value else Dir(Nil);
      CanInsert(below, p[|q|..]) && Lookup(Insert(t, p), q) == Some(Insert(below, p[|q|..]))
    ensures p < q ==> Lookup(Insert(t, p), q) == None
    ensures !(q <= p) && !(p <= q) ==> Lookup(Insert(t, p), q) == Lookup(t, q)
    decreases |p|
  {
    if q == [] {
      assert p[0..] == p;
    } else if |p| == 1 {
      FindSet(t.items, p[0], File, q[0]);
      SameFirst(p, q);
    } else {
      InsertBelow(t, p, q);
      SameFirst(p, q);
      if q[0] == p[0] {
        var child := ChildOf(t, p[0]);
        hide Insert, CanInsert, Find, SetItem;
        LookupInsert(child, p[1..], q[1..]);
        LookupEmpty(q[1..]);
        if q < p {
          assert p[1..][|q| - 1..] == p[|q|..];
        }
      }
    }
  }

  /** The directory a walk goes down to, made if it is missing. */
  function ChildOf(t: Node, name: Name): Node
    requires t.Dir?
  {
    if Find(t.items, name).Some? then Find(t.items, name).value else Dir(Nil)
  }

  lemma InsertBelow(t: Node, p: Path, q: Path)
    requires CanInsert(t, p) && |p| > 1 && q != []
    ensures CanInsert(ChildOf(t, p[0]), p[1..])
    ensures q[0] == p[0] ==>
      && Lookup(Insert(t, p), q) == Lookup(Insert(ChildOf(t, p[0]), p[1..]), q[1..])
      && Lookup(t, q) == if Find(t.items, p[0]).Some? then Lookup(ChildOf(t, p[0]), q[1..]) else None
    ensures q[0] != p[0] ==> Lookup(Insert(t, p), q) == Lookup(t, q)
  {
    EmptyCanInsert(p[1..]);
    FindSet(t.items, p[0], Insert(ChildOf(t, p[0]), p[1..]), q[0]);
  }

  lemma SameFirst(p: Path, q: Path)
    requires p != [] && q != []
    ensures q[0] != p[0] ==> !(q <= p) && !(p <= q)
    ensures q[0] == p[0] ==>
      && (q <= p <==> q[1..] <= p[1..]) && (p <= q <==> p[1..] <= q[1..])
      && (q < p <==> q[1..] < p[1..]) && (p < q <==> p[1..] < q[1..]) && (q == p <==> q[1..] == p[1..])
  {
    assert q == [q[0]] + q[1..] && p == [p[0]] + p[1..];
  }

  lemma LookupEmpty(q: Path)
    ensures q != [] ==> Lookup(Dir(Nil), q) == None
  {
  }

  /** What is missing at a path is missing below it. */
  lemma {:induction false} LookupBeyond(t: Node, p: Path, q: Path)
    requires p <= q && Lookup(t, p) == None
    ensures Lookup(t, q) == None
    decreases |p|
  {
    if p != [] && t.Dir? && Find(t.items, p[0]).Some? {
      LookupBeyond(Find(t.items, p[0]).value, p[1..], q[1..]);
    }
  }

  // ---------------------------------------------------------------- sizes

  /** The length of everything below a node, for the lengths `w` of files by full path. */
  ghost function TreeLength(t: Node, at: Path, w: Path -> nat): nat
    decreases t
  {
    match t
    case File => w(at)
    case Dir(items) => ItemsLength(items, at, w)
  }

  ghost function ItemsLength(items: Items<Node>, at: Path, w: Path -> nat): nat
    decreases items
  {
    if items.Nil? then 0
    else TreeLength(items.node, at + [items.name], w) + ItemsLength(items.rest, at, w)
  }

  ghost function LengthOf(child: Option<Node>, at: Path, w: Path -> nat): nat {
    if child.Some? then TreeLength(child.value, at, w) else 0
  }

  lemma {:induction false} SetLength(items: Items<Node>, n: Name, x: Node, at: Path, w: Path -> nat)
    ensures ItemsLength(SetItem(items, n, x), at, w) + LengthOf(Find(items, n), at + [n], w)
         == ItemsLength(items, at, w) + TreeLength(x, at + [n], w)
    decreases items
  {
    if items.Cons? && items.name != n {
      SetLength(items.rest, n, x, at, w);
    }
  }

  lemma {:induction false} InsertLength(t: Node, p: Path, at: Path, w: Path -> nat)
    requires CanInsert(t, p) && Lookup(t, p) == None
    ensures TreeLength(Insert(t, p), at, w) == TreeLength(t, at, w) + w(at + p)
    decreases |p|
  {
    if |p| == 1 {
      SetLength(t.items, p[0], File, at, w);
      assert p == [p[0]];
    } else {
      var child := Find(t.items, p[0]);
      var below := if child.Some? then child.value else Dir(Nil);
      EmptyCanInsert(p[1..]);
      LookupEmpty(p[1..]);
      InsertLength(below, p[1..], at + [p[0]], w);
      SetLength(t.items, p[0], Insert(below, p[1..]), at, w);
      assert at + [p[0]] + p[1..] == at + p;
    }
  }

  // ---------------------------------------------------------------- v1: building the tree

  datatype Entry = Entry(path: Path, length: nat)

  /** Distinct paths, and no file that is also a directory. */
  ghost predicate PlainFiles(files: seq<Entry>) {
    && (forall i :: 0 <= i < |files| ==> files[i].path != [])
    && forall i, j :: 0 <= i < |files| && 0 <= j < |files| && i != j ==> !(files[i].path <= files[j].path)
  }

  ghost predicate IsFile(files: seq<Entry>, q: Path) { exists i :: 0 <= i < |files| && files[i].path == q }

  ghost predicate IsDirectory(files: seq<Entry>, q: Path) { exists i :: 0 <= i < |files| && q < files[i].path }

  /** The sum of the files' lengths below q. */
  ghost function Below(files: seq<Entry>, q: Path): nat {
    if files == [] then 0
    else
      var last := files[|files| - 1];
      Below(files[..|files| - 1], q) + (if q < last.path then last.length else 0)
  }

  ghost predicate Weighs(files: seq<Entry>, w: Path -> nat) {
    forall i :: 0 <= i < |files| ==> w(files[i].path) == files[i].length
  }

  /** What the tree holds at q: a leaf exactly for a file, a directory with the right sum exactly for a parent. */
  ghost predicate ShownAt(t: Node, files: seq<Entry>, w: Path -> nat, q: Path) {
    var at := Lookup(t, q);
    && (at == Some(File) <==> IsFile(files, q))
    && (at.Some? && at.value.Dir? <==> IsDirectory(files, q))
    && (at.Some? && at.value.Dir? ==> TreeLength(at.value, q, w) == Below(files, q))
  }

  ghost predicate Shows(t: Node, files: seq<Entry>, w: Path -> nat) {
    t.Dir? && forall q :: q != [] ==> ShownAt(t, files, w, q)
  }

  lemma {:induction false} CanInsertWhen(t: Node, p: Path)
    requires t.Dir? && p != []
    requires forall q :: q != [] && q < p ==> Lookup(t, q) != Some(File)
    ensures CanInsert(t, p)
    decreases |p|
  {
    if |p| > 1 {
      var child := Find(t.items, p[0]);
      if child.Some? {
        assert [p[0]] < p && Lookup(t, [p[0]]) == Some(child.value) by {
          assert [p[0]][1..] == [];
        }
        forall q | q != [] && q < p[1..]
          ensures Lookup(child.value, q) != Some(File)
        {
          assert ([p[0]] + q)[1..] == q && [p[0]] + q < p;
          assert Lookup(t, [p[0]] + q) == Lookup(child.value, q);
        }
        CanInsertWhen(child.value, p[1..]);
      }
    }
  }

  /** No path of a plain list lies at, above or below another one. */
  lemma Unrelated(files: seq<Entry>, f: Entry, i: nat)
    requires PlainFiles(files + [f]) && i < |files|
    ensures !(files[i].path <= f.path) && !(f.path <= files[i].path)
  {
    var all := files + [f];
    assert all[i] == files[i] && all[|files|] == f;
  }

  /** A new plain file finds only directories on its way, and nothing at its own path. */
  lemma NextFits(t: Node, files: seq<Entry>, f: Entry, w: Path -> nat)
    requires PlainFiles(files + [f]) && Shows(t, files, w)
    ensures CanInsert(t, f.path) && Lookup(t, f.path) == None
  {
    assert (files + [f])[|files|] == f;
    forall i | 0 <= i < |files|
      ensures !(files[i].path <= f.path) && !(f.path <= files[i].path)
    {
      Unrelated(files, f, i);
    }
    forall q | q != [] && q < f.path
      ensures Lookup(t, q) != Some(File)
    {
      assert ShownAt(t, files, w, q);
    }
    CanInsertWhen(t, f.path);
    assert ShownAt(t, files, w, f.path);
  }

  lemma BelowNone(files: seq<Entry>, q: Path)
    requires !IsDirectory(files, q)
    ensures Below(files, q) == 0
    decreases |files|
  {
    if files != [] {
      var n := |files| - 1;
      assert files == files[..n] + [files[n]];
      MembersSnoc(files[..n], files[n], q);
      BelowNone(files[..n], q);
    }
  }

  lemma InsertShows(t: Node, files: seq<Entry>, f: Entry, w: Path -> nat)
    requires PlainFiles(files + [f]) && Shows(t, files, w) && w(f.path) == f.length
    ensures CanInsert(t, f.path) && Shows(Insert(t, f.path), files + [f], w)
  {
    NextFits(t, files, f, w);
    forall q | q != []
      ensures ShownAt(Insert(t, f.path), files + [f], w, q)
    {
      assert ShownAt(t, files, w, q);
      ShownAtSnoc(t, files, f, w, q);
    }
  }

  lemma MembersSnoc(files: seq<Entry>, f: Entry, q: Path)
    ensures IsFile(files + [f], q) <==> IsFile(files, q) || f.path == q
    ensures IsDirectory(files + [f], q) <==> IsDirectory(files, q) || q < f.path
    ensures Below(files + [f], q) == Below(files, q) + (if q < f.path then f.length else 0)
  {
    FilesSnoc(files, f, q);
    DirectoriesSnoc(files, f, q);
    assert (files + [f])[..|files|] == files;
  }

  lemma FilesSnoc(files: seq<Entry>, f: Entry, q: Path)
    ensures IsFile(files + [f], q) <==> IsFile(files, q) || f.path == q
  {
    var all := files + [f];
    assert all[|files|] == f;
    if IsFile(files, q) {
      var i :| 0 <= i < |files| && files[i].path == q;
      assert all[i].path == q;
    }
    if IsFile(all, q) {
      var i :| 0 <= i < |all| && all[i].path == q;
      assert i < |files| ==> files[i].path == q;
    }
  }

  lemma DirectoriesSnoc(files: seq<Entry>, f: Entry, q: Path)
    ensures IsDirectory(files + [f], q) <==> IsDirectory(files, q) || q < f.path
  {
    var all := files + [f];
    assert all[|files|] == f;
    if IsDirectory(files, q) {
      var i :| 0 <= i < |files| && q < files[i].path;
      assert q < all[i].path;
    }
    if IsDirectory(all, q) {
      var i :| 0 <= i < |all| && q < all[i].path;
      assert i < |files| ==> q < files[i].path;
    }
  }

  lemma ShownAtSnoc(t: Node, files: seq<Entry>, f: Entry, w: Path -> nat, q: Path)
    requires PlainFiles(files + [f]) && ShownAt(t, files, w, q) && w(f.path) == f.length && q != []
    requires CanInsert(t, f.path) && Lookup(t, f.path) == None
    ensures ShownAt(Insert(t, f.path), files + [f], w, q)
  {
    hide CanInsert, Insert, TreeLength, Below, IsFile, IsDirectory, PlainFiles;
    MembersSnoc(files, f, q);
    if q < f.path {
      ShownAtParent(t, files, f, w, q);
    } else {
      LookupInsert(t, f.path, q);
      if f.path < q {
        LookupBeyond(t, f.path, q);
      }
    }
  }

  lemma ShownAtParent(t: Node, files: seq<Entry>, f: Entry, w: Path -> nat, q: Path)
    requires PlainFiles(files + [f]) && ShownAt(t, files, w, q) && w(f.path) == f.length && q != [] && q < f.path
    requires CanInsert(t, f.path) && Lookup(t, f.path) == None
    ensures ShownAt(Insert(t, f.path), files + [f], w, q)
  {
    var p := f.path;
    NoFileAbove(files, f, q);
    assert TreeLength(Dir(Nil), q, w) == 0;
    hide CanInsert, Insert, Below, IsFile, IsDirectory, PlainFiles, TreeLength, Lookup;
    MembersSnoc(files, f, q);
    var below := ParentGrows(t, p, q, w);
    if !IsDirectory(files, q) {
      BelowNone(files, q);
    }
  }

  /** A parent of the inserted path is a directory afterwards, longer by the file. */
  lemma ParentGrows(t: Node, p: Path, q: Path, w: Path -> nat) returns (below: Node)
    requires CanInsert(t, p) && Lookup(t, p) == None && q < p
    ensures below == if Lookup(t, q).Some? then Lookup(t, q).value else Dir(Nil)
    ensures below.Dir?
    ensures var r := Lookup(Insert(t, p), q);
      r.Some? && r.value.Dir? && TreeLength(r.value, q, w) == TreeLength(below, q, w) + w(p)
  {
    below := if Lookup(t, q).Some? then Lookup(t, q).value else Dir(Nil);
    LookupInsert(t, p, q);
    hide Lookup, Insert, TreeLength;
    LookupBelow(t, p, q);
    InsertLength(below, p[|q|..], q, w);
    assert q + p[|q|..] == p;
  }

  lemma NoFileAbove(files: seq<Entry>, f: Entry, q: Path)
    requires PlainFiles(files + [f]) && q < f.path
    ensures !IsFile(files + [f], q)
  {
    var all := files + [f];
    assert all[|files|] == f;
  }

  /** What is missing at a path is missing from the directory on the way to it. */
  lemma {:induction false} LookupBelow(t: Node, p: Path, q: Path)
    requires q <= p && Lookup(t, p) == None
    ensures Lookup(t, q).Some? ==> Lookup(Lookup(t, q).value, p[|q|..]) == None
    ensures q < p ==> Lookup(Dir(Nil), p[|q|..]) == None
    decreases |q|
  {
    if q == [] {
      assert p[0..] == p;
    } else if t.Dir? && Find(t.items, q[0]).Some? {
      LookupBelow(Find(t.items, q[0]).value, p[1..], q[1..]);
      assert p[1..][|q| - 1..] == p[|q|..];
    }
  }

  // ---------------------------------------------------------------- v1: any list of paths

  /** At or above p lies a file. */
  ghost predicate Covered(t: Node, p: Path) {
    exists q :: q != [] && q <= p && Lookup(t, q) == Some(File)
  }

  /** Every leaf is one of the files, and every file is a leaf or has since been covered by one. */
  ghost predicate Holds(t: Node, files: seq<Entry>) {
    && t.Dir?
    && (forall q :: q != [] && Lookup(t, q) == Some(File) ==> IsFile(files, q))
    && forall i :: 0 <= i < |files| ==> Covered(t, files[i].path)
  }

  lemma {:induction false} CanInsertOnly(t: Node, p: Path, q: Path)
    requires CanInsert(t, p) && q != [] && q < p
    ensures Lookup(t, q) != Some(File)
    decreases |p|
  {
    var child := Find(t.items, p[0]);
    if child.Some? {
      if |q| == 1 {
        assert q[1..] == [];
      } else {
        CanInsertOnly(child.value, p[1..], q[1..]);
      }
    }
  }

  /** A path can be inserted exactly when no earlier file lies above it. */
  lemma CanInsertIff(t: Node, files: seq<Entry>, p: Path)
    requires Holds(t, files) && p != []
    ensures CanInsert(t, p) <==> forall i :: 0 <= i < |files| ==> !(files[i].path < p)
  {
    hide CanInsert, Lookup;
    if CanInsert(t, p) {
      forall i | 0 <= i < |files|
        ensures !(files[i].path < p)
      {
        assert Covered(t, files[i].path);
        if files[i].path < p {
          var q :| q != [] && q <= files[i].path && Lookup(t, q) == Some(File);
          CanInsertOnly(t, p, q);
        }
      }
    } else if forall i :: 0 <= i < |files| ==> !(files[i].path < p) {
      CanInsertWhen(t, p);
    }
  }

  lemma InsertHolds(t: Node, files: seq<Entry>, f: Entry)
    requires Holds(t, files) && CanInsert(t, f.path)
    ensures Holds(Insert(t, f.path), files + [f])
  {
    hide CanInsert, Lookup, Insert;
    var r, all := Insert(t, f.path), files + [f];
    LookupInsert(t, f.path, f.path);
    NotEmpty(t, f.path);
    forall q | q != [] && Lookup(r, q) == Some(File)
      ensures IsFile(all, q)
    {
      FilesSnoc(files, f, q);
      LookupInsert(t, f.path, q);
    }
    forall i | 0 <= i < |all|
      ensures Covered(r, all[i].path)
    {
      if i < |files| {
        assert Covered(t, files[i].path);
        var q :| q != [] && q <= files[i].path && Lookup(t, q) == Some(File);
        LookupInsert(t, f.path, q);
        if q < f.path {
          CanInsertOnly(t, f.path, q);
        }
        assert Lookup(r, if f.path <= q then f.path else q) == Some(File);
      } else {
        assert Lookup(r, f.path) == Some(File);
      }
    }
  }

  lemma NotEmpty(t: Node, p: Path)
    requires CanInsert(t, p)
    ensures p != [] && Insert(t, p).Dir?
  {
  }

  /** FileTree2(paths); None where a path leads through a file, which raises. */
  method BuildTree(files: seq<Entry>, ghost w: Path -> nat) returns (t: Option<Node>)
    requires forall i :: 0 <= i < |files| ==> files[i].path != []
    ensures t.None? <==> exists i, j :: 0 <= i < j < |files| && files[i].path < files[j].path
    ensures t.Some? ==> Holds(t.value, files)
    ensures PlainFiles(files) && Weighs(files, w) ==> t.Some? && Shows(t.value, files, w)
  {
    hide CanInsert, Insert, Shows, Holds, PlainFiles;
    var root := Dir(Nil);
    var i := 0;
    assert files[..0] == [];
    EmptyHolds();
    EmptyShows(w);
    while i < |files|
      invariant 0 <= i <= |files| && Holds(root, files[..i])
      invariant forall k, j :: 0 <= k < j < i ==> !(files[k].path < files[j].path)
      invariant PlainFiles(files) && Weighs(files, w) ==> Shows(root, files[..i], w)
    {
      assert files[..i + 1] == files[..i] + [files[i]];
      CanInsertIff(root, files[..i], files[i].path);
      if !CanInsert(root, files[i].path) {
        BlockedNotPlain(files, i);
        return None;
      }
      InsertHolds(root, files[..i], files[i]);
      if PlainFiles(files) && Weighs(files, w) {
        PlainPrefix(files, i + 1);
        InsertShows(root, files[..i], files[i], w);
      }
      root := Insert(root, files[i].path);
      i := i + 1;
    }
    assert files[..i] == files;
    t := Some(root);
  }

  lemma BlockedNotPlain(files: seq<Entry>, i: nat)
    requires i < |files| && exists k :: 0 <= k < i && files[..i][k].path < files[i].path
    ensures exists k, j :: 0 <= k < j < |files| && files[k].path < files[j].path
    ensures !PlainFiles(files)
  {
    var k :| 0 <= k < i && files[..i][k].path < files[i].path;
    assert files[k].path < files[i].path;
  }

  lemma PlainPrefix(files: seq<Entry>, n: nat)
    requires PlainFiles(files) && n <= |files|
    ensures PlainFiles(files[..n])
  {
  }

  lemma EmptyHolds()
    ensures Holds(Dir(Nil), [])
  {
    forall q | q != []
      ensures Lookup(Dir(Nil), q) == None
    {
      LookupEmpty(q);
    }
  }

  lemma EmptyShows(w: Path -> nat)
    ensures Shows(Dir(Nil), [], w)
  {
    forall q | q != []
      ensures ShownAt(Dir(Nil), [], w, q)
    {
      LookupEmpty(q);
    }
  }

  // ---------------------------------------------------------------- v1: sizes by walking up

  /** dirs: each directory's length so far. */
  ghost predicate Accumulated(dirs: map<Path, nat>, files: seq<Entry>) {
    && (forall q :: q in dirs <==> q != [] && IsDirectory(files, q))
    && forall q :: q in dirs ==> dirs[q] == Below(files, q)
  }

  /** Add a file's length to its parent, the parent's parent, and so on. */
  method AddToParents(dirs: map<Path, nat>, f: Entry) returns (r: map<Path, nat>)
    requires f.path != []
    ensures forall q :: q in r <==> q in dirs || (q != [] && q < f.path)
    ensures forall q :: q in r ==>
      r[q] == (if q in dirs then dirs[q] else 0) + (if q != [] && q < f.path then f.length else 0)
  {
    r := dirs;
    var dirname := f.path[..|f.path| - 1];
    while dirname != []
      invariant dirname < f.path
      invariant forall q :: q in r <==> q in dirs || (q != [] && q < f.path && |q| > |dirname|)
      invariant forall q :: q in r ==>
        r[q] == (if q in dirs then dirs[q] else 0) + (if q != [] && q < f.path && |q| > |dirname| then f.length else 0)
      decreases |dirname|
    {
      forall q | q < f.path && |q| == |dirname|
        ensures q == dirname
      {
        assert q == f.path[..|q|] && dirname == f.path[..|dirname|];
      }
      var info := if dirname in r then r[dirname] else 0;
      r := r[dirname := info + f.length];
      dirname := dirname[..|dirname| - 1];
    }
  }

  method AccumulateDirs(files: seq<Entry>) returns (dirs: map<Path, nat>)
    requires forall i :: 0 <= i < |files| ==> files[i].path != []
    ensures Accumulated(dirs, files)
  {
    dirs := map[];
    var i := 0;
    assert files[..0] == [];
    assert Accumulated(dirs, files[..0]);
    hide Accumulated, IsDirectory, Below;
    while i < |files|
      invariant 0 <= i <= |files|
      invariant Accumulated(dirs, files[..i])
    {
      assert files[..i + 1] == files[..i] + [files[i]];
      var before := dirs;
      dirs := AddToParents(dirs, files[i]);
      AccumulatedSnoc(before, dirs, files[..i], files[i]);
      i := i + 1;
    }
    assert files[..i] == files;
  }

  lemma AccumulatedSnoc(before: map<Path, nat>, dirs: map<Path, nat>, files: seq<Entry>, f: Entry)
    requires Accumulated(before, files)
    requires forall q :: q in dirs <==> q in before || (q != [] && q < f.path)
    requires forall q :: q in dirs ==>
      dirs[q] == (if q in before then before[q] else 0) + (if q != [] && q < f.path then f.length else 0)
    ensures Accumulated(dirs, files + [f])
  {
    forall q: Path
      ensures q in dirs <==> q != [] && IsDirectory(files + [f], q)
      ensures q in dirs ==> dirs[q] == Below(files + [f], q)
    {
      MembersSnoc(files, f, q);
      if q in dirs && q !in before {
        BelowNone(files, q);
      }
    }
  }

  /** The size shown for a directory, added up file by file, is the sum over the tree below it. */
  lemma DirSizesAreTreeSums(t: Node, files: seq<Entry>, w: Path -> nat, dirs: map<Path, nat>, q: Path)
    requires Shows(t, files, w) && Accumulated(dirs, files) && q != []
    ensures q in dirs <==> Lookup(t, q).Some? && Lookup(t, q).value.Dir?
    ensures q in dirs ==> dirs[q] == TreeLength(Lookup(t, q).value, q, w)
  {
    assert ShownAt(t, files, w, q);
  }

  // ---------------------------------------------------------------- v2

  /** The metadata's file tree. */
  datatype Meta = MetaFile(length: nat) | MetaDir(items: Items<Meta>)

  /** The tree shown: files numbered, directories with their length. */
  datatype Shown = ShownFile(index: nat, length: nat) | ShownDir(length: nat, contents: Items<Shown>)

  /** The files of a directory with their paths, depth first. */
  ghost function MetaFiles(items: Items<Meta>, at: Path): seq<(Path, nat)>
    decreases items
  {
    if items.Nil? then []
    else
      (match items.node
       case MetaFile(length) => [(at + [items.name], length)]
       case MetaDir(below) => MetaFiles(below, at + [items.name]))
      + MetaFiles(items.rest, at)
  }

  ghost function ShownFiles(items: Items<Shown>, at: Path): seq<(Path, nat, nat)>
    decreases items
  {
    if items.Nil? then []
    else
      (match items.node
       case ShownFile(index, length) => [(at + [items.name], index, length)]
       case ShownDir(_, below) => ShownFiles(below, at + [items.name]))
      + ShownFiles(items.rest, at)
  }

  ghost function EntryFiles(name: Name, item: Meta, at: Path): seq<(Path, nat)> {
    match item
    case MetaFile(length) => [(at + [name], length)]
    case MetaDir(below) => MetaFiles(below, at + [name])
  }

  ghost function ShownEntryFiles(name: Name, item: Shown, at: Path): seq<(Path, nat, nat)> {
    match item
    case ShownFile(index, length) => [(at + [name], index, length)]
    case ShownDir(_, below) => ShownFiles(below, at + [name])
  }

  ghost predicate EntryRight(item: Shown, meta: Meta) {
    match (item, meta)
    case (ShownFile(_, length), MetaFile(l)) => length == l
    case (ShownDir(length, contents), MetaDir(below)) =>
      LengthsRight(contents, below) && length == SumLengths(MetaFiles(below, []))
    case _ => false
  }

  ghost function SumLengths(files: seq<(Path, nat)>): nat {
    if files == [] then 0 else files[0].1 + SumLengths(files[1..])
  }

  lemma SumOfOne(path: Path, length: nat)
    ensures SumLengths([(path, length)]) == length && SumLengths([]) == 0
  {
    assert SumLengths([(path, length)][..0]) == 0;
  }

  lemma {:induction false} SumConcat(a: seq<(Path, nat)>, b: seq<(Path, nat)>)
    ensures SumLengths(a + b) == SumLengths(a) + SumLengths(b)
    decreases |a|
  {
    if a == [] {
      assert a + b == b;
    } else {
      assert (a + b)[1..] == a[1..] + b;
      SumConcat(a[1..], b);
    }
  }

  /** The shown files are the metadata's files, numbered on from `index`. */
  ghost predicate Numbered(shown: seq<(Path, nat, nat)>, files: seq<(Path, nat)>, index: nat) {
    |shown| == |files|
    && forall i :: 0 <= i < |files| ==> shown[i] == (files[i].0, index + i, files[i].1)
  }

  /** Every directory's length is the sum of the files below it. */
  ghost predicate LengthsRight(items: Items<Shown>, metas: Items<Meta>)
    decreases items
  {
    if items.Nil? || metas.Nil? then items.Nil? && metas.Nil?
    else
      && items.name == metas.name
      && (match (items.node, metas.node)
          case (ShownFile(_, length), MetaFile(l)) => length == l
          case (ShownDir(length, contents), MetaDir(below)) =>
            LengthsRight(contents, below) && length == SumLengths(MetaFiles(below, []))
          case _ => false)
      && LengthsRight(items.rest, metas.rest)
  }

  lemma {:induction false} SumIgnoresPrefix(items: Items<Meta>, a: Path, b: Path)
    ensures SumLengths(MetaFiles(items, a)) == SumLengths(MetaFiles(items, b))
    decreases items
  {
    if items.Cons? {
      SumIgnoresPrefix(items.rest, a, b);
      var x, y := MetaFiles(items.rest, a), MetaFiles(items.rest, b);
      match items.node
      case MetaFile(length) =>
        SumConcat([(a + [items.name], length)], x);
        SumConcat([(b + [items.name], length)], y);
        assert SumLengths([(a + [items.name], length)]) == length == SumLengths([(b + [items.name], length)]);
      case MetaDir(below) =>
        SumIgnoresPrefix(below, a + [items.name], b + [items.name]);
        SumConcat(MetaFiles(below, a + [items.name]), x);
        SumConcat(MetaFiles(below, b + [items.name]), y);
    }
  }

  /** d[name] = node for a name that is not there: it goes to the end. */
  function Append<T>(items: Items<T>, name: Name, node: T): Items<T> {
    if items.Nil? then Cons(name, node, Nil) else Cons(items.name, items.node, Append(items.rest, name, node))
  }

  function Joined<T>(a: Items<T>, b: Items<T>): Items<T> {
    if a.Nil? then b else Cons(a.name, a.node, Joined(a.rest, b))
  }

  lemma {:induction false} JoinedStep<T>(a: Items<T>, b: Items<T>)
    ensures b.Cons? ==> Joined(Append(a, b.name, b.node), b.rest) == Joined(a, b)
    ensures Joined(a, Nil) == a
    decreases a
  {
    if a.Cons? {
      JoinedStep(a.rest, b);
    }
  }

  lemma {:induction false} MetaFilesAppend(items: Items<Meta>, name: Name, item: Meta, at: Path)
    ensures MetaFiles(Append(items, name, item), at) == MetaFiles(items, at) + EntryFiles(name, item, at)
    decreases items
  {
    if items.Cons? {
      MetaFilesAppend(items.rest, name, item, at);
      Associative(EntryFiles(items.name, items.node, at), MetaFiles(items.rest, at), EntryFiles(name, item, at));
    }
  }

  lemma {:induction false} ShownFilesAppend(items: Items<Shown>, name: Name, item: Shown, at: Path)
    ensures ShownFiles(Append(items, name, item), at) == ShownFiles(items, at) + ShownEntryFiles(name, item, at)
    decreases items
  {
    if items.Cons? {
      ShownFilesAppend(items.rest, name, item, at);
      Associative(ShownEntryFiles(items.name, items.node, at), ShownFiles(items.rest, at), ShownEntryFiles(name, item, at));
    }
  }

  lemma {:induction false} LengthsRightAppend(contents: Items<Shown>, items: Items<Meta>, name: Name, shown: Shown, item: Meta)
    requires LengthsRight(contents, items) && EntryRight(shown, item)
    ensures LengthsRight(Append(contents, name, shown), Append(items, name, item))
    decreases contents
  {
    if contents.Cons? {
      LengthsRightAppend(contents.rest, items.rest, name, shown, item);
    }
  }

  lemma NumberedConcat(a: seq<(Path, nat, nat)>, x: seq<(Path, nat)>, b: seq<(Path, nat, nat)>, y: seq<(Path, nat)>, index: nat)
    requires Numbered(a, x, index) && Numbered(b, y, index + |x|)
    ensures Numbered(a + b, x + y, index)
  {
  }

  /** The copy of the entries `items`, which hold the files from `index0` up to `index`. */
  ghost predicate Copied(contents: Items<Shown>, items: Items<Meta>, at: Path, index0: nat, index: nat, total: nat) {
    && index == index0 + |MetaFiles(items, at)|
    && total == SumLengths(MetaFiles(items, at))
    && LengthsRight(contents, items)
    && Numbered(ShownFiles(contents, at), MetaFiles(items, at), index0)
  }

  lemma CopiedAppend(contents: Items<Shown>, items: Items<Meta>, at: Path, index0: nat, index: nat, total: nat,
                     name: Name, shown: Shown, item: Meta)
    requires Copied(contents, items, at, index0, index, total) && EntryRight(shown, item)
    requires Numbered(ShownEntryFiles(name, shown, at), EntryFiles(name, item, at), index)
    ensures Copied(Append(contents, name, shown), Append(items, name, item), at, index0,
                   index + |EntryFiles(name, item, at)|, total + SumLengths(EntryFiles(name, item, at)))
  {
    hide LengthsRight, EntryRight, Append, SumLengths, MetaFiles, ShownFiles, EntryFiles, ShownEntryFiles, Numbered;
    MetaFilesAppend(items, name, item, at);
    ShownFilesAppend(contents, name, shown, at);
    LengthsRightAppend(contents, items, name, shown, item);
    SumConcat(MetaFiles(items, at), EntryFiles(name, item, at));
    NumberedConcat(ShownFiles(contents, at), MetaFiles(items, at), ShownEntryFiles(name, shown, at),
      EntryFiles(name, item, at), index0);
  }

  /** get_parent: one loop over a directory, handing the running file index down and back up. */
  method CopyTree(items: Items<Meta>, index0: nat, ghost at: Path)
    returns (contents: Items<Shown>, index: nat, total: nat)
    ensures Copied(contents, items, at, index0, index, total)
    decreases items
  {
    hide Copied, Numbered, EntryRight, SumLengths, EntryFiles, ShownEntryFiles;
    var left := items;
    contents, index, total := Nil, index0, 0;
    ghost var done := Nil;
    NothingCopied(at, index0);
    while left.Cons?
      invariant left == items || left < items
      invariant Joined(done, left) == items
      invariant Copied(contents, done, at, index0, index, total)
      decreases left
    {
      var shown, next, length := CopyEntry(left.name, left.node, index, at);
      CopiedAppend(contents, done, at, index0, index, total, left.name, shown, left.node);
      JoinedStep(done, left);
      contents := Append(contents, left.name, shown);
      done := Append(done, left.name, left.node);
      index, total := next, total + length;
      left := left.rest;
    }
    JoinedStep(done, left);
  }

  lemma NothingCopied(at: Path, index0: nat)
    ensures Copied(Nil, Nil, at, index0, index0, 0)
  {
  }

  /** One entry of a directory. */
  method CopyEntry(name: Name, item: Meta, index0: nat, ghost at: Path) returns (r: Shown, index: nat, length: nat)
    ensures index == index0 + |EntryFiles(name, item, at)|
    ensures length == SumLengths(EntryFiles(name, item, at))
    ensures EntryRight(r, item)
    ensures Numbered(ShownEntryFiles(name, r, at), EntryFiles(name, item, at), index0)
    decreases item
  {
    match item
    case MetaFile(l) =>
      r, index, length := ShownFile(index0, l), index0 + 1, l;
      assert EntryFiles(name, item, at)[1..] == [];
    case MetaDir(below) =>
      var inner;
      inner, index, length := CopyTree(below, index0, at + [name]);
      SumIgnoresPrefix(below, at + [name], []);
      r := ShownDir(length, inner);
  }

  /** FileTree2BTv2(file_tree): the files are numbered 0, 1, 2, ... in depth-first order and every sum is right. */
  method CopyMetadata(fileTree: Items<Meta>) returns (tree: Items<Shown>)
    ensures Numbered(ShownFiles(tree, []), MetaFiles(fileTree, []), 0)
    ensures LengthsRight(tree, fileTree)
  {
    var index, total;
    tree, index, total := CopyTree(fileTree, 0, []);
  }
}
