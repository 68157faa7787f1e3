/**
  Moving several torrents through the queue at once. libtorrent moves one
  torrent: up or down by swapping neighbours, or to an end of the queue.
 */
module QueueOrder {
  import opened Wrappers

  /** A torrent id, known only by its identity. */
  type Id = nat

  predicate Distinct(q: seq<Id>) { forall i, j :: 0 <= i < j < |q| ==> q[i] != q[j] }

  // ---------------------------------------------------------------- libtorrent's moves

  function MoveUp(q: seq<Id>, k: nat): seq<Id>
    requires 0 < k < |q|
  {
    q[k - 1 := q[k]][k := q[k - 1]]
  }

  function MoveDown(q: seq<Id>, k: nat): seq<Id>
    requires k + 1 < |q|
  {
    q[k := q[k + 1]][k + 1 := q[k]]
  }

  function MoveTop(q: seq<Id>, k: nat): seq<Id>
    requires k < |q|
  {
    [q[k]] + q[..k] + q[k + 1..]
  }

  function MoveBottom(q: seq<Id>, k: nat): seq<Id>
    requires k < |q|
  {
    q[..k] + q[k + 1..] + [q[k]]
  }

  /** get_queue_position */
  function Position(q: seq<Id>, id: Id): (p: nat)
    requires id in q
    ensures p < |q| && q[p] == id
  {
    if q[0] == id then 0 else 1 + Position(q[1..], id)
  }

  lemma PositionIs(q: seq<Id>, p: nat)
    requires Distinct(q) && p < |q|
    ensures Position(q, q[p]) == p
  {
  }

  // ---------------------------------------------------------------- the selection

  /** The torrents of the queue that are (or are not) selected, in queue order. */
  function Pick(q: seq<Id>, sel: set<Id>, selected: bool): seq<Id> {
    if q == [] then []
    else if (q[0] in sel) == selected then [q[0]] + Pick(q[1..], sel, selected)
    else Pick(q[1..], sel, selected)
  }

  function Selected(q: seq<Id>, sel: set<Id>): seq<Id> { Pick(q, sel, true) }

  function Unselected(q: seq<Id>, sel: set<Id>): seq<Id> { Pick(q, sel, false) }

  lemma {:induction false} PickConcat(a: seq<Id>, b: seq<Id>, sel: set<Id>, want: bool)
    ensures Pick(a + b, sel, want) == Pick(a, sel, want) + Pick(b, sel, want)
    decreases |a|
  {
    if a == [] {
      assert a + b == b;
    } else {
      PickConcat(a[1..], b, sel, want);
      assert (a + b)[1..] == a[1..] + b;
      if (a[0] in sel) == want {
        assert ([a[0]] + Pick(a[1..], sel, want)) + Pick(b, sel, want)
            == [a[0]] + (Pick(a[1..], sel, want) + Pick(b, sel, want));
      }
    }
  }

  /** The positions of the selected torrents among the first k, ascending: what sorting by position yields. */
  function SelectedPositions(q: seq<Id>, sel: set<Id>, k: nat): seq<nat>
    requires k <= |q|
  {
    if k == 0 then []
    else if q[k - 1] in sel then SelectedPositions(q, sel, k - 1) + [k - 1]
    else SelectedPositions(q, sel, k - 1)
  }

  lemma {:induction false} SortedAt(q: seq<Id>, sel: set<Id>, k: nat, i: nat)
    requires k <= |q| && i < |SelectedPositions(q, sel, k)|
    ensures var r := SelectedPositions(q, sel, k); r[i] < k && q[r[i]] in sel
  {
    if i < |SelectedPositions(q, sel, k - 1)| {
      SortedAt(q, sel, k - 1, i);
    }
  }

  lemma {:induction false} SortedAscends(q: seq<Id>, sel: set<Id>, k: nat, i: nat, j: nat)
    requires k <= |q| && i <= j < |SelectedPositions(q, sel, k)|
    ensures var r := SelectedPositions(q, sel, k); r[i] <= r[j] && (i < j ==> r[i] < r[j])
  {
    if j < |SelectedPositions(q, sel, k - 1)| {
      SortedAscends(q, sel, k - 1, i, j);
    } else if i < j {
      SortedAt(q, sel, k - 1, i);
    }
  }

  lemma {:induction false} SortedHas(q: seq<Id>, sel: set<Id>, k: nat, p: nat)
    requires p < k <= |q| && q[p] in sel
    ensures p in SelectedPositions(q, sel, k)
  {
    if p < k - 1 {
      SortedHas(q, sel, k - 1, p);
    }
  }

  predicate AllSelected(q: seq<Id>, sel: set<Id>, k: nat)
    requires k <= |q|
  {
    forall p :: 0 <= p < k ==> q[p] in sel
  }

  // ---------------------------------------------------------------- up

  /** The queue after the selected torrents at positions below k had their turn to move up. */
  function Up(q: seq<Id>, sel: set<Id>, k: nat): (c: seq<Id>)
    requires k <= |q|
    ensures |c| == |q|
  {
    if k == 0 then q
    else if q[k - 1] in sel && !AllSelected(q, sel, k - 1) then MoveUp(Up(q, sel, k - 1), k - 1)
    else Up(q, sel, k - 1)
  }

  lemma SwapKeepsSelection(c: seq<Id>, k: nat, sel: set<Id>, want: bool)
    requires 0 < k < |c| && c[k] in sel && c[k - 1] !in sel
    ensures Pick(MoveUp(c, k), sel, want) == Pick(c, sel, want)
  {
    var a, b, x, y := c[..k - 1], c[k + 1..], c[k - 1], c[k];
    assert c == a + ([x, y] + b);
    assert MoveUp(c, k) == a + ([y, x] + b);
    PickConcat(a, [x, y] + b, sel, want);
    PickConcat([x, y], b, sel, want);
    PickConcat(a, [y, x] + b, sel, want);
    PickConcat([y, x], b, sel, want);
    assert [x, y][1..] == [y] && [y, x][1..] == [x];
    assert Pick([x, y], sel, want) == (if want then [y] else [x]) == Pick([y, x], sel, want);
  }

  lemma SwapKeepsMultiset(c: seq<Id>, k: nat)
    requires 0 < k < |c|
    ensures multiset(MoveUp(c, k)) == multiset(c)
  {
  }

  /** The rest of the queue is still untouched, and right before it stands an unselected torrent if there was one. */
  lemma {:induction false} UpFrontier(q: seq<Id>, sel: set<Id>, k: nat)
    requires k <= |q|
    ensures forall j :: k <= j < |q| ==> Up(q, sel, k)[j] == q[j]
    ensures !AllSelected(q, sel, k) ==> Up(q, sel, k)[k - 1] !in sel
    decreases k
  {
    if k > 0 {
      UpFrontier(q, sel, k - 1);
    }
  }

  /** Moving up is a permutation that keeps the order among the selected and among the unselected. */
  lemma {:induction false} UpKeepsOrder(q: seq<Id>, sel: set<Id>, k: nat)
    requires k <= |q|
    ensures multiset(Up(q, sel, k)) == multiset(q)
    ensures Selected(Up(q, sel, k), sel) == Selected(q, sel)
    ensures Unselected(Up(q, sel, k), sel) == Unselected(q, sel)
    decreases k
  {
    hide Pick;
    if k > 0 {
      UpKeepsOrder(q, sel, k - 1);
      UpFrontier(q, sel, k - 1);
      if q[k - 1] in sel && !AllSelected(q, sel, k - 1) {
        SwapKeepsSelection(Up(q, sel, k - 1), k - 1, sel, true);
        SwapKeepsSelection(Up(q, sel, k - 1), k - 1, sel, false);
        SwapKeepsMultiset(Up(q, sel, k - 1), k - 1);
      }
    }
  }

  /** The maximal selected prefix stays, every other selected torrent ends exactly one place higher. */
  lemma {:induction false} UpPositions(q: seq<Id>, sel: set<Id>, k: nat, p: nat)
    requires p < k <= |q| && q[p] in sel
    ensures if AllSelected(q, sel, p) then Up(q, sel, k)[p] == q[p] else p > 0 && Up(q, sel, k)[p - 1] == q[p]
    decreases k
  {
    var c := Up(q, sel, k - 1);
    UpFrontier(q, sel, k - 1);
    if p < k - 1 {
      UpPositions(q, sel, k - 1, p);
      if q[k - 1] in sel && !AllSelected(q, sel, k - 1) {
        // the swap at k - 2 and k - 1 moves an unselected torrent down, never the one at p
        assert c[k - 2] !in sel;
      }
    }
  }

  lemma {:induction false} UpSkips(q: seq<Id>, sel: set<Id>, a: nat, b: nat)
    requires a <= b <= |q| && forall p :: a <= p < b ==> q[p] !in sel
    ensures Up(q, sel, b) == Up(q, sel, a)
    decreases b
  {
    if a < b {
      UpSkips(q, sel, a, b - 1);
    }
  }

  // ---------------------------------------------------------------- down, by mirroring

  function Reverse(q: seq<Id>): (r: seq<Id>)
    ensures |r| == |q|
  {
    if q == [] then [] else Reverse(q[1..]) + [q[0]]
  }

  lemma {:induction false} ReverseAt(q: seq<Id>, i: nat)
    requires i < |q|
    ensures Reverse(q)[|q| - 1 - i] == q[i]
    decreases |q|
  {
    if i > 0 {
      ReverseAt(q[1..], i - 1);
    }
  }

  lemma {:induction false} ReverseConcat(a: seq<Id>, b: seq<Id>)
    ensures Reverse(a + b) == Reverse(b) + Reverse(a)
    decreases |a|
  {
    if a == [] {
      assert a + b == b;
      assert Reverse(b) + [] == Reverse(b);
    } else {
      assert (a + b)[1..] == a[1..] + b;
      ReverseConcat(a[1..], b);
      assert (Reverse(b) + Reverse(a[1..])) + [a[0]] == Reverse(b) + (Reverse(a[1..]) + [a[0]]);
    }
  }

  lemma {:induction false} ReverseTwice(q: seq<Id>)
    ensures Reverse(Reverse(q)) == q
    decreases |q|
  {
    if q != [] {
      ReverseTwice(q[1..]);
      ReverseConcat(Reverse(q[1..]), [q[0]]);
      assert [q[0]][1..] == [];
      assert Reverse([q[0]]) == [q[0]];
    }
  }

  function Down(q: seq<Id>, sel: set<Id>): seq<Id> {
    Reverse(Up(Reverse(q), sel, |q|))
  }

  lemma {:induction false} ReversePick(q: seq<Id>, sel: set<Id>, want: bool)
    ensures Pick(Reverse(q), sel, want) == Reverse(Pick(q, sel, want))
    decreases |q|
  {
    if q != [] {
      PickConcat(Reverse(q[1..]), [q[0]], sel, want);
      ReversePick(q[1..], sel, want);
      assert [q[0]][1..] == [];
      var rest := Pick(q[1..], sel, want);
      assert ([q[0]] + rest)[1..] == rest;
    }
  }

  lemma ReverseSelected(q: seq<Id>, sel: set<Id>)
    ensures Selected(Reverse(q), sel) == Reverse(Selected(q, sel))
    ensures Unselected(Reverse(q), sel) == Reverse(Unselected(q, sel))
  {
    ReversePick(q, sel, true);
    ReversePick(q, sel, false);
  }

  lemma {:induction false} ReverseMultiset(q: seq<Id>)
    ensures multiset(Reverse(q)) == multiset(q)
    decreases |q|
  {
    if q != [] {
      assert q == [q[0]] + q[1..];
      ReverseMultiset(q[1..]);
    }
  }

  predicate AllSelectedFrom(q: seq<Id>, sel: set<Id>, k: nat) {
    forall p :: k <= p < |q| ==> q[p] in sel
  }

  lemma DownKeepsOrder(q: seq<Id>, sel: set<Id>)
    ensures multiset(Down(q, sel)) == multiset(q)
    ensures Selected(Down(q, sel), sel) == Selected(q, sel) && Unselected(Down(q, sel), sel) == Unselected(q, sel)
  {
    var m := Reverse(q);
    var u := Up(m, sel, |q|);
    UpKeepsOrder(m, sel, |q|);
    ReverseMultiset(q);
    ReverseMultiset(u);
    ReverseSelected(q, sel);
    ReverseSelected(u, sel);
    ReverseTwice(Selected(q, sel));
    ReverseTwice(Unselected(q, sel));
  }

  /** queue_down: the maximal selected suffix stays, every other selected torrent ends exactly one place lower. */
  lemma DownPositions(q: seq<Id>, sel: set<Id>, p: nat)
    requires p < |q| && q[p] in sel
    ensures if AllSelectedFrom(q, sel, p + 1) then Down(q, sel)[p] == q[p]
            else p + 1 < |q| && Down(q, sel)[p + 1] == q[p]
  {
    hide Up, AllSelected, AllSelectedFrom;
    var m := Reverse(q);
    var u := Up(m, sel, |q|);
    ReverseAt(q, p);
    MirrorAllSelected(q, sel, p);
    UpPositions(m, sel, |q|, |q| - 1 - p);
    ReverseAt(u, |q| - 1 - p);
    if !AllSelected(m, sel, |q| - 1 - p) {
      ReverseAt(u, |q| - 2 - p);
    }
  }

  lemma ReverseFrom(q: seq<Id>, i: nat)
    requires i < |q|
    ensures Reverse(q)[i] == q[|q| - 1 - i]
  {
    hide Reverse;
    ReverseAt(q, |q| - 1 - i);
  }

  lemma MirrorAllSelected(q: seq<Id>, sel: set<Id>, p: nat)
    requires p < |q|
    ensures AllSelectedFrom(q, sel, p + 1) <==> AllSelected(Reverse(q), sel, |q| - 1 - p)
  {
    hide Reverse;
    if AllSelected(Reverse(q), sel, |q| - 1 - p) {
      forall i | p + 1 <= i < |q|
        ensures q[i] in sel
      {
        ReverseAt(q, i);
      }
    }
    if AllSelectedFrom(q, sel, p + 1) {
      forall i | 0 <= i < |q| - 1 - p
        ensures Reverse(q)[i] in sel
      {
        ReverseFrom(q, i);
      }
    }
  }

  // ---------------------------------------------------------------- top and bottom

  /** The queue after the selected torrents from position k on were moved to the top, the last one first. */
  function Top(q: seq<Id>, sel: set<Id>, k: nat): seq<Id>
    requires k <= |q|
  {
    Selected(q[k..], sel) + q[..k] + Unselected(q[k..], sel)
  }

  lemma {:induction false} TopSkips(q: seq<Id>, sel: set<Id>, a: nat, b: nat)
    requires a <= b <= |q| && forall p :: a <= p < b ==> q[p] !in sel
    ensures Top(q, sel, a) == Top(q, sel, b)
    decreases b
  {
    if a < b {
      TopSkips(q, sel, a, b - 1);
    }
  }

  /** Moving the next selected torrent to the top, unless it is there already. */
  lemma TopSelected(q: seq<Id>, sel: set<Id>, k: nat)
    requires 0 < k <= |q| && q[k - 1] in sel
    ensures var c, at := Top(q, sel, k), |Selected(q[k..], sel)| + k - 1;
      && at < |c| && c[at] == q[k - 1]
      && Top(q, sel, k - 1) == (if at == 0 then c else MoveTop(c, at))
  {
    assert q[k - 1..][1..] == q[k..];
    assert q[..k] == q[..k - 1] + [q[k - 1]];
    var s, u, x := Selected(q[k..], sel), Unselected(q[k..], sel), q[k - 1];
    var c, at := Top(q, sel, k), |s| + k - 1;
    assert c == s + q[..k - 1] + [x] + u;
    assert c[..at] == s + q[..k - 1] && c[at + 1..] == u;
    assert Top(q, sel, k - 1) == [x] + s + q[..k - 1] + u;
    assert [x] + (s + q[..k - 1]) + u == [x] + s + q[..k - 1] + u;
    if at == 0 {
      assert s == [] && q[..k - 1] == [];
    }
  }

  lemma {:induction false} PartitionMultiset(q: seq<Id>, sel: set<Id>)
    ensures multiset(Selected(q, sel) + Unselected(q, sel)) == multiset(q)
    decreases |q|
  {
    if q != [] {
      PartitionMultiset(q[1..], sel);
      assert q == [q[0]] + q[1..];
    }
  }

  /** The queue after all selected torrents had their turn to move to the bottom. */
  function Bottom(q: seq<Id>, sel: set<Id>): seq<Id> {
    Reverse(Top(Reverse(q), sel, 0))
  }

  /** queue_top gathers the selection in front and keeps the order on both sides. */
  lemma TopSpec(q: seq<Id>, sel: set<Id>)
    ensures Top(q, sel, 0) == Selected(q, sel) + Unselected(q, sel)
    ensures multiset(Top(q, sel, 0)) == multiset(q)
  {
    assert q[0..] == q && q[..0] == [];
    assert Selected(q, sel) + [] == Selected(q, sel);
    PartitionMultiset(q, sel);
  }

  /** queue_bottom gathers the selection behind and keeps the order on both sides. */
  lemma BottomSpec(q: seq<Id>, sel: set<Id>)
    ensures Bottom(q, sel) == Unselected(q, sel) + Selected(q, sel)
    ensures multiset(Bottom(q, sel)) == multiset(q)
  {
    hide Selected, Unselected, Reverse;
    TopSpec(Reverse(q), sel);
    ReverseSelected(q, sel);
    ReverseConcat(Reverse(Selected(q, sel)), Reverse(Unselected(q, sel)));
    ReverseTwice(Selected(q, sel));
    ReverseTwice(Unselected(q, sel));
    PartitionMultiset(q, sel);
  }

  // ---------------------------------------------------------------- the torrent manager

  class TorrentManager {
    var queue: seq<Id>

    constructor (queue: seq<Id>)
      ensures this.queue == queue
    {
      this.queue := queue;
    }

    /** None where the id is not known, which raises. */
    method QueueTop(id: Id) returns (moved: Option<bool>)
      modifies this
      ensures moved == if id in old(queue) then Some(Position(old(queue), id) != 0) else None
      ensures queue == if moved == Some(true) then MoveTop(old(queue), Position(old(queue), id)) else old(queue)
    {
      if id !in queue {
        return None;
      }
      if Position(queue, id) == 0 {
        return Some(false);
      }
      queue := MoveTop(queue, Position(queue, id));
      moved := Some(true);
    }

    method QueueUp(id: Id) returns (moved: Option<bool>)
      modifies this
      ensures moved == if id in old(queue) then Some(Position(old(queue), id) != 0) else None
      ensures queue == if moved == Some(true) then MoveUp(old(queue), Position(old(queue), id)) else old(queue)
    {
      if id !in queue {
        return None;
      }
      if Position(queue, id) == 0 {
        return Some(false);
      }
      queue := MoveUp(queue, Position(queue, id));
      moved := Some(true);
    }

    method QueueDown(id: Id) returns (moved: Option<bool>)
      modifies this
      ensures moved == if id in old(queue) then Some(Position(old(queue), id) != |old(queue)| - 1) else None
      ensures queue == if moved == Some(true) then MoveDown(old(queue), Position(old(queue), id)) else old(queue)
    {
      if id !in queue {
        return None;
      }
      if Position(queue, id) == |queue| - 1 {
        return Some(false);
      }
      queue := MoveDown(queue, Position(queue, id));
      moved := Some(true);
    }

    method QueueBottom(id: Id) returns (moved: Option<bool>)
      modifies this
      ensures moved == if id in old(queue) then Some(Position(old(queue), id) != |old(queue)| - 1) else None
      ensures queue == if moved == Some(true) then MoveBottom(old(queue), Position(old(queue), id)) else old(queue)
    {
      if id !in queue {
        return None;
      }
      if Position(queue, id) == |queue| - 1 {
        return Some(false);
      }
      queue := MoveBottom(queue, Position(queue, id));
      moved := Some(true);
    }
  }

  // ---------------------------------------------------------------- the loops of the exported calls

  lemma {:induction false} DistinctCounts(q: seq<Id>, x: Id)
    requires Distinct(q)
    ensures multiset(q)[x] <= 1
    decreases |q|
  {
    if q != [] {
      assert q == [q[0]] + q[1..];
      DistinctCounts(q[1..], x);
      if x == q[0] {
        assert x !in q[1..];
      }
    }
  }

  lemma DuplicateCounts(c: seq<Id>, i: nat, j: nat)
    requires i < j < |c| && c[i] == c[j]
    ensures multiset(c)[c[i]] >= 2
  {
    var a, b := c[..j], c[j..];
    assert c == a + b && a[i] in a && b[0] in b;
    assert multiset(c)[c[i]] == multiset(a)[c[i]] + multiset(b)[c[i]];
  }

  lemma DistinctPermutation(q: seq<Id>, c: seq<Id>)
    requires Distinct(q) && multiset(c) == multiset(q)
    ensures Distinct(c)
  {
    forall i, j | 0 <= i < j < |c|
      ensures c[i] != c[j]
    {
      if c[i] == c[j] {
        DistinctCounts(q, c[i]);
        DuplicateCounts(c, i, j);
      }
    }
  }

  /** The torrent whose turn it is to move up is still where it was. */
  lemma UpTurn(q: seq<Id>, sel: set<Id>, p: nat)
    requires Distinct(q) && p < |q|
    ensures var c := Up(q, sel, p); c[p] == q[p] && q[p] in c && Position(c, q[p]) == p
  {
    var c := Up(q, sel, p);
    UpFrontier(q, sel, p);
    UpKeepsOrder(q, sel, p);
    DistinctPermutation(q, c);
    PositionIs(c, p);
  }

  /** A position strictly between two consecutive sorted ones is not selected. */
  lemma NotSelected(q: seq<Id>, sel: set<Id>, order: seq<nat>, i: nat, p: nat)
    requires order == SelectedPositions(q, sel, |q|) && i <= |order| && p < |q|
    requires (i > 0 ==> order[i - 1] < p) && (i < |order| ==> p < order[i])
    ensures q[p] !in sel
  {
    hide SelectedPositions;
    forall j | 0 <= j < |order|
      ensures order[j] != p
    {
      if j < i {
        SortedAscends(q, sel, |q|, j, i - 1);
      } else {
        SortedAscends(q, sel, |q|, i, j);
      }
    }
    if q[p] in sel {
      SortedHas(q, sel, |q|, p);
    }
  }

  /** No selected torrent lies between two consecutive sorted positions, nor before the first or after the last. */
  lemma NoneBetween(q: seq<Id>, sel: set<Id>, order: seq<nat>, i: nat, lo: nat, hi: nat)
    requires order == SelectedPositions(q, sel, |q|) && i <= |order|
    requires lo == if i == 0 then 0 else order[i - 1] + 1
    requires hi == if i == |order| then |q| else order[i]
    ensures lo <= hi <= |q| && forall p :: lo <= p < hi ==> q[p] !in sel
    ensures i < |order| ==> order[i] < |q| && q[order[i]] in sel
    ensures i > 0 ==> order[i - 1] < |q| && q[order[i - 1]] in sel
  {
    hide SelectedPositions;
    if i > 0 {
      SortedAt(q, sel, |q|, i - 1);
    }
    if i < |order| {
      SortedAt(q, sel, |q|, i);
      if i > 0 {
        SortedAscends(q, sel, |q|, i - 1, i);
      }
    }
    forall p | lo <= p < hi
      ensures q[p] !in sel
    {
      NotSelected(q, sel, order, i, p);
    }
  }

  /** The test on the last unmoved torrent tells whether everything in front is selected. */
  lemma UpDecision(q: seq<Id>, sel: set<Id>, bound: nat, p: nat, moved: bool, prev: int)
    requires bound <= p < |q| && q[p] in sel && forall j :: bound <= j < p ==> q[j] !in sel
    requires if bound == 0 then moved else moved <==> !AllSelected(q, sel, bound)
    requires !moved ==> prev == bound - 1
    ensures (moved || p - prev > 1) && p != 0 <==> !AllSelected(q, sel, p)
    ensures AllSelected(q, sel, p + 1) <==> AllSelected(q, sel, p)
    ensures Up(q, sel, p + 1) == if AllSelected(q, sel, p) then Up(q, sel, p) else MoveUp(Up(q, sel, p), p)
  {
    if bound < p {
      assert q[bound] !in sel;
    }
  }

  predicate Known(q: seq<Id>, ids: seq<Id>) { forall x :: x in ids ==> x in q }

  /** Asking for every position, as sorting does, raises for an unknown id before anything has moved. */
  method PositionsKnown(manager: TorrentManager, ids: seq<Id>) returns (known: bool)
    ensures known <==> Known(manager.queue, ids)
  {
    var i := 0;
    while i < |ids|
      invariant 0 <= i <= |ids|
      invariant forall j :: 0 <= j < i ==> ids[j] in manager.queue
    {
      if ids[i] !in manager.queue {
        return false;
      }
      i := i + 1;
    }
    known := true;
  }

  lemma UpStart(q: seq<Id>, sel: set<Id>)
    ensures Up(q, sel, 0) == q
  {
  }

  /** One pass of queue_up's loop: the torrent is where it was, and the test tells whether it moves. */
  lemma UpPass(q: seq<Id>, sel: set<Id>, bound: nat, p: nat, moved: bool, prev: int)
    requires Distinct(q) && bound <= p < |q| && q[p] in sel && forall j :: bound <= j < p ==> q[j] !in sel
    requires if bound == 0 then moved else moved <==> !AllSelected(q, sel, bound)
    requires !moved ==> prev == bound - 1
    ensures var c, moves := Up(q, sel, bound), !AllSelected(q, sel, p);
      && q[p] in c && Position(c, q[p]) == p
      && ((moved || p - prev > 1) && p != 0 <==> moves)
      && (moves <==> !AllSelected(q, sel, p + 1))
      && Up(q, sel, p + 1) == if moves then MoveUp(c, p) else c
  {
    hide Up, AllSelected, Position, MoveUp;
    UpSkips(q, sel, bound, p);
    UpTurn(q, sel, p);
    UpDecision(q, sel, bound, p, moved, prev);
  }

  /** The loop of queue_up, over known ids. */
  method MoveUpAll(manager: TorrentManager, ids: seq<Id>)
    requires Distinct(manager.queue) && Known(manager.queue, ids)
    modifies manager
    ensures manager.queue == Up(old(manager.queue), set x | x in ids, |old(manager.queue)|)
  {
    hide Up, AllSelected, Position, MoveUp, SelectedPositions;
    var q, sel := manager.queue, set x | x in ids;
    var order := SelectedPositions(q, sel, |q|);
    UpStart(q, sel);
    var torrentMoved, prevQueuePosition := true, 0;
    var i := 0;
    ghost var bound := 0;
    while i < |order|
      invariant 0 <= i <= |order|
      invariant bound == if i == 0 then 0 else order[i - 1] + 1
      invariant 0 <= bound <= |q|
      invariant manager.queue == Up(q, sel, bound)
      invariant if bound == 0 then torrentMoved else torrentMoved <==> !AllSelected(q, sel, bound)
      invariant !torrentMoved ==> prevQueuePosition == bound - 1
    {
      var queuePosition := order[i];
      NoneBetween(q, sel, order, i, bound, queuePosition);
      UpPass(q, sel, bound, queuePosition, torrentMoved, prevQueuePosition);
      if torrentMoved || queuePosition - prevQueuePosition > 1 {
        var moved := manager.QueueUp(q[queuePosition]);
        torrentMoved := moved.value;
      }
      if !torrentMoved {
        prevQueuePosition := queuePosition;
      }
      bound := queuePosition + 1;
      i := i + 1;
    }
    NoneBetween(q, sel, order, i, bound, |q|);
    UpSkips(q, sel, bound, |q|);
  }

  lemma SplitUp(m: seq<Id>, a: seq<Id>, x: Id, y: Id, b: seq<Id>)
    requires m == a + [x, y] + b
    ensures MoveUp(m, |a| + 1) == a + [y, x] + b
  {
  }

  lemma MirrorMoveDown(c: seq<Id>, k: nat)
    requires k + 1 < |c|
    ensures MoveDown(c, k) == Reverse(MoveUp(Reverse(c), |c| - 1 - k))
  {
    hide Reverse;
    var a, x, y, b := c[..k], c[k], c[k + 1], c[k + 2..];
    assert c == a + ([x, y] + b);
    ReversePair(a, x, y, b);
    SplitUp(Reverse(c), Reverse(b), y, x, Reverse(a));
    ReversePair(a, y, x, b);
    ReverseTwice(a + ([y, x] + b));
    assert MoveDown(c, k) == a + ([y, x] + b);
  }

  lemma ReversePair(a: seq<Id>, x: Id, y: Id, b: seq<Id>)
    ensures Reverse(a + ([x, y] + b)) == Reverse(b) + [y, x] + Reverse(a)
  {
    ReverseConcat(a, [x, y] + b);
    ReverseConcat([x, y], b);
    ReverseTwo(x, y);
  }

  lemma ReverseTwo(x: Id, y: Id)
    ensures Reverse([x]) == [x] && Reverse([x, y]) == [y, x]
  {
    assert [x, y][1..] == [y] && [x][1..] == [] && [y][1..] == [];
    assert Reverse([y]) == [y];
  }

  lemma ReverseOne(a: seq<Id>, x: Id, b: seq<Id>)
    ensures Reverse(a + ([x] + b)) == Reverse(b) + [x] + Reverse(a)
  {
    ReverseConcat(a, [x] + b);
    ReverseConcat([x], b);
    assert [x][1..] == [];
    assert Reverse([x]) == [x];
  }

  lemma MirrorMoveBottom(c: seq<Id>, k: nat)
    requires k < |c|
    ensures MoveBottom(c, k) == Reverse(MoveTop(Reverse(c), |c| - 1 - k))
  {
    hide Reverse;
    var a, x, b := c[..k], c[k], c[k + 1..];
    assert c == a + ([x] + b);
    ReverseOne(a, x, b);
    var m := Reverse(c);
    assert m[..|b|] == Reverse(b) && m[|b|] == x && m[|b| + 1..] == Reverse(a);
    assert MoveTop(m, |b|) == [x] + (Reverse(b) + Reverse(a));
    ReverseConcat(a, b);
    assert a + b + [x] == (a + b) + ([x] + []);
    ReverseOne(a + b, x, []);
    assert Reverse((a + b) + ([x] + [])) == [x] + Reverse(a + b);
    ReverseTwice(a + b + [x]);
  }

  lemma MirrorDistinct(q: seq<Id>)
    requires Distinct(q)
    ensures Distinct(Reverse(q))
  {
    ReverseMultiset(q);
    DistinctPermutation(q, Reverse(q));
  }

  /** Where the mirrored queue has x, the queue has it mirrored. */
  lemma MirrorPosition(m: seq<Id>, at: nat)
    requires Distinct(m) && at < |m|
    ensures m[at] in Reverse(m) && Position(Reverse(m), m[at]) == |m| - 1 - at
  {
    hide Position;
    ReverseAt(m, at);
    MirrorDistinct(m);
    PositionIs(Reverse(m), |m| - 1 - at);
  }

  /** The same for a torrent whose turn it is to move down. */
  lemma DownTurn(q: seq<Id>, sel: set<Id>, p: nat)
    requires Distinct(q) && p < |q|
    ensures var c := Reverse(Up(Reverse(q), sel, |q| - 1 - p)); q[p] in c && Position(c, q[p]) == p
  {
    hide Up, Position;
    MirrorDistinct(q);
    var at := |q| - 1 - p;
    var m := Up(Reverse(q), sel, at);
    UpTurn(Reverse(q), sel, at);
    ReverseAt(q, p);
    UpKeepsOrder(Reverse(q), sel, at);
    DistinctPermutation(Reverse(q), m);
    MirrorPosition(m, at);
  }

  lemma MirrorSkips(q: seq<Id>, sel: set<Id>, lo: nat, hi: nat)
    requires lo <= hi <= |q| && forall p :: lo <= p < hi ==> q[p] !in sel
    ensures Up(Reverse(q), sel, |q| - lo) == Up(Reverse(q), sel, |q| - hi)
    ensures Top(Reverse(q), sel, |q| - lo) == Top(Reverse(q), sel, |q| - hi)
  {
    hide Reverse, Up, Top;
    var m := Reverse(q);
    forall p | |q| - hi <= p < |q| - lo
      ensures m[p] !in sel
    {
      ReverseAt(q, |q| - 1 - p);
    }
    UpSkips(m, sel, |q| - hi, |q| - lo);
    TopSkips(m, sel, |q| - hi, |q| - lo);
  }

  /** The decision, seen from the bottom of the queue. */
  lemma DownDecision(q: seq<Id>, sel: set<Id>, bound: nat, p: nat, moved: bool, prev: int)
    requires p < bound <= |q| && q[p] in sel && forall j :: p < j < bound ==> q[j] !in sel
    requires if bound == |q| then moved else moved <==> !AllSelected(Reverse(q), sel, |q| - bound)
    requires !moved ==> prev == bound
    ensures var m, at := Reverse(q), |q| - 1 - p;
      && ((moved || prev - p > 1) && at != 0 <==> !AllSelected(m, sel, at))
      && (AllSelected(m, sel, at + 1) <==> AllSelected(m, sel, at))
      && Up(m, sel, at + 1) == if AllSelected(m, sel, at) then Up(m, sel, at) else MoveUp(Up(m, sel, at), at)
  {
    hide Up, AllSelected, Reverse;
    ReverseAt(q, p);
    forall j | |q| - bound <= j < |q| - 1 - p
      ensures Reverse(q)[j] !in sel
    {
      ReverseFrom(q, j);
    }
    UpDecision(Reverse(q), sel, |q| - bound, |q| - 1 - p, moved, |q| - 1 - prev);
  }

  /** One pass of queue_down's loop: the torrent is where it was, and the test tells whether it moves. */
  lemma DownPass(q: seq<Id>, sel: set<Id>, bound: nat, p: nat, moved: bool, prev: int)
    requires Distinct(q) && p < bound <= |q| && q[p] in sel && forall j :: p < j < bound ==> q[j] !in sel
    requires if bound == |q| then moved else moved <==> !AllSelected(Reverse(q), sel, |q| - bound)
    requires !moved ==> prev == bound
    ensures var m, c, moves := Reverse(q), Reverse(Up(Reverse(q), sel, |q| - bound)), !AllSelected(Reverse(q), sel, |q| - 1 - p);
      && |c| == |q| && q[p] in c && Position(c, q[p]) == p
      && ((moved || prev - p > 1) && p != |q| - 1 <==> moves)
      && (moves <==> !AllSelected(m, sel, |q| - p))
      && Reverse(Up(m, sel, |q| - p)) == if moves then MoveDown(c, p) else c
  {
    hide Up, AllSelected, Position, MoveUp, MoveDown, Reverse;
    MirrorSkips(q, sel, p + 1, bound);
    DownTurn(q, sel, p);
    DownDecision(q, sel, bound, p, moved, prev);
    if p + 1 < |q| {
      MirrorMoveDown(Reverse(Up(Reverse(q), sel, |q| - 1 - p)), p);
    }
    ReverseTwice(Up(Reverse(q), sel, |q| - 1 - p));
  }

  /** The loop of queue_down, over known ids. */
  method MoveDownAll(manager: TorrentManager, ids: seq<Id>)
    requires Distinct(manager.queue) && Known(manager.queue, ids)
    modifies manager
    ensures manager.queue == Down(old(manager.queue), set x | x in ids)
  {
    hide Up, AllSelected, Position, MoveUp, MoveDown, SelectedPositions, Reverse;
    var q, sel := manager.queue, set x | x in ids;
    var order := SelectedPositions(q, sel, |q|);
    var torrentMoved, prevQueuePosition := true, 0;
    var i := |order|;
    ghost var bound := |q|;
    ghost var m := Reverse(q);
    ReverseTwice(q);
    UpStart(m, sel);
    while i > 0
      invariant 0 <= i <= |order|
      invariant bound == if i == |order| then |q| else order[i]
      invariant 0 <= bound <= |q|
      invariant manager.queue == Reverse(Up(m, sel, |q| - bound))
      invariant if bound == |q| then torrentMoved else torrentMoved <==> !AllSelected(m, sel, |q| - bound)
      invariant !torrentMoved ==> prevQueuePosition == bound
    {
      i := i - 1;
      var queuePosition := order[i];
      NoneBetween(q, sel, order, i + 1, queuePosition + 1, bound);
      DownPass(q, sel, bound, queuePosition, torrentMoved, prevQueuePosition);
      if torrentMoved || prevQueuePosition - queuePosition > 1 {
        var moved := manager.QueueDown(q[queuePosition]);
        torrentMoved := moved.value;
      }
      if !torrentMoved {
        prevQueuePosition := queuePosition;
      }
      bound := queuePosition;
    }
    NoneBetween(q, sel, order, 0, 0, bound);
    MirrorSkips(q, sel, 0, bound);
  }

  /** The torrent to move to the top next, in the queue as it then is. */
  lemma TopTurn(q: seq<Id>, sel: set<Id>, p: nat)
    requires Distinct(q) && p < |q| && q[p] in sel
    ensures var c := Top(q, sel, p + 1);
      && q[p] in c
      && Top(q, sel, p) == if Position(c, q[p]) == 0 then c else MoveTop(c, Position(c, q[p]))
  {
    TopSelected(q, sel, p + 1);
    var c := Top(q, sel, p + 1);
    TopMultiset(q, sel, p + 1);
    DistinctPermutation(q, c);
    PositionIs(c, |Selected(q[p + 1..], sel)| + p);
  }

  lemma TopMultiset(q: seq<Id>, sel: set<Id>, k: nat)
    requires k <= |q|
    ensures multiset(Top(q, sel, k)) == multiset(q) && |Top(q, sel, k)| == |q|
  {
    PartitionMultiset(q[k..], sel);
    assert q == q[..k] + q[k..];
    assert |multiset(Top(q, sel, k))| == |Top(q, sel, k)| && |multiset(q)| == |q|;
  }

  lemma TopStart(q: seq<Id>, sel: set<Id>)
    ensures Top(q, sel, |q|) == q
  {
    assert q[..|q|] == q && q[|q|..] == [];
  }

  lemma TopPass(q: seq<Id>, sel: set<Id>, bound: nat, p: nat)
    requires Distinct(q) && p < bound <= |q| && q[p] in sel && forall j :: p < j < bound ==> q[j] !in sel
    ensures var c := Top(q, sel, bound);
      && q[p] in c
      && Top(q, sel, p) == if Position(c, q[p]) == 0 then c else MoveTop(c, Position(c, q[p]))
  {
    hide Top, Position, MoveTop;
    TopSkips(q, sel, p + 1, bound);
    TopTurn(q, sel, p);
  }

  /** The loop of queue_top, over known ids. */
  method MoveTopAll(manager: TorrentManager, ids: seq<Id>)
    requires Distinct(manager.queue) && Known(manager.queue, ids)
    modifies manager
    ensures manager.queue == Top(old(manager.queue), set x | x in ids, 0)
  {
    hide Top, Position, MoveTop, SelectedPositions;
    var q, sel := manager.queue, set x | x in ids;
    var order := SelectedPositions(q, sel, |q|);
    var i := |order|;
    ghost var bound := |q|;
    TopStart(q, sel);
    while i > 0
      invariant 0 <= i <= |order|
      invariant bound == if i == |order| then |q| else order[i]
      invariant 0 <= bound <= |q|
      invariant manager.queue == Top(q, sel, bound)
    {
      i := i - 1;
      NoneBetween(q, sel, order, i + 1, order[i] + 1, bound);
      TopPass(q, sel, bound, order[i]);
      var _ := manager.QueueTop(q[order[i]]);
      bound := order[i];
    }
    NoneBetween(q, sel, order, 0, 0, bound);
    TopSkips(q, sel, 0, bound);
  }

  lemma BottomTurn(q: seq<Id>, sel: set<Id>, p: nat)
    requires Distinct(q) && p < |q| && q[p] in sel
    ensures var c := Reverse(Top(Reverse(q), sel, |q| - p));
      && q[p] in c
      && Reverse(Top(Reverse(q), sel, |q| - p - 1))
         == if Position(c, q[p]) == |c| - 1 then c else MoveBottom(c, Position(c, q[p]))
  {
    hide Top, Pick, Selected, Unselected, MoveTop, MoveBottom, Position, Reverse;
    var m := Reverse(q);
    var t := Top(m, sel, |q| - p);
    MirrorDistinct(q);
    ReverseAt(q, p);
    TopTurn(m, sel, |q| - p - 1);
    TopMultiset(m, sel, |q| - p);
    DistinctPermutation(m, t);
    var at := Position(t, q[p]);
    MirrorPosition(t, at);
    MirrorMoveBottom(Reverse(t), |t| - 1 - at);
    ReverseTwice(t);
  }

  lemma BottomPass(q: seq<Id>, sel: set<Id>, bound: nat, p: nat)
    requires Distinct(q) && bound <= p < |q| && q[p] in sel && forall j :: bound <= j < p ==> q[j] !in sel
    ensures var c := Reverse(Top(Reverse(q), sel, |q| - bound));
      && q[p] in c
      && Reverse(Top(Reverse(q), sel, |q| - p - 1))
         == if Position(c, q[p]) == |c| - 1 then c else MoveBottom(c, Position(c, q[p]))
  {
    hide Top, Position, MoveBottom, Reverse;
    MirrorSkips(q, sel, bound, p);
    BottomTurn(q, sel, p);
  }

  /** The loop of queue_bottom, over known ids. */
  method MoveBottomAll(manager: TorrentManager, ids: seq<Id>)
    requires Distinct(manager.queue) && Known(manager.queue, ids)
    modifies manager
    ensures manager.queue == Bottom(old(manager.queue), set x | x in ids)
  {
    hide Top, Position, MoveBottom, SelectedPositions, Reverse;
    var q, sel := manager.queue, set x | x in ids;
    var order := SelectedPositions(q, sel, |q|);
    var i := 0;
    ghost var bound := 0;
    ghost var m := Reverse(q);
    ReverseTwice(q);
    TopStart(m, sel);
    while i < |order|
      invariant 0 <= i <= |order|
      invariant bound == if i == 0 then 0 else order[i - 1] + 1
      invariant 0 <= bound <= |q|
      invariant manager.queue == Reverse(Top(m, sel, |q| - bound))
    {
      NoneBetween(q, sel, order, i, bound, order[i]);
      BottomPass(q, sel, bound, order[i]);
      var _ := manager.QueueBottom(q[order[i]]);
      bound := order[i] + 1;
      i := i + 1;
    }
    NoneBetween(q, sel, order, i, bound, |q|);
    MirrorSkips(q, sel, bound, |q|);
  }

  // ---------------------------------------------------------------- the exported calls

  /** queue_up: in ascending position, each torrent moves unless it would overtake one that could not. */
  method QueueUp(manager: TorrentManager, ids: seq<Id>) returns (raised: bool)
    requires Distinct(manager.queue) && Distinct(ids)
    modifies manager
    ensures raised <==> exists x :: x in ids && x !in old(manager.queue)
    ensures manager.queue == if raised then old(manager.queue) else Up(old(manager.queue), set x | x in ids, |old(manager.queue)|)
  {
    hide Up, Down, Top, Bottom;
    var known := PositionsKnown(manager, ids);
    if known {
      MoveUpAll(manager, ids);
    }
    raised := !known;
  }

  /** queue_down: in descending position. */
  method QueueDown(manager: TorrentManager, ids: seq<Id>) returns (raised: bool)
    requires Distinct(manager.queue) && Distinct(ids)
    modifies manager
    ensures raised <==> exists x :: x in ids && x !in old(manager.queue)
    ensures manager.queue == if raised then old(manager.queue) else Down(old(manager.queue), set x | x in ids)
  {
    hide Up, Down, Top, Bottom;
    var known := PositionsKnown(manager, ids);
    if known {
      MoveDownAll(manager, ids);
    }
    raised := !known;
  }

  /** queue_top: in descending position, so that the first selected torrent ends first. */
  method QueueTop(manager: TorrentManager, ids: seq<Id>) returns (raised: bool)
    requires Distinct(manager.queue) && Distinct(ids)
    modifies manager
    ensures raised <==> exists x :: x in ids && x !in old(manager.queue)
    ensures manager.queue == if raised then old(manager.queue) else Top(old(manager.queue), set x | x in ids, 0)
  {
    hide Up, Down, Top, Bottom;
    var known := PositionsKnown(manager, ids);
    if known {
      MoveTopAll(manager, ids);
    }
    raised := !known;
  }

  /** queue_bottom: in ascending position. */
  method QueueBottom(manager: TorrentManager, ids: seq<Id>) returns (raised: bool)
    requires Distinct(manager.queue) && Distinct(ids)
    modifies manager
    ensures raised <==> exists x :: x in ids && x !in old(manager.queue)
    ensures manager.queue == if raised then old(manager.queue) else Bottom(old(manager.queue), set x | x in ids)
  {
    hide Up, Down, Top, Bottom;
    var known := PositionsKnown(manager, ids);
    if known {
      MoveBottomAll(manager, ids);
    }
    raised := !known;
  }
}
