/**
  Blocking a client after too many failed logins: an insertion-ordered table
  of clients, with expiry, eviction and exponential back-off.
 */
module LoginLimiter {
  import opened Bytes
  import opened Wrappers

  /** The key a client is tracked by. */
  type Key = nat

  const MAX_FAILURES: nat := 5
  const BASE_DELAY: nat := 30
  const MAX_DELAY: nat := 15 * 60
  const FORGET_AFTER: real := 3600.0
  const MAX_CLIENTS: nat := 10000

  /** [failures, blocked_until, last_failure], and for the record when these failures were. */
  datatype Entry = Entry(failures: nat, blockedUntil: real, lastFailure: real, times: seq<real>)

  /** A Python dict: its items and the order they were inserted in. */
  datatype Table = Table(entries: map<Key, Entry>, order: seq<Key>)

  const EMPTY := Table(map[], [])

  /** The block after the (MAX_FAILURES + k)-th failure, with the code's cap on the exponent. */
  function BlockFor(k: nat): real { Min(BASE_DELAY * Pow2(Min(k, 16)), MAX_DELAY) as real }

  predicate Expired(e: Entry, now: real) { e.blockedUntil <= now && now - e.lastFailure >= FORGET_AFTER }

  // ---------------------------------------------------------------- the table

  function Remove(order: seq<Key>, k: Key): seq<Key> {
    if order == [] then [] else if order[0] == k then order[1..] else [order[0]] + Remove(order[1..], k)
  }

  /** del clients[k] */
  function Drop(t: Table, k: Key): Table { Table(t.entries - {k}, Remove(t.order, k)) }

  /** clients[k] = e for a key that is not there: it goes to the end. */
  function Append(t: Table, k: Key, e: Entry): Table { Table(t.entries[k := e], t.order + [k]) }

  function DropAll(t: Table, keys: seq<Key>): Table
    decreases |keys|
  {
    if keys == [] then t else DropAll(Drop(t, keys[0]), keys[1..])
  }

  function ExpiredKeys(t: Table, order: seq<Key>, now: real): seq<Key> {
    if order == [] then []
    else if order[0] in t.entries && Expired(t.entries[order[0]], now) then [order[0]] + ExpiredKeys(t, order[1..], now)
    else ExpiredKeys(t, order[1..], now)
  }

  /** Evict from the front until there is room. */
  function Shrink(t: Table, cap: nat): Table
    decreases |t.order|
  {
    if |t.order| >= cap && t.order != [] then Shrink(Drop(t, t.order[0]), cap) else t
  }

  function Purge(t: Table, now: real): Table { DropAll(t, ExpiredKeys(t, t.order, now)) }

  /** _make_room */
  function MakeRoom(t: Table, now: real, cap: nat): Table {
    if |t.order| < cap then t else Shrink(Purge(t, now), cap)
  }

  /** _get: an expired entry is deleted. */
  function Get(t: Table, k: Key, now: real): Table {
    if k in t.entries && Expired(t.entries[k], now) then Drop(t, k) else t
  }

  function Ceil(x: real): int { -((-x).Floor) }

  /** The seconds left in a block. */
  function WaitOf(e: Option<Entry>, now: real): int {
    if e.None? || e.value.blockedUntil <= now then 0 else Ceil(e.value.blockedUntil - now)
  }

  function Live(t: Table, k: Key, now: real): Option<Entry> {
    if k in t.entries && !Expired(t.entries[k], now) then Some(t.entries[k]) else None
  }

  /** One more failure on an entry. */
  function Failed(e: Entry, now: real): Entry {
    var n := e.failures + 1;
    Entry(n, if n >= MAX_FAILURES then now + BlockFor(n - MAX_FAILURES) else e.blockedUntil, now, e.times + [now])
  }

  function Failure(t: Table, k: Key, now: real, cap: nat): Table {
    var t1 := Get(t, k, now);
    if k in t1.entries then Append(Drop(t1, k), k, Failed(t1.entries[k], now))
    else Append(MakeRoom(t1, now, cap), k, Failed(Entry(0, 0.0, now, []), now))
  }

  function Success(t: Table, k: Key): Table { if k in t.entries then Drop(t, k) else t }

  // ---------------------------------------------------------------- well-formedness

  ghost predicate Ok(t: Table) {
    && (forall i, j :: 0 <= i < j < |t.order| ==> t.order[i] != t.order[j])
    && (forall k :: k in t.order <==> k in t.entries)
  }

  /** Ordered by last failure, none of them in the future. */
  ghost predicate Ordered(t: Table, now: real)
    requires Ok(t)
  {
    && (forall k :: k in t.entries ==> t.entries[k].lastFailure <= now)
    && forall i, j :: 0 <= i < j < |t.order| ==>
         t.order[i] in t.order && t.order[j] in t.order
         && t.entries[t.order[i]].lastFailure <= t.entries[t.order[j]].lastFailure
  }

  lemma {:induction false} RemoveAt(order: seq<Key>, k: Key) returns (i: nat)
    requires k in order
    ensures i < |order| && order[i] == k && Remove(order, k) == order[..i] + order[i + 1..]
    decreases |order|
  {
    if order[0] == k {
      i := 0;
    } else {
      var j := RemoveAt(order[1..], k);
      i := j + 1;
      assert order[..i] == [order[0]] + order[1..][..j];
      assert order[i + 1..] == order[1..][j + 1..];
    }
  }

  lemma {:induction false} RemoveAbsent(order: seq<Key>, k: Key)
    requires k !in order
    ensures Remove(order, k) == order
    decreases |order|
  {
    if order != [] {
      RemoveAbsent(order[1..], k);
    }
  }

  /** What is left of an order without duplicates, element by element. */
  lemma RemoveLeaves(order: seq<Key>, k: Key) returns (i: nat)
    requires k in order && forall a, b :: 0 <= a < b < |order| ==> order[a] != order[b]
    ensures i < |order| && order[i] == k && |Remove(order, k)| == |order| - 1
    ensures forall j :: 0 <= j < |order| - 1 ==> Remove(order, k)[j] == order[if j < i then j else j + 1]
    ensures forall x :: x in Remove(order, k) <==> x in order && x != k
  {
    i := RemoveAt(order, k);
    var r := Remove(order, k);
    forall x | x in order && x != k
      ensures x in r
    {
      var j :| 0 <= j < |order| && order[j] == x;
      assert r[if j < i then j else j - 1] == x;
    }
  }

  lemma DropOk(t: Table, k: Key)
    requires Ok(t) && k in t.entries
    ensures Ok(Drop(t, k))
  {
    hide Remove;
    var i := RemoveLeaves(t.order, k);
    var r := Drop(t, k);
    forall a, b | 0 <= a < b < |r.order|
      ensures r.order[a] != r.order[b]
    {
      var a', b' := if a < i then a else a + 1, if b < i then b else b + 1;
      assert r.order[a] == t.order[a'] && r.order[b] == t.order[b'];
    }
  }

  lemma DropKeeps(t: Table, k: Key, now: real)
    requires Ok(t) && Ordered(t, now)
    ensures Ok(Drop(t, k)) && Ordered(Drop(t, k), now)
    ensures k in t.entries ==> |Drop(t, k).order| == |t.order| - 1
    ensures k !in t.entries ==> Drop(t, k) == t
  {
    hide Remove;
    if k in t.entries {
      DropOk(t, k);
      var i := RemoveLeaves(t.order, k);
      var r := Drop(t, k);
      forall a, b | 0 <= a < b < |r.order|
        ensures r.order[a] in r.order && r.order[b] in r.order
        ensures r.entries[r.order[a]].lastFailure <= r.entries[r.order[b]].lastFailure
      {
        var a', b' := if a < i then a else a + 1, if b < i then b else b + 1;
        assert r.order[a] == t.order[a'] && r.order[b] == t.order[b'];
        assert t.order[a'] in t.order && t.order[b'] in t.order;
      }
    } else {
      RemoveAbsent(t.order, k);
      assert t.entries - {k} == t.entries;
    }
  }

  lemma AppendOk(t: Table, k: Key, e: Entry)
    requires Ok(t) && k !in t.entries
    ensures Ok(Append(t, k, e))
  {
    var r := Append(t, k, e);
    forall i, j | 0 <= i < j < |r.order|
      ensures r.order[i] != r.order[j]
    {
      assert r.order[i] == t.order[i] && t.order[i] in t.order;
    }
  }

  lemma AppendKeeps(t: Table, k: Key, e: Entry, now: real)
    requires Ok(t) && Ordered(t, now) && k !in t.entries && e.lastFailure == now
    ensures Ok(Append(t, k, e)) && Ordered(Append(t, k, e), now)
  {
    AppendOk(t, k, e);
    var r := Append(t, k, e);
    forall i, j | 0 <= i < j < |r.order|
      ensures r.order[i] in r.order && r.order[j] in r.order
      ensures r.entries[r.order[i]].lastFailure <= r.entries[r.order[j]].lastFailure
    {
      assert r.order[i] == t.order[i] && t.order[i] in t.order;
      if j < |t.order| {
        assert r.order[j] == t.order[j] && t.order[j] in t.order;
      }
    }
  }

  lemma {:induction false} DropAllKeeps(t: Table, keys: seq<Key>, now: real)
    requires Ok(t) && Ordered(t, now)
    ensures Ok(DropAll(t, keys)) && Ordered(DropAll(t, keys), now)
    ensures DropAll(t, keys).entries == t.entries - (set k | k in keys)
    ensures |DropAll(t, keys).order| <= |t.order|
    decreases |keys|
  {
    hide Ordered, Remove;
    if keys != [] {
      DropKeeps(t, keys[0], now);
      DropAllKeeps(Drop(t, keys[0]), keys[1..], now);
    } else {
      assert t.entries - (set k | k in keys) == t.entries;
    }
  }

  lemma {:induction false} ExpiredKeysAre(t: Table, order: seq<Key>, now: real)
    ensures forall k :: k in ExpiredKeys(t, order, now) <==> k in order && k in t.entries && Expired(t.entries[k], now)
    decreases |order|
  {
    if order != [] {
      ExpiredKeysAre(t, order[1..], now);
    }
  }

  /** Purging deletes exactly the expired entries. */
  lemma PurgeKeeps(t: Table, now: real)
    requires Ok(t) && Ordered(t, now)
    ensures Ok(Purge(t, now)) && Ordered(Purge(t, now), now)
    ensures forall k :: k in Purge(t, now).entries <==> k in t.entries && !Expired(t.entries[k], now)
    ensures forall k :: k in Purge(t, now).entries ==> Purge(t, now).entries[k] == t.entries[k]
  {
    ExpiredKeysAre(t, t.order, now);
    DropAllKeeps(t, ExpiredKeys(t, t.order, now), now);
  }

  /** Shrinking leaves room, keeps entries as they are, and what it evicts failed no later than what stays. */
  lemma {:induction false} ShrinkKeeps(t: Table, cap: nat, now: real)
    requires Ok(t) && Ordered(t, now) && cap > 0
    ensures var r := Shrink(t, cap);
      && Ok(r) && Ordered(r, now) && |r.order| < cap
      && (forall k :: k in r.entries ==> k in t.entries && r.entries[k] == t.entries[k])
      && (forall k, j :: k in t.entries && k !in r.entries && j in r.entries ==>
            t.entries[k].lastFailure <= t.entries[j].lastFailure)
      && (if |t.order| < cap then r == t else |r.order| == cap - 1)
    decreases |t.order|
  {
    hide Remove, Ordered;
    if |t.order| >= cap {
      assert t.order[0] in t.order;
      DropKeeps(t, t.order[0], now);
      ShrinkKeeps(Drop(t, t.order[0]), cap, now);
      FirstIsOldest(t, now);
    }
  }

  lemma FirstIsOldest(t: Table, now: real)
    requires Ok(t) && Ordered(t, now) && t.order != []
    ensures t.order[0] in t.entries
    ensures forall j :: j in t.entries ==> t.entries[t.order[0]].lastFailure <= t.entries[j].lastFailure
  {
    assert t.order[0] in t.order;
    forall j | j in t.entries
      ensures t.entries[t.order[0]].lastFailure <= t.entries[j].lastFailure
    {
      var n :| 0 <= n < |t.order| && t.order[n] == j;
    }
  }

  /**
    Room for a new client: below the bound nothing changes; live entries are evicted
    only until exactly one place is free, and the evicted are the oldest.
   */
  lemma MakeRoomKeeps(t: Table, now: real, cap: nat)
    requires Ok(t) && Ordered(t, now) && cap > 0
    ensures var r := MakeRoom(t, now, cap);
      && Ok(r) && Ordered(r, now) && |r.order| < cap
      && (forall k :: k in r.entries ==> k in t.entries && r.entries[k] == t.entries[k])
      && (forall k, j :: k in t.entries && !Expired(t.entries[k], now) && k !in r.entries && j in r.entries ==>
            t.entries[k].lastFailure <= t.entries[j].lastFailure)
      && (|t.order| < cap ==> r == t)
      && (forall k :: k in t.entries && !Expired(t.entries[k], now) && k !in r.entries ==> |r.order| == cap - 1)
  {
    if |t.order| >= cap {
      PurgeKeeps(t, now);
      ShrinkKeeps(Purge(t, now), cap, now);
    }
  }

  // ---------------------------------------------------------------- runs

  datatype Op = CheckLogin(key: Key) | BadLogin(key: Key) | GoodLogin(key: Key)

  /** A call and the clock's reading at it. */
  datatype Timed = Timed(op: Op, now: real)

  function Apply(t: Table, c: Timed, cap: nat): Table {
    match c.op
    case CheckLogin(k) => Get(t, k, c.now)
    case BadLogin(k) => Failure(t, k, c.now, cap)
    case GoodLogin(k) => Success(t, k)
  }

  function Run(calls: seq<Timed>, cap: nat): Table {
    if calls == [] then EMPTY else Apply(Run(calls[..|calls| - 1], cap), calls[|calls| - 1], cap)
  }

  ghost predicate MonotoneClock(calls: seq<Timed>) {
    && (forall i :: 0 <= i < |calls| ==> 0.0 <= calls[i].now)
    && forall i, j :: 0 <= i < j < |calls| ==> calls[i].now <= calls[j].now
  }

  function Clock(calls: seq<Timed>): real { if calls == [] then 0.0 else calls[|calls| - 1].now }

  lemma OrderedLater(t: Table, now: real, later: real)
    requires Ok(t) && Ordered(t, now) && now <= later
    ensures Ordered(t, later)
  {
  }

  lemma GetKeeps(t: Table, k: Key, now: real)
    requires Ok(t) && Ordered(t, now)
    ensures Ok(Get(t, k, now)) && Ordered(Get(t, k, now), now) && |Get(t, k, now).order| <= |t.order|
  {
    DropKeeps(t, k, now);
  }

  lemma GetIsLive(t: Table, k: Key, now: real)
    ensures k in Get(t, k, now).entries <==> Live(t, k, now).Some?
    ensures Live(t, k, now).Some? ==> Get(t, k, now).entries[k] == Live(t, k, now).value
  {
  }

  lemma FailureKeeps(t: Table, k: Key, now: real, cap: nat)
    requires Ok(t) && Ordered(t, now) && cap > 0
    ensures Ok(Failure(t, k, now, cap)) && Ordered(Failure(t, k, now, cap), now)
    ensures |t.order| <= cap ==> |Failure(t, k, now, cap).order| <= cap
  {
    GetKeeps(t, k, now);
    var t1 := Get(t, k, now);
    if k in t1.entries {
      DropKeeps(t1, k, now);
      AppendKeeps(Drop(t1, k), k, Failed(t1.entries[k], now), now);
    } else {
      MakeRoomKeeps(t1, now, cap);
      AppendKeeps(MakeRoom(t1, now, cap), k, Failed(Entry(0, 0.0, now, []), now), now);
    }
  }

  /** Under a monotone clock the table stays within its bound and ordered by last failure. */
  lemma {:induction false} TableBounded(calls: seq<Timed>, cap: nat)
    requires MonotoneClock(calls) && cap > 0
    ensures Ok(Run(calls, cap)) && Ordered(Run(calls, cap), Clock(calls)) && |Run(calls, cap).order| <= cap
    decreases |calls|
  {
    if calls != [] {
      var before, c := calls[..|calls| - 1], calls[|calls| - 1];
      TableBounded(before, cap);
      var t := Run(before, cap);
      assert Clock(before) <= c.now;
      OrderedLater(t, Clock(before), c.now);
      match c.op
      case CheckLogin(k) => GetKeeps(t, k, c.now);
      case BadLogin(k) => FailureKeeps(t, k, c.now, cap);
      case GoodLogin(k) => DropKeeps(t, k, c.now);
    }
  }

  // ---------------------------------------------------------------- back-off

  /** The documented block: 30 seconds, doubled for each further failure, at most 15 minutes. */
  ghost function DocumentedBlock(k: nat): real {
    if 30 * Pow2(k) <= 900 then (30 * Pow2(k)) as real else 900.0
  }

  lemma {:induction false} Pow2AtLeast(k: nat)
    requires k >= 5
    ensures Pow2(k) >= 32
  {
    if k > 5 {
      Pow2AtLeast(k - 1);
    }
  }

  /** The cap on the exponent never shows. */
  lemma BlockIsDocumented(k: nat)
    ensures BlockFor(k) == DocumentedBlock(k)
  {
    if k > 16 {
      Pow2AtLeast(k);
      Pow2AtLeast(16);
    }
  }

  ghost function SumOfBlocks(k: nat): real {
    if k == 0 then 0.0 else SumOfBlocks(k - 1) + DocumentedBlock(k - 1)
  }

  /** The entry counts its failures, and each one after the fifth waited for the block before it. */
  ghost predicate BackedOff(e: Entry) {
    && |e.times| == e.failures > 0 && e.lastFailure == e.times[|e.times| - 1]
    && e.blockedUntil == (if e.failures >= MAX_FAILURES then e.lastFailure + BlockFor(e.failures - MAX_FAILURES) else 0.0)
    && forall i :: MAX_FAILURES <= i < |e.times| ==> e.times[i] >= e.times[i - 1] + BlockFor(i - MAX_FAILURES)
  }

  ghost predicate AllBackedOff(t: Table) { forall k :: k in t.entries ==> BackedOff(t.entries[k]) }

  /** Failures are recorded only for clients that are not blocked. */
  ghost predicate OnlyUnblocked(calls: seq<Timed>, cap: nat) {
    forall i :: 0 <= i < |calls| && calls[i].op.BadLogin? ==>
      WaitOf(Live(Run(calls[..i], cap), calls[i].op.key, calls[i].now), calls[i].now) == 0
  }

  /** check() is zero exactly when no block is left, and otherwise its rounded-up length. */
  lemma WaitMeansBlocked(e: Option<Entry>, now: real)
    ensures WaitOf(e, now) >= 0
    ensures WaitOf(e, now) == 0 <==> e.None? || e.value.blockedUntil <= now
    ensures WaitOf(e, now) > 0 ==>
      WaitOf(e, now) as real - 1.0 < e.value.blockedUntil - now <= WaitOf(e, now) as real
  {
    assert WaitOf(e, now) == 0 || WaitOf(e, now) == Ceil(e.value.blockedUntil - now);
  }

  lemma FailedBacksOff(e: Entry, now: real)
    requires BackedOff(e) && e.blockedUntil <= now
    ensures BackedOff(Failed(e, now))
  {
    var r := Failed(e, now);
    forall i | MAX_FAILURES <= i < |r.times|
      ensures r.times[i] >= r.times[i - 1] + BlockFor(i - MAX_FAILURES)
    {
      if i == |e.times| {
        assert r.times[i - 1] == e.lastFailure;
      }
    }
  }

  lemma {:induction false} RunBacksOff(calls: seq<Timed>, cap: nat)
    requires MonotoneClock(calls) && cap > 0 && OnlyUnblocked(calls, cap)
    ensures AllBackedOff(Run(calls, cap))
    decreases |calls|
  {
    if calls != [] {
      var n := |calls| - 1;
      var before, c := calls[..n], calls[n];
      assert forall i :: 0 <= i < n ==> before[..i] == calls[..i];
      RunBacksOff(before, cap);
      TableBounded(before, cap);
      var t := Run(before, cap);
      OrderedLater(t, Clock(before), c.now);
      if c.op.BadLogin? {
        FailureBacksOff(t, c.op.key, c.now, cap);
      }
    }
  }

  lemma FailureBacksOff(t: Table, k: Key, now: real, cap: nat)
    requires Ok(t) && Ordered(t, now) && cap > 0 && AllBackedOff(t)
    requires WaitOf(Live(t, k, now), now) == 0
    ensures AllBackedOff(Failure(t, k, now, cap))
  {
    var t1 := Get(t, k, now);
    GetKeeps(t, k, now);
    WaitMeansBlocked(Live(t, k, now), now);
    hide Ordered, Failed, BackedOff, MakeRoom, Ok, WaitOf, Expired, Remove;
    if k in t1.entries {
      FailedBacksOff(t1.entries[k], now);
    } else {
      MakeRoomKeeps(t1, now, cap);
    }
  }

  lemma {:induction false} TimesSum(e: Entry, k: nat)
    requires BackedOff(e) && MAX_FAILURES - 1 + k < |e.times|
    ensures e.times[MAX_FAILURES - 1 + k] - e.times[MAX_FAILURES - 1] >= SumOfBlocks(k)
  {
    if k > 0 {
      TimesSum(e, k - 1);
      BlockIsDocumented(k - 1);
    }
  }

  /** A client's (5 + k)-th failure since its last reset comes at least the first k documented blocks after its fifth. */
  lemma BackOffHolds(calls: seq<Timed>, cap: nat, client: Key, k: nat)
    requires MonotoneClock(calls) && cap > 0 && OnlyUnblocked(calls, cap)
    requires client in Run(calls, cap).entries
    requires 5 + k <= Run(calls, cap).entries[client].failures
    ensures var e := Run(calls, cap).entries[client];
      && |e.times| == e.failures
      && e.times[4 + k] - e.times[4] >= SumOfBlocks(k)
  {
    RunBacksOff(calls, cap);
    TimesSum(Run(calls, cap).entries[client], k);
  }

  // ---------------------------------------------------------------- against a table without a bound

  /** The clients the bounded table has evicted and not seen a good login from since. */
  ghost function Evicted(calls: seq<Timed>, cap: nat): set<Key> {
    if calls == [] then {}
    else EvictedBy(Run(calls[..|calls| - 1], cap), calls[|calls| - 1], cap, Evicted(calls[..|calls| - 1], cap))
  }

  ghost function EvictedBy(t: Table, c: Timed, cap: nat, before: set<Key>): set<Key> {
    match c.op
    case CheckLogin(k) => before
    case GoodLogin(k) => before - {k}
    case BadLogin(k) =>
      var t1 := Get(t, k, c.now);
      if k in t1.entries then before
      else before + set j | j in t1.entries && !Expired(t1.entries[j], c.now) && j !in MakeRoom(t1, c.now, cap).entries
  }

  /** A table is never larger than the number of calls, so a larger bound never evicts. */
  lemma {:induction false} NeverFull(calls: seq<Timed>, cap: nat)
    requires MonotoneClock(calls) && cap > |calls|
    ensures Ok(Run(calls, cap)) && Ordered(Run(calls, cap), Clock(calls)) && |Run(calls, cap).order| <= |calls|
    decreases |calls|
  {
    if calls != [] {
      var before, c := calls[..|calls| - 1], calls[|calls| - 1];
      NeverFull(before, cap);
      var t := Run(before, cap);
      OrderedLater(t, Clock(before), c.now);
      match c.op
      case CheckLogin(k) => GetKeeps(t, k, c.now);
      case GoodLogin(k) => DropKeeps(t, k, c.now);
      case BadLogin(k) =>
        FailureKeeps(t, k, c.now, cap);
        GetKeeps(t, k, c.now);
        DropKeeps(Get(t, k, c.now), k, c.now);
    }
  }

  lemma LiveMakeRoom(t: Table, now: real, cap: nat, k: Key)
    requires Ok(t) && Ordered(t, now) && cap > 0
    requires Live(t, k, now).Some? ==> k in MakeRoom(t, now, cap).entries
    ensures Live(MakeRoom(t, now, cap), k, now) == Live(t, k, now)
  {
    MakeRoomKeeps(t, now, cap);
  }

  /** What a call makes of a client's live entry, unless it is evicted by it. */
  ghost function LiveAfter(e: Option<Entry>, k: Key, c: Timed): Option<Entry> {
    if c.op.key != k || c.op.CheckLogin? then e
    else if c.op.GoodLogin? then None
    else Some(Failed(if e.Some? then e.value else Entry(0, 0.0, c.now, []), c.now))
  }

  lemma LiveStep(t: Table, c: Timed, cap: nat, k: Key, evicted: set<Key>)
    requires Ok(t) && Ordered(t, c.now) && cap > 0
    requires k !in EvictedBy(t, c, cap, evicted)
    ensures Live(Apply(t, c, cap), k, c.now) == LiveAfter(Live(t, k, c.now), k, c)
  {
    var j := c.op.key;
    GetKeeps(t, j, c.now);
    if c.op.BadLogin? {
      var t1 := Get(t, j, c.now);
      if j !in t1.entries {
        if k != j {
          LiveMakeRoom(t1, c.now, cap, k);
        }
      }
    }
  }

  /** For every client not evicted, the bounded table answers as an unbounded one would, now and later. */
  lemma {:induction false} AgreesWithUnbounded(calls: seq<Timed>, cap: nat, unbounded: nat, k: Key, now: real)
    requires MonotoneClock(calls) && cap > 0 && unbounded > |calls| && Clock(calls) <= now
    requires k !in Evicted(calls, cap)
    ensures Live(Run(calls, cap), k, now) == Live(Run(calls, unbounded), k, now)
    decreases |calls|
  {
    if calls != [] {
      var n := |calls| - 1;
      var before, c := calls[..n], calls[n];
      var b, u := Run(before, cap), Run(before, unbounded);
      hide Apply, Ok, Ordered, Live, LiveAfter;
      TableBounded(before, cap);
      NeverFull(before, unbounded);
      OrderedLater(b, Clock(before), c.now);
      OrderedLater(u, Clock(before), c.now);
      LiveStep(b, c, cap, k, Evicted(before, cap));
      NothingEvicted(u, c, unbounded);
      LiveStep(u, c, unbounded, k, {});
      if k in Evicted(before, cap) {
        assert c.op == GoodLogin(k);
      } else {
        AgreesWithUnbounded(before, cap, unbounded, k, c.now);
      }
    }
  }

  lemma NothingEvicted(t: Table, c: Timed, cap: nat)
    requires Ok(t) && Ordered(t, c.now) && |t.order| < cap
    ensures EvictedBy(t, c, cap, {}) == {}
  {
    GetKeeps(t, c.op.key, c.now);
  }

  // ---------------------------------------------------------------- what the calls alone say

  /** When the block after these failures ends: from the fifth on, the documented block after the last of them. */
  ghost function BlockEnd(times: seq<real>): real {
    if |times| < 5 then 0.0 else times[|times| - 1] + DocumentedBlock(|times| - 5)
  }

  /** The block is over and the last failure was an hour ago or more. */
  ghost predicate Forgotten(times: seq<real>, now: real) {
    times == [] || (BlockEnd(times) <= now && now - times[|times| - 1] >= 3600.0)
  }

  /** The times of a client's failed logins that count: a good login resets them, and forgotten ones make way for the next. */
  ghost function Account(calls: seq<Timed>, k: Key): seq<real> {
    if calls == [] then [] else Counted(Account(calls[..|calls| - 1], k), calls[|calls| - 1], k)
  }

  ghost function Counted(before: seq<real>, c: Timed, k: Key): seq<real> {
    if c.op == GoodLogin(k) then []
    else if c.op == BadLogin(k) then (if Forgotten(before, c.now) then [c.now] else before + [c.now])
    else before
  }

  /** The entry an account amounts to. */
  ghost function EntryOf(times: seq<real>, now: real): Option<Entry> {
    if Forgotten(times, now) then None
    else Some(Entry(|times|, BlockEnd(times), times[|times| - 1], times))
  }

  /** No block lasts an hour, so failures are forgotten exactly an hour after the last one. */
  lemma ForgottenIff(times: seq<real>, now: real)
    requires times != [] && times[|times| - 1] >= 0.0
    ensures Forgotten(times, now) <==> now - times[|times| - 1] >= 3600.0
  {
  }

  ghost predicate PastTimes(times: seq<real>, now: real) {
    forall i :: 0 <= i < |times| ==> 0.0 <= times[i] <= now
  }

  lemma {:induction false} AccountIsPast(calls: seq<Timed>, k: Key)
    requires MonotoneClock(calls)
    ensures PastTimes(Account(calls, k), Clock(calls)) && Clock(calls) >= 0.0
    decreases |calls|
  {
    if calls != [] {
      AccountIsPast(calls[..|calls| - 1], k);
      assert Clock(calls[..|calls| - 1]) <= Clock(calls);
    }
  }

  /** As time passes an entry can only be forgotten. */
  lemma LiveLater(t: Table, k: Key, now: real, later: real)
    requires now <= later
    ensures Live(t, k, later)
         == match Live(t, k, now)
            case None => None
            case Some(e) => if Expired(e, later) then None else Some(e)
  {
  }

  lemma EntryLater(times: seq<real>, now: real, later: real)
    requires now <= later
    ensures EntryOf(times, later)
         == match EntryOf(times, now)
            case None => None
            case Some(e) => if Expired(e, later) then None else Some(e)
  {
  }

  /** One more failure on the entry of an account is the entry of the longer account. */
  lemma FailedAccount(times: seq<real>, now: real)
    requires PastTimes(times, now) && now >= 0.0
    ensures var more := if Forgotten(times, now) then [now] else times + [now];
      var e := EntryOf(times, now);
      EntryOf(more, now) == Some(Failed(if e.Some? then e.value else Entry(0, 0.0, now, []), now))
  {
    var more := if Forgotten(times, now) then [now] else times + [now];
    var n := |more|;
    assert more[n - 1] == now && !Forgotten(more, now);
    if n >= 5 {
      BlockIsDocumented(n - 5);
    }
    if Forgotten(times, now) {
      assert [] + [now] == [now];
    }
  }

  /** One call, at its own time. */
  lemma EntryStep(t: Table, c: Timed, cap: nat, k: Key, evicted: set<Key>, times: seq<real>)
    requires Ok(t) && Ordered(t, c.now) && cap > 0 && PastTimes(times, c.now) && c.now >= 0.0
    requires k !in EvictedBy(t, c, cap, evicted)
    requires k in evicted || Live(t, k, c.now) == EntryOf(times, c.now)
    ensures Live(Apply(t, c, cap), k, c.now) == EntryOf(Counted(times, c, k), c.now)
  {
    assert k in evicted ==> c.op == GoodLogin(k);
    hide Apply, Ok, Ordered, Live, Forgotten, EntryOf, PastTimes, Failed, EvictedBy;
    LiveStep(t, c, cap, k, evicted);
    FailedAccount(times, c.now);
    NoFailures(c.now);
  }

  lemma AccountSnoc(calls: seq<Timed>, cap: nat, k: Key)
    requires calls != []
    ensures var n := |calls| - 1;
      && Account(calls, k) == Counted(Account(calls[..n], k), calls[n], k)
      && Run(calls, cap) == Apply(Run(calls[..n], cap), calls[n], cap)
      && Evicted(calls, cap) == EvictedBy(Run(calls[..n], cap), calls[n], cap, Evicted(calls[..n], cap))
  {
  }

  lemma ClockSnoc(calls: seq<Timed>)
    requires MonotoneClock(calls) && calls != []
    ensures MonotoneClock(calls[..|calls| - 1]) && Clock(calls) == calls[|calls| - 1].now >= 0.0
    ensures Clock(calls[..|calls| - 1]) <= Clock(calls)
  {
  }

  lemma PastLater(times: seq<real>, now: real, later: real)
    requires PastTimes(times, now) && now <= later
    ensures PastTimes(times, later)
  {
  }

  /** A client that was never evicted has the entry its calls amount to, whatever other clients did. */
  lemma {:induction false} EntryIsAccount(calls: seq<Timed>, cap: nat, k: Key, now: real)
    requires MonotoneClock(calls) && cap > 0 && Clock(calls) <= now
    requires k !in Evicted(calls, cap)
    ensures Live(Run(calls, cap), k, now) == EntryOf(Account(calls, k), now)
    decreases |calls|
  {
    if calls == [] {
      NoFailures(now);
    } else {
      hide *;
      var n := |calls| - 1;
      var before, c := calls[..n], calls[n];
      ClockSnoc(calls);
      TableBounded(before, cap);
      OrderedLater(Run(before, cap), Clock(before), c.now);
      AccountIsPast(before, k);
      PastLater(Account(before, k), Clock(before), c.now);
      AccountSnoc(calls, cap, k);
      if k !in Evicted(before, cap) {
        EntryIsAccount(before, cap, k, c.now);
      }
      EntryStep(Run(before, cap), c, cap, k, Evicted(before, cap), Account(before, k));
      LiveLater(Run(calls, cap), k, c.now, now);
      EntryLater(Account(calls, k), c.now, now);
    }
  }

  lemma NoFailures(now: real)
    ensures EntryOf([], now) == None
  {
  }

  /**
    What check() answers a client that was never evicted: with n counted failures, 0 up to the
    fourth, and from the fifth on the seconds, rounded up, to the end of the block that began with the last.
   */
  lemma CheckAnswers(calls: seq<Timed>, cap: nat, k: Key, now: real)
    requires MonotoneClock(calls) && cap > 0 && Clock(calls) <= now
    requires k !in Evicted(calls, cap)
    ensures var wait, times := WaitOf(Live(Run(calls, cap), k, now), now), Account(calls, k);
      var n := |times|;
      && wait >= 0
      && (n < 5 ==> wait == 0)
      && (n >= 5 ==>
            var end := times[n - 1] + DocumentedBlock(n - 5);
            && (wait == 0 <==> end <= now)
            && (wait > 0 ==> wait as real - 1.0 < end - now <= wait as real))
  {
    hide WaitOf, Live, DocumentedBlock, EntryOf, PastTimes;
    EntryIsAccount(calls, cap, k, now);
    AccountIsPast(calls, k);
    WaitOfAccount(Account(calls, k), now);
  }

  lemma WaitOfAccount(times: seq<real>, now: real)
    requires now >= 0.0
    ensures var wait, n := WaitOf(EntryOf(times, now), now), |times|;
      && wait >= 0
      && (n < 5 ==> wait == 0)
      && (n >= 5 ==>
            var end := times[n - 1] + DocumentedBlock(n - 5);
            && (wait == 0 <==> end <= now)
            && (wait > 0 ==> wait as real - 1.0 < end - now <= wait as real))
  {
    hide WaitOf, DocumentedBlock;
    WaitMeansBlocked(EntryOf(times, now), now);
  }

  /** The times of all failed logins of a client, from a given call on. */
  ghost function BadLogins(calls: seq<Timed>, k: Key, start: nat): seq<real> {
    if |calls| <= start then []
    else
      var c := calls[|calls| - 1];
      BadLogins(calls[..|calls| - 1], k, start) + (if c.op == BadLogin(k) then [c.now] else [])
  }

  ghost predicate GapsUnderAnHour(times: seq<real>) {
    forall i :: 0 < i < |times| ==> times[i] - times[i - 1] < 3600.0
  }

  lemma GapsSnoc(times: seq<real>, now: real)
    requires GapsUnderAnHour(times + [now])
    ensures times != [] ==> GapsUnderAnHour(times) && !Forgotten(times, now)
  {
    var all := times + [now];
    if times != [] {
      assert all[|times|] - all[|times| - 1] < 3600.0;
      forall i | 0 < i < |times|
        ensures times[i] - times[i - 1] < 3600.0
      {
        assert all[i] - all[i - 1] < 3600.0;
      }
    }
  }

  lemma CountsNext(times: seq<real>, c: Timed, k: Key)
    requires c.op != GoodLogin(k) && (c.op == BadLogin(k) ==> GapsUnderAnHour(times + [c.now]))
    ensures Counted(times, c, k) == times + (if c.op == BadLogin(k) then [c.now] else [])
  {
    if c.op == BadLogin(k) {
      GapsSnoc(times, c.now);
      assert times == [] ==> times + [c.now] == [c.now];
    } else {
      assert times + [] == times;
    }
  }

  /** With no good login since and never an hour between two of them, every failed login counts. */
  lemma {:induction false} EveryFailureCounts(calls: seq<Timed>, k: Key, start: nat)
    requires MonotoneClock(calls) && start <= |calls|
    requires start == 0 || calls[start - 1].op == GoodLogin(k)
    requires forall i :: start <= i < |calls| ==> calls[i].op != GoodLogin(k)
    requires GapsUnderAnHour(BadLogins(calls, k, start))
    ensures Account(calls, k) == BadLogins(calls, k, start)
    decreases |calls|
  {
    hide GapsUnderAnHour, Forgotten;
    if |calls| > start {
      var n := |calls| - 1;
      var c, times := calls[n], BadLogins(calls[..n], k, start);
      if c.op == BadLogin(k) {
        GapsSnoc(times, c.now);
      } else {
        assert times + [] == times;
      }
      assert GapsUnderAnHour(times) by {
        if times == [] { NoGaps(); }
      }
      EveryFailureCounts(calls[..n], k, start);
      CountsNext(times, c, k);
      hide Counted;
    }
  }

  lemma NoGaps()
    ensures GapsUnderAnHour([])
  {
  }

  // ---------------------------------------------------------------- who is evicted

  ghost function BadClients(calls: seq<Timed>): set<Key> {
    set i | 0 <= i < |calls| && calls[i].op.BadLogin? :: calls[i].op.key
  }

  lemma {:induction false} DistinctLength(order: seq<Key>, keys: set<Key>)
    requires forall i, j :: 0 <= i < j < |order| ==> order[i] != order[j]
    requires forall i :: 0 <= i < |order| ==> order[i] in keys
    ensures |order| <= |keys|
    decreases |order|
  {
    if order != [] {
      var n := |order| - 1;
      DistinctLength(order[..n], keys - {order[n]});
    }
  }

  /** The table only ever has clients with a failed login, and as long as they fit nobody is evicted. */
  lemma {:induction false} NobodyEvicted(calls: seq<Timed>, cap: nat)
    requires MonotoneClock(calls) && cap > 0 && |BadClients(calls)| <= cap
    ensures Evicted(calls, cap) == {} && Run(calls, cap).entries.Keys <= BadClients(calls)
    decreases |calls|
  {
    if calls != [] {
      var n := |calls| - 1;
      var before, c := calls[..n], calls[n];
      var t := Run(before, cap);
      ClientsGrow(calls);
      assert |BadClients(before)| <= cap by { SubsetSize(BadClients(before), BadClients(calls)); }
      NobodyEvicted(before, cap);
      TableBounded(before, cap);
      OrderedLater(t, Clock(before), c.now);
      hide Evicted, BadClients;
      StepEvictsNobody(t, c, cap, BadClients(before), BadClients(calls));
      AccountSnoc(calls, cap, 0);
    }
  }

  lemma SubsetSize(a: set<Key>, b: set<Key>)
    requires a <= b
    ensures |a| <= |b|
  {
    assert b == a + (b - a);
  }

  lemma ClientsGrow(calls: seq<Timed>)
    requires calls != []
    ensures var c := calls[|calls| - 1];
      BadClients(calls) == BadClients(calls[..|calls| - 1]) + (if c.op.BadLogin? then {c.op.key} else {})
  {
    var n := |calls| - 1;
    var before := calls[..n];
    assert forall i :: 0 <= i < n ==> before[i] == calls[i];
    forall k
      ensures k in BadClients(calls) <==> k in BadClients(before) || calls[n].op == BadLogin(k)
    {
      if k in BadClients(before) {
        var i :| 0 <= i < n && before[i].op == BadLogin(k);
        assert calls[i].op == BadLogin(k);
      }
    }
  }

  lemma StepEvictsNobody(t: Table, c: Timed, cap: nat, clients: set<Key>, clients': set<Key>)
    requires Ok(t) && Ordered(t, c.now) && cap > 0 && t.entries.Keys <= clients
    requires clients' == clients + (if c.op.BadLogin? then {c.op.key} else {}) && |clients'| <= cap
    ensures EvictedBy(t, c, cap, {}) == {} && Apply(t, c, cap).entries.Keys <= clients'
  {
    if c.op.BadLogin? {
      var k := c.op.key;
      GetKeeps(t, k, c.now);
      var t1 := Get(t, k, c.now);
      assert t1.entries.Keys <= t.entries.Keys;
      if k !in t1.entries {
        forall i | 0 <= i < |t1.order|
          ensures t1.order[i] in clients' - {k}
        {
          assert t1.order[i] in t1.order;
        }
        DistinctLength(t1.order, clients' - {k});
        assert |clients' - {k}| == |clients'| - 1;
        MakeRoomKeeps(t1, c.now, cap);
      }
    }
  }

  // ---------------------------------------------------------------- the limiter

  class Limiter {
    var clients: Table
    /** The calls so far, with the clock's readings. */
    ghost var calls: seq<Timed>

    ghost predicate Valid()
      reads this
    {
      MonotoneClock(calls) && clients == Run(calls, 10000)
    }

    constructor ()
      ensures Valid() && calls == []
    {
      clients, calls := EMPTY, [];
    }

    method GetEntry(k: Key, now: real) returns (entry: Option<Entry>)
      modifies `clients
      ensures clients == Get(old(clients), k, now)
      ensures entry == Live(old(clients), k, now)
    {
      if k in clients.entries {
        entry := Some(clients.entries[k]);
        if Expired(entry.value, now) {
          clients := Drop(clients, k);
          entry := None;
        }
      } else {
        entry := None;
      }
    }

    /** The seconds a client that was not evicted has to wait, by the failures its calls leave standing. */
    method Check(k: Key, now: real) returns (wait: int)
      requires Valid() && Clock(calls) <= now
      modifies this
      ensures Valid() && calls == old(calls) + [Timed(CheckLogin(k), now)]
      ensures clients == Apply(old(clients), Timed(CheckLogin(k), now), 10000)
      ensures wait == WaitOf(Live(old(clients), k, now), now)
      ensures k !in Evicted(old(calls), 10000) ==>
        var times := Account(old(calls), k);
        var n := |times|;
        && wait >= 0
        && (n < 5 ==> wait == 0)
        && (n >= 5 ==>
              var end := times[n - 1] + DocumentedBlock(n - 5);
              && (wait == 0 <==> end <= now)
              && (wait > 0 ==> wait as real - 1.0 < end - now <= wait as real))
    {
      CallSnoc(calls, Timed(CheckLogin(k), now), 10000);
      if k !in Evicted(calls, 10000) {
        CheckAnswers(calls, 10000, k, now);
      }
      calls := calls + [Timed(CheckLogin(k), now)];
      var entry := GetEntry(k, now);
      if entry.None? || entry.value.blockedUntil <= now {
        wait := 0;
      } else {
        wait := Ceil(entry.value.blockedUntil - now);
      }
    }

    method MakeRoomFor(now: real)
      requires Ok(clients) && Ordered(clients, now)
      modifies `clients
      ensures clients == MakeRoom(old(clients), now, 10000)
    {
      if |clients.order| < MAX_CLIENTS {
        return;
      }
      var expired := ExpiredKeys(clients, clients.order, now);
      var i := 0;
      while i < |expired|
        invariant 0 <= i <= |expired|
        invariant DropAll(clients, expired[i..]) == Purge(old(clients), now)
      {
        assert expired[i..][1..] == expired[i + 1..];
        clients := Drop(clients, expired[i]);
        i := i + 1;
      }
      ghost var purged := clients;
      PurgeKeeps(old(clients), now);
      while |clients.order| >= MAX_CLIENTS
        invariant Shrink(clients, MAX_CLIENTS) == Shrink(purged, MAX_CLIENTS)
        decreases |clients.order|
      {
        clients := Drop(clients, clients.order[0]);
      }
    }

    method OnFailure(k: Key, now: real)
      requires Valid() && Clock(calls) <= now
      modifies this
      ensures Valid() && calls == old(calls) + [Timed(BadLogin(k), now)]
      ensures clients == Apply(old(clients), Timed(BadLogin(k), now), 10000)
    {
      hide Run, MonotoneClock, Ordered, Ok, MakeRoom, Expired, Get, Live, Drop, Append, Pow2;
      ghost var call := Timed(BadLogin(k), now);
      GetIsLive(clients, k, now);
      CallSnoc(calls, call, 10000);
      TableBounded(calls, 10000);
      OrderedLater(clients, Clock(calls), now);
      GetKeeps(clients, k, now);
      calls := calls + [call];
      var found := GetEntry(k, now);
      var entry: Entry;
      if found.None? {
        MakeRoomFor(now);
        entry := Entry(0, 0.0, now, []);
      } else {
        entry := found.value;
        clients := Drop(clients, k);
      }
      var failures := entry.failures + 1;
      var blockedUntil := entry.blockedUntil;
      if failures >= MAX_FAILURES {
        var doublings := Min(failures - MAX_FAILURES, 16);
        blockedUntil := now + Min(BASE_DELAY * Pow2(doublings), MAX_DELAY) as real;
      }
      clients := Append(clients, k, Entry(failures, blockedUntil, now, entry.times + [now]));
    }

    method OnSuccess(k: Key, ghost now: real)
      requires Valid() && Clock(calls) <= now
      modifies this
      ensures Valid() && calls == old(calls) + [Timed(GoodLogin(k), now)]
      ensures clients == Apply(old(clients), Timed(GoodLogin(k), now), 10000)
    {
      CallSnoc(calls, Timed(GoodLogin(k), now), 10000);
      calls := calls + [Timed(GoodLogin(k), now)];
      if k in clients.entries {
        clients := Drop(clients, k);
      }
    }
  }

  /** A call more: the clock is still monotone, and the run goes one step on. */
  lemma CallSnoc(calls: seq<Timed>, c: Timed, cap: nat)
    requires MonotoneClock(calls) && Clock(calls) <= c.now
    ensures MonotoneClock(calls + [c]) && Run(calls + [c], cap) == Apply(Run(calls, cap), c, cap)
  {
    assert (calls + [c])[..|calls|] == calls;
  }
}
