/**
  Status synchronisation: the daemon remembers, per session, the last status it
  sent and answers with the changes only; the client merges them into its cache.
 */
module StatusDiff {
  import opened Wrappers

  type TorrentId = nat
  type SessionId = nat
  type Key = string
  /** A status value, compared and copied but never looked into. */
  type Value = nat

  type Status = map<Key, Value>

  const STATE_KEY: Key := "state"

  /** b has everything a has, with the same values. */
  ghost predicate Covers(a: Status, b: Status) {
    forall k :: k in a ==> k in b && b[k] == a[k]
  }

  /** What has to be sent: the keys that are new or have another value than last time. */
  function Diff(prev: Status, cur: Status): Status {
    map k | k in cur && !(k in prev && prev[k] == cur[k]) :: cur[k]
  }

  function Restrict(status: Status, keys: set<Key>): Status {
    map k | k in status && k in keys :: status[k]
  }

  /** What is asked for: an empty key list asks for everything. */
  function Asked(status: Status, keys: set<Key>): Status {
    if keys == {} then status else Restrict(status, keys)
  }

  function Answer(prev: Option<Status>, cur: Status): Status {
    if prev.Some? then Diff(prev.value, cur) else cur
  }

  /** What goes out for the status `cur`, and what is remembered; only diff answers are remembered. */
  function Serve(prev: Option<Status>, cur: Status, diff: bool): (Status, Option<Status>) {
    if diff then (Answer(prev, cur), Some(cur)) else (cur, prev)
  }

  /** A client that covers the last answered status covers the new one after the merge. */
  lemma MergeCovers(prev: Option<Status>, cur: Status, cache: Status)
    requires prev.Some? ==> Covers(prev.value, cache)
    ensures Covers(cur, cache + Answer(prev, cur))
  {
    forall k | k in cur
      ensures k in cache + Answer(prev, cur) && (cache + Answer(prev, cur))[k] == cur[k]
    {
      if prev.Some? && k in prev.value && prev.value[k] == cur[k] {
        assert k !in Answer(prev, cur);
      }
    }
  }

  // ---------------------------------------------------------------- the client's entry

  /**
    A torrent in the client's cache: not there; in a tuple, whose values can be
    changed but which cannot be given a new time; or in a list.
   */
  datatype Entry = Absent | Frozen(values: Status) | Live(values: Status)

  /** Which callback an answer goes to: of a torrent unknown when asked for, of a known one, or of an added one. */
  datatype Handler = First | Merge | Full

  function Values(e: Entry): Status { if e.Absent? then map[] else e.values }

  /** The entry after an answer: Merge ignores a missing torrent and raises on a tuple, Full raises on a missing torrent. */
  function Receive(e: Entry, h: Handler, changes: Status): Entry {
    match h
    case First => if changes == map[] then e else Frozen(changes)
    case Merge => if e.Live? then Live(e.values + changes) else e
    case Full => if e.Absent? then e else e.(values := e.values + changes)
  }

  predicate Raises(e: Entry, h: Handler) { (h.Merge? && e.Frozen?) || (h.Full? && e.Absent?) }

  /** setdefault('state', ...): only an entry that has no state yet takes it from the event. */
  function NoteState(e: Entry, value: Value): Entry {
    if e.Absent? || STATE_KEY in e.values then e else e.(values := e.values[STATE_KEY := value])
  }

  /** setdefault(torrent_id, [time(), {}]) for a torrent that is listed. */
  function Listing(e: Entry, listed: bool): Entry { if listed && e.Absent? then Live(map[]) else e }

  // ---------------------------------------------------------------- one torrent, one session

  /** An answer on its way: its callback, the values, and (for the record) the status they bring the client to. */
  datatype Message = Message(handler: Handler, changes: Status, snapshot: Status)

  /** The daemon's values, what it remembers for the session, answers in flight, and the client's entry. */
  datatype Link = Link(status: Status, prev: Option<Status>, flight: seq<Message>, entry: Entry)

  /** Request is the moment the daemon answers; its callback was fixed when the client asked, at any time before. */
  datatype Event =
    | ServerChange(status: Status)
    | Request(handler: Handler, keys: set<Key>)
    | Deliver
    | ServerForgets
    | StateEvent(value: Value)
    | Listed
    | Announced
    | Removed

  function Answered(l: Link, h: Handler, keys: set<Key>): Link {
    var cur := Asked(l.status, keys);
    var (changes, prev) := Serve(l.prev, cur, !h.Full?);
    l.(prev := prev, flight := l.flight + [Message(h, changes, cur)])
  }

  function Step(l: Link, e: Event): Link {
    match e
    case ServerChange(status) => l.(status := status)
    case Request(h, keys) => Answered(l, h, keys)
    case Deliver =>
      if l.flight == [] then l
      else l.(flight := l.flight[1..], entry := Receive(l.entry, l.flight[0].handler, l.flight[0].changes))
    case ServerForgets => l.(prev := None)
    case StateEvent(value) => l.(entry := NoteState(l.entry, value))
    case Listed => l.(entry := Listing(l.entry, true))
    case Announced => l.(entry := Live(map[]))
    case Removed => l.(entry := Absent)
  }

  function Run(l: Link, events: seq<Event>): Link {
    if events == [] then l else Step(Run(l, events[..|events| - 1]), events[|events| - 1])
  }

  /** The entry once the messages have arrived. */
  ghost function After(e: Entry, flight: seq<Message>): Entry {
    if flight == [] then e
    else
      var last := flight[|flight| - 1];
      Receive(After(e, flight[..|flight| - 1]), last.handler, last.changes)
  }

  /** Answer i will leave the client with the values it answers. */
  ghost predicate Arrives(e: Entry, flight: seq<Message>, i: nat)
    requires i < |flight|
  {
    Covers(flight[i].snapshot, Values(After(e, flight[..i + 1])))
  }

  /** Every answer in flight will leave the client with the values it answers, and then the client has all that is remembered. */
  ghost predicate InSync(l: Link) {
    && (l.prev.Some? ==> Covers(l.prev.value, Values(After(l.entry, l.flight))))
    && AllArrive(l.entry, l.flight) && ChangesAnswer(l.flight)
  }

  ghost predicate AllArrive(e: Entry, flight: seq<Message>)
    decreases |flight|
  {
    flight == []
    || (AllArrive(e, flight[..|flight| - 1]) && Covers(flight[|flight| - 1].snapshot, Values(After(e, flight))))
  }

  ghost predicate ChangesAnswer(flight: seq<Message>)
    decreases |flight|
  {
    flight == []
    || (ChangesAnswer(flight[..|flight| - 1]) && Covers(flight[|flight| - 1].changes, flight[|flight| - 1].snapshot))
  }

  lemma {:induction false} AllArriveAt(e: Entry, flight: seq<Message>)
    ensures AllArrive(e, flight) <==> forall i :: 0 <= i < |flight| ==> Arrives(e, flight, i)
    decreases |flight|
  {
    hide Covers, After;
    if flight != [] {
      var n := |flight| - 1;
      var front := flight[..n];
      AllArriveAt(e, front);
      assert flight[..n + 1] == flight;
      assert Arrives(e, flight, n) <==> Covers(flight[n].snapshot, Values(After(e, flight)));
      forall i | 0 <= i < n
        ensures Arrives(e, flight, i) <==> Arrives(e, front, i)
      {
        assert flight[..i + 1] == front[..i + 1];
      }
      hide Arrives;
      if forall i :: 0 <= i < |flight| ==> Arrives(e, flight, i) {
        forall i | 0 <= i < n
          ensures Arrives(e, front, i)
        {
          assert Arrives(e, flight, i);
        }
      }
    }
  }

  lemma {:induction false} ChangesAnswerAt(flight: seq<Message>, i: nat)
    requires ChangesAnswer(flight) && i < |flight|
    ensures Covers(flight[i].changes, flight[i].snapshot)
    decreases |flight|
  {
    hide Covers;
    if i < |flight| - 1 {
      ChangesAnswerAt(flight[..|flight| - 1], i);
    }
  }

  lemma {:induction false} ChangesAnswerRest(flight: seq<Message>)
    requires ChangesAnswer(flight) && flight != []
    ensures ChangesAnswer(flight[1..])
    decreases |flight|
  {
    hide Covers;
    var n := |flight| - 1;
    if n > 0 {
      ChangesAnswerRest(flight[..n]);
      assert flight[1..][..n - 1] == flight[..n][1..];
    }
  }

  // ---------------------------------------------------------------- answers arriving

  lemma {:induction false} AfterDeliver(e: Entry, flight: seq<Message>)
    requires flight != []
    ensures After(Receive(e, flight[0].handler, flight[0].changes), flight[1..]) == After(e, flight)
    decreases |flight|
  {
    var n := |flight| - 1;
    if n == 0 {
      assert flight[..0] == [] && flight[1..] == [];
    } else {
      assert flight[1..][..n - 1] == flight[..n][1..];
      AfterDeliver(e, flight[..n]);
    }
  }

  lemma TakeRest<T>(s: seq<T>, n: nat)
    requires n < |s|
    ensures s[..n + 1][1..] == s[1..][..n]
  {
  }

  lemma DeliverKeepsSync(l: Link)
    requires InSync(l) && l.flight != []
    ensures InSync(Step(l, Deliver))
    ensures Covers(l.flight[0].snapshot, Values(Step(l, Deliver).entry))
  {
    var e := Receive(l.entry, l.flight[0].handler, l.flight[0].changes);
    assert After(l.entry, l.flight[..1]) == e by {
      assert l.flight[..1][..0] == [];
    }
    hide Receive, Covers, After, AllArrive, ChangesAnswer;
    AfterDeliver(l.entry, l.flight);
    ChangesAnswerRest(l.flight);
    AllArriveAt(l.entry, l.flight);
    assert Arrives(l.entry, l.flight, 0);
    forall i | 0 <= i < |l.flight| - 1
      ensures Arrives(e, l.flight[1..], i)
    {
      assert Arrives(l.entry, l.flight, i + 1);
      AfterDeliver(l.entry, l.flight[..i + 2]);
      TakeRest(l.flight, i + 1);
      assert l.flight[..i + 2][0] == l.flight[0];
    }
    AllArriveAt(e, l.flight[1..]);
  }

  // ---------------------------------------------------------------- requests

  /** One more answer in flight. */
  lemma ArriveSnoc(e: Entry, flight: seq<Message>, m: Message)
    ensures After(e, flight + [m]) == Receive(After(e, flight), m.handler, m.changes)
    ensures AllArrive(e, flight + [m]) <==> AllArrive(e, flight) && Covers(m.snapshot, Values(After(e, flight + [m])))
    ensures ChangesAnswer(flight + [m]) <==> ChangesAnswer(flight) && Covers(m.changes, m.snapshot)
  {
    hide Receive, Covers;
    assert (flight + [m])[..|flight|] == flight;
  }

  lemma FlightSnoc(l: Link, m: Message, prev: Option<Status>)
    requires InSync(l) && Covers(m.changes, m.snapshot)
    ensures var last := Values(Receive(After(l.entry, l.flight), m.handler, m.changes));
      InSync(l.(prev := prev, flight := l.flight + [m])) <==>
        Covers(m.snapshot, last) && (prev.Some? ==> Covers(prev.value, last))
  {
    hide Receive, Covers, After, AllArrive, ChangesAnswer;
    ArriveSnoc(l.entry, l.flight, m);
  }

  /** What a request needs, in terms of the entry `e` its answer will find. */
  ghost predicate AnswerFits(prev: Option<Status>, cur: Status, e: Entry, h: Handler) {
    match h
    case Merge => e.Live? || Covers(cur, Values(e))
    case First => Answer(prev, cur) == map[] || Answer(prev, cur) == cur
    case Full =>
      if e.Absent? then cur == map[]
      else prev.Some? ==> forall k :: k in prev.value && k in cur ==> prev.value[k] == cur[k]
  }

  /** A request keeps daemon and client in step exactly when its answer fits, whatever is in flight. */
  lemma RequestKeepsSyncIff(l: Link, h: Handler, keys: set<Key>)
    requires InSync(l)
    ensures InSync(Answered(l, h, keys)) <==> AnswerFits(l.prev, Asked(l.status, keys), After(l.entry, l.flight), h)
  {
    var cur, e := Asked(l.status, keys), After(l.entry, l.flight);
    var (changes, prev) := Serve(l.prev, cur, !h.Full?);
    FlightSnoc(l, Message(h, changes, cur), prev);
    hide InSync, Asked, After;
    match h
    case Merge => if e.Live? { MergeCovers(l.prev, cur, Values(e)); }
    case First => FirstFits(l.prev, cur, e);
    case Full => FullFits(l.prev, cur, e);
  }

  lemma FirstFits(prev: Option<Status>, cur: Status, e: Entry)
    requires prev.Some? ==> Covers(prev.value, Values(e))
    ensures Covers(cur, Values(Receive(e, First, Answer(prev, cur)))) <==> AnswerFits(prev, cur, e, First)
  {
    var changes := Answer(prev, cur);
    if changes == map[] {
      forall k | k in cur
        ensures k in Values(e) && Values(e)[k] == cur[k]
      {
        assert k !in changes;
      }
    } else if Covers(cur, changes) {
      assert changes == cur;
    }
  }

  lemma FullFits(prev: Option<Status>, cur: Status, e: Entry)
    requires prev.Some? ==> Covers(prev.value, Values(e))
    ensures var last := Values(Receive(e, Full, cur));
      Covers(cur, last) && (prev.Some? ==> Covers(prev.value, last)) <==> AnswerFits(prev, cur, e, Full)
  {
    var last := Values(Receive(e, Full, cur));
    if e.Absent? {
      assert Covers(cur, last) <==> cur == map[] by {
        if cur != map[] {
          var k :| k in cur;
          assert k !in last;
        }
      }
    } else if prev.Some? && Covers(prev.value, last) {
      forall k | k in prev.value && k in cur
        ensures prev.value[k] == cur[k]
      {
        assert last[k] == cur[k];
      }
    }
  }

  /** A diff request from a known torrent is safe, whatever the daemon's status, exactly if its answer will find a list. */
  lemma MergeSafeIffLive(l: Link)
    requires InSync(l)
    ensures (forall status, keys :: InSync(Answered(l.(status := status), Merge, keys))) <==>
      After(l.entry, l.flight).Live?
  {
    var e := After(l.entry, l.flight);
    if e.Live? {
      forall status, keys
        ensures InSync(Answered(l.(status := status), Merge, keys))
      {
        RequestKeepsSyncIff(l.(status := status), Merge, keys);
      }
    } else {
      var other := if STATE_KEY in Values(e) then Values(e)[STATE_KEY] + 1 else 0;
      var status: Status := map[STATE_KEY := other];
      RequestKeepsSyncIff(l.(status := status), Merge, {});
      assert !Covers(status, Values(e)) by { assert STATE_KEY in status; }
      assert !InSync(Answered(l.(status := status), Merge, {}));
    }
  }

  /** A diff request for an unknown torrent is safe, whatever the daemon's status, exactly if nothing is remembered. */
  lemma FirstSafeIffForgotten(l: Link)
    requires InSync(l)
    ensures (forall status, keys :: InSync(Answered(l.(status := status), First, keys))) <==>
      l.prev.None? || l.prev.value == map[]
  {
    if l.prev.None? || l.prev.value == map[] {
      forall status, keys
        ensures InSync(Answered(l.(status := status), First, keys))
      {
        assert Answer(l.prev, Asked(status, keys)) == Asked(status, keys);
        RequestKeepsSyncIff(l.(status := status), First, keys);
      }
    } else {
      var k :| k in l.prev.value;
      var k2 := if k == STATE_KEY then "name" else STATE_KEY;
      var other := if k2 in l.prev.value then l.prev.value[k2] + 1 else 0;
      var status: Status := map[k := l.prev.value[k], k2 := other];
      var changes := Answer(l.prev, status);
      assert k !in changes && k2 in changes;
      RequestKeepsSyncIff(l.(status := status), First, {});
      assert changes != status && changes != map[];
      assert !InSync(Answered(l.(status := status), First, {}));
    }
  }

  // ---------------------------------------------------------------- state events and listings

  /** b is a better entry than a: the same kind, or nothing against something, with all its values. */
  ghost predicate Below(a: Entry, b: Entry) {
    Covers(Values(a), Values(b)) && (a.Live? ==> b.Live?) && (a.Frozen? ==> b.Frozen?)
  }

  lemma ReceiveBelow(a: Entry, b: Entry, h: Handler, changes: Status)
    requires Below(a, b)
    ensures Below(Receive(a, h, changes), Receive(b, h, changes))
  {
  }

  lemma {:induction false} AfterBelow(a: Entry, b: Entry, flight: seq<Message>)
    requires Below(a, b)
    ensures Below(After(a, flight), After(b, flight))
    decreases |flight|
  {
    hide Below, Receive;
    if flight != [] {
      var n := |flight| - 1;
      AfterBelow(a, b, flight[..n]);
      ReceiveBelow(After(a, flight[..n]), After(b, flight[..n]), flight[n].handler, flight[n].changes);
    }
  }

  lemma CoversTransitive(a: Status, b: Status, c: Status)
    requires Covers(a, b) && Covers(b, c)
    ensures Covers(a, c)
  {
  }

  lemma BelowCovers(a: Entry, b: Entry)
    ensures Below(a, b) ==> Covers(Values(a), Values(b))
  {
  }

  lemma BetterKeepsSync(l: Link, e: Entry)
    requires InSync(l) && Below(l.entry, e)
    ensures InSync(l.(entry := e))
  {
    hide Receive, Covers, Below, After, AllArrive, ChangesAnswer;
    BelowCovers(After(l.entry, l.flight), After(e, l.flight));
    AfterBelow(l.entry, e, l.flight);
    AllArriveAt(l.entry, l.flight);
    AllArriveAt(e, l.flight);
    if l.prev.Some? {
      CoversTransitive(l.prev.value, Values(After(l.entry, l.flight)), Values(After(e, l.flight)));
    }
    forall i | 0 <= i < |l.flight|
      ensures Arrives(e, l.flight, i)
    {
      assert Arrives(l.entry, l.flight, i);
      AfterBelow(l.entry, e, l.flight[..i + 1]);
      BelowCovers(After(l.entry, l.flight[..i + 1]), After(e, l.flight[..i + 1]));
      CoversTransitive(l.flight[i].snapshot, Values(After(l.entry, l.flight[..i + 1])), Values(After(e, l.flight[..i + 1])));
    }
  }

  // ---------------------------------------------------------------- torrents added and removed

  /** The values answer i finds or brings, if the client starts from the entry e0 without values. */
  ghost function Carried(l: Link, e0: Entry, n: nat): Status
    requires n <= |l.flight|
  {
    Values(After(e0, l.flight[..n]))
  }

  /** Every answer in flight, and what is remembered, is for keys that the answers in flight themselves carry. */
  ghost predicate AllCarried(l: Link, e0: Entry) {
    && (l.prev.Some? ==> l.prev.value.Keys <= Carried(l, e0, |l.flight|).Keys)
    && AnswersCarried(l, e0)
  }

  ghost predicate AnswersCarried(l: Link, e0: Entry) {
    forall i :: 0 <= i < |l.flight| ==> l.flight[i].snapshot.Keys <= Carried(l, e0, i + 1).Keys
  }

  /** From an entry without values the answers in flight bring some of the same values, and none else. */
  lemma {:induction false} CarriedIsBelow(l: Link, e0: Entry, n: nat)
    requires InSync(l) && n <= |l.flight| && Values(e0) == map[] && !e0.Frozen?
    ensures var x, y := After(e0, l.flight[..n]), After(l.entry, l.flight[..n]);
      Covers(Values(x), Values(y)) && (x.Frozen? ==> x == y)
    decreases n
  {
    if n > 0 {
      CarriedIsBelow(l, e0, n - 1);
      assert l.flight[..n][..n - 1] == l.flight[..n - 1];
      var m := l.flight[n - 1];
      AllArriveAt(l.entry, l.flight);
      assert Arrives(l.entry, l.flight, n - 1);
      ChangesAnswerAt(l.flight, n - 1);
      ReceiveCarried(After(e0, l.flight[..n - 1]), After(l.entry, l.flight[..n - 1]), m);
    }
  }

  lemma ReceiveCarried(x: Entry, y: Entry, m: Message)
    requires Covers(Values(x), Values(y)) && (x.Frozen? ==> x == y) && Covers(m.changes, m.snapshot)
    requires Covers(m.snapshot, Values(Receive(y, m.handler, m.changes)))
    ensures var x', y' := Receive(x, m.handler, m.changes), Receive(y, m.handler, m.changes);
      Covers(Values(x'), Values(y')) && (x'.Frozen? ==> x' == y')
  {
  }

  lemma CoversWithin(a: Status, x: Status, y: Status)
    requires Covers(x, y) && Covers(a, y)
    ensures Covers(a, x) <==> a.Keys <= x.Keys
  {
    if Covers(a, x) {
      forall k | k in a.Keys
        ensures k in x.Keys
      {
        assert k in a;
      }
    } else {
      var k :| k in a && !(k in x && x[k] == a[k]);
      assert k in a.Keys;
    }
  }

  lemma AnswersCarriedIff(l: Link, e0: Entry)
    requires InSync(l) && Values(e0) == map[] && !e0.Frozen?
    ensures AnswersCarried(l, e0) <==> AllArrive(e0, l.flight)
  {
    hide Covers, After, AllArrive;
    AllArriveAt(e0, l.flight);
    AllArriveAt(l.entry, l.flight);
    forall i | 0 <= i < |l.flight|
      ensures Arrives(e0, l.flight, i) <==> l.flight[i].snapshot.Keys <= Carried(l, e0, i + 1).Keys
    {
      CarriedIsBelow(l, e0, i + 1);
      assert Arrives(l.entry, l.flight, i);
      CoversWithin(l.flight[i].snapshot, Carried(l, e0, i + 1), Values(After(l.entry, l.flight[..i + 1])));
    }
  }

  /**
    Dropping the client's values (the torrent is announced again, or removed)
    keeps both in step exactly when the answers in flight carry every key that
    they answer and that is remembered.
   */
  lemma ResetKeepsSyncIff(l: Link, e0: Entry)
    requires InSync(l) && Values(e0) == map[] && !e0.Frozen?
    ensures InSync(l.(entry := e0)) <==> AllCarried(l, e0)
  {
    hide Covers, After;
    assert l.flight[..|l.flight|] == l.flight;
    AnswersCarriedIff(l, e0);
    if l.prev.Some? {
      CarriedIsBelow(l, e0, |l.flight|);
      CoversWithin(l.prev.value, Carried(l, e0, |l.flight|), Values(After(l.entry, l.flight)));
    }
  }

  lemma {:induction false} NeverAbsent(e: Entry, flight: seq<Message>)
    requires !e.Absent?
    ensures !After(e, flight).Absent?
    decreases |flight|
  {
    if flight != [] {
      NeverAbsent(e, flight[..|flight| - 1]);
    }
  }

  /** on_torrent_added: an empty entry, and a request for all values that is answered in full. */
  function Added(l: Link): Link { Step(Step(l, Announced), Request(Full, {})) }

  /** What is remembered are the daemon's present values; a key it has no value for any more is on its way. */
  ghost predicate RemembersPresent(l: Link) {
    l.prev.Some? ==>
      forall k :: k in l.prev.value ==>
        if k in l.status then l.status[k] == l.prev.value[k] else k in Carried(l, Live(map[]), |l.flight|)
  }

  /**
    The whole handler keeps both in step exactly when the daemon remembers only
    its present values, and the answers in flight carry every key they answer.
   */
  lemma AddedKeepsSyncIff(l: Link)
    requires InSync(l)
    ensures InSync(Added(l)) <==> RemembersPresent(l) && AnswersCarried(l, Live(map[]))
  {
    var n, e0 := |l.flight|, Live(map[]);
    AddedAfter(l);
    AnswersCarriedIff(l, e0);
    CarriedIsBelow(l, e0, n);
    assert l.flight[..n] == l.flight;
    RemembersIff(l, Carried(l, e0, n), Values(After(l.entry, l.flight)));
    hide After, Covers, RemembersPresent, AnswersCarried, AllArrive, ChangesAnswer, Carried;
  }

  /** After an added torrent's handler the answers before the full one arrive as they would without it. */
  lemma AddedAfter(l: Link)
    ensures var r, e0 := Added(l), Live(map[]);
      && r.prev == l.prev && r.entry == e0
      && Values(After(e0, r.flight)) == Carried(l, e0, |l.flight|) + l.status
      && (AllArrive(e0, r.flight) <==> AllArrive(e0, l.flight))
      && (ChangesAnswer(r.flight) <==> ChangesAnswer(l.flight))
  {
    var e0 := Live(map[]);
    assert l.flight[..|l.flight|] == l.flight;
    NeverAbsent(e0, l.flight);
    hide After, AllArrive, ChangesAnswer, Carried;
    ArriveSnoc(e0, l.flight, Message(Full, l.status, l.status));
    assert Carried(l, e0, |l.flight|) == Values(After(e0, l.flight)) by { CarriedAll(l, e0); }
  }

  lemma CarriedAll(l: Link, e0: Entry)
    ensures Carried(l, e0, |l.flight|) == Values(After(e0, l.flight))
  {
    assert l.flight[..|l.flight|] == l.flight;
  }

  lemma RemembersIff(l: Link, x: Status, y: Status)
    requires x == Carried(l, Live(map[]), |l.flight|) && Covers(x, y) && (l.prev.Some? ==> Covers(l.prev.value, y))
    ensures RemembersPresent(l) <==> (l.prev.Some? ==> Covers(l.prev.value, x + l.status))
  {
    if l.prev.Some? && Covers(l.prev.value, x + l.status) {
      forall k | k in l.prev.value
        ensures if k in l.status then l.status[k] == l.prev.value[k] else k in x
      {
        assert (x + l.status)[k] == l.prev.value[k];
      }
    }
  }

  // ---------------------------------------------------------------- runs

  /** What each event needs to keep daemon and client in step. */
  ghost predicate Safe(l: Link, e: Event) {
    match e
    case Request(h, keys) => AnswerFits(l.prev, Asked(l.status, keys), After(l.entry, l.flight), h)
    case Announced => AllCarried(l, Live(map[]))
    case Removed => AllCarried(l, Absent)
    case _ => true
  }

  /** Each event keeps both in step exactly when it is safe; changes, deliveries, state events and listings always do. */
  lemma StepKeepsSyncIff(l: Link, e: Event)
    requires InSync(l)
    ensures InSync(Step(l, e)) <==> Safe(l, e)
  {
    hide After, Receive, AnswerFits, AllCarried, Asked;
    match e
    case Request(h, keys) => RequestKeepsSyncIff(l, h, keys);
    case Deliver => if l.flight != [] { DeliverKeepsSync(l); }
    case StateEvent(value) => BetterKeepsSync(l, NoteState(l.entry, value));
    case Listed => BetterKeepsSync(l, Listing(l.entry, true));
    case Announced => ResetKeepsSyncIff(l, Live(map[]));
    case Removed => ResetKeepsSyncIff(l, Absent);
    case _ =>
  }

  /** Over any run both are in step at every moment exactly when every event was safe when it happened. */
  lemma {:induction false} RunInSyncIff(l: Link, events: seq<Event>)
    requires InSync(l)
    ensures (forall n :: 0 <= n <= |events| ==> InSync(Run(l, events[..n]))) <==>
      (forall n :: 0 <= n < |events| ==> Safe(Run(l, events[..n]), events[n]))
    decreases |events|
  {
    hide *;
    assert events[..|events|] == events;
    if events == [] {
      RunNothing(l);
    } else {
      var n := |events| - 1;
      var front := events[..n];
      assert forall i :: 0 <= i <= n ==> front[..i] == events[..i];
      RunInSyncIff(l, front);
      if InSync(Run(l, front)) {
        StepKeepsSyncIff(Run(l, front), events[n]);
      }
      assert front[..n] == front;
      RunOne(l, events);
    }
  }

  lemma RunNothing(l: Link)
    ensures Run(l, []) == l
  {
  }

  lemma RunOne(l: Link, events: seq<Event>)
    requires events != []
    ensures Run(l, events) == Step(Run(l, events[..|events| - 1]), events[|events| - 1])
  {
  }

  /** In every run of safe events the client has, whenever an answer arrives, the daemon's values at that answer. */
  lemma DiffsAreLossless(l: Link, events: seq<Event>)
    requires InSync(l) && forall n :: 0 <= n < |events| ==> Safe(Run(l, events[..n]), events[n])
    ensures var r := Run(l, events);
      && InSync(r)
      && (r.flight != [] ==> Covers(r.flight[0].snapshot, Values(Step(r, Deliver).entry)))
      && (r.flight == [] && r.prev.Some? ==> Covers(r.prev.value, Values(r.entry)))
  {
    RunInSyncIff(l, events);
    assert events[..|events|] == events;
    assert InSync(Run(l, events));
    SyncArrives(Run(l, events));
  }

  ghost predicate OnlyMerges(flight: seq<Message>) {
    forall i :: 0 <= i < |flight| ==> flight[i].handler.Merge?
  }

  /** The daemon's side, diff requests from a cached torrent, deliveries, state events and listings. */
  predicate Steady(e: Event) {
    e.ServerChange? || e.ServerForgets? || e.Deliver? || e.StateEvent? || e.Listed? || (e.Request? && e.handler.Merge?)
  }

  lemma {:induction false} MergesKeepLive(e: Entry, flight: seq<Message>)
    requires e.Live? && OnlyMerges(flight)
    ensures After(e, flight).Live?
    decreases |flight|
  {
    if flight != [] {
      MergesKeepLive(e, flight[..|flight| - 1]);
    }
  }

  lemma SteadyStep(l: Link, e: Event)
    requires l.entry.Live? && OnlyMerges(l.flight) && Steady(e)
    ensures Safe(l, e) && Step(l, e).entry.Live? && OnlyMerges(Step(l, e).flight)
  {
    MergesKeepLive(l.entry, l.flight);
    hide After;
  }

  /** A torrent cached in a list, with only such events, stays in step: nothing has to be checked on the way. */
  lemma {:induction false} SteadyRunsAreLossless(l: Link, events: seq<Event>)
    requires InSync(l) && l.entry.Live? && OnlyMerges(l.flight)
    requires forall i :: 0 <= i < |events| ==> Steady(events[i])
    ensures var r := Run(l, events);
      && InSync(r) && r.entry.Live? && OnlyMerges(r.flight)
      && (r.flight != [] ==> Covers(r.flight[0].snapshot, Values(Step(r, Deliver).entry)))
      && (r.flight == [] && r.prev.Some? ==> Covers(r.prev.value, Values(r.entry)))
    decreases |events|
  {
    hide InSync, Step, Safe, OnlyMerges;
    if events == [] {
      RunNothing(l);
    } else {
      var before, last := Run(l, events[..|events| - 1]), events[|events| - 1];
      SteadyRunsAreLossless(l, events[..|events| - 1]);
      SteadyStep(before, last);
      StepKeepsSyncIff(before, last);
      RunOne(l, events);
    }
    SyncArrives(Run(l, events));
  }

  lemma SyncArrives(r: Link)
    requires InSync(r)
    ensures r.flight != [] ==> Covers(r.flight[0].snapshot, Values(Step(r, Deliver).entry))
    ensures r.flight == [] && r.prev.Some? ==> Covers(r.prev.value, Values(r.entry))
  {
    if r.flight != [] {
      DeliverKeepsSync(r);
    }
  }

  /** An answer's record is the daemon's status for the requested keys at that moment, no more and no less. */
  lemma AnswerRecordsStatus(l: Link, h: Handler, keys: set<Key>)
    ensures var m := Answered(l, h, keys).flight[|l.flight|];
      && m.snapshot.Keys == (if keys == {} then l.status.Keys else l.status.Keys * keys)
      && (forall k :: k in m.snapshot ==> m.snapshot[k] == l.status[k])
      && (forall k :: k in m.changes ==> k in m.snapshot && m.changes[k] == m.snapshot[k])
      && (!h.Full? && l.prev.Some? ==>
            forall k :: k in m.changes ==> !(k in l.prev.value && l.prev.value[k] == m.changes[k]))
  {
  }

  // ---------------------------------------------------------------- what goes wrong

  /** states[i + 1] is what event i makes of states[i]. */
  ghost predicate Trace(states: seq<Link>, events: seq<Event>) {
    |states| == |events| + 1 && forall i :: 0 <= i < |events| ==> states[i + 1] == Step(states[i], events[i])
  }

  lemma {:induction false} TraceRun(states: seq<Link>, events: seq<Event>)
    requires Trace(states, events)
    ensures Run(states[0], events) == states[|events|]
    decreases |events|
  {
    hide Step;
    if events != [] {
      TraceRun(states[..|events|], events[..|events| - 1]);
    }
  }

  /** From nothing on either side. */
  function Begin(status: Status): Link { Link(status, None, [], Absent) }

  /** A torrent first fetched on its own stays in a tuple: the next answer raises, though the daemon remembers it as sent. */
  lemma FirstFetchFreezes(a: Key, b: Key, v: Value, w: Value)
    requires a != b
    ensures var r := Run(Begin(map[a := v, b := w]), [Request(First, {a}), Deliver, Request(Merge, {b}), Deliver]);
      r.entry == Frozen(map[a := v]) && r.prev == Some(map[b := w]) && !InSync(r)
  {
    var events := [Request(First, {a}), Deliver, Request(Merge, {b}), Deliver];
    var one, two := map[a := v], map[b := w];
    var l := Begin(map[a := v, b := w]);
    TwoValues(a, b, v, w);
    hide Asked, Answer, InSync;
    var l1 := Link(l.status, Some(one), [Message(First, one, one)], Absent);
    var l2 := Link(l.status, Some(one), [], Frozen(one));
    var l3 := Link(l.status, Some(two), [Message(Merge, two, two)], Frozen(one));
    var l4 := Link(l.status, Some(two), [], Frozen(one));
    FirstAnswer(l, {a}, one);
    TraceRun([l, l1, l2, l3, l4], events);
    NotCovered(l4, two, b);
  }

  /** The first answer a session gets is the whole of what it asks for. */
  lemma FirstAnswer(l: Link, keys: set<Key>, cur: Status)
    requires l.prev.None? && l.flight == [] && cur == Asked(l.status, keys)
    ensures Answered(l, First, keys) == l.(prev := Some(cur), flight := [Message(First, cur, cur)])
  {
    hide Asked;
    assert [] + [Message(First, cur, cur)] == [Message(First, cur, cur)];
  }

  lemma NotCovered(l: Link, prev: Status, k: Key)
    requires l.flight == [] && l.prev == Some(prev) && k in prev && k !in Values(l.entry)
    ensures !InSync(l)
  {
  }

  /** The daemon's side, diff requests from a known torrent, and deliveries. */
  predicate LeavesTuple(e: Event) {
    e.ServerChange? || e.ServerForgets? || e.Deliver? || (e.Request? && e.handler.Merge?)
  }

  /** From then on no diff request brings anything, however often it is made. */
  lemma {:induction false} FrozenForever(l: Link, events: seq<Event>)
    requires l.entry.Frozen? && forall i :: 0 <= i < |l.flight| ==> l.flight[i].handler.Merge?
    requires forall i :: 0 <= i < |events| ==> LeavesTuple(events[i])
    ensures Run(l, events).entry == l.entry
    ensures forall i :: 0 <= i < |Run(l, events).flight| ==> Run(l, events).flight[i].handler.Merge?
    decreases |events|
  {
    if events != [] {
      FrozenForever(l, events[..|events| - 1]);
      assert LeavesTuple(events[|events| - 1]);
    }
  }

  lemma TwoValues(a: Key, b: Key, v: Value, w: Value)
    requires a != b
    ensures var one, two, both := map[a := v], map[b := w], map[a := v, b := w];
      && Asked(both, {a}) == one && Asked(both, {b}) == two && Asked(both, {a, b}) == both
      && Answer(Some(one), two) == two && Answer(Some(one), both) == two
      && a in both && b in two && a !in two && b !in one && two != map[]
  {
    assert b in map[b := w];
  }

  /** Two first fetches at once: the second answer, a diff, replaces the first. */
  lemma FirstFetchesOverlap(a: Key, b: Key, v: Value, w: Value)
    requires a != b
    ensures var r := Run(Begin(map[a := v, b := w]), [Request(First, {a}), Request(First, {a, b}), Deliver, Deliver]);
      r.entry == Frozen(map[b := w]) && r.prev == Some(map[a := v, b := w]) && !InSync(r)
  {
    var events := [Request(First, {a}), Request(First, {a, b}), Deliver, Deliver];
    var one, two := map[a := v], map[b := w];
    var l := Begin(map[a := v, b := w]);
    TwoValues(a, b, v, w);
    hide Asked, Answer, InSync;
    var m1, m2 := Message(First, one, one), Message(First, two, l.status);
    var l1 := Link(l.status, Some(one), [m1], Absent);
    var l2 := Link(l.status, Some(l.status), [m1, m2], Absent);
    var l3 := Link(l.status, Some(l.status), [m2], Frozen(one));
    var l4 := Link(l.status, Some(l.status), [], Frozen(two));
    FirstAnswer(l, {a}, one);
    assert [m1] + [m2] == [m1, m2] && [m1, m2][1..] == [m2];
    TraceRun([l, l1, l2, l3, l4], events);
    NotCovered(l4, l.status, a);
  }

  /** After a reset a diff answer leaves out a value that did not change; the full answer closes the gap. */
  lemma GapUntilFullAnswer(l: Link, k: Key)
    requires l.flight == [] && l.prev.Some? && k in l.prev.value
    requires k in l.status && l.status[k] == l.prev.value[k]
    ensures var gap := Run(l, [Announced, Request(Merge, {k}), Deliver]);
      var closed := Run(gap, [Request(Full, {}), Deliver]);
      k !in Values(gap.entry) && k in Values(closed.entry) && Values(closed.entry)[k] == l.status[k]
  {
    var l1 := l.(entry := Live(map[]));
    assert k !in Answer(l.prev, Asked(l.status, {k})) && Asked(l.status, {}) == l.status;
    hide *;
    RunThree(l, Announced, Request(Merge, {k}), Deliver);
    AnnouncedEmpties(l);
    var gap := AnswerArrives(l1, Merge, {k});
    RunTwo(gap, Request(Full, {}), Deliver);
    var closed := AnswerArrives(gap, Full, {});
    ServedValues(l1, gap, k);
  }

  lemma RunTwo(l: Link, a: Event, b: Event)
    ensures Run(l, [a, b]) == Step(Step(l, a), b)
  {
    hide Step;
    TraceRun([l, Step(l, a), Step(Step(l, a), b)], [a, b]);
  }

  lemma RunThree(l: Link, a: Event, b: Event, c: Event)
    ensures Run(l, [a, b, c]) == Step(Step(Step(l, a), b), c)
  {
    hide Step;
    TraceRun([l, Step(l, a), Step(Step(l, a), b), Step(Step(Step(l, a), b), c)], [a, b, c]);
  }

  lemma AnnouncedEmpties(l: Link)
    ensures Step(l, Announced) == l.(entry := Live(map[]))
  {
  }

  lemma ServedValues(l: Link, gap: Link, k: Key)
    requires l.entry == Live(map[]) && k in l.status && gap.status == l.status
    requires k !in Answer(l.prev, Asked(l.status, {k})) && Asked(l.status, {}) == l.status
    requires gap.entry == Live(map[] + Serve(l.prev, Asked(l.status, {k}), true).0)
    ensures k !in Values(gap.entry)
    ensures gap.entry.Live? && var full := gap.entry.values + Serve(gap.prev, Asked(gap.status, {}), false).0;
      k in full && full[k] == l.status[k] && Values(Live(full)) == full
  {
    hide Answer, Asked;
  }

  /** With nothing else in flight an answer reaches the entry it was made for. */
  lemma AnswerArrives(l: Link, h: Handler, keys: set<Key>) returns (r: Link)
    requires l.flight == [] && l.entry.Live? && !h.First?
    ensures r == Step(Step(l, Request(h, keys)), Deliver)
    ensures r.flight == [] && r.status == l.status
    ensures r.entry == Live(l.entry.values + Serve(l.prev, Asked(l.status, keys), !h.Full?).0)
  {
    hide Asked, Serve;
    r := Step(Answered(l, h, keys), Deliver);
  }

  /** The torrent's values when the handler asks for them, and their changing back before the next request. */
  function ChangeBack(k: Key, other: Value, back: Value): seq<Event> {
    [ServerChange(map[k := other]), Announced, Request(Full, {}), ServerChange(map[k := back]), Request(Merge, {k}), Deliver, Deliver]
  }

  lemma BackAgain(prev: Status, k: Key, other: Value)
    requires k in prev
    ensures var wrong, right := map[k := other], map[k := prev[k]];
      && Asked(wrong, {}) == wrong && Asked(right, {k}) == right && Answer(Some(prev), right) == map[]
      && map[] + wrong == wrong && wrong + map[] == wrong
  {
    var right := map[k := prev[k]];
    assert forall j :: j !in Answer(Some(prev), right);
  }

  /** A value that differs only while the full answer is made leaves the client with the wrong one. */
  lemma ChangeBackIsLost(l: Link, k: Key, other: Value)
    requires l.flight == [] && l.prev.Some? && k in l.prev.value && l.prev.value[k] != other
    ensures var r := Run(l, ChangeBack(k, other, l.prev.value[k]));
      Values(r.entry) == map[k := other] && r.status == map[k := l.prev.value[k]] && r.flight == []
  {
    var wrong, right := map[k := other], map[k := l.prev.value[k]];
    var before := [ServerChange(wrong), Announced, Request(Full, {})];
    var rest := [ServerChange(right), Request(Merge, {k}), Deliver, Deliver];
    assert ChangeBack(k, other, l.prev.value[k]) == before + rest;
    BackAgain(l.prev.value, k, other);
    hide *;
    var fetched := FetchedOnce(l, wrong);
    NotFetchedAgain(fetched, wrong, right, k);
    RunConcat(l, before, rest);
  }

  /** The handler has asked for the status, and its answer is on the way. */
  lemma FetchedOnce(l: Link, status: Status) returns (r: Link)
    requires l.flight == [] && Asked(status, {}) == status
    ensures r == Run(l, [ServerChange(status), Announced, Request(Full, {})])
    ensures r == Link(status, l.prev, [Message(Full, status, status)], Live(map[]))
  {
    hide Asked;
    RunThree(l, ServerChange(status), Announced, Request(Full, {}));
    assert [] + [Message(Full, status, status)] == [Message(Full, status, status)];
    r := Run(l, [ServerChange(status), Announced, Request(Full, {})]);
  }

  /** A change back to what is remembered is not sent. */
  lemma NotFetchedAgain(l: Link, wrong: Status, right: Status, k: Key)
    requires l == Link(wrong, l.prev, [Message(Full, wrong, wrong)], Live(map[]))
    requires Asked(right, {k}) == right && Answer(l.prev, right) == map[] && map[] + wrong == wrong && wrong + map[] == wrong
    ensures var r := Run(l, [ServerChange(right), Request(Merge, {k}), Deliver, Deliver]);
      Values(r.entry) == wrong && r.status == right && r.flight == []
  {
    hide Asked, Answer;
    var full, diff := Message(Full, wrong, wrong), Message(Merge, map[], right);
    assert [full] + [diff] == [full, diff] && [full, diff][1..] == [diff];
    var l1 := l.(status := right);
    var l2 := l1.(prev := Some(right), flight := [full, diff]);
    var l3 := l2.(flight := [diff], entry := Live(wrong));
    TraceRun([l, l1, l2, l3, l3.(flight := [])], [ServerChange(right), Request(Merge, {k}), Deliver, Deliver]);
  }

  lemma {:induction false} RunConcat(l: Link, a: seq<Event>, b: seq<Event>)
    ensures Run(l, a + b) == Run(Run(l, a), b)
    decreases |b|
  {
    hide Step;
    if b == [] {
      assert a + b == a;
    } else {
      assert (a + b)[..|a + b| - 1] == a + b[..|b| - 1];
      RunConcat(l, a, b[..|b| - 1]);
    }
  }

  // ---------------------------------------------------------------- the daemon's torrent

  class Torrent {
    /** What the status functions return now. */
    var status: Status
    var prevStatus: map<SessionId, Status>

    constructor (status: Status)
      ensures this.status == status && prevStatus == map[]
    {
      this.status := status;
      prevStatus := map[];
    }

    /** The loop over the new status that keeps what is new or changed. */
    method DiffStatus(prev: Status, statusDict: Status) returns (statusDiff: Status)
      ensures statusDiff == Diff(prev, statusDict)
    {
      statusDiff := map[];
      var left := statusDict.Keys;
      while left != {}
        invariant left <= statusDict.Keys
        invariant statusDiff
               == map k | k in statusDict && k !in left && !(k in prev && prev[k] == statusDict[k]) :: statusDict[k]
        decreases |left|
      {
        var key :| key in left;
        if key in prev {
          if statusDict[key] != prev[key] {
            statusDiff := statusDiff[key := statusDict[key]];
          }
        } else {
          statusDiff := statusDiff[key := statusDict[key]];
        }
        left := left - {key};
      }
    }

    function Remembered(session: SessionId): Option<Status>
      reads this
    {
      if session in prevStatus then Some(prevStatus[session]) else None
    }

    /** get_status; None where an unknown key raises, before anything is remembered. */
    method GetStatus(keys: seq<Key>, diff: bool, allKeys: bool, session: SessionId) returns (r: Option<Status>)
      modifies `prevStatus
      ensures r.None? <==> !allKeys && exists k :: k in keys && k !in status
      ensures r.None? || !diff ==> prevStatus == old(prevStatus)
      ensures r.Some? ==>
        var cur := if allKeys then status else Restrict(status, set k | k in keys);
        (r.value, Remembered(session)) == Serve(old(Remembered(session)), cur, diff)
      ensures r.Some? ==> forall k :: k in r.value <==>
        && k in status && (allKeys || k in keys)
        && !(diff && session in old(prevStatus) && k in old(prevStatus)[session] && old(prevStatus)[session][k] == status[k])
      ensures r.Some? ==> forall k :: k in r.value ==> r.value[k] == status[k]
      ensures r.Some? && diff ==>
        && session in prevStatus
        && (forall k :: k in prevStatus[session] <==> k in status && (allKeys || k in keys))
        && forall k :: k in prevStatus[session] ==> prevStatus[session][k] == status[k]
      ensures forall s :: s != session ==> Remembered(s) == old(Remembered(s))
    {
      var statusDict: Status := map[];
      if allKeys {
        statusDict := status;
      } else {
        var i := 0;
        while i < |keys|
          invariant 0 <= i <= |keys|
          invariant forall j :: 0 <= j < i ==> keys[j] in status
          invariant statusDict == Restrict(status, set j | 0 <= j < i :: keys[j])
        {
          if keys[i] !in status {
            return None;
          }
          statusDict := statusDict[keys[i] := status[keys[i]]];
          i := i + 1;
        }
        assert (set j | 0 <= j < |keys| :: keys[j]) == (set k | k in keys);
      }
      if diff {
        if session in prevStatus {
          var prev := prevStatus[session];
          var statusDiff := DiffStatus(prev, statusDict);
          prevStatus := prevStatus[session := statusDict];
          return Some(statusDiff);
        }
        prevStatus := prevStatus[session := statusDict];
        return Some(statusDict);
      }
      r := Some(statusDict);
    }
  }

  // ---------------------------------------------------------------- the client's cache

  function EntryOf(torrents: map<TorrentId, Entry>, id: TorrentId): Entry {
    if id in torrents then torrents[id] else Absent
  }

  class SessionProxy {
    var torrents: map<TorrentId, Entry>
    var cacheTimes: map<TorrentId, map<Key, real>>

    ghost predicate Valid()
      reads this
    {
      torrents.Keys <= cacheTimes.Keys && forall id :: id in torrents ==> !torrents[id].Absent?
    }

    constructor ()
      ensures Valid() && torrents == map[]
    {
      torrents, cacheTimes := map[], map[];
    }

    /** The answer of get_torrent_status for a torrent that was cached when it was asked for. */
    method OnStatus(id: TorrentId, result: Status, keysToGet: set<Key>, now: real) returns (raised: bool)
      requires Valid()
      modifies this
      ensures Valid() && raised == Raises(EntryOf(old(torrents), id), Merge)
      ensures EntryOf(torrents, id) == Receive(EntryOf(old(torrents), id), Merge, result)
      // by the kind of entry found: none, a tuple, a list
      ensures id !in old(torrents) ==> !raised && torrents == old(torrents)
      ensures id in old(torrents) && old(torrents)[id].Frozen? ==> raised && torrents == old(torrents)
      ensures id in old(torrents) && old(torrents)[id].Live? ==>
        !raised && torrents == old(torrents)[id := Live(old(torrents)[id].values + result)]
      ensures forall other :: other != id ==> EntryOf(torrents, other) == EntryOf(old(torrents), other)
    {
      if id !in torrents {
        return false;
      }
      if torrents[id].Frozen? {
        return true;
      }
      torrents := torrents[id := Live(torrents[id].values + result)];
      cacheTimes := cacheTimes[id := cacheTimes[id] + map k | k in keysToGet :: now];
      raised := false;
    }

    /**
      The answer of get_torrents_status: the first `done` torrents are merged;
      one in a tuple raises, and the changes of all after it are dropped.
     */
    method OnStatuses(result: seq<(TorrentId, Status)>, now: real) returns (raised: bool, ghost done: nat)
      requires Valid()
      requires forall i, j :: 0 <= i < j < |result| ==> result[i].0 != result[j].0
      modifies this
      ensures Valid() && done <= |result| && (raised <==> done < |result|)
      ensures raised ==> Raises(EntryOf(old(torrents), result[done].0), Merge)
      ensures raised <==> done < |result| && EntryOf(old(torrents), result[done].0).Frozen?
      ensures forall i :: 0 <= i < done ==>
        EntryOf(torrents, result[i].0) ==
          match EntryOf(old(torrents), result[i].0)
          case Live(values) => Live(values + result[i].1)
          case _ => Absent
      ensures forall i :: 0 <= i < done ==>
        && !Raises(EntryOf(old(torrents), result[i].0), Merge)
        && EntryOf(torrents, result[i].0) == Receive(EntryOf(old(torrents), result[i].0), Merge, result[i].1)
      ensures forall id :: (forall i :: 0 <= i < done ==> result[i].0 != id) ==>
        EntryOf(torrents, id) == EntryOf(old(torrents), id)
    {
      var n := 0;
      while n < |result|
        invariant 0 <= n <= |result| && Valid()
        invariant forall i :: 0 <= i < n ==>
          && !Raises(EntryOf(old(torrents), result[i].0), Merge)
          && EntryOf(torrents, result[i].0) == Receive(EntryOf(old(torrents), result[i].0), Merge, result[i].1)
        invariant forall id :: (forall i :: 0 <= i < n ==> result[i].0 != id) ==>
          EntryOf(torrents, id) == EntryOf(old(torrents), id)
      {
        hide Raises, Receive, EntryOf;
        var (id, changes) := result[n];
        raised := OnStatus(id, changes, changes.Keys, now);
        if raised {
          return true, n;
        }
        n := n + 1;
      }
      return false, n;
    }

    /** The answer of get_torrent_status for a torrent that was not cached when it was asked for. */
    method OnFirstStatus(id: TorrentId, result: Status, now: real)
      requires Valid()
      modifies this
      ensures Valid() && EntryOf(torrents, id) == Receive(EntryOf(old(torrents), id), First, result)
      ensures torrents == if result == map[] then old(torrents) else old(torrents)[id := Frozen(result)]
      ensures forall other :: other != id ==> EntryOf(torrents, other) == EntryOf(old(torrents), other)
    {
      if result != map[] {
        torrents := torrents[id := Frozen(result)];
        cacheTimes := cacheTimes[id := map k | k in result :: now];
      }
    }

    /** on_torrent_added, up to the request it sends for all keys. */
    method OnTorrentAdded(id: TorrentId)
      requires Valid()
      modifies this
      ensures Valid() && EntryOf(torrents, id) == Live(map[])
      ensures forall other :: other != id ==> EntryOf(torrents, other) == EntryOf(old(torrents), other)
    {
      torrents := torrents[id := Live(map[])];
      cacheTimes := cacheTimes[id := map[]];
    }

    /** The answer to that request. */
    method OnFullStatus(id: TorrentId, status: Status, now: real) returns (raised: bool)
      requires Valid()
      modifies this
      ensures Valid() && raised == Raises(EntryOf(old(torrents), id), Full)
      ensures EntryOf(torrents, id) == Receive(EntryOf(old(torrents), id), Full, status)
      ensures id !in old(torrents) ==> raised && torrents == old(torrents)
      ensures id in old(torrents) ==> var values := old(torrents)[id].values + status;
        !raised && torrents == old(torrents)[id := if old(torrents)[id].Live? then Live(values) else Frozen(values)]
      ensures forall other :: other != id ==> EntryOf(torrents, other) == EntryOf(old(torrents), other)
    {
      if id !in torrents {
        return true;
      }
      torrents := torrents[id := torrents[id].(values := torrents[id].values + status)];
      cacheTimes := cacheTimes[id := cacheTimes[id] + map k | k in status :: now];
      raised := false;
    }

    method OnTorrentStateChanged(id: TorrentId, state: Value, now: real)
      requires Valid()
      modifies this
      ensures Valid() && EntryOf(torrents, id) == NoteState(EntryOf(old(torrents), id), state)
      ensures id !in old(torrents) || "state" in old(torrents)[id].values ==> torrents == old(torrents)
      ensures id in old(torrents) && "state" !in old(torrents)[id].values ==>
        var values := old(torrents)[id].values["state" := state];
        torrents == old(torrents)[id := if old(torrents)[id].Live? then Live(values) else Frozen(values)]
      ensures forall other :: other != id ==> EntryOf(torrents, other) == EntryOf(old(torrents), other)
    {
      if id in torrents {
        if STATE_KEY !in torrents[id].values {
          torrents := torrents[id := torrents[id].(values := torrents[id].values[STATE_KEY := state])];
        }
        cacheTimes := cacheTimes[id := (if id in cacheTimes then cacheTimes[id] else map[])[STATE_KEY := now]];
      }
    }

    method OnTorrentRemoved(id: TorrentId)
      requires Valid()
      modifies this
      ensures Valid() && EntryOf(torrents, id) == Absent
      ensures forall other :: other != id ==> EntryOf(torrents, other) == EntryOf(old(torrents), other)
    {
      if id in torrents {
        torrents := torrents - {id};
        cacheTimes := cacheTimes - {id};
      }
    }

    /** on_get_session_state: an empty entry for every torrent that has none. */
    method OnSessionState(ids: seq<TorrentId>)
      requires Valid()
      modifies this
      ensures Valid()
      ensures forall id :: EntryOf(torrents, id) == Listing(EntryOf(old(torrents), id), id in ids)
      ensures forall id :: id in torrents <==> id in old(torrents) || id in ids
      ensures forall id :: id in torrents ==> torrents[id] == if id in old(torrents) then old(torrents)[id] else Live(map[])
    {
      var n := 0;
      while n < |ids|
        invariant 0 <= n <= |ids| && Valid()
        invariant forall id :: EntryOf(torrents, id) == Listing(EntryOf(old(torrents), id), id in ids[..n])
        invariant forall id :: id in torrents <==> id in old(torrents) || id in ids[..n]
        invariant forall id :: id in torrents ==> torrents[id] == if id in old(torrents) then old(torrents)[id] else Live(map[])
      {
        if ids[n] !in torrents {
          torrents := torrents[ids[n] := Live(map[])];
        }
        if ids[n] !in cacheTimes {
          cacheTimes := cacheTimes[ids[n] := map[]];
        }
        assert ids[..n + 1] == ids[..n] + [ids[n]];
        n := n + 1;
      }
      assert ids[..n] == ids;
    }
  }
}
