/**
  The daemon's session tables: who is logged in on which connection, which
  connections get events, and what may run when requests arrive late.
 */
module Sessions {
  type SessionId = nat
  /** A user name; the anonymous one is 0. */
  type User = nat
  type EventName = string

  const NOBODY: User := 0
  const LEVEL_NONE: nat := 0
  const MAX_EVENT_INTERESTS: nat := 256
  const MAX_EVENT_NAME_LENGTH: nat := 128

  /** The argument of daemon.set_event_interest: a list of strings, or anything else. */
  datatype Interest = NotNames | Names(names: seq<EventName>)

  predicate WellFormed(interest: Interest) {
    interest.Names? && forall i :: 0 <= i < |interest.names| ==> |interest.names[i]| <= MAX_EVENT_NAME_LENGTH
  }

  datatype AuthLevel = AuthLevel(level: nat, user: User)

  /** What a client can observe: a method that ran for a user, or an event sent to a session of a user. */
  datatype Effect = Ran(session: SessionId, user: User) | Sent(session: SessionId, user: User, name: EventName)

  /** The factory's tables, the open connections and the next connection number. */
  datatype Tables = Tables(
    next: SessionId,
    open: set<SessionId>,
    authorized: map<SessionId, AuthLevel>,
    protocols: set<SessionId>,
    interested: map<SessionId, seq<EventName>>,
    effects: seq<Effect>)

  const INITIAL := Tables(0, {}, map[], {}, map[], [])

  /** A request is dispatched in a later turn, so it may come after its connection was lost. */
  datatype Event =
    | ConnectionMade
    | ConnectionLost(session: SessionId)
    | DispatchLogin(session: SessionId, user: User, level: nat)
    | DispatchInterest(session: SessionId, interest: Interest)
    | DispatchCall(session: SessionId, required: nat)
    | EndUserSessions(user: User)
    | EmitEvent(name: EventName)

  // ---------------------------------------------------------------- steps

  /** The names not registered yet, each once, in order. */
  function Fresh(names: seq<EventName>, current: seq<EventName>): seq<EventName> {
    if names == [] then []
    else if names[0] in current then Fresh(names[1..], current)
    else [names[0]] + Fresh(names[1..], current + [names[0]])
  }

  function InterestOf(t: Tables, s: SessionId): seq<EventName> {
    if s in t.interested then t.interested[s] else []
  }

  /** All registered names after a well-formed request. */
  function Registered(t: Tables, s: SessionId, names: seq<EventName>): seq<EventName> {
    InterestOf(t, s) + Fresh(names, InterestOf(t, s))
  }

  predicate AcceptsInterest(t: Tables, s: SessionId, interest: Interest) {
    && s in t.authorized && s in t.protocols && WellFormed(interest)
    && |Registered(t, s, interest.names)| <= MAX_EVENT_INTERESTS
  }

  function SetInterest(t: Tables, s: SessionId, interest: Interest): Tables {
    if AcceptsInterest(t, s, interest) then t.(interested := t.interested[s := Registered(t, s, interest.names)]) else t
  }

  predicate IsUserOf(t: Tables, s: SessionId, u: User) {
    s in t.authorized && t.authorized[s].level != LEVEL_NONE && t.authorized[s].user == u
  }

  function EndUser(t: Tables, u: User): Tables {
    t.(authorized := map s | s in t.authorized ::
         if t.authorized[s].level != LEVEL_NONE && t.authorized[s].user == u then AuthLevel(LEVEL_NONE, NOBODY)
         else t.authorized[s],
       protocols := (set s | s in t.protocols && !IsUserOf(t, s, u)),
       interested := map s | s in t.interested && !IsUserOf(t, s, u) :: t.interested[s])
  }

  /** The sessions an event goes to. */
  function Receivers(t: Tables, name: EventName): set<SessionId> {
    set s | s in t.interested && s in t.protocols && name in t.interested[s]
  }

  /** e happens; the order in which an event reaches its receivers is left open in `order`. */
  ghost predicate Step(t: Tables, e: Event, r: Tables) {
    match e
    case ConnectionMade =>
      r == t.(next := t.next + 1, open := t.open + {t.next}, authorized := t.authorized[t.next := AuthLevel(LEVEL_NONE, NOBODY)])
    case ConnectionLost(s) =>
      s in t.open
      && r == t.(open := t.open - {s}, authorized := t.authorized - {s}, protocols := t.protocols - {s}, interested := t.interested - {s})
    case DispatchLogin(s, user, level) =>
      s < t.next
      && r == if level == LEVEL_NONE then t
              else t.(authorized := t.authorized[s := AuthLevel(level, user)], protocols := t.protocols + {s})
    case DispatchInterest(s, interest) => s < t.next && r == SetInterest(t, s, interest)
    case DispatchCall(s, required) =>
      s < t.next
      && r == if s in t.authorized && t.authorized[s].level >= required
              then t.(effects := t.effects + [Ran(s, t.authorized[s].user)]) else t
    case EndUserSessions(u) => r == EndUser(t, u)
    case EmitEvent(name) =>
      exists sent :: EmittedTo(t, name, sent) && r == t.(effects := t.effects + sent)
  }

  /** One Sent per receiver, in some order, under the receiver's user. */
  ghost predicate EmittedTo(t: Tables, name: EventName, sent: seq<Effect>) {
    && (forall i :: 0 <= i < |sent| ==>
          && sent[i].Sent? && sent[i].name == name && sent[i].session in Receivers(t, name)
          && sent[i].session in t.authorized && sent[i].user == t.authorized[sent[i].session].user)
    && (forall i, j :: 0 <= i < j < |sent| ==> sent[i].session != sent[j].session)
    && |sent| == |Receivers(t, name)|
  }

  /** A run, as the tables after each event. */
  ghost predicate IsRun(t: Tables, events: seq<Event>, states: seq<Tables>) {
    && |states| == |events| + 1 && states[0] == t
    && forall i :: 0 <= i < |events| ==> Step(states[i], events[i], states[i + 1])
  }

  // ---------------------------------------------------------------- the invariant

  ghost predicate DuplicateFree(names: seq<EventName>) {
    forall i, j :: 0 <= i < j < |names| ==> names[i] != names[j]
  }

  ghost predicate Inv(t: Tables) {
    && t.interested.Keys <= t.protocols <= t.authorized.Keys
    && t.open <= t.authorized.Keys
    && (forall s :: s in t.authorized ==> s < t.next)
    && (forall s :: s in t.authorized ==> (s in t.protocols <==> t.authorized[s].level > LEVEL_NONE))
    && (forall s :: s in t.authorized && t.authorized[s].level == LEVEL_NONE ==> t.authorized[s].user == NOBODY)
    && (forall s :: s in t.interested ==> DuplicateFree(t.interested[s]) && |t.interested[s]| <= 256)
  }

  lemma NewKeepsDuplicateFree(name: EventName, current: seq<EventName>)
    requires DuplicateFree(current) && name !in current
    ensures DuplicateFree(current + [name])
  {
  }

  lemma {:induction false} FreshKeepsDuplicateFree(names: seq<EventName>, current: seq<EventName>)
    requires DuplicateFree(current)
    ensures DuplicateFree(current + Fresh(names, current))
    decreases |names|
  {
    if names == [] {
      assert Fresh(names, current) == [] && current + [] == current;
    } else if names[0] in current {
      FreshKeepsDuplicateFree(names[1..], current);
    } else {
      NewKeepsDuplicateFree(names[0], current);
      FreshKeepsDuplicateFree(names[1..], current + [names[0]]);
      hide DuplicateFree;
      assert current + [names[0]] + Fresh(names[1..], current + [names[0]]) == current + Fresh(names, current);
    }
  }

  /** Afterwards the session is interested in exactly the old and the given names. */
  lemma {:induction false} FreshCovers(names: seq<EventName>, current: seq<EventName>)
    ensures forall n :: n in current + Fresh(names, current) <==> n in current || n in names
    decreases |names|
  {
    if names != [] {
      assert names == [names[0]] + names[1..];
      if names[0] in current {
        FreshCovers(names[1..], current);
      } else {
        FreshCovers(names[1..], current + [names[0]]);
        assert current + [names[0]] + Fresh(names[1..], current + [names[0]]) == current + Fresh(names, current);
      }
    }
  }

  lemma StepKeepsInv(t: Tables, e: Event, r: Tables)
    requires Inv(t) && Step(t, e, r)
    ensures Inv(r)
  {
    if e.DispatchInterest? && e.interest.Names? {
      FreshKeepsDuplicateFree(e.interest.names, InterestOf(t, e.session));
    }
  }

  /** Over every interleaving the tables stay nested and a session has a protocol exactly while it is logged in. */
  lemma {:induction false} RunKeepsInv(events: seq<Event>, states: seq<Tables>, i: nat)
    requires IsRun(INITIAL, events, states) && i < |states|
    ensures Inv(states[i])
    decreases i
  {
    if i > 0 {
      RunKeepsInv(events, states, i - 1);
      assert Step(states[i - 1], events[i - 1], states[i]);
      StepKeepsInv(states[i - 1], events[i - 1], states[i]);
    }
  }

  // ---------------------------------------------------------------- ended users

  ghost predicate NoSessionOf(t: Tables, u: User) {
    forall s :: s in t.authorized ==> t.authorized[s].user != u
  }

  /** Ending a user's sessions takes every one of them below login, and leaves all others as they were. */
  lemma EndUserEnds(t: Tables, u: User)
    requires Inv(t) && u != NOBODY
    ensures NoSessionOf(EndUser(t, u), u)
    ensures forall s :: s in t.authorized && !IsUserOf(t, s, u) ==>
      && s in EndUser(t, u).authorized && EndUser(t, u).authorized[s] == t.authorized[s]
      && (s in EndUser(t, u).protocols <==> s in t.protocols)
      && (s in EndUser(t, u).interested <==> s in t.interested)
      && (s in t.interested ==> EndUser(t, u).interested[s] == t.interested[s])
    ensures forall s :: IsUserOf(t, s, u) ==>
      && EndUser(t, u).authorized[s] == AuthLevel(LEVEL_NONE, NOBODY)
      && s !in EndUser(t, u).protocols && s !in EndUser(t, u).interested
  {
  }

  ghost predicate NoLoginOf(events: seq<Event>, u: User) {
    forall i :: 0 <= i < |events| && events[i].DispatchLogin? ==> events[i].user != u
  }

  /**
    Once a user's sessions have ended, nothing runs for that user and no event
    reaches a session of that user, whatever was queued, until the user logs in again.
   */
  lemma {:induction false} EndedUserIsSilent(t: Tables, u: User, events: seq<Event>, states: seq<Tables>, i: nat)
    requires Inv(t) && u != NOBODY && IsRun(EndUser(t, u), events, states) && NoLoginOf(events, u) && i < |states|
    ensures NoSessionOf(states[i], u)
    ensures t.effects <= states[i].effects
    ensures forall j :: |t.effects| <= j < |states[i].effects| ==> states[i].effects[j].user != u
    decreases i
  {
    if i == 0 {
      EndUserEnds(t, u);
    } else {
      EndedUserIsSilent(t, u, events, states, i - 1);
      assert Step(states[i - 1], events[i - 1], states[i]);
    }
  }

  /** Whoever receives an event or may run a privileged method is logged in at that moment. */
  lemma EffectsNeedLogin(t: Tables, e: Event, r: Tables, i: nat)
    requires Inv(t) && Step(t, e, r) && |t.effects| <= i < |r.effects|
    ensures var s := r.effects[i].session;
      && s in t.authorized && r.effects[i].user == t.authorized[s].user
      && (e.EmitEvent? ==> t.authorized[s].level > LEVEL_NONE && e.name in t.interested[s])
      && (e.DispatchCall? ==> t.authorized[s].level >= e.required)
  {
  }

  /** A good login that is dispatched when its connection is no longer open. */
  ghost predicate LateLogin(t: Tables, e: Event) {
    e.DispatchLogin? && e.level != LEVEL_NONE && e.session !in t.open
  }

  /** Nothing but a late login adds a session without a connection, and nothing ever removes one. */
  lemma StrayStep(t: Tables, e: Event, r: Tables)
    requires Inv(t) && Step(t, e, r)
    ensures r.authorized.Keys - r.open
         == (t.authorized.Keys - t.open) + (if LateLogin(t, e) then {e.session} else {})
  {
    hide EndUser, SetInterest, EmittedTo, Receivers, InterestOf;
    match e
    case ConnectionMade => StrayMade(t);
    case ConnectionLost(s) => StrayLost(t.authorized.Keys, t.open, s);
    case DispatchLogin(s, user, level) =>
      if level != LEVEL_NONE {
        assert r.authorized.Keys == t.authorized.Keys + {s};
        hide Inv;
        StrayLogin(t.authorized.Keys, t.open, s);
      }
    case DispatchInterest(s, interest) => InterestKeepsSessions(t, s, interest);
    case EndUserSessions(u) => EndUserKeepsSessions(t, u);
    case _ =>
  }

  lemma StrayMade(t: Tables)
    requires Inv(t)
    ensures t.authorized[t.next := AuthLevel(LEVEL_NONE, NOBODY)].Keys - (t.open + {t.next}) == t.authorized.Keys - t.open
  {
    assert t.next !in t.authorized;
  }

  lemma StrayLost(known: set<SessionId>, open: set<SessionId>, s: SessionId)
    requires s in open
    ensures (known - {s}) - (open - {s}) == known - open
  {
  }

  lemma StrayLogin(known: set<SessionId>, open: set<SessionId>, s: SessionId)
    requires s in open ==> s in known
    ensures (known + {s}) - open == (known - open) + (if s in open then {} else {s})
  {
  }

  lemma InterestKeepsSessions(t: Tables, s: SessionId, interest: Interest)
    ensures SetInterest(t, s, interest).authorized == t.authorized && SetInterest(t, s, interest).open == t.open
  {
  }

  lemma EndUserKeepsSessions(t: Tables, u: User)
    ensures EndUser(t, u).authorized.Keys == t.authorized.Keys && EndUser(t, u).open == t.open
  {
  }

  lemma NoStrays(t: Tables)
    requires Inv(t)
    ensures t.authorized.Keys - t.open == {} <==> t.authorized.Keys == t.open
  {
    if t.authorized.Keys - t.open == {} {
      forall s | s in t.authorized
        ensures s in t.open
      {
        assert s !in t.authorized.Keys - t.open;
      }
    }
  }

  /** Over every run the session table is the set of open connections exactly as long as no login came late. */
  lemma {:induction false} SessionsAreOpenIff(events: seq<Event>, states: seq<Tables>, n: nat)
    requires IsRun(INITIAL, events, states) && n < |states|
    ensures states[n].authorized.Keys == states[n].open <==>
      forall i :: 0 <= i < n ==> !LateLogin(states[i], events[i])
    decreases n
  {
    RunKeepsInv(events, states, n);
    NoStrays(states[n]);
    if n > 0 {
      SessionsAreOpenIff(events, states, n - 1);
      RunKeepsInv(events, states, n - 1);
      var t, e := states[n - 1], events[n - 1];
      assert Step(t, e, states[n]);
      StrayStep(t, e, states[n]);
      NoStrays(t);
      if LateLogin(t, e) {
        assert e.session in states[n].authorized.Keys - states[n].open;
      }
    }
  }

  /** A login that is dispatched after its connection was lost leaves a session that no connection owns. */
  lemma LateLoginLingers(u: User) returns (events: seq<Event>, states: seq<Tables>)
    requires u != NOBODY
    ensures IsRun(INITIAL, events, states)
    ensures states[|events|].authorized.Keys != states[|events|].open
  {
    events := [ConnectionMade, ConnectionLost(0), DispatchLogin(0, u, 5)];
    var s1 := Tables(1, {0}, map[0 := AuthLevel(LEVEL_NONE, NOBODY)], {}, map[], []);
    var s2 := Tables(1, {}, map[], {}, map[], []);
    var s3 := Tables(1, {}, map[0 := AuthLevel(5, u)], {0}, map[], []);
    assert INITIAL.authorized[0 := AuthLevel(LEVEL_NONE, NOBODY)] == s1.authorized;
    assert s1.open - {0} == {} && s1.authorized - {0} == map[];
    assert Step(INITIAL, events[0], s1) && Step(s1, events[1], s2) && Step(s2, events[2], s3);
    states := [INITIAL, s1, s2, s3];
    assert 0 in s3.authorized.Keys && 0 !in s3.open;
    assert states[|events|] == s3;
  }

  /** The tables when the loop of end_user_sessions has been over these sessions. */
  ghost function EndSome(t: Tables, u: User, done: set<SessionId>): Tables {
    t.(authorized := map s | s in t.authorized ::
         if s in done && IsUserOf(t, s, u) then AuthLevel(LEVEL_NONE, NOBODY) else t.authorized[s],
       protocols := (set s | s in t.protocols && !(s in done && IsUserOf(t, s, u))),
       interested := map s | s in t.interested && !(s in done && IsUserOf(t, s, u)) :: t.interested[s])
  }

  lemma EndSomeStart(t: Tables, u: User)
    ensures EndSome(t, u, t.authorized.Keys - t.authorized.Keys) == t
  {
    var r := EndSome(t, u, t.authorized.Keys - t.authorized.Keys);
    assert r.authorized == t.authorized && r.protocols == t.protocols && r.interested == t.interested;
  }

  lemma EndSomeStep(t: Tables, u: User, done: set<SessionId>, s: SessionId)
    requires s in t.authorized && s !in done
    ensures var r, r' := EndSome(t, u, done), EndSome(t, u, done + {s});
      && s in r.authorized && (IsUserOf(r, s, u) <==> IsUserOf(t, s, u))
      && r' == if IsUserOf(t, s, u)
           then r.(authorized := r.authorized[s := AuthLevel(LEVEL_NONE, NOBODY)],
                   protocols := r.protocols - {s}, interested := r.interested - {s})
           else r
  {
    var r, r' := EndSome(t, u, done), EndSome(t, u, done + {s});
    if IsUserOf(t, s, u) {
      assert r'.authorized == r.authorized[s := AuthLevel(LEVEL_NONE, NOBODY)];
      assert r'.protocols == r.protocols - {s};
      assert r'.interested == r.interested - {s};
    } else {
      assert r'.authorized == r.authorized && r'.protocols == r.protocols && r'.interested == r.interested;
    }
  }

  lemma EndSomeAll(t: Tables, u: User)
    requires Inv(t)
    ensures EndSome(t, u, t.authorized.Keys) == EndUser(t, u)
  {
    var r, r' := EndSome(t, u, t.authorized.Keys), EndUser(t, u);
    assert r.authorized == r'.authorized && r.protocols == r'.protocols && r.interested == r'.interested;
  }

  /** The event has gone to the receivers that are not left to visit. */
  ghost predicate EmittedSoFar(t: Tables, name: EventName, left: set<SessionId>, sent: seq<Effect>) {
    && (forall i :: 0 <= i < |sent| ==>
          && sent[i].Sent? && sent[i].name == name && sent[i].session in Receivers(t, name) && sent[i].session !in left
          && sent[i].session in t.authorized && sent[i].user == t.authorized[sent[i].session].user)
    && (forall i, j :: 0 <= i < j < |sent| ==> sent[i].session != sent[j].session)
    && |sent| + |Receivers(t, name) * left| == |Receivers(t, name)|
  }

  lemma EmitStart(t: Tables, name: EventName)
    ensures EmittedSoFar(t, name, t.interested.Keys, [])
  {
    assert Receivers(t, name) * t.interested.Keys == Receivers(t, name);
  }

  lemma EmitStep(t: Tables, name: EventName, left: set<SessionId>, sent: seq<Effect>, s: SessionId)
    requires Inv(t) && EmittedSoFar(t, name, left, sent) && s in left && s in t.interested
    ensures s in t.authorized
    ensures EmittedSoFar(t, name, left - {s},
      sent + (if s in Receivers(t, name) then [Sent(s, t.authorized[s].user, name)] else []))
  {
    var reached := Receivers(t, name) * left;
    if s in Receivers(t, name) {
      assert Receivers(t, name) * (left - {s}) == reached - {s};
    } else {
      assert Receivers(t, name) * (left - {s}) == reached;
      assert sent + [] == sent;
    }
  }

  lemma EmitDone(t: Tables, name: EventName, sent: seq<Effect>)
    requires EmittedSoFar(t, name, {}, sent)
    ensures EmittedTo(t, name, sent)
  {
    assert Receivers(t, name) * {} == {};
  }

  lemma SameReceivers(t: Tables, name: EventName, sent: seq<Effect>)
    ensures Receivers(t.(effects := t.effects + sent), name) == Receivers(t, name)
  {
  }

  lemma InvIgnoresEffects(t: Tables, effects: seq<Effect>)
    requires Inv(t)
    ensures Inv(t.(effects := effects))
  {
  }

  // ---------------------------------------------------------------- who is logged in, from the events alone

  /** The good login i stands before event n: its session was not lost, logged in again or ended since. */
  ghost predicate LoginStands(events: seq<Event>, i: int, n: nat, s: SessionId, level: nat, u: User)
    requires n <= |events|
  {
    && 0 <= i < n && events[i] == DispatchLogin(s, u, level) && level > 0
    && forall j :: i < j < n ==> !EndsLogin(events[j], s, u)
  }

  ghost predicate EndsLogin(e: Event, s: SessionId, u: User) {
    || e == ConnectionLost(s)
    || (e.DispatchLogin? && e.session == s && e.level > 0)
    || e == EndUserSessions(u)
  }

  lemma LoginStandsLater(events: seq<Event>, i: int, n: nat, s: SessionId, level: nat, u: User)
    requires n < |events|
    ensures LoginStands(events, i, n + 1, s, level, u) <==>
      || (i == n && events[n] == DispatchLogin(s, u, level) && level > 0)
      || (LoginStands(events, i, n, s, level, u) && !EndsLogin(events[n], s, u))
  {
  }

  ghost predicate HasLevel(t: Tables, s: SessionId, level: nat, u: User) {
    s in t.authorized && t.authorized[s] == AuthLevel(level, u)
  }

  lemma LevelStep(t: Tables, e: Event, r: Tables, s: SessionId, level: nat, u: User)
    requires Inv(t) && Step(t, e, r) && level > 0
    ensures HasLevel(r, s, level, u) <==>
      e == DispatchLogin(s, u, level) || (HasLevel(t, s, level, u) && !EndsLogin(e, s, u))
  {
  }

  /**
    After any run a session has a level and a user exactly if they are those of
    a good login dispatched for it that still stands.
   */
  lemma {:induction false} LevelIsLastLogin(events: seq<Event>, states: seq<Tables>, n: nat, s: SessionId, level: nat, u: User)
    requires IsRun(INITIAL, events, states) && n < |states| && level > 0
    ensures s in states[n].authorized && states[n].authorized[s] == AuthLevel(level, u)
      <==> exists i :: LoginStands(events, i, n, s, level, u)
    decreases n
  {
    hide Step, Inv, EndsLogin, LoginStands;
    if n == 0 {
      NoneStands(events, s, level, u);
    } else {
      var t, e, m := states[n - 1], events[n - 1], n - 1;
      RunKeepsInv(events, states, m);
      LevelIsLastLogin(events, states, m, s, level, u);
      assert Step(t, e, states[n]);
      LevelStep(t, e, states[n], s, level, u);
      if HasLevel(states[n], s, level, u) {
        if e == DispatchLogin(s, u, level) {
          LoginStandsLater(events, m, m, s, level, u);
        } else {
          var i :| LoginStands(events, i, m, s, level, u);
          LoginStandsLater(events, i, m, s, level, u);
        }
      }
      if i :| LoginStands(events, i, n, s, level, u) {
        LoginStandsLater(events, i, m, s, level, u);
      }
    }
  }

  lemma NoneStands(events: seq<Event>, s: SessionId, level: nat, u: User)
    ensures !exists i :: LoginStands(events, i, 0, s, level, u)
  {
  }

  /**
    A call that needs a level runs for a user exactly if a good login of that user
    with at least that level stands for its session; otherwise it has no effect.
   */
  lemma CallRunsIff(events: seq<Event>, states: seq<Tables>, n: nat, u: User)
    requires IsRun(INITIAL, events, states) && n < |events|
    requires events[n].DispatchCall? && events[n].required > 0
    ensures states[n + 1].effects == states[n].effects + [Ran(events[n].session, u)]
      <==> exists i, level :: level >= events[n].required && LoginStands(events, i, n, events[n].session, level, u)
    ensures states[n + 1].effects == states[n].effects
      || exists v :: states[n + 1].effects == states[n].effects + [Ran(events[n].session, v)]
  {
    var t, s, required := states[n], events[n].session, events[n].required;
    assert Step(t, events[n], states[n + 1]);
    hide Step, LoginStands;
    CallStep(t, s, required, states[n + 1], u);
    if s in t.authorized {
      var level := t.authorized[s].level;
      if level >= required {
        LevelIsLastLogin(events, states, n, s, level, u);
      }
    }
    if i, level: nat :| level >= required && LoginStands(events, i, n, s, level, u) {
      LevelIsLastLogin(events, states, n, s, level, u);
    }
  }

  lemma CallStep(t: Tables, s: SessionId, required: nat, r: Tables, u: User)
    requires Step(t, DispatchCall(s, required), r)
    ensures r.effects == t.effects + [Ran(s, u)] <==>
      s in t.authorized && t.authorized[s].level >= required && t.authorized[s].user == u
    ensures r.effects == t.effects || (s in t.authorized && r.effects == t.effects + [Ran(s, t.authorized[s].user)])
  {
    var n := |t.effects|;
    assert |t.effects + [Ran(s, u)]| == n + 1 && (t.effects + [Ran(s, u)])[n] == Ran(s, u);
    if s in t.authorized {
      assert (t.effects + [Ran(s, t.authorized[s].user)])[n] == Ran(s, t.authorized[s].user);
    }
  }

  // ---------------------------------------------------------------- who is told

  lemma {:induction false} DistinctCovers(sessions: seq<SessionId>, all: set<SessionId>, s: SessionId)
    requires forall i, j :: 0 <= i < j < |sessions| ==> sessions[i] != sessions[j]
    requires forall i :: 0 <= i < |sessions| ==> sessions[i] in all
    requires |sessions| == |all| && s in all
    ensures s in sessions
    decreases |sessions|
  {
    if sessions == [] {
      assert false;
    } else {
      var n := |sessions| - 1;
      if sessions[n] != s {
        DistinctCovers(sessions[..n], all - {sessions[n]}, s);
        assert s in sessions[..n];
      }
    }
  }

  /** Every receiver is among the sessions the event was sent to. */
  lemma ReceiverIsSent(t: Tables, name: EventName, sent: seq<Effect>, s: SessionId) returns (i: nat)
    requires EmittedTo(t, name, sent) && s in Receivers(t, name)
    ensures i < |sent| && sent[i].session == s
  {
    hide Receivers;
    var sessions := seq(|sent|, i requires 0 <= i < |sent| => sent[i].session);
    DistinctCovers(sessions, Receivers(t, name), s);
    i :| 0 <= i < |sessions| && sessions[i] == s;
  }

  /** What EmittedTo says of one effect. */
  lemma SentAt(t: Tables, name: EventName, sent: seq<Effect>, i: nat)
    requires EmittedTo(t, name, sent) && i < |sent|
    ensures var s := sent[i].session;
      && s in t.interested && name in t.interested[s]
      && s in t.authorized && sent[i] == Sent(s, t.authorized[s].user, name)
    ensures forall j :: 0 <= j < i ==> sent[j].session != sent[i].session
  {
  }

  /** An emitted event reaches every session that has registered its name, once, under its user, and no other. */
  lemma EmitReaches(t: Tables, name: EventName, r: Tables, s: SessionId)
    requires Inv(t) && Step(t, EmitEvent(name), r)
    ensures t.effects <= r.effects
    ensures s in t.interested && name in t.interested[s] <==>
      exists i :: |t.effects| <= i < |r.effects| && r.effects[i].session == s
    ensures forall i :: |t.effects| <= i < |r.effects| && r.effects[i].session == s ==>
      s in t.authorized && r.effects[i] == Sent(s, t.authorized[s].user, name)
    ensures forall i, j :: |t.effects| <= i < j < |r.effects| ==> r.effects[i].session != r.effects[j].session
  {
    var sent: seq<Effect> :| EmittedTo(t, name, sent) && r == t.(effects := t.effects + sent);
    var k := |t.effects|;
    assert s in t.interested && name in t.interested[s] ==> s in Receivers(t, name);
    hide Inv, Step, EmittedTo, Receivers;
    if s in t.interested && name in t.interested[s] {
      var i := ReceiverIsSent(t, name, sent, s);
      assert r.effects[k + i] == sent[i];
    }
    forall i | k <= i < |r.effects|
      ensures r.effects[i].session in t.interested && name in t.interested[r.effects[i].session]
      ensures r.effects[i].session in t.authorized
        && r.effects[i] == Sent(r.effects[i].session, t.authorized[r.effects[i].session].user, name)
    {
      SentAt(t, name, sent, i - k);
    }
    forall i, j | k <= i < j < |r.effects|
      ensures r.effects[i].session != r.effects[j].session
    {
      SentAt(t, name, sent, j - k);
      assert r.effects[i] == sent[i - k] && r.effects[j] == sent[j - k];
    }
  }

  // ---------------------------------------------------------------- which interests are accepted

  lemma {:induction false} DistinctSize(names: seq<EventName>)
    requires DuplicateFree(names)
    ensures |set n | n in names| == |names|
    decreases |names|
  {
    if names != [] {
      var k := |names| - 1;
      DistinctSize(names[..k]);
      assert (set n | n in names) == (set n | n in names[..k]) + {names[k]};
    }
  }

  /** A request is accepted from a logged-in session whose names are short and, with those it has, at most 256 different ones. */
  lemma AcceptsInterestIff(t: Tables, s: SessionId, interest: Interest)
    requires Inv(t)
    ensures AcceptsInterest(t, s, interest) <==>
      && s in t.authorized && t.authorized[s].level > 0 && interest.Names?
      && (forall i :: 0 <= i < |interest.names| ==> |interest.names[i]| <= 128)
      && |(set n | n in InterestOf(t, s)) + (set n | n in interest.names)| <= 256
  {
    if interest.Names? {
      StoredOnce(t, s);
      hide Inv, Fresh;
      RegisteredSize(interest.names, InterestOf(t, s));
    }
  }

  lemma StoredOnce(t: Tables, s: SessionId)
    requires Inv(t)
    ensures DuplicateFree(InterestOf(t, s))
  {
  }

  lemma RegisteredSize(names: seq<EventName>, current: seq<EventName>)
    requires DuplicateFree(current)
    ensures |current + Fresh(names, current)| == |(set n | n in current) + (set n | n in names)|
  {
    var all := current + Fresh(names, current);
    FreshKeepsDuplicateFree(names, current);
    FreshCovers(names, current);
    hide Fresh, DuplicateFree;
    DistinctSize(all);
    assert (set n | n in all) == (set n | n in current) + (set n | n in names);
  }

  lemma {:induction false} FreshIsNew(names: seq<EventName>, current: seq<EventName>)
    ensures forall n :: n in Fresh(names, current) ==> n !in current
    decreases |names|
  {
    if names != [] {
      FreshIsNew(names[1..], if names[0] in current then current else current + [names[0]]);
    }
  }

  /** New names are registered in the order in which they first occur in the request. */
  lemma {:induction false} FreshInOrder(names: seq<EventName>, current: seq<EventName>, a: nat, b: nat) returns (i: nat, j: nat)
    requires a < b < |Fresh(names, current)|
    ensures i < j < |names| && names[i] == Fresh(names, current)[a] && names[j] == Fresh(names, current)[b]
    ensures names[i] !in names[..i] && names[j] !in names[..j]
    decreases |names|
  {
    var rest := names[1..];
    FreshIsNew(names, current);
    assert Fresh(names, current)[a] in Fresh(names, current) && Fresh(names, current)[b] in Fresh(names, current);
    if names[0] in current {
      i, j := FreshInOrder(rest, current, a, b);
      assert names[..i + 1] == [names[0]] + rest[..i] && names[..j + 1] == [names[0]] + rest[..j];
      i, j := i + 1, j + 1;
    } else {
      var later := current + [names[0]];
      FreshIsNew(rest, later);
      assert Fresh(rest, later)[b - 1] in Fresh(rest, later);
      if a == 0 {
        i := 0;
        j := FreshFirst(rest, later, b - 1);
      } else {
        assert Fresh(rest, later)[a - 1] in Fresh(rest, later);
        i, j := FreshInOrder(rest, later, a - 1, b - 1);
        assert names[..i + 1] == [names[0]] + rest[..i];
        i := i + 1;
      }
      assert names[..j + 1] == [names[0]] + rest[..j];
      j := j + 1;
    }
  }

  lemma {:induction false} FreshFirst(names: seq<EventName>, current: seq<EventName>, b: nat) returns (j: nat)
    requires b < |Fresh(names, current)|
    ensures j < |names| && names[j] == Fresh(names, current)[b] && names[j] !in names[..j]
    decreases |names|
  {
    var rest := names[1..];
    FreshIsNew(names, current);
    assert Fresh(names, current)[b] in Fresh(names, current);
    if names[0] in current {
      j := FreshFirst(rest, current, b);
    } else if b == 0 {
      return 0;
    } else {
      var later := current + [names[0]];
      FreshIsNew(rest, later);
      assert Fresh(rest, later)[b - 1] in Fresh(rest, later);
      j := FreshFirst(rest, later, b - 1);
    }
    assert names[..j + 1] == [names[0]] + rest[..j];
    j := j + 1;
  }

  // ---------------------------------------------------------------- the server

  class RpcServer {
    var next: SessionId
    var open: set<SessionId>
    var authorizedSessions: map<SessionId, AuthLevel>
    var sessionProtocols: set<SessionId>
    var interestedEvents: map<SessionId, seq<EventName>>
    var effects: seq<Effect>

    function View(): Tables
      reads this
    {
      Tables(next, open, authorizedSessions, sessionProtocols, interestedEvents, effects)
    }

    constructor ()
      ensures View() == INITIAL
    {
      next, open, authorizedSessions, sessionProtocols := 0, {}, map[], {};
      interestedEvents, effects := map[], [];
    }

    method OnConnectionMade()
      modifies this
      ensures Step(old(View()), ConnectionMade, View())
    {
      authorizedSessions := authorizedSessions[next := AuthLevel(LEVEL_NONE, NOBODY)];
      open := open + {next};
      next := next + 1;
    }

    method OnConnectionLost(session: SessionId)
      requires session in open && Inv(View())
      modifies this
      ensures Step(old(View()), ConnectionLost(session), View())
    {
      open := open - {session};
      authorizedSessions := authorizedSessions - {session};
      if session in sessionProtocols {
        sessionProtocols := sessionProtocols - {session};
      }
      if session in interestedEvents {
        interestedEvents := interestedEvents - {session};
      }
      assert View() == old(View()).(open := old(open) - {session}, authorized := old(authorizedSessions) - {session},
        protocols := old(sessionProtocols) - {session}, interested := old(interestedEvents) - {session});
    }

    method OnLogin(session: SessionId, user: User, level: nat)
      requires session < next
      modifies this
      ensures Step(old(View()), DispatchLogin(session, user, level), View())
      ensures level == 0 ==> View() == old(View())
      ensures level > 0 ==> session in authorizedSessions && authorizedSessions[session] == AuthLevel(level, user)
    {
      if level != LEVEL_NONE {
        authorizedSessions := authorizedSessions[session := AuthLevel(level, user)];
        sessionProtocols := sessionProtocols + {session};
      }
    }

    method OnSetEventInterest(session: SessionId, names: Interest) returns (ok: bool)
      requires session < next
      modifies this
      ensures Step(old(View()), DispatchInterest(session, names), View())
      ensures ok <==> AcceptsInterest(old(View()), session, names)
      ensures ok ==> session in interestedEvents && forall n ::
        n in interestedEvents[session] <==> n in InterestOf(old(View()), session) || n in names.names
      ensures !ok ==> View() == old(View())
    {
      if session !in authorizedSessions {
        return false;
      }
      if session !in sessionProtocols {
        return false;
      }
      if !WellFormed(names) {
        return false;
      }
      var current := if session in interestedEvents then interestedEvents[session] else [];
      FreshCovers(names.names, current);
      var interest := current + Fresh(names.names, current);
      if |interest| > MAX_EVENT_INTERESTS {
        return false;
      }
      interestedEvents := interestedEvents[session := interest];
      ok := true;
    }

    method OnCall(session: SessionId, required: nat) returns (ran: bool)
      requires session < next
      modifies this
      ensures Step(old(View()), DispatchCall(session, required), View())
      ensures ran <==> session in authorizedSessions && authorizedSessions[session].level >= required
    {
      if session !in authorizedSessions {
        return false;
      }
      if authorizedSessions[session].level < required {
        return false;
      }
      effects := effects + [Ran(session, authorizedSessions[session].user)];
      ran := true;
    }

    /** One pass of the loop of end_user_sessions. */
    method EndOne(session: SessionId, user: User)
      requires session in authorizedSessions
      modifies this
      ensures var t := old(View());
        View() == if IsUserOf(t, session, user)
          then t.(authorized := t.authorized[session := AuthLevel(LEVEL_NONE, NOBODY)],
                  protocols := t.protocols - {session}, interested := t.interested - {session})
          else t
    {
      var auth := authorizedSessions[session];
      if auth.level == LEVEL_NONE || auth.user != user {
        return;
      }
      authorizedSessions := authorizedSessions[session := AuthLevel(LEVEL_NONE, NOBODY)];
      interestedEvents := interestedEvents - {session};
      sessionProtocols := sessionProtocols - {session};
    }

    method OnEndUserSessions(user: User)
      requires Inv(View())
      modifies this
      ensures Step(old(View()), EndUserSessions(user), View())
    {
      hide EndSome, EndUser, IsUserOf, Inv;
      ghost var before := View();
      var left := authorizedSessions.Keys;
      EndSomeStart(before, user);
      while left != {}
        invariant left <= before.authorized.Keys
        invariant View() == EndSome(before, user, before.authorized.Keys - left)
        decreases |left|
      {
        var session :| session in left;
        EndSomeStep(before, user, before.authorized.Keys - left, session);
        assert before.authorized.Keys - (left - {session}) == (before.authorized.Keys - left) + {session};
        left := left - {session};
        EndOne(session, user);
      }
      EndSomeAll(before, user);
      assert before.authorized.Keys - {} == before.authorized.Keys;
    }

    /** Sends to one session if it takes the event. */
    method EmitOne(session: SessionId, name: EventName) returns (ghost sent: seq<Effect>)
      requires Inv(View()) && session in interestedEvents
      modifies `effects
      ensures sent == if session in Receivers(old(View()), name)
        then [Sent(session, authorizedSessions[session].user, name)] else []
      ensures effects == old(effects) + sent
    {
      sent := [];
      if session in sessionProtocols && name in interestedEvents[session] {
        sent := [Sent(session, authorizedSessions[session].user, name)];
        effects := effects + [Sent(session, authorizedSessions[session].user, name)];
      }
    }

    method OnEmitEvent(name: EventName)
      requires Inv(View())
      modifies this
      ensures Step(old(View()), EmitEvent(name), View())
    {
      hide Inv, Receivers, EmittedSoFar;
      ghost var before := View();
      ghost var sent: seq<Effect> := [];
      var left := interestedEvents.Keys;
      EmitStart(before, name);
      while left != {}
        invariant left <= before.interested.Keys
        invariant View() == before.(effects := before.effects + sent)
        invariant Inv(View()) && EmittedSoFar(before, name, left, sent)
        decreases |left|
      {
        var session :| session in left;
        EmitStep(before, name, left, sent, session);
        left := left - {session};
        ghost var one := EmitOne(session, name);
        SameReceivers(before, name, sent);
        assert before.effects + sent + one == before.effects + (sent + one);
        InvIgnoresEffects(before, before.effects + sent + one);
        sent := sent + one;
      }
      EmitDone(before, name, sent);
      assert EmittedTo(before, name, sent);
    }
  }
}
