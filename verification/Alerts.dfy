/**
  The alert scheduler: libtorrent alerts are popped in bounded batches and
  dispatched to their handlers a few at a time, one reactor turn after another.
 */
module Alerts {
  import opened Wrappers

  const MAX_PENDING_ALERTS: nat := 2000
  const ALERT_WORK_PER_TURN: nat := 100
  const MAX_PENDING_HANDLERS: nat := 100

  type Kind = string
  type HandlerId = nat
  type CallId = nat

  /** `what` is the alert's type; `id` tells one alert from another. */
  datatype Alert = Alert(id: nat, what: Kind)

  /** The alert being handled, the handlers it was dequeued with, and the next one to call. */
  datatype Current = Current(alert: Alert, handlers: seq<HandlerId>, index: nat)

  /** A call of a handler with an alert, as handed to the reactor. */
  datatype Call = Call(alert: Alert, handler: HandlerId)

  /** An alert with the handlers that were registered when it was dequeued. */
  datatype Dequeued = Dequeued(alert: Alert, handlers: seq<HandlerId>)

  /**
    The scheduler's fields, and three histories: every alert accepted from
    libtorrent, every alert dequeued with its handlers, every call made.
   */
  datatype State = State(
    handlers: map<Kind, seq<HandlerId>>,
    delayedCalls: seq<CallId>,
    pending: seq<Alert>,
    current: Option<Current>,
    drainScheduled: bool,
    nextCall: CallId,
    popped: seq<Alert>,
    dequeued: seq<Dequeued>,
    log: seq<Call>)

  const INITIAL := State(map[], [], [], None, false, 0, [], [], [])

  // ---------------------------------------------------------------- steps

  function HandlersOf(s: State, what: Kind): seq<HandlerId> {
    if what in s.handlers then s.handlers[what] else []
  }

  predicate HasWork(s: State) { s.pending != [] || s.current.Some? || s.drainScheduled }

  /** Take the next alert; one without handlers is done at once. */
  function Dequeue(s: State): State
    requires s.pending != []
  {
    var alert := s.pending[0];
    var handlers := HandlersOf(s, alert.what);
    s.(pending := s.pending[1..],
       current := if handlers == [] then None else Some(Current(alert, handlers, 0)),
       dequeued := s.dequeued + [Dequeued(alert, handlers)])
  }

  /** Hand the next handler call of the current alert to the reactor. */
  function Dispatch(s: State): State
    requires s.current.Some? && s.current.value.index < |s.current.value.handlers|
  {
    var c := s.current.value;
    s.(current := if c.index + 1 == |c.handlers| then None else Some(c.(index := c.index + 1)),
       delayedCalls := s.delayedCalls + [s.nextCall],
       nextCall := s.nextCall + 1,
       log := s.log + [Call(c.alert, c.handlers[c.index])])
  }

  ghost predicate CurrentOk(s: State) {
    s.current.Some? ==> s.current.value.index < |s.current.value.handlers|
  }

  /** One pass of the drain loop: dequeue if idle, then dispatch one call unless the cap is reached; and the work counted. */
  datatype Pass = Break(state: State, work: nat) | Continue(state: State, work: nat)

  function LoopPass(s: State, work: nat): (p: Pass)
    requires CurrentOk(s)
    ensures p.Continue? ==> p.work > work
  {
    if s.current.None? && s.pending == [] then Break(s, work)
    else
      var s1 := if s.current.None? then Dequeue(s) else s;
      var work1 := if s.current.None? then work + 1 else work;
      if s1.current.None? then Continue(s1, work1)
      else if |s1.delayedCalls| >= MAX_PENDING_HANDLERS then Break(s1, work1)
      else Continue(Dispatch(s1), work1 + 1)
  }

  function DrainLoop(s: State, work: nat): (r: State)
    requires CurrentOk(s)
    ensures CurrentOk(r)
    decreases ALERT_WORK_PER_TURN - work
  {
    if work >= ALERT_WORK_PER_TURN then s
    else
      match LoopPass(s, work)
      case Break(s', _) => s'
      case Continue(s', work') => DrainLoop(s', work')
  }

  /** work_done when the loop ends. */
  function LoopCount(s: State, work: nat): nat
    requires CurrentOk(s)
    decreases ALERT_WORK_PER_TURN - work
  {
    if work >= ALERT_WORK_PER_TURN then work
    else
      match LoopPass(s, work)
      case Break(_, work') => work'
      case Continue(s', work') => LoopCount(s', work')
  }

  /** The loop goes on where a pass leaves it. */
  lemma LoopStep(s: State, work: nat)
    requires CurrentOk(s)
    ensures work >= ALERT_WORK_PER_TURN ==> DrainLoop(s, work) == s && LoopCount(s, work) == work
    ensures work < ALERT_WORK_PER_TURN ==>
      match LoopPass(s, work)
      case Break(s', work') => DrainLoop(s, work) == s' && LoopCount(s, work) == work'
      case Continue(s', work') =>
        CurrentOk(s') && DrainLoop(s, work) == DrainLoop(s', work') && LoopCount(s, work) == LoopCount(s', work')
  {
    hide LoopPass;
    if work < ALERT_WORK_PER_TURN {
      PassKeepsCurrent(s, work);
    }
  }

  lemma PassKeepsCurrent(s: State, work: nat)
    requires CurrentOk(s)
    ensures CurrentOk(LoopPass(s, work).state)
  {
  }

  /** The units of work one drain turn counts. */
  function TurnCount(s: State): nat
    requires CurrentOk(s)
  {
    LoopCount(s.(drainScheduled := false), 0)
  }

  function Schedule(s: State): State { if HasWork(s) then s.(drainScheduled := true) else s }

  /** _drain_alerts */
  function Drain(s: State): State
    requires CurrentOk(s)
  {
    var r := DrainLoop(s.(drainScheduled := false), 0);
    if HasWork(r) && |r.delayedCalls| < MAX_PENDING_HANDLERS then Schedule(r) else r
  }

  /** The alerts a pop accepts: the oldest MAX_PENDING_ALERTS of them. */
  function Batch(alerts: seq<Alert>): seq<Alert> {
    if |alerts| > MAX_PENDING_ALERTS then alerts[..MAX_PENDING_ALERTS] else alerts
  }

  /** handle_alerts with the alerts libtorrent would hand over. */
  function Pop(s: State, alerts: seq<Alert>): State
    requires CurrentOk(s)
  {
    if HasWork(s) || s.delayedCalls != [] || alerts == [] then s
    else
      Drain(s.(pending := s.pending + Batch(alerts), popped := s.popped + Batch(alerts)))
  }

  function Without<T(==)>(xs: seq<T>, x: T): seq<T> {
    if xs == [] then [] else if xs[0] == x then xs[1..] else [xs[0]] + Without(xs[1..], x)
  }

  /** _handler_finished: by returning, by raising, or by timing out. */
  function Finish(s: State, call: CallId): State {
    var r := s.(delayedCalls := Without(s.delayedCalls, call));
    if |r.delayedCalls| < MAX_PENDING_HANDLERS then Schedule(r) else r
  }

  function StripSuffix(kind: Kind): Kind {
    if |kind| >= 6 && kind[|kind| - 6..] == "_alert" then kind[..|kind| - 6] else kind
  }

  function Register(s: State, kind: Kind, handler: HandlerId): State {
    var k := StripSuffix(kind);
    s.(handlers := s.handlers[k := HandlersOf(s, k) + [handler]])
  }

  function Deregister(s: State, handler: HandlerId): State {
    s.(handlers := map k | k in s.handlers :: Without(s.handlers[k], handler))
  }

  /** cancel_delayed_calls: forget all work; each cancelled call then finishes, which finds nothing to do. */
  function Stop(s: State): State {
    s.(drainScheduled := false, pending := [], current := None, delayedCalls := [])
  }

  datatype Event =
    | PopAlerts(alerts: seq<Alert>)
    | DrainTurn
    | HandlerFinished(call: CallId)
    | RegisterHandler(kind: Kind, handler: HandlerId)
    | DeregisterHandler(handler: HandlerId)
    | StopManager

  /** A drain turn only happens when one is scheduled. */
  function Step(s: State, e: Event): State
    requires CurrentOk(s)
  {
    match e
    case PopAlerts(alerts) => Pop(s, alerts)
    case DrainTurn => if s.drainScheduled then Drain(s) else s
    case HandlerFinished(call) => Finish(s, call)
    case RegisterHandler(kind, handler) => Register(s, kind, handler)
    case DeregisterHandler(handler) => Deregister(s, handler)
    case StopManager => Stop(s)
  }

  ghost function Run(s: State, events: seq<Event>): (r: State)
    requires CurrentOk(s)
    ensures CurrentOk(r)
  {
    if events == [] then s
    else
      var n := |events| - 1;
      var before := Run(s, events[..n]);
      StepKeepsCurrent(before, events[n]);
      Step(before, events[n])
  }

  lemma StepKeepsCurrent(s: State, e: Event)
    requires CurrentOk(s)
    ensures CurrentOk(Step(s, e))
  {
  }

  // ---------------------------------------------------------------- what every step keeps

  ghost predicate Undispatched(s: State) { s.pending != [] || s.current.Some? }

  /**
    The bounds, and no lost wake-up: undispatched work waits for a scheduled
    drain or for one of exactly 100 outstanding calls.
   */
  ghost predicate Inv(s: State) {
    && CurrentOk(s)
    && |s.pending| <= 2000
    && |s.delayedCalls| <= 100
    && (s.drainScheduled ==> Undispatched(s) && |s.delayedCalls| < 100)
    && (Undispatched(s) ==> s.drainScheduled || |s.delayedCalls| == 100)
  }

  ghost predicate LoopInv(s: State) {
    CurrentOk(s) && |s.pending| <= 2000 && |s.delayedCalls| <= 100 && !s.drainScheduled
  }

  lemma {:induction false} DrainLoopKeeps(s: State, work: nat)
    requires LoopInv(s)
    ensures LoopInv(DrainLoop(s, work))
    decreases ALERT_WORK_PER_TURN - work
  {
    if work < ALERT_WORK_PER_TURN {
      var p := LoopPass(s, work);
      if p.Continue? {
        DrainLoopKeeps(p.state, p.work);
      }
    }
  }

  lemma DrainKeepsInv(s: State)
    requires LoopInv(s.(drainScheduled := false))
    ensures Inv(Drain(s))
  {
    DrainLoopKeeps(s.(drainScheduled := false), 0);
  }

  lemma {:induction false} WithoutLength<T>(xs: seq<T>, x: T)
    ensures |Without(xs, x)| == if x in xs then |xs| - 1 else |xs|
  {
    if xs != [] && xs[0] != x {
      WithoutLength(xs[1..], x);
    }
  }

  lemma StepKeepsInv(s: State, e: Event)
    requires Inv(s)
    ensures Inv(Step(s, e))
  {
    match e
    case PopAlerts(alerts) =>
      if !HasWork(s) && s.delayedCalls == [] && alerts != [] {
        DrainKeepsInv(s.(pending := s.pending + Batch(alerts), popped := s.popped + Batch(alerts)));
      }
    case DrainTurn => if s.drainScheduled { DrainKeepsInv(s); }
    case HandlerFinished(call) => WithoutLength(s.delayedCalls, call);
    case _ =>
  }

  /** In every reachable state the bounds hold and no wake-up is lost. */
  lemma {:induction false} RunKeepsInv(events: seq<Event>)
    ensures Inv(Run(INITIAL, events))
    decreases |events|
  {
    if events != [] {
      RunKeepsInv(events[..|events| - 1]);
      StepKeepsInv(Run(INITIAL, events[..|events| - 1]), events[|events| - 1]);
    }
  }

  // ---------------------------------------------------------------- what is dispatched

  ghost function Calls(alert: Alert, handlers: seq<HandlerId>): seq<Call> {
    seq(|handlers|, i requires 0 <= i < |handlers| => Call(alert, handlers[i]))
  }

  /** Every alert with each of its handlers, in order. */
  ghost function Expand(dequeued: seq<Dequeued>): seq<Call> {
    if dequeued == [] then []
    else
      var last := dequeued[|dequeued| - 1];
      Expand(dequeued[..|dequeued| - 1]) + Calls(last.alert, last.handlers)
  }

  ghost function AlertsOf(dequeued: seq<Dequeued>): seq<Alert> {
    seq(|dequeued|, i requires 0 <= i < |dequeued| => dequeued[i].alert)
  }

  /** The calls the current alert still owes. */
  ghost function Owed(s: State): seq<Call>
    requires CurrentOk(s)
  {
    if s.current.None? then []
    else Calls(s.current.value.alert, s.current.value.handlers[s.current.value.index..])
  }

  /** Nothing lost, repeated or reordered: the calls made and still owed are the dequeued alerts' calls, in order. */
  ghost predicate HistoryOk(s: State) {
    && CurrentOk(s)
    && AlertsOf(s.dequeued) + s.pending == s.popped
    && s.log + Owed(s) == Expand(s.dequeued)
  }

  lemma DequeueHistory(s: State)
    requires HistoryOk(s) && s.current.None? && s.pending != []
    ensures HistoryOk(Dequeue(s))
  {
    var r := Dequeue(s);
    var d := r.dequeued[|s.dequeued|];
    assert r.dequeued[..|s.dequeued|] == s.dequeued;
    assert AlertsOf(r.dequeued) == AlertsOf(s.dequeued) + [s.pending[0]];
    assert s.pending == [s.pending[0]] + r.pending;
    assert AlertsOf(r.dequeued) + r.pending == AlertsOf(s.dequeued) + s.pending;
    assert d.handlers[0..] == d.handlers;
    assert Owed(s) == [] && s.log + [] == s.log;
    assert Calls(d.alert, []) == [];
    assert Expand(r.dequeued) == Expand(s.dequeued) + Calls(d.alert, d.handlers);
  }

  lemma CallsFrom(alert: Alert, handlers: seq<HandlerId>, i: nat)
    requires i < |handlers|
    ensures Calls(alert, handlers[i..]) == [Call(alert, handlers[i])] + Calls(alert, handlers[i + 1..])
  {
    assert handlers[i..] == [handlers[i]] + handlers[i + 1..];
  }

  lemma Regroup(log: seq<Call>, call: Call, rest: seq<Call>)
    ensures (log + [call]) + rest == log + ([call] + rest)
  {
  }

  lemma NoCalls(alert: Alert, handlers: seq<HandlerId>)
    requires handlers == []
    ensures Calls(alert, handlers) == []
  {
  }

  lemma DispatchHistory(s: State)
    requires HistoryOk(s) && s.current.Some?
    ensures HistoryOk(Dispatch(s))
  {
    hide Calls, Expand, AlertsOf;
    var c := s.current.value;
    CallsFrom(c.alert, c.handlers, c.index);
    Regroup(s.log, Call(c.alert, c.handlers[c.index]), Calls(c.alert, c.handlers[c.index + 1..]));
    if c.index + 1 == |c.handlers| {
      NoCalls(c.alert, c.handlers[c.index + 1..]);
    }
  }

  /** What a drain, a pop or nothing at all may do to the histories: append, with the handlers registered now. */
  ghost predicate Extends(s: State, r: State) {
    && r.handlers == s.handlers && s.dequeued <= r.dequeued && s.log <= r.log
    && forall i :: |s.dequeued| <= i < |r.dequeued| ==>
         var what := r.dequeued[i].alert.what;
         r.dequeued[i].handlers == if what in s.handlers then s.handlers[what] else []
  }

  lemma PassHistory(s: State, work: nat)
    requires HistoryOk(s)
    ensures HistoryOk(LoopPass(s, work).state) && Extends(s, LoopPass(s, work).state)
    ensures LoopPass(s, work).state.popped == s.popped
  {
    hide HistoryOk;
    assert CurrentOk(s) by { HistoryCurrent(s); }
    if s.current.Some? || s.pending != [] {
      var s1 := s;
      if s.current.None? {
        DequeueHistory(s);
        s1 := Dequeue(s);
      }
      if s1.current.Some? && |s1.delayedCalls| < MAX_PENDING_HANDLERS {
        HistoryCurrent(s1);
        DispatchHistory(s1);
      }
    }
  }

  lemma HistoryCurrent(s: State)
    requires HistoryOk(s)
    ensures CurrentOk(s)
  {
  }

  lemma ExtendsTransitive(s: State, t: State, r: State)
    requires Extends(s, t) && Extends(t, r)
    ensures Extends(s, r)
  {
    forall i | |s.dequeued| <= i < |r.dequeued|
      ensures r.dequeued[i].handlers == HandlersOf(s, r.dequeued[i].alert.what)
    {
      if i < |t.dequeued| {
        assert r.dequeued[i] == t.dequeued[i];
      }
    }
  }

  lemma {:induction false} DrainLoopHistory(s: State, work: nat)
    requires HistoryOk(s)
    ensures HistoryOk(DrainLoop(s, work)) && Extends(s, DrainLoop(s, work))
    ensures DrainLoop(s, work).popped == s.popped
    decreases ALERT_WORK_PER_TURN - work
  {
    hide HistoryOk, Extends, LoopPass;
    HistoryCurrent(s);
    ExtendsItself(s);
    if work < ALERT_WORK_PER_TURN {
      PassHistory(s, work);
      var p := LoopPass(s, work);
      if p.Continue? {
        HistoryCurrent(p.state);
        DrainLoopHistory(p.state, p.work);
        ExtendsTransitive(s, p.state, DrainLoop(p.state, p.work));
      }
    }
  }

  lemma ExtendsItself(s: State)
    ensures Extends(s, s)
  {
  }

  lemma DrainHistory(s: State)
    requires HistoryOk(s)
    ensures HistoryOk(Drain(s)) && Extends(s, Drain(s)) && Drain(s).popped == s.popped
  {
    hide DrainLoop, Expand, AlertsOf, Calls;
    DrainLoopHistory(s.(drainScheduled := false), 0);
  }

  lemma PopHistory(s: State, alerts: seq<Alert>)
    requires HistoryOk(s)
    ensures HistoryOk(Pop(s, alerts)) && Extends(s, Pop(s, alerts))
    ensures Pop(s, alerts).popped == s.popped
         || (!HasWork(s) && s.delayedCalls == [] && Pop(s, alerts).popped == s.popped + Batch(alerts))
  {
    hide Drain, Expand, AlertsOf, Calls;
    if !HasWork(s) && s.delayedCalls == [] && alerts != [] {
      var t := s.(pending := s.pending + Batch(alerts), popped := s.popped + Batch(alerts));
      assert AlertsOf(s.dequeued) + (s.pending + Batch(alerts)) == s.popped + Batch(alerts);
      DrainHistory(t);
    }
  }

  /**
    Without a stop, every step keeps the account of calls and only appends to
    it, and each alert it dequeues gets the handlers registered at that moment.
   */
  lemma StepHistory(s: State, e: Event)
    requires HistoryOk(s) && !e.StopManager?
    ensures HistoryOk(Step(s, e))
    ensures e.PopAlerts? || e.DrainTurn? ==> Extends(s, Step(s, e))
    ensures !(e.PopAlerts? || e.DrainTurn?) ==> Step(s, e).dequeued == s.dequeued && Step(s, e).log == s.log
  {
    hide Drain, Pop, Expand, AlertsOf, Calls;
    match e
    case PopAlerts(alerts) => PopHistory(s, alerts);
    case DrainTurn => DrainHistory(s);
    case _ =>
  }

  ghost predicate NoStop(events: seq<Event>) {
    forall i :: 0 <= i < |events| ==> !events[i].StopManager?
  }

  /** In every run without a stop the calls made are an initial part of the popped alerts' calls, in order. */
  lemma {:induction false} RunHistory(events: seq<Event>)
    requires NoStop(events)
    ensures HistoryOk(Run(INITIAL, events))
    decreases |events|
  {
    if events != [] {
      RunHistory(events[..|events| - 1]);
      StepHistory(Run(INITIAL, events[..|events| - 1]), events[|events| - 1]);
    }
  }

  /** A pop that is not refused: everything popped before has been dequeued, dispatched and finished, and 2000 is the most it takes. */
  lemma PopOnlyWhenDone(events: seq<Event>, alerts: seq<Alert>)
    requires NoStop(events) && Step(Run(INITIAL, events), PopAlerts(alerts)).popped != Run(INITIAL, events).popped
    ensures var s := Run(INITIAL, events);
      && s.delayedCalls == [] && !Undispatched(s)
      && AlertsOf(s.dequeued) == s.popped && s.log == Expand(s.dequeued)
      && Step(s, PopAlerts(alerts)).popped == s.popped + Batch(alerts)
  {
    RunHistory(events);
    var s := Run(INITIAL, events);
    PopHistory(s, alerts);
    assert AlertsOf(s.dequeued) + [] == AlertsOf(s.dequeued);
    assert s.log + [] == s.log;
  }

  // ---------------------------------------------------------------- progress

  /** Units of work left: an alert to dequeue counts one, and so does each call to make. */
  ghost function PendingWork(s: State, pending: seq<Alert>): nat {
    if pending == [] then 0
    else 1 + |HandlersOf(s, pending[0].what)| + PendingWork(s, pending[1..])
  }

  ghost function WorkLeft(s: State): nat
    requires CurrentOk(s)
  {
    PendingWork(s, s.pending)
    + (if s.current.None? then 0 else |s.current.value.handlers| - s.current.value.index)
  }

  lemma {:induction false} SameTableSameWork(s: State, r: State, pending: seq<Alert>)
    requires s.handlers == r.handlers
    ensures PendingWork(s, pending) == PendingWork(r, pending)
  {
    if pending != [] {
      SameTableSameWork(s, r, pending[1..]);
    }
  }

  /** Each unit counted by a pass is a unit of work less, and costs at most one outstanding call. */
  lemma PassWork(s: State, work: nat)
    requires CurrentOk(s)
    ensures var p := LoopPass(s, work);
      && (p.Continue? ==> p.work > work && WorkLeft(s) == WorkLeft(p.state) + (p.work - work))
      && (p.Continue? ==> p.work <= work + 2)
      && WorkLeft(p.state) <= WorkLeft(s) <= WorkLeft(p.state) + 2
      && |p.state.delayedCalls| - |s.delayedCalls| <= WorkLeft(s) - WorkLeft(p.state)
  {
    var s1 := if s.current.None? && s.pending != [] then Dequeue(s) else s;
    SameTableSameWork(s, s1, s1.pending);
    if s1.current.Some? {
      SameTableSameWork(s1, Dispatch(s1), s1.pending);
    }
  }

  lemma {:induction false} DrainLoopWork(s: State, work: nat)
    requires CurrentOk(s)
    ensures var r := DrainLoop(s, work);
      && WorkLeft(r) <= WorkLeft(s)
      && |r.delayedCalls| - |s.delayedCalls| <= WorkLeft(s) - WorkLeft(r)
      && (work < ALERT_WORK_PER_TURN ==> WorkLeft(s) - WorkLeft(r) <= ALERT_WORK_PER_TURN + 1 - work)
    decreases ALERT_WORK_PER_TURN - work
  {
    if work < ALERT_WORK_PER_TURN {
      PassWork(s, work);
      var p := LoopPass(s, work);
      if p.Continue? {
        DrainLoopWork(p.state, p.work);
      }
    }
  }

  /** A scheduled drain turn does at least one unit of work and at most 101: the bound of 100 is tested before a pass, not inside it. */
  lemma DrainTurnWork(s: State)
    requires Inv(s) && s.drainScheduled
    ensures WorkLeft(Drain(s)) < WorkLeft(s) <= WorkLeft(Drain(s)) + ALERT_WORK_PER_TURN + 1
    ensures |Drain(s).delayedCalls| - |s.delayedCalls| <= WorkLeft(s) - WorkLeft(Drain(s))
  {
    var t := s.(drainScheduled := false);
    SameTableSameWork(s, t, s.pending);
    PassWork(t, 0);
    DrainLoopWork(t, 0);
    var p := LoopPass(t, 0);
    if p.Continue? {
      DrainLoopWork(p.state, p.work);
    }
    var r := DrainLoop(t, 0);
    SameTableSameWork(r, Drain(s), r.pending);
  }

  // ---------------------------------------------------------------- the turn that counts 101

  /** A unit of work to come: taking an alert, with or without handlers, or making a call. */
  datatype Unit = Take(busy: bool) | Make

  ghost function Makes(n: nat): seq<Unit> { seq(n, i => Make) }

  ghost function PendingUnits(s: State, pending: seq<Alert>): seq<Unit> {
    if pending == [] then []
    else
      var handlers := HandlersOf(s, pending[0].what);
      [Take(handlers != [])] + Makes(|handlers|) + PendingUnits(s, pending[1..])
  }

  /** The units ahead: the calls still owed, then each pending alert with its calls. */
  ghost function Units(s: State): seq<Unit>
    requires CurrentOk(s)
  {
    Makes(if s.current.None? then 0 else |s.current.value.handlers| - s.current.value.index) + PendingUnits(s, s.pending)
  }

  ghost function CallsIn(units: seq<Unit>): nat
  {
    if units == [] then 0 else (if units[0].Make? then 1 else 0) + CallsIn(units[1..])
  }

  /** From `work` units on, unit 99 is an alert with handlers, and the calls before it leave room for one more. */
  ghost predicate Overshoots(s: State, work: nat)
    requires CurrentOk(s) && work < ALERT_WORK_PER_TURN
  {
    var n := ALERT_WORK_PER_TURN - 1 - work;
    n < |Units(s)| && Units(s)[n] == Take(true) && |s.delayedCalls| + CallsIn(Units(s)[..n]) < MAX_PENDING_HANDLERS
  }

  lemma {:induction false} SameTableSameUnits(s: State, r: State, pending: seq<Alert>)
    requires s.handlers == r.handlers
    ensures PendingUnits(s, pending) == PendingUnits(r, pending)
  {
    if pending != [] {
      SameTableSameUnits(s, r, pending[1..]);
    }
  }

  /** Taking an alert uses up a Take. */
  lemma DequeueUnits(s: State)
    requires s.current.None? && s.pending != []
    ensures Units(s) == [Take(Dequeue(s).current.Some?)] + Units(Dequeue(s))
  {
    var r, handlers := Dequeue(s), HandlersOf(s, s.pending[0].what);
    SameTableSameUnits(s, r, r.pending);
    assert r.current.Some? ==> r.current.value.handlers[0..] == handlers;
    var rest := PendingUnits(s, r.pending);
    assert PendingUnits(s, s.pending) == [Take(handlers != [])] + Makes(|handlers|) + rest;
    hide PendingUnits, HandlersOf;
    assert Makes(0) == [];
    assert [Take(handlers != [])] + Makes(|handlers|) + rest == [Take(handlers != [])] + (Makes(|handlers|) + rest);
  }

  /** Making a call uses up a Make. */
  lemma DispatchUnits(s: State)
    requires CurrentOk(s) && s.current.Some?
    ensures Units(s) == [Make] + Units(Dispatch(s))
  {
    var n := |s.current.value.handlers| - s.current.value.index;
    SameTableSameUnits(s, Dispatch(s), s.pending);
    assert Makes(n) == [Make] + Makes(n - 1);
  }

  lemma DropUnit(u: Unit, rest: seq<Unit>, n: nat)
    requires 0 < n <= |rest| + 1
    ensures CallsIn(([u] + rest)[..n]) == (if u.Make? then 1 else 0) + CallsIn(rest[..n - 1])
  {
    assert ([u] + rest)[..n] == [u] + rest[..n - 1];
  }

  /** A unit counted away moves the condition along. */
  lemma OvershootsLater(s: State, r: State, u: Unit, work: nat)
    requires CurrentOk(s) && CurrentOk(r) && work + 1 < ALERT_WORK_PER_TURN && Units(s) == [u] + Units(r)
    requires |r.delayedCalls| == |s.delayedCalls| + (if u.Make? then 1 else 0)
    ensures Overshoots(s, work) <==> Overshoots(r, work + 1)
  {
    hide Units, CallsIn;
    var n := ALERT_WORK_PER_TURN - 1 - work;
    if n < |Units(s)| {
      DropUnit(u, Units(r), n);
    }
  }

  lemma {:induction false} LoopOvershootsIff(s: State, work: nat)
    requires CurrentOk(s) && work < ALERT_WORK_PER_TURN
    ensures LoopCount(s, work) == ALERT_WORK_PER_TURN + 1 <==> Overshoots(s, work)
    decreases ALERT_WORK_PER_TURN - work
  {
    hide Units, Overshoots;
    if s.current.None? && s.pending == [] {
      NoUnits(s, work);
    } else if s.current.None? {
      var s1 := Dequeue(s);
      DequeueUnits(s);
      if s1.current.None? {
        NextUnit(s, s1, Take(false), work);
      } else if |s.delayedCalls| >= MAX_PENDING_HANDLERS {
        NoRoom(s, work);
      } else {
        BusyPass(s, s1, work);
      }
    } else if |s.delayedCalls| >= MAX_PENDING_HANDLERS {
      NoRoom(s, work);
    } else {
      DispatchUnits(s);
      NextUnit(s, Dispatch(s), Make, work);
    }
  }

  lemma NoUnits(s: State, work: nat)
    requires CurrentOk(s) && s.current.None? && s.pending == [] && work < ALERT_WORK_PER_TURN
    ensures !Overshoots(s, work)
  {
    assert Makes(0) == [];
  }

  lemma NoRoom(s: State, work: nat)
    requires CurrentOk(s) && work < ALERT_WORK_PER_TURN && |s.delayedCalls| >= MAX_PENDING_HANDLERS
    ensures !Overshoots(s, work)
  {
  }

  /** A pass of one unit. */
  lemma NextUnit(s: State, r: State, u: Unit, work: nat)
    requires CurrentOk(s) && CurrentOk(r) && work < ALERT_WORK_PER_TURN
    requires LoopPass(s, work) == Continue(r, work + 1)
    requires Units(s) == [u] + Units(r) && u != Take(true)
    requires |r.delayedCalls| == |s.delayedCalls| + (if u.Make? then 1 else 0)
    ensures LoopCount(s, work) == ALERT_WORK_PER_TURN + 1 <==> Overshoots(s, work)
    decreases ALERT_WORK_PER_TURN - work, 0
  {
    if work + 1 < ALERT_WORK_PER_TURN {
      LoopOvershootsIff(r, work + 1);
      OvershootsLater(s, r, u, work);
    }
  }

  /** A pass of two units: an alert taken and its first call made. */
  lemma BusyPass(s: State, s1: State, work: nat)
    requires CurrentOk(s) && s.current.None? && s.pending != [] && s1 == Dequeue(s) && s1.current.Some?
    requires |s.delayedCalls| < MAX_PENDING_HANDLERS && work < ALERT_WORK_PER_TURN
    ensures LoopCount(s, work) == ALERT_WORK_PER_TURN + 1 <==> Overshoots(s, work)
    decreases ALERT_WORK_PER_TURN - work, 0
  {
    var r := Dispatch(s1);
    DequeueUnits(s);
    DispatchUnits(s1);
    assert LoopPass(s, work) == Continue(r, work + 2);
    hide Units;
    if work + 2 < ALERT_WORK_PER_TURN {
      LoopOvershootsIff(r, work + 2);
      OvershootsLater(s, s1, Take(true), work);
      OvershootsLater(s1, r, Make, work + 1);
    }
  }

  /**
    A drain turn counts 101 units exactly when the hundredth unit of work ahead
    takes an alert that has handlers and the calls due before it, together with
    those outstanding, stay below the cap: the bound of 100 is tested before a
    pass, and that pass counts two.
   */
  lemma TurnCounts101Iff(s: State)
    requires CurrentOk(s)
    ensures TurnCount(s) <= ALERT_WORK_PER_TURN + 1
    ensures TurnCount(s) == ALERT_WORK_PER_TURN + 1 <==>
      && |Units(s)| > 99 && Units(s)[99] == Take(true)
      && |s.delayedCalls| + CallsIn(Units(s)[..99]) < MAX_PENDING_HANDLERS
  {
    var t := s.(drainScheduled := false);
    SameTableSameUnits(s, t, s.pending);
    LoopOvershootsIff(t, 0);
    LoopCountIsWork(t, 0);
  }

  /** What the loop counts is the work it does: alerts dequeued and calls made. */
  lemma {:induction false} LoopCountIsWork(s: State, work: nat)
    requires CurrentOk(s)
    ensures var r := DrainLoop(s, work);
      LoopCount(s, work) - work == (|r.dequeued| - |s.dequeued|) + (|r.log| - |s.log|)
    ensures work < ALERT_WORK_PER_TURN ==> LoopCount(s, work) <= ALERT_WORK_PER_TURN + 1
    decreases ALERT_WORK_PER_TURN - work
  {
    if work < ALERT_WORK_PER_TURN {
      var p := LoopPass(s, work);
      if p.Continue? {
        LoopCountIsWork(p.state, p.work);
      }
    }
  }

  /** Idle alerts ahead of a busy one: as many Takes, and no call before it. */
  lemma {:induction false} IdleUnits(s: State, pending: seq<Alert>, n: nat)
    requires |pending| == n + 1 && HandlersOf(s, pending[n].what) != []
    requires forall i :: 0 <= i < n ==> HandlersOf(s, pending[i].what) == []
    ensures var u := PendingUnits(s, pending);
      |u| > n && u[n] == Take(true) && CallsIn(u[..n]) == 0
    decreases n
  {
    assert Makes(0) == [];
    if n > 0 {
      IdleUnits(s, pending[1..], n - 1);
      var rest := PendingUnits(s, pending[1..]);
      assert PendingUnits(s, pending) == [Take(false)] + rest;
      DropUnit(Take(false), rest, n);
    }
  }

  /** With one handler registered: the alerts 0 to 98 have none, alert 99 has it. */
  ghost function Registered(): State { INITIAL.(handlers := map["b" := [7]]) }

  ghost function Alarm(): seq<Alert> { seq(100, i requires 0 <= i < 100 => Alert(i, if i == 99 then "b" else "a")) }

  /** The scheduler when that batch has been popped and is about to be drained. */
  ghost function Alarmed(): State { Registered().(pending := Alarm(), popped := Alarm()) }

  lemma AlarmOvershoots()
    ensures TurnCount(Alarmed()) == ALERT_WORK_PER_TURN + 1
  {
    var t := Alarmed();
    assert HandlersOf(t, "b") == [7];
    assert "a" != "b" && HandlersOf(t, "a") == [];
    IdleUnits(t, Alarm(), 99);
    assert Makes(0) == [] && Units(t) == PendingUnits(t, Alarm());
    hide TurnCount, Units, PendingUnits, CallsIn;
    TurnCounts101Iff(t);
  }

  lemma AlarmRun()
    ensures Run(INITIAL, [RegisterHandler("b", 7)]) == Registered()
    ensures Run(INITIAL, [RegisterHandler("b", 7), PopAlerts(Alarm())]) == Drain(Alarmed())
  {
    hide Drain, Alarm;
    var register, pop := RegisterHandler("b", 7), PopAlerts(Alarm());
    assert [register][..0] == [] && [register, pop][..1] == [register];
    assert [] + [7] == [7];
    assert Run(INITIAL, [register]) == Registered();
    assert |Alarm()| == 100 by { AlarmSize(); }
    assert Registered().pending + Alarm() == Alarm() && Registered().popped + Alarm() == Alarm();
  }

  lemma AlarmSize()
    ensures |Alarm()| == 100
  {
  }

  /** One handler for "b"; a batch of 99 alerts nobody handles and one "b": its drain turn does 101 units. */
  lemma OvershootIsReached()
    ensures var register, pop := RegisterHandler("b", 7), PopAlerts(Alarm());
      var s, r := Run(INITIAL, [register]), Run(INITIAL, [register, pop]);
      && s.dequeued == [] && s.log == []
      && |r.dequeued| + |r.log| == ALERT_WORK_PER_TURN + 1
  {
    hide Run, DrainLoop, LoopCount, Alarm;
    AlarmRun();
    AlarmOvershoots();
    LoopCountIsWork(Alarmed(), 0);
    assert Alarmed().(drainScheduled := false) == Alarmed();
  }

  /** The scheduler's own moves: a scheduled drain turn, or an outstanding call finishing. */
  ghost predicate Enabled(s: State, e: Event) {
    (e.DrainTurn? && s.drainScheduled) || (e.HandlerFinished? && e.call in s.delayedCalls)
  }

  /** Counts down with every such move. */
  ghost function Fuel(s: State): nat
    requires CurrentOk(s)
  {
    2 * WorkLeft(s) + |s.delayedCalls|
  }

  lemma MoveLowersFuel(s: State, e: Event)
    requires Inv(s) && Enabled(s, e)
    ensures Fuel(Step(s, e)) < Fuel(s)
  {
    match e
    case DrainTurn => DrainTurnWork(s);
    case HandlerFinished(call) =>
      WithoutLength(s.delayedCalls, call);
      SameTableSameWork(s, Step(s, e), s.pending);
    case _ =>
  }

  ghost predicate Moves(s: State, events: seq<Event>)
    requires CurrentOk(s)
    decreases |events|
  {
    if events == [] then true
    else
      StepKeepsCurrent(s, events[0]);
      Enabled(s, events[0]) && Moves(Step(s, events[0]), events[1..])
  }

  /**
    With a fixed handler table the scheduler comes to rest after at most Fuel(s)
    moves, in whatever order calls finish; and it only rests when all work is done.
   */
  lemma {:induction false} AllWorkGetsDone(s: State, events: seq<Event>)
    requires Inv(s) && Moves(s, events)
    ensures |events| <= Fuel(s)
    ensures (forall e :: !Enabled(s, e)) ==> !Undispatched(s) && s.delayedCalls == []
    decreases |events|
  {
    if events != [] {
      MoveLowersFuel(s, events[0]);
      StepKeepsInv(s, events[0]);
      AllWorkGetsDone(Step(s, events[0]), events[1..]);
    }
    assert Enabled(s, DrainTurn) <==> s.drainScheduled;
    if s.delayedCalls != [] {
      assert Enabled(s, HandlerFinished(s.delayedCalls[0]));
    }
  }

  /** At rest every call owed by every popped alert has been made, in order. */
  lemma RestMeansDispatched(events: seq<Event>)
    requires NoStop(events) && forall e :: !Enabled(Run(INITIAL, events), e)
    ensures var s := Run(INITIAL, events);
      s.log == Expand(s.dequeued) && AlertsOf(s.dequeued) == s.popped && s.delayedCalls == []
  {
    var s := Run(INITIAL, events);
    RunKeepsInv(events);
    RunHistory(events);
    AllWorkGetsDone(s, []);
    assert AlertsOf(s.dequeued) + [] == AlertsOf(s.dequeued);
    assert s.log + [] == s.log;
  }

  // ---------------------------------------------------------------- removals and outstanding calls

  /** list.remove with its ValueError suppressed: the first x goes, and all other entries stay in order. */
  ghost predicate FirstRemoved<T>(xs: seq<T>, x: T, ys: seq<T>) {
    if x !in xs then ys == xs else exists i :: FirstAt(xs, x, i) && LacksOnly(xs, i, ys)
  }

  ghost predicate FirstAt<T>(xs: seq<T>, x: T, i: int) {
    0 <= i < |xs| && xs[i] == x && forall j :: 0 <= j < i ==> xs[j] != x
  }

  ghost predicate LacksOnly<T>(xs: seq<T>, i: int, ys: seq<T>)
    requires 0 <= i < |xs|
  {
    |ys| == |xs| - 1 && forall j :: 0 <= j < |ys| ==> ys[j] == xs[if j < i then j else j + 1]
  }

  lemma RemovedFurtherOn<T>(xs: seq<T>, x: T, i: int, ys: seq<T>)
    requires xs != [] && xs[0] != x && FirstAt(xs[1..], x, i) && LacksOnly(xs[1..], i, ys)
    ensures FirstAt(xs, x, i + 1) && LacksOnly(xs, i + 1, [xs[0]] + ys)
  {
    var rest, all := xs[1..], [xs[0]] + ys;
    assert forall j :: 0 <= j < |rest| ==> rest[j] == xs[j + 1];
    forall j | 0 <= j < i + 1
      ensures xs[j] != x
    {
      if j > 0 {
        assert rest[j - 1] == xs[j];
      }
    }
    forall j | 0 <= j < |all|
      ensures all[j] == xs[if j < i + 1 then j else j + 1]
    {
      if j > 0 {
        assert all[j] == ys[j - 1];
      }
    }
  }

  lemma {:induction false} WithoutRemovesFirst<T>(xs: seq<T>, x: T)
    ensures FirstRemoved(xs, x, Without(xs, x))
  {
    if xs == [] {
    } else if xs[0] == x {
      assert FirstAt(xs, x, 0) && LacksOnly(xs, 0, Without(xs, x));
    } else {
      assert x in xs <==> x in xs[1..];
      WithoutRemovesFirst(xs[1..], x);
      if x in xs {
        hide FirstAt, LacksOnly;
        var i :| FirstAt(xs[1..], x, i) && LacksOnly(xs[1..], i, Without(xs[1..], x));
        RemovedFurtherOn(xs, x, i, Without(xs[1..], x));
      }
    }
  }

  ghost predicate Ascending(calls: seq<CallId>) {
    forall i, j :: 0 <= i < j < |calls| ==> calls[i] < calls[j]
  }

  /** From an ascending list exactly the one entry goes. */
  lemma RemovedFromAscending(calls: seq<CallId>, call: CallId, rest: seq<CallId>)
    requires Ascending(calls) && FirstRemoved(calls, call, rest)
    ensures Ascending(rest)
    ensures forall c :: c in rest <==> c in calls && c != call
  {
    if call in calls {
      var i :| FirstAt(calls, call, i) && LacksOnly(calls, i, rest);
      forall c
        ensures c in rest <==> c in calls && c != call
      {
        StaysIffOther(calls, i, rest, c);
      }
    }
  }

  lemma StaysIffOther(calls: seq<CallId>, i: int, rest: seq<CallId>, c: CallId)
    requires Ascending(calls) && 0 <= i < |calls| && LacksOnly(calls, i, rest)
    ensures c in rest <==> c in calls && c != calls[i]
  {
    if c in calls && c != calls[i] {
      var j :| 0 <= j < |calls| && calls[j] == c;
      assert rest[if j < i then j else j - 1] == c;
    }
    if c in rest {
      var j :| 0 <= j < |rest| && rest[j] == c;
      assert calls[if j < i then j else j + 1] == c;
    }
  }

  /** Calls are numbered as they are logged: call c is log[c]. */
  ghost predicate CallsOk(s: State) {
    && CurrentOk(s) && s.nextCall == |s.log| && Ascending(s.delayedCalls)
    && forall c :: c in s.delayedCalls ==> c < s.nextCall
  }

  /** The calls made on the way from s to r have joined the outstanding ones. */
  ghost predicate AddsCalls(s: State, r: State) {
    && |s.log| <= |r.log|
    && forall c :: c in r.delayedCalls <==> c in s.delayedCalls || |s.log| <= c < |r.log|
  }

  lemma DispatchAddsCall(s: State)
    requires CallsOk(s) && s.current.Some?
    ensures CallsOk(Dispatch(s)) && AddsCalls(s, Dispatch(s))
  {
    var calls, r := s.delayedCalls, Dispatch(s);
    assert r.delayedCalls == calls + [s.nextCall];
    forall i, j | 0 <= i < j < |r.delayedCalls|
      ensures r.delayedCalls[i] < r.delayedCalls[j]
    {
      assert calls[i] in calls;
    }
  }

  lemma PassAddsCalls(s: State, work: nat)
    requires CallsOk(s)
    ensures CallsOk(LoopPass(s, work).state) && AddsCalls(s, LoopPass(s, work).state)
  {
    if s.current.Some? || s.pending != [] {
      var s1 := if s.current.None? then Dequeue(s) else s;
      if s1.current.Some? {
        hide Ascending, Dispatch;
        DispatchAddsCall(s1);
      }
    }
  }

  lemma {:induction false} DrainLoopAddsCalls(s: State, work: nat)
    requires CallsOk(s)
    ensures CallsOk(DrainLoop(s, work)) && AddsCalls(s, DrainLoop(s, work))
    decreases ALERT_WORK_PER_TURN - work
  {
    hide LoopPass, Ascending;
    if work < ALERT_WORK_PER_TURN {
      PassAddsCalls(s, work);
      var p := LoopPass(s, work);
      if p.Continue? {
        DrainLoopAddsCalls(p.state, p.work);
      }
    }
  }

  lemma DrainAddsCalls(s: State)
    requires CallsOk(s)
    ensures CallsOk(Drain(s)) && AddsCalls(s, Drain(s))
  {
    hide DrainLoop;
    DrainLoopAddsCalls(s.(drainScheduled := false), 0);
  }

  lemma {:induction false} DrainLoopKeepsPopped(s: State, work: nat)
    requires CurrentOk(s)
    ensures DrainLoop(s, work).popped == s.popped
    decreases ALERT_WORK_PER_TURN - work
  {
    if work < ALERT_WORK_PER_TURN {
      var p := LoopPass(s, work);
      if p.Continue? {
        DrainLoopKeepsPopped(p.state, p.work);
      }
    }
  }

  lemma PopAddsCalls(s: State, alerts: seq<Alert>)
    requires CallsOk(s)
    ensures CallsOk(Pop(s, alerts)) && AddsCalls(s, Pop(s, alerts))
  {
    hide Drain, Ascending;
    if !HasWork(s) && s.delayedCalls == [] && alerts != [] {
      DrainAddsCalls(s.(pending := s.pending + Batch(alerts), popped := s.popped + Batch(alerts)));
    }
  }

  lemma FinishRemovesCall(s: State, call: CallId)
    requires CallsOk(s)
    ensures var r := Finish(s, call);
      CallsOk(r) && r.log == s.log && forall c :: c in r.delayedCalls <==> c in s.delayedCalls && c != call
  {
    hide Ascending, Without;
    WithoutRemovesFirst(s.delayedCalls, call);
    RemovedFromAscending(s.delayedCalls, call, Finish(s, call).delayedCalls);
  }

  lemma StepCalls(s: State, e: Event)
    requires CallsOk(s)
    ensures CallsOk(Step(s, e)) && |s.log| <= |Step(s, e).log|
    ensures forall c :: c in Step(s, e).delayedCalls <==>
      (c in s.delayedCalls && e != HandlerFinished(c) && e != StopManager) || |s.log| <= c < |Step(s, e).log|
  {
    hide Drain, Pop, Finish, Deregister, Register;
    match e
    case PopAlerts(alerts) => PopAddsCalls(s, alerts);
    case DrainTurn => DrainAddsCalls(s);
    case HandlerFinished(call) => FinishRemovesCall(s, call);
    case RegisterHandler(kind, handler) => assert Register(s, kind, handler) == s.(handlers := Register(s, kind, handler).handlers) by { RegisterKeeps(s, kind, handler); }
    case DeregisterHandler(handler) => assert Deregister(s, handler) == s.(handlers := Deregister(s, handler).handlers) by { DeregisterKeeps(s, handler); }
    case StopManager =>
  }

  lemma RegisterKeeps(s: State, kind: Kind, handler: HandlerId)
    ensures Register(s, kind, handler) == s.(handlers := Register(s, kind, handler).handlers)
  {
  }

  lemma DeregisterKeeps(s: State, handler: HandlerId)
    ensures Deregister(s, handler) == s.(handlers := Deregister(s, handler).handlers)
  {
  }

  /** Call c has been made, and since then neither has it finished nor has the manager been stopped. */
  ghost predicate Outstanding(events: seq<Event>, c: CallId) {
    && c < |Run(INITIAL, events).log|
    && forall i :: 0 <= i < |events| && c < |Run(INITIAL, events[..i]).log| ==>
         events[i] != HandlerFinished(c) && events[i] != StopManager
  }

  lemma OutstandingSnoc(events: seq<Event>, c: CallId)
    requires events != []
    ensures var n := |events| - 1;
      var s := Run(INITIAL, events[..n]);
      Outstanding(events, c) <==>
        && c < |Run(INITIAL, events).log|
        && (forall i :: 0 <= i < n && c < |Run(INITIAL, events[..n][..i]).log| ==>
              events[..n][i] != HandlerFinished(c) && events[..n][i] != StopManager)
        && (c < |s.log| ==> events[n] != HandlerFinished(c) && events[n] != StopManager)
  {
    hide Run;
    var n := |events| - 1;
    assert forall i :: 0 <= i < n ==> events[..n][..i] == events[..i];
  }

  lemma {:induction false} RunCallsOk(events: seq<Event>)
    ensures CallsOk(Run(INITIAL, events))
    ensures events != [] ==>
      |Run(INITIAL, events[..|events| - 1]).log| <= |Run(INITIAL, events).log|
    decreases |events|
  {
    hide CallsOk, Step;
    if events == [] {
      assert CallsOk(INITIAL) by { StartCallsOk(); }
    } else {
      var front := events[..|events| - 1];
      RunCallsOk(front);
      StepCalls(Run(INITIAL, front), events[|events| - 1]);
    }
  }

  lemma StartCallsOk()
    ensures CallsOk(INITIAL)
  {
  }

  lemma {:induction false} LogGrows(events: seq<Event>, i: nat)
    requires i <= |events|
    ensures |Run(INITIAL, events[..i]).log| <= |Run(INITIAL, events).log|
    decreases |events|
  {
    hide Run, CallsOk;
    if i == |events| {
      assert events[..i] == events;
    } else {
      var front := events[..|events| - 1];
      assert front[..i] == events[..i];
      LogGrows(front, i);
      RunCallsOk(events);
    }
  }

  /**
    After every run, stops included, the outstanding calls are exactly those
    made and not finished or cancelled since, in the order they were made.
   */
  lemma {:induction false} OutstandingCalls(events: seq<Event>)
    ensures var s := Run(INITIAL, events);
      && Ascending(s.delayedCalls)
      && forall c: CallId :: c in s.delayedCalls <==> Outstanding(events, c)
    decreases |events|
  {
    if events != [] {
      var n := |events| - 1;
      var s, r := Run(INITIAL, events[..n]), Run(INITIAL, events);
      OutstandingCalls(events[..n]);
      RunCallsOk(events[..n]);
      assert r == Step(s, events[n]);
      StepCalls(s, events[n]);
      hide Run, Step, Ascending;
      forall c: CallId
        ensures c in r.delayedCalls <==> Outstanding(events, c)
      {
        OutstandingSnoc(events, c);
        if c >= |s.log| {
          NotYetMade(events[..n], c);
        }
      }
    }
  }

  lemma NotYetMade(events: seq<Event>, c: CallId)
    requires c >= |Run(INITIAL, events).log|
    ensures forall i :: 0 <= i < |events| ==> c >= |Run(INITIAL, events[..i]).log|
  {
    hide Run;
    forall i | 0 <= i < |events|
      ensures c >= |Run(INITIAL, events[..i]).log|
    {
      LogGrows(events, i);
    }
  }

  /** The alert type a handler is registered under: without the `_alert` suffix, if it has one. */
  ghost predicate IsTypeFor(kind: Kind, what: Kind) {
    kind == what + "_alert" || (kind == what && forall base: Kind :: kind != base + "_alert")
  }

  lemma StripSuffixIsType(kind: Kind)
    ensures IsTypeFor(kind, StripSuffix(kind))
  {
    if exists base: Kind :: kind == base + "_alert" {
      var base: Kind :| kind == base + "_alert";
      assert kind[|kind| - 6..] == "_alert" && kind[..|kind| - 6] == base;
    }
  }

  // ---------------------------------------------------------------- the component

  class AlertManager {
    var handlers: map<Kind, seq<HandlerId>>
    var delayedCalls: seq<CallId>
    var pendingAlerts: seq<Alert>
    var currentAlert: Option<Alert>
    var currentHandlers: seq<HandlerId>
    var currentHandlerIndex: nat
    var alertDrainCall: bool
    var nextCall: CallId
    ghost var popped: seq<Alert>
    ghost var dequeued: seq<Dequeued>
    ghost var log: seq<Call>

    ghost function View(): State
      reads this
    {
      State(handlers, delayedCalls, pendingAlerts,
            if currentAlert.None? then None else Some(Current(currentAlert.value, currentHandlers, currentHandlerIndex)),
            alertDrainCall, nextCall, popped, dequeued, log)
    }

    constructor ()
      ensures View() == INITIAL
    {
      handlers, delayedCalls, pendingAlerts := map[], [], [];
      currentAlert, currentHandlers, currentHandlerIndex := None, [], 0;
      alertDrainCall, nextCall := false, 0;
      popped, dequeued, log := [], [], [];
    }

    predicate HasPendingAlertWork()
      reads this
    {
      pendingAlerts != [] || currentAlert.Some? || alertDrainCall
    }

    method ClearCurrentAlert()
      modifies `currentAlert, `currentHandlers, `currentHandlerIndex
      ensures View() == old(View()).(current := None)
    {
      currentAlert, currentHandlers, currentHandlerIndex := None, [], 0;
    }

    method ScheduleAlertDrain()
      modifies `alertDrainCall
      ensures View() == Schedule(old(View()))
    {
      if !alertDrainCall && HasPendingAlertWork() {
        alertDrainCall := true;
      }
    }

    /** Defers the call of the current alert's next handler. */
    method DispatchNext()
      requires currentAlert.Some? && currentHandlerIndex < |currentHandlers|
      modifies this
      ensures View() == Dispatch(old(View()))
    {
      var handler := currentHandlers[currentHandlerIndex];
      currentHandlerIndex := currentHandlerIndex + 1;
      log := log + [Call(currentAlert.value, handler)];
      delayedCalls := delayedCalls + [nextCall];
      nextCall := nextCall + 1;
      if currentHandlerIndex == |currentHandlers| {
        ClearCurrentAlert();
      }
    }

    method DequeueNext()
      requires pendingAlerts != []
      modifies this
      ensures View() == Dequeue(old(View()))
    {
      var alert := pendingAlerts[0];
      pendingAlerts := pendingAlerts[1..];
      currentAlert := Some(alert);
      currentHandlers := if alert.what in handlers then handlers[alert.what] else [];
      currentHandlerIndex := 0;
      dequeued := dequeued + [Dequeued(alert, currentHandlers)];
      if currentHandlers == [] {
        ClearCurrentAlert();
      }
    }

    /** `counted` is work_done in the end. */
    method DrainAlerts() returns (ghost counted: nat)
      requires CurrentOk(View())
      modifies this
      ensures View() == Drain(old(View())) && counted == TurnCount(old(View()))
    {
      hide DrainLoop, LoopCount;
      alertDrainCall := false;
      var workDone := 0;
      ghost var target, total := DrainLoop(View(), 0), LoopCount(View(), 0);
      while workDone < ALERT_WORK_PER_TURN
        invariant CurrentOk(View())
        invariant DrainLoop(View(), workDone) == target && LoopCount(View(), workDone) == total
        decreases ALERT_WORK_PER_TURN - workDone
      {
        ghost var pass := LoopPass(View(), workDone);
        LoopStep(View(), workDone);
        if currentAlert == None {
          if pendingAlerts == [] {
            assert pass == Break(View(), workDone);
            break;
          }
          DequeueNext();
          workDone := workDone + 1;
          if currentAlert == None {
            continue;
          }
        }
        if |delayedCalls| >= MAX_PENDING_HANDLERS {
          assert pass == Break(View(), workDone);
          break;
        }
        DispatchNext();
        workDone := workDone + 1;
        assert pass == Continue(View(), workDone);
      }
      LoopStep(View(), workDone);
      assert View() == target;
      counted := workDone;
      if HasPendingAlertWork() && |delayedCalls| < MAX_PENDING_HANDLERS {
        ScheduleAlertDrain();
      }
    }

    method HandleAlerts(alerts: seq<Alert>)
      requires CurrentOk(View())
      modifies this
      ensures View() == Pop(old(View()), alerts)
      ensures popped == old(popped) +
        (if old(pendingAlerts != [] || currentAlert.Some? || alertDrainCall || delayedCalls != []) then []
         else if |alerts| <= 2000 then alerts
         else alerts[..2000])
    {
      if HasPendingAlertWork() || delayedCalls != [] {
        return;
      }
      if alerts == [] {
        return;
      }
      var batch := alerts;
      if |alerts| > MAX_PENDING_ALERTS {
        batch := alerts[..MAX_PENDING_ALERTS];
      }
      pendingAlerts := pendingAlerts + batch;
      popped := popped + batch;
      DrainLoopKeepsPopped(View().(drainScheduled := false), 0);
      var _ := DrainAlerts();
    }

    method OnHandlerFinished(call: CallId)
      modifies this
      ensures View() == Finish(old(View()), call)
      ensures FirstRemoved(old(delayedCalls), call, delayedCalls)
      ensures View() == old(View()).(delayedCalls := delayedCalls, drainScheduled := alertDrainCall)
      ensures alertDrainCall == (old(alertDrainCall)
        || (|delayedCalls| < 100 && (pendingAlerts != [] || currentAlert.Some?)))
    {
      WithoutRemovesFirst(delayedCalls, call);
      delayedCalls := Without(delayedCalls, call);
      if |delayedCalls| < MAX_PENDING_HANDLERS {
        ScheduleAlertDrain();
      }
    }

    method OnRegister(kind: Kind, handler: HandlerId)
      modifies `handlers
      ensures View() == Register(old(View()), kind, handler)
      ensures var what := StripSuffix(kind);
        && IsTypeFor(kind, what)
        && handlers == old(handlers)[what := (if what in old(handlers) then old(handlers)[what] else []) + [handler]]
    {
      StripSuffixIsType(kind);
      var k := StripSuffix(kind);
      handlers := handlers[k := (if k in handlers then handlers[k] else []) + [handler]];
    }

    method OnDeregister(handler: HandlerId)
      modifies `handlers
      ensures View() == Deregister(old(View()), handler)
      ensures handlers.Keys == old(handlers.Keys)
      ensures forall k :: k in handlers ==> FirstRemoved(old(handlers)[k], handler, handlers[k])
    {
      forall k | k in handlers
        ensures FirstRemoved(handlers[k], handler, Without(handlers[k], handler))
      {
        WithoutRemovesFirst(handlers[k], handler);
      }
      handlers := map k | k in handlers :: Without(handlers[k], handler);
    }

    method CancelDelayedCalls()
      modifies this
      ensures View() == Stop(old(View()))
      ensures pendingAlerts == [] && currentAlert.None? && !alertDrainCall && delayedCalls == []
      ensures handlers == old(handlers) && log == old(log)
    {
      alertDrainCall := false;
      pendingAlerts := [];
      ClearCurrentAlert();
      var calls := delayedCalls;
      delayedCalls := [];
      var i := 0;
      while i < |calls|
        invariant 0 <= i <= |calls|
        invariant View() == Stop(old(View()))
      {
        OnHandlerFinished(calls[i]);
        i := i + 1;
      }
    }
  }
}
