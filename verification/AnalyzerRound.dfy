/** One call of Analyzer.analyze: criterion routines, an unbuffered channel, one proxy that owns the
    storage, and the coordinator that waits, cancels and waits again. */
module AnalyzerRound {
  import opened Prelude
  import opened Entities
  import opened AlertsStorage

  /** The alerts a routine still has to put on the channel, its error alert included. */
  datatype Routine = Routine(todo: seq<Alert>, done: bool)

  datatype Coordinator =
    | Launching(next: nat)   // starting the goroutines one after the other
    | Waiting                // wg.Wait()
    | AwaitingProxy          // cancelled, <-proxyDone
    | Returned

  datatype Proxy =
    | NotStarted
    | Selecting
    | Forwarding(alert: Alert)        // blocked on the send of an alert
    | Resolving(fixes: seq<Alert>)    // vacuum done, fixes still to be sent
    | Finished

  /** A call of the storage and the routine it was made for; the vacuum is made for none. */
  datatype Entry = Entry(origin: nat, step: Step)

  datatype State = State(
    routines: seq<Routine>, coordinator: Coordinator, proxy: Proxy, log: seq<Entry>, out: seq<Message>)

  /** What a round starts from: the storage's past, what each routine will emit, the time stamp. */
  datatype Input = Input(config: Config, past: History, emissions: seq<seq<Alert>>, ts: int)

  function Steps(log: seq<Entry>): (h: History)
    ensures |h| == |log|
    ensures forall i :: 0 <= i < |log| ==> h[i] == log[i].step
  {
    Map(log, (e: Entry) => e.step)
  }

  /** The alerts put on behalf of routine i, in the order of the puts. */
  function EmittedBy(log: seq<Entry>, i: nat): seq<Alert> {
    if log == [] then []
    else
      var e := log[|log| - 1];
      EmittedBy(log[..|log| - 1], i) + if e.origin == i && e.step.Put? then [e.step.alert] else []
  }

  ghost predicate Init(x: Input, s: State) {
    && |s.routines| == |x.emissions|
    && (forall i :: 0 <= i < |s.routines| ==> s.routines[i] == Routine(x.emissions[i], false))
    && s.coordinator == Launching(0)
    && s.proxy == NotStarted
    && s.log == [] && s.out == []
  }

  datatype Action =
    | LaunchRoutine | StartProxy | AllDone | Return        // coordinator
    | Emit(i: nat, sent: bool) | Finish(i: nat)            // routine i; Emit is a rendezvous with the proxy
    | Deliver | Cancelled(fixed: seq<Alert>) | DeliverFix | ProxyExit  // proxy

  predicate Launched(s: State, i: nat) {
    i < |s.routines| && (s.coordinator.Launching? ==> i < s.coordinator.next)
  }

  ghost predicate Next(x: Input, s: State, a: Action, t: State) {
    match a
    case LaunchRoutine =>
      && s.coordinator.Launching? && s.coordinator.next < |s.routines|
      && t == s.(coordinator := Launching(s.coordinator.next + 1))
    case StartProxy =>
      && s.coordinator == Launching(|s.routines|)
      && t == s.(coordinator := Waiting, proxy := Selecting)
    case AllDone =>
      && s.coordinator.Waiting?
      && (forall i :: 0 <= i < |s.routines| ==> s.routines[i].done)
      && t == s.(coordinator := AwaitingProxy)
    case Return =>
      && s.coordinator.AwaitingProxy? && s.proxy.Finished?
      && t == s.(coordinator := Returned)
    case Emit(i, sent) =>
      && Launched(s, i) && s.routines[i].todo != [] && s.proxy.Selecting?
      && var alert := s.routines[i].todo[0];
         && AnswersRightly(x.config, StoreAfter(x.config, x.past + Steps(s.log)), Put(alert, sent))
         && t == s.(routines := s.routines[i := s.routines[i].(todo := s.routines[i].todo[1..])],
                    log := s.log + [Entry(i, Put(alert, sent))],
                    proxy := if sent then Forwarding(alert) else Selecting)
    case Finish(i) =>
      && Launched(s, i) && s.routines[i].todo == [] && !s.routines[i].done
      && t == s.(routines := s.routines[i := Routine([], true)])
    case Deliver =>
      && s.proxy.Forwarding?
      && t == s.(proxy := Selecting, out := s.out + [Raised(s.proxy.alert)])
    case Cancelled(fixed) =>
      && s.proxy.Selecting? && (s.coordinator.AwaitingProxy? || s.coordinator.Returned?)
      && AnswersRightly(x.config, StoreAfter(x.config, x.past + Steps(s.log)), Vacuum(fixed))
      && t == s.(proxy := Resolving(fixed), log := s.log + [Entry(|s.routines|, Vacuum(fixed))])
    case DeliverFix =>
      && s.proxy.Resolving? && s.proxy.fixes != []
      && t == s.(proxy := Resolving(s.proxy.fixes[1..]), out := s.out + [AlertFixed(x.ts, s.proxy.fixes[0])])
    case ProxyExit =>
      && s.proxy == Resolving([])
      && t == s.(proxy := Finished)
  }

  // ----- what every step keeps -----

  function Pending(x: Input, p: Proxy): seq<Message> {
    match p
    case Forwarding(a) => [Raised(a)]
    case Resolving(fixes) => FixMessages(x.ts, fixes)
    case _ => []
  }

  ghost predicate OnlyPuts(s: State, log: seq<Entry>) {
    forall i :: 0 <= i < |log| ==> log[i].step.Put? && log[i].origin < |s.routines|
  }

  ghost predicate PutsThenVacuum(s: State) {
    && s.log != []
    && OnlyPuts(s, s.log[..|s.log| - 1])
    && s.log[|s.log| - 1].step.Vacuum? && s.log[|s.log| - 1].origin == |s.routines|
  }

  ghost predicate Accounted(x: Input, s: State) {
    && |s.routines| == |x.emissions|
    && (forall i :: 0 <= i < |s.routines| ==> EmittedBy(s.log, i) + s.routines[i].todo == x.emissions[i])
    && (forall i :: 0 <= i < |s.routines| && s.routines[i].done ==> s.routines[i].todo == [])
  }

  ghost predicate Phases(s: State) {
    && (s.coordinator.Launching? <==> s.proxy.NotStarted?)
    && (s.coordinator.Launching? ==> s.coordinator.next <= |s.routines| && s.log == [])
    && (s.coordinator.AwaitingProxy? || s.coordinator.Returned? ==>
          forall i :: 0 <= i < |s.routines| ==> s.routines[i].done)
    && (s.proxy.Resolving? || s.proxy.Finished? ==> s.coordinator.AwaitingProxy? || s.coordinator.Returned?)
    && (s.coordinator.Returned? ==> s.proxy.Finished?)
    && (if s.proxy.Resolving? || s.proxy.Finished? then PutsThenVacuum(s) else OnlyPuts(s, s.log))
  }

  ghost predicate Faithful(x: Input, s: State) {
    && Consistent(x.config, x.past + Steps(s.log))
    && s.out + Pending(x, s.proxy) == Messages(x.ts, Steps(s.log))
  }

  ghost predicate Inv(x: Input, s: State) {
    Accounted(x, s) && Phases(s) && Faithful(x, s)
  }

  lemma InitInv(x: Input, s: State)
    requires Consistent(x.config, x.past) && Init(x, s)
    ensures Inv(x, s)
  {
    assert x.past + Steps(s.log) == x.past;
  }

  lemma LogGrows(x: Input, log: seq<Entry>, e: Entry)
    ensures Steps(log + [e]) == Steps(log) + [e.step]
    ensures Messages(x.ts, Steps(log + [e])) == Messages(x.ts, Steps(log)) + StepMessages(x.ts, e.step)
    ensures Consistent(x.config, x.past + Steps(log))
         && AnswersRightly(x.config, StoreAfter(x.config, x.past + Steps(log)), e.step)
        ==> Consistent(x.config, x.past + Steps(log + [e]))
    ensures forall i :: EmittedBy(log + [e], i)
                     == EmittedBy(log, i) + if e.origin == i && e.step.Put? then [e.step.alert] else []
  {
    assert Steps(log + [e]) == Steps(log) + [e.step];
    assert (Steps(log) + [e.step])[..|log|] == Steps(log);
    assert (log + [e])[..|log|] == log;
    assert x.past + Steps(log + [e]) == (x.past + Steps(log)) + [e.step];
    Extend(x.config, x.past + Steps(log), e.step);
  }

  lemma EmitAccounted(x: Input, s: State, a: Action, t: State)
    requires Accounted(x, s) && a.Emit? && Next(x, s, a, t)
    ensures Accounted(x, t)
  {
    var alert := s.routines[a.i].todo[0];
    var e := Entry(a.i, Put(alert, a.sent));
    assert t.log[..|s.log|] == s.log && t.log[|s.log|] == e;
    forall j | 0 <= j < |t.routines| ensures EmittedBy(t.log, j) + t.routines[j].todo == x.emissions[j] {
      if j == a.i {
        assert EmittedBy(t.log, j) == EmittedBy(s.log, j) + [alert];
        assert s.routines[j].todo == [alert] + t.routines[j].todo;
        assert EmittedBy(t.log, j) + t.routines[j].todo == EmittedBy(s.log, j) + s.routines[j].todo;
      } else {
        assert EmittedBy(t.log, j) == EmittedBy(s.log, j);
      }
    }
  }

  lemma EmitInv(x: Input, s: State, a: Action, t: State)
    requires Inv(x, s) && a.Emit? && Next(x, s, a, t)
    ensures Inv(x, t)
  {
    EmitAccounted(x, s, a, t);
    EmitPhases(x, s, a, t);
    EmitFaithful(x, s, a, t);
  }

  lemma EmitPhases(x: Input, s: State, a: Action, t: State)
    requires Phases(s) && a.Emit? && Next(x, s, a, t)
    ensures Phases(t)
  {
    var e := Entry(a.i, Put(s.routines[a.i].todo[0], a.sent));
    assert t.log == s.log + [e] && OnlyPuts(s, s.log);
  }

  /** A call of the storage whose messages become what the proxy has to send. */
  lemma CallFaithful(x: Input, s: State, e: Entry, t: State)
    requires Faithful(x, s) && Pending(x, s.proxy) == []
    requires AnswersRightly(x.config, StoreAfter(x.config, x.past + Steps(s.log)), e.step)
    requires t.log == s.log + [e] && t.out == s.out && Pending(x, t.proxy) == StepMessages(x.ts, e.step)
    ensures Faithful(x, t)
  {
    LogGrows(x, s.log, e);
    assert s.out + [] == s.out;
  }

  lemma EmitFaithful(x: Input, s: State, a: Action, t: State)
    requires Faithful(x, s) && a.Emit? && Next(x, s, a, t)
    ensures Faithful(x, t)
  {
    CallFaithful(x, s, Entry(a.i, Put(s.routines[a.i].todo[0], a.sent)), t);
  }

  lemma VacuumInv(x: Input, s: State, a: Action, t: State)
    requires Inv(x, s) && a.Cancelled? && Next(x, s, a, t)
    ensures Inv(x, t)
  {
    CallFaithful(x, s, Entry(|s.routines|, Vacuum(a.fixed)), t);
    VacuumAccounted(x, s, a, t);
    VacuumPhases(x, s, a, t);
  }

  lemma VacuumAccounted(x: Input, s: State, a: Action, t: State)
    requires Accounted(x, s) && a.Cancelled? && Next(x, s, a, t)
    ensures Accounted(x, t)
  {
    LogGrows(x, s.log, Entry(|s.routines|, Vacuum(a.fixed)));
    forall j | 0 <= j < |t.routines| ensures EmittedBy(t.log, j) + t.routines[j].todo == x.emissions[j] {
      assert EmittedBy(t.log, j) == EmittedBy(s.log, j);
    }
  }

  lemma VacuumPhases(x: Input, s: State, a: Action, t: State)
    requires Phases(s) && a.Cancelled? && Next(x, s, a, t)
    ensures Phases(t)
  {
    assert t.log[..|t.log| - 1] == s.log;
  }

  lemma MoveFirst(out: seq<Message>, ts: int, fixes: seq<Alert>)
    requires fixes != []
    ensures out + FixMessages(ts, fixes) == out + [AlertFixed(ts, fixes[0])] + FixMessages(ts, fixes[1..])
  {
    assert FixMessages(ts, fixes) == [AlertFixed(ts, fixes[0])] + FixMessages(ts, fixes[1..]);
  }

  /** Moving a message from the proxy to the consumer. */
  lemma MoveFaithful(x: Input, s: State, t: State)
    requires Faithful(x, s) && t.log == s.log && t.out + Pending(x, t.proxy) == s.out + Pending(x, s.proxy)
    ensures Faithful(x, t)
  {
  }

  lemma DeliveryMoves(x: Input, s: State, a: Action, t: State)
    requires (a.Deliver? || a.DeliverFix? || a.ProxyExit?) && Next(x, s, a, t)
    ensures t.log == s.log && t.out + Pending(x, t.proxy) == s.out + Pending(x, s.proxy)
  {
    match a
    case Deliver => assert t.out + [] == t.out;
    case DeliverFix => MoveFirst(s.out, x.ts, s.proxy.fixes);
    case ProxyExit => assert FixMessages(x.ts, []) == [];
  }

  /** Every other step leaves the log alone. */
  lemma QuietStepKeeps(x: Input, s: State, a: Action, t: State)
    requires Accounted(x, s) && Phases(s) && !a.Emit? && !a.Cancelled? && Next(x, s, a, t)
    ensures Accounted(x, t) && Phases(t)
  {
  }

  lemma NextInv(x: Input, s: State, a: Action, t: State)
    requires Inv(x, s) && Next(x, s, a, t)
    ensures Inv(x, t)
  {
    match a
    case Emit(_, _) => EmitInv(x, s, a, t);
    case Cancelled(_) => VacuumInv(x, s, a, t);
    case _ =>
      QuietStepKeeps(x, s, a, t);
      if a.Deliver? || a.DeliverFix? || a.ProxyExit? {
        DeliveryMoves(x, s, a, t);
        MoveFaithful(x, s, t);
      }
  }

  // ----- every interleaving -----

  /** The outcome of a finished round: each routine's alerts were put exactly once and in its order,
      one vacuum followed the last put, the storage answered consistently, and the consumer got
      every alert to be sent and then a fix for every alert reported. */
  ghost predicate Outcome(x: Input, s: State) {
    && PutsThenVacuum(s)
    && (forall i :: 0 <= i < |x.emissions| ==> EmittedBy(s.log, i) == x.emissions[i])
    && |s.routines| == |x.emissions|
    && Consistent(x.config, x.past + Steps(s.log))
    && s.out == Messages(x.ts, Steps(s.log[..|s.log| - 1])) + FixMessages(x.ts, s.log[|s.log| - 1].step.fixed)
    && (forall m :: m in Messages(x.ts, Steps(s.log[..|s.log| - 1])) ==> m.Raised?)
  }

  ghost predicate IsRun(x: Input, run: seq<State>, actions: seq<Action>) {
    && |run| == |actions| + 1
    && Init(x, run[0])
    && forall i :: 0 <= i < |actions| ==> Next(x, run[i], actions[i], run[i + 1])
  }

  lemma {:induction false} RunInv(x: Input, run: seq<State>, actions: seq<Action>, k: nat)
    requires Consistent(x.config, x.past) && IsRun(x, run, actions) && k < |run|
    ensures Inv(x, run[k])
  {
    if k == 0 {
      InitInv(x, run[0]);
    } else {
      RunInv(x, run, actions, k - 1);
      NextInv(x, run[k - 1], actions[k - 1], run[k]);
    }
  }

  lemma {:induction false} PutsSayRaised(ts: int, h: History)
    requires forall i :: 0 <= i < |h| ==> h[i].Put?
    ensures forall m :: m in Messages(ts, h) ==> m.Raised?
  {
    if h != [] {
      PutsSayRaised(ts, h[..|h| - 1]);
    }
  }

  /** The log of a vacuumed round says alerts first and fixes after them. */
  lemma MessagesSplit(x: Input, s: State)
    requires PutsThenVacuum(s)
    ensures var raised := Messages(x.ts, Steps(s.log[..|s.log| - 1]));
            && Messages(x.ts, Steps(s.log)) == raised + FixMessages(x.ts, s.log[|s.log| - 1].step.fixed)
            && forall m :: m in raised ==> m.Raised?
  {
    var log', e := s.log[..|s.log| - 1], s.log[|s.log| - 1];
    assert s.log == log' + [e];
    LogGrows(x, log', e);
    PutsSayRaised(x.ts, Steps(log'));
  }

  /** In every interleaving, once analyze has returned the round has its outcome. */
  lemma ReturnedMeansOutcome(x: Input, run: seq<State>, actions: seq<Action>, k: nat)
    requires Consistent(x.config, x.past) && IsRun(x, run, actions) && k < |run|
    requires run[k].coordinator.Returned?
    ensures Outcome(x, run[k])
  {
    RunInv(x, run, actions, k);
    var s := run[k];
    MessagesSplit(x, s);
    assert s.out == s.out + Pending(x, s.proxy);
    forall i | 0 <= i < |x.emissions| ensures EmittedBy(s.log, i) == x.emissions[i] {
      assert EmittedBy(s.log, i) + [] == EmittedBy(s.log, i);
    }
  }

  lemma FixesEndTheStream(ts: int, raised: seq<Message>, fixed: seq<Alert>, all: seq<Message>, i: nat)
    requires all == raised + FixMessages(ts, fixed) && forall m :: m in raised ==> m.Raised?
    requires i < |all| && all[i].AlertFixed?
    ensures forall j :: i <= j < |all| ==> all[j].AlertFixed?
  {
    forall j | 0 <= j < |raised| ensures all[j].Raised? {
      assert all[j] == raised[j] && raised[j] in raised;
    }
    forall j | i <= j < |all| ensures all[j].AlertFixed? {
      assert all[j] == FixMessages(ts, fixed)[j - |raised|];
    }
  }

  /** In every interleaving and at every moment: nothing is delivered after a fix but fixes, and no
      fix before every routine is done. */
  lemma FixesComeLast(x: Input, run: seq<State>, actions: seq<Action>, k: nat, i: nat)
    requires Consistent(x.config, x.past) && IsRun(x, run, actions) && k < |run|
    requires i < |run[k].out| && run[k].out[i].AlertFixed?
    ensures forall j :: i <= j < |run[k].out| ==> run[k].out[j].AlertFixed?
    ensures forall j :: 0 <= j < |run[k].routines| ==> run[k].routines[j].done && run[k].routines[j].todo == []
  {
    RunInv(x, run, actions, k);
    var s := run[k];
    var all := Messages(x.ts, Steps(s.log));
    assert s.out + Pending(x, s.proxy) == all;
    assert all[i] in all && all[i].AlertFixed?;
    if OnlyPuts(s, s.log) {
      PutsSayRaised(x.ts, Steps(s.log));
    }
    MessagesSplit(x, s);
    FixesEndTheStream(x.ts, Messages(x.ts, Steps(s.log[..|s.log| - 1])), s.log[|s.log| - 1].step.fixed, all, i);
    assert forall j :: i <= j < |s.out| ==> s.out[j] == all[j];
  }

  // ----- every round ends -----

  function Weight(r: Routine): nat {
    2 * |r.todo| + if r.done then 0 else 1
  }

  function CoordinatorWeight(s: State): nat {
    match s.coordinator
    case Launching(k) => Max(0, |s.routines| - k) + 3
    case Waiting => 2
    case AwaitingProxy => 1
    case Returned => 0
  }

  function ProxyWeight(p: Proxy): nat {
    match p
    case NotStarted => 2
    case Selecting => 2
    case Forwarding(_) => 3
    case Resolving(_) => 1
    case Finished => 0
  }

  function Rank(s: State): nat {
    Sum(s.routines, Weight) + CoordinatorWeight(s) + ProxyWeight(s.proxy)
  }

  function FixesLeft(s: State): nat {
    if s.proxy.Resolving? then |s.proxy.fixes| else 0
  }

  lemma NextDecreases(x: Input, s: State, a: Action, t: State)
    requires Phases(s) && Next(x, s, a, t)
    ensures Rank(t) < Rank(s) || (Rank(t) == Rank(s) && FixesLeft(t) < FixesLeft(s))
  {
    match a
    case Emit(i, _) =>
      SumUpdate(s.routines, Weight, i, t.routines[i]);
      assert |t.routines[i].todo| == |s.routines[i].todo| - 1;
    case Finish(i) =>
      SumUpdate(s.routines, Weight, i, t.routines[i]);
    case LaunchRoutine => assert t.coordinator == Launching(s.coordinator.next + 1);
    case DeliverFix => assert |t.proxy.fixes| == |s.proxy.fixes| - 1;
    case _ =>
  }

  /** While the consumer receives, some step is possible until analyze has returned. */
  lemma NeverStuck(x: Input, s: State)
    requires Inv(x, s) && !s.coordinator.Returned?
    ensures exists a, t :: Next(x, s, a, t)
  {
    if s.coordinator.Launching? {
      if s.coordinator.next < |s.routines| {
        assert Next(x, s, LaunchRoutine, s.(coordinator := Launching(s.coordinator.next + 1)));
      } else {
        assert Next(x, s, StartProxy, s.(coordinator := Waiting, proxy := Selecting));
      }
    } else if !s.proxy.Selecting? {
      BusyProxyMoves(x, s);
    } else if s.coordinator.AwaitingProxy? {
      var fixed := SomeReport(x.config, x.past + Steps(s.log));
      assert Next(x, s, Cancelled(fixed),
                  s.(proxy := Resolving(fixed), log := s.log + [Entry(|s.routines|, Vacuum(fixed))]));
    } else if i :| 0 <= i < |s.routines| && !s.routines[i].done {
      RoutineMoves(x, s, i);
    } else {
      assert Next(x, s, AllDone, s.(coordinator := AwaitingProxy));
    }
  }

  lemma BusyProxyMoves(x: Input, s: State)
    requires Phases(s) && !s.coordinator.Launching? && !s.coordinator.Returned? && !s.proxy.Selecting?
    ensures exists a, t :: Next(x, s, a, t)
  {
    match s.proxy
    case Forwarding(alert) =>
      assert Next(x, s, Deliver, s.(proxy := Selecting, out := s.out + [Raised(alert)]));
    case Resolving(fixes) =>
      if fixes == [] {
        assert Next(x, s, ProxyExit, s.(proxy := Finished));
      } else {
        assert Next(x, s, DeliverFix, s.(proxy := Resolving(fixes[1..]), out := s.out + [AlertFixed(x.ts, fixes[0])]));
      }
    case Finished =>
      assert Next(x, s, Return, s.(coordinator := Returned));
    case _ =>
  }

  lemma RoutineMoves(x: Input, s: State, i: nat)
    requires i < |s.routines| && !s.routines[i].done && s.coordinator.Waiting? && s.proxy.Selecting?
    ensures exists a, t :: Next(x, s, a, t)
  {
    if s.routines[i].todo == [] {
      assert Next(x, s, Finish(i), s.(routines := s.routines[i := Routine([], true)]));
    } else {
      var alert := s.routines[i].todo[0];
      var sent := PutAnswer(x.config, StoreAfter(x.config, x.past + Steps(s.log)), alert);
      assert Next(x, s, Emit(i, sent),
                  s.(routines := s.routines[i := s.routines[i].(todo := s.routines[i].todo[1..])],
                     log := s.log + [Entry(i, Put(alert, sent))],
                     proxy := if sent then Forwarding(alert) else Selecting));
    }
  }

  /** A step, or a pause where no step is possible. */
  ghost predicate KeepsGoing(x: Input, s: State, t: State) {
    (exists a :: Next(x, s, a, t)) || (t == s && !exists a, u :: Next(x, s, a, u))
  }

  lemma Snoc(x: Input, states: seq<State>, acts: seq<Action>, a: Action, t: State)
    requires IsRun(x, states, acts) && Next(x, states[|acts|], a, t)
    ensures IsRun(x, states + [t], acts + [a])
  {
    var states', acts' := states + [t], acts + [a];
    forall i | 0 <= i < |acts'| ensures Next(x, states'[i], acts'[i], states'[i + 1]) {
      if i < |acts| {
        assert states'[i] == states[i] && states'[i + 1] == states[i + 1] && acts'[i] == acts[i];
      }
    }
  }

  /** Every execution that keeps taking steps while it can gets to the return of analyze. */
  lemma EveryRoundEnds(x: Input, run: nat -> State)
    requires Consistent(x.config, x.past) && Init(x, run(0))
    requires forall k: nat :: KeepsGoing(x, run(k), run(k + 1))
    ensures exists k: nat :: run(k).coordinator.Returned? && Outcome(x, run(k))
  {
    InitInv(x, run(0));
    var k, acts, states := ReachReturn(x, run, 0, [], [run(0)]);
    ReturnedMeansOutcome(x, states, acts, k);
    assert run(k).coordinator.Returned? && Outcome(x, run(k));
  }

  lemma {:induction false} ReachReturn(
      x: Input, run: nat -> State, k: nat, acts: seq<Action>, states: seq<State>)
    returns (n: nat, acts': seq<Action>, states': seq<State>)
    requires Inv(x, run(k)) && IsRun(x, states, acts) && |acts| == k && states[k] == run(k)
    requires forall k: nat :: KeepsGoing(x, run(k), run(k + 1))
    ensures run(n).coordinator.Returned? && IsRun(x, states', acts') && |acts'| == n && states'[n] == run(n)
    decreases Rank(run(k)), FixesLeft(run(k))
  {
    if run(k).coordinator.Returned? {
      return k, acts, states;
    }
    NeverStuck(x, run(k));
    assert KeepsGoing(x, run(k), run(k + 1));
    var a :| Next(x, run(k), a, run(k + 1));
    NextInv(x, run(k), a, run(k + 1));
    NextDecreases(x, run(k), a, run(k + 1));
    Snoc(x, states, acts, a, run(k + 1));
    n, acts', states' := ReachReturn(x, run, k + 1, acts + [a], states + [run(k + 1)]);
  }
}
