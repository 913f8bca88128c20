/** FanInSeqCtx: one forwarding goroutine per input channel, one output channel, a wait group whose
    last member lets the output be closed. The channel elements are messages. */
module FanIn {
  import opened Prelude
  import opened Entities

  datatype Forwarder = Receiving | Holding(value: Message) | Stopped(dropped: seq<Message>)

  /** An input channel with what its owner will still send, and the goroutine that serves it. */
  datatype Input = Input(todo: seq<Message>, closed: bool, forwarder: Forwarder)

  datatype Taken = Taken(origin: nat, value: Message)

  datatype State = State(inputs: seq<Input>, started: nat, cancelled: bool, out: seq<Taken>, outClosed: bool)

  datatype Action =
    | Launch | Receive(i: nat) | SeeClosed(i: nat) | Send(i: nat) | Stop(i: nat) | CloseOut  // fan-in
    | CloseInput(i: nat) | Cancel                                                           // environment

  ghost predicate Init(values: seq<seq<Message>>, s: State) {
    && |s.inputs| == |values|
    && (forall i :: 0 <= i < |values| ==> s.inputs[i] == Input(values[i], false, Receiving))
    && s.started == 0 && !s.cancelled && s.out == [] && !s.outClosed
  }

  predicate Running(s: State, i: nat) {
    i < s.started && i < |s.inputs| && !s.inputs[i].forwarder.Stopped?
  }

  /** What a goroutine that has been told to stop still holds is lost. */
  function InHand(f: Forwarder): seq<Message> {
    match f
    case Receiving => []
    case Holding(v) => [v]
    case Stopped(dropped) => dropped
  }

  function Update(s: State, i: nat, x: Input): State
    requires i < |s.inputs|
  {
    s.(inputs := s.inputs[i := x])
  }

  ghost predicate Next(s: State, a: Action, t: State) {
    match a
    case Launch =>
      s.started < |s.inputs| && t == s.(started := s.started + 1)
    case Receive(i) =>
      && Running(s, i) && s.inputs[i].forwarder.Receiving? && s.inputs[i].todo != []
      && t == Update(s, i, s.inputs[i].(todo := s.inputs[i].todo[1..], forwarder := Holding(s.inputs[i].todo[0])))
    case SeeClosed(i) =>
      && Running(s, i) && s.inputs[i].forwarder.Receiving? && s.inputs[i].closed && s.inputs[i].todo == []
      && t == Update(s, i, s.inputs[i].(forwarder := Stopped([])))
    case Send(i) =>
      && Running(s, i) && s.inputs[i].forwarder.Holding?
      && t == Update(s, i, s.inputs[i].(forwarder := Receiving)).(
                out := s.out + [Taken(i, s.inputs[i].forwarder.value)])
    case Stop(i) =>
      && Running(s, i) && s.cancelled
      && t == Update(s, i, s.inputs[i].(forwarder := Stopped(InHand(s.inputs[i].forwarder))))
    case CloseOut =>
      && s.started == |s.inputs| && !s.outClosed
      && (forall i :: 0 <= i < |s.inputs| ==> s.inputs[i].forwarder.Stopped?)
      && t == s.(outClosed := true)
    case CloseInput(i) =>
      && i < |s.inputs| && s.inputs[i].todo == [] && !s.inputs[i].closed
      && t == Update(s, i, s.inputs[i].(closed := true))
    case Cancel =>
      !s.cancelled && t == s.(cancelled := true)
  }

  // ----- what every step keeps -----

  /** The values delivered from input i, in the order of delivery. */
  function DeliveredFrom(out: seq<Taken>, i: nat): seq<Message> {
    if out == [] then []
    else
      var x := out[|out| - 1];
      DeliveredFrom(out[..|out| - 1], i) + if x.origin == i then [x.value] else []
  }

  ghost predicate Conserved(values: seq<seq<Message>>, s: State, i: nat)
    requires i < |s.inputs| && i < |values|
  {
    DeliveredFrom(s.out, i) + InHand(s.inputs[i].forwarder) + s.inputs[i].todo == values[i]
  }

  ghost predicate Inv(values: seq<seq<Message>>, s: State) {
    && |s.inputs| == |values| && s.started <= |s.inputs|
    && (forall i :: 0 <= i < |values| ==> Conserved(values, s, i))
    && (forall i :: 0 <= i < |values| && s.inputs[i].closed ==> s.inputs[i].todo == [])
    && (forall i :: 0 <= i < |values| && s.inputs[i].forwarder.Stopped? ==>
          |s.inputs[i].forwarder.dropped| <= 1
          && (s.cancelled || (s.inputs[i].closed && s.inputs[i].forwarder.dropped == [])))
    && (forall i :: s.started <= i < |values| ==> s.inputs[i].forwarder.Receiving?)
    && (s.outClosed ==> forall i :: 0 <= i < |values| ==> s.inputs[i].forwarder.Stopped?)
  }

  lemma ConservedStep(values: seq<seq<Message>>, s: State, a: Action, t: State, i: nat)
    requires Inv(values, s) && Next(s, a, t) && i < |values|
    ensures Conserved(values, t, i)
  {
    assert Conserved(values, s, i);
    var x, y := s.inputs[i], t.inputs[i];
    if a.Send? {
      assert t.out[..|s.out|] == s.out;
      if a.i == i {
        assert DeliveredFrom(t.out, i) == DeliveredFrom(s.out, i) + [x.forwarder.value];
        assert DeliveredFrom(t.out, i) + [] + y.todo == DeliveredFrom(s.out, i) + [x.forwarder.value] + x.todo;
      } else {
        assert DeliveredFrom(t.out, i) == DeliveredFrom(s.out, i);
      }
    } else if a.Receive? && a.i == i {
      assert x.todo == [x.todo[0]] + y.todo;
      assert DeliveredFrom(s.out, i) + [] + x.todo == DeliveredFrom(s.out, i) + [x.todo[0]] + y.todo;
    }
  }

  lemma NextInv(values: seq<seq<Message>>, s: State, a: Action, t: State)
    requires Inv(values, s) && Next(s, a, t)
    ensures Inv(values, t)
  {
    forall i | 0 <= i < |values| ensures Conserved(values, t, i) {
      ConservedStep(values, s, a, t, i);
    }
  }

  ghost predicate IsRun(values: seq<seq<Message>>, run: seq<State>, actions: seq<Action>) {
    && |run| == |actions| + 1
    && Init(values, run[0])
    && forall i :: 0 <= i < |actions| ==> Next(run[i], actions[i], run[i + 1])
  }

  lemma {:induction false} RunInv(values: seq<seq<Message>>, run: seq<State>, actions: seq<Action>, k: nat)
    requires IsRun(values, run, actions) && k < |run|
    ensures Inv(values, run[k])
  {
    if k > 0 {
      RunInv(values, run, actions, k - 1);
      NextInv(values, run[k - 1], actions[k - 1], run[k]);
    }
  }

  // ----- every interleaving -----

  /** At every moment what came from an input is a prefix of it, and at most the one value in the
      hands of its goroutine separates the delivered ones from those not yet received. */
  lemma PerInputOrder(values: seq<seq<Message>>, run: seq<State>, actions: seq<Action>, k: nat, i: nat)
    requires IsRun(values, run, actions) && k < |run| && i < |values|
    ensures |run[k].inputs| == |values|
    ensures var d := DeliveredFrom(run[k].out, i);
            && d <= values[i]
            && |values[i]| - 1 <= |d| + |run[k].inputs[i].todo|
  {
    RunInv(values, run, actions, k);
    assert Conserved(values, run[k], i);
  }

  ghost predicate AllDelivered(values: seq<seq<Message>>, s: State) {
    && |s.inputs| == |values|
    && forall i :: 0 <= i < |values| ==> s.inputs[i].closed && DeliveredFrom(s.out, i) == values[i]
  }

  lemma ClosedMeansAllDelivered(values: seq<seq<Message>>, s: State)
    requires Inv(values, s) && s.outClosed && !s.cancelled
    ensures AllDelivered(values, s)
  {
    forall i | 0 <= i < |values| ensures s.inputs[i].closed && DeliveredFrom(s.out, i) == values[i] {
      assert Conserved(values, s, i);
      assert s.inputs[i].forwarder == Stopped([]) && s.inputs[i].todo == [];
    }
  }

  /** In every interleaving, an uncancelled fan-in whose output is closed has seen every input closed
      and delivered every value exactly once and in its input's order. */
  lemma OutputClosesLast(values: seq<seq<Message>>, run: seq<State>, actions: seq<Action>, k: nat)
    requires IsRun(values, run, actions) && k < |run|
    requires run[k].outClosed && !run[k].cancelled
    ensures AllDelivered(values, run[k])
  {
    RunInv(values, run, actions, k);
    ClosedMeansAllDelivered(values, run[k]);
  }

  /** Nothing is delivered once the output is closed, cancelled or not. */
  lemma NothingAfterClose(values: seq<seq<Message>>, run: seq<State>, actions: seq<Action>, k: nat)
    requires IsRun(values, run, actions) && k < |actions| && run[k].outClosed
    ensures run[k + 1].out == run[k].out && run[k + 1].outClosed
  {
    RunInv(values, run, actions, k);
    assert Next(run[k], actions[k], run[k + 1]);
  }

  // ----- every fan-in ends -----

  function Weight(x: Input): nat {
    2 * |x.todo| + (if x.closed then 0 else 1)
    + match x.forwarder
      case Receiving => 1
      case Holding(_) => 2
      case Stopped(_) => 0
  }

  function Rank(s: State): nat {
    Sum(s.inputs, Weight) + Max(0, |s.inputs| - s.started)
    + (if s.cancelled then 0 else 1) + if s.outClosed then 0 else 1
  }

  predicate OnInput(a: Action) {
    !a.Launch? && !a.CloseOut? && !a.Cancel?
  }

  lemma InputGetsLighter(s: State, a: Action, t: State)
    requires OnInput(a) && Next(s, a, t)
    ensures a.i < |s.inputs| == |t.inputs| && t.inputs == s.inputs[a.i := t.inputs[a.i]]
    ensures Weight(t.inputs[a.i]) < Weight(s.inputs[a.i])
    ensures t.started == s.started && t.cancelled == s.cancelled && t.outClosed == s.outClosed
  {
  }

  lemma NextDecreases(s: State, a: Action, t: State)
    requires Next(s, a, t)
    ensures Rank(t) < Rank(s)
  {
    if OnInput(a) {
      InputGetsLighter(s, a, t);
      SumUpdate(s.inputs, Weight, a.i, t.inputs[a.i]);
    }
  }

  /** As long as the owners close their channels and the consumer receives, some step other than
      cancelling is possible until the output is closed. */
  lemma NeverStuck(values: seq<seq<Message>>, s: State)
    requires Inv(values, s) && !s.outClosed
    ensures exists a: Action, t :: !a.Cancel? && Next(s, a, t)
  {
    if s.started < |s.inputs| {
      assert Next(s, Launch, s.(started := s.started + 1));
    } else if i :| 0 <= i < |s.inputs| && !s.inputs[i].forwarder.Stopped? {
      var x := s.inputs[i];
      if x.forwarder.Holding? {
        assert Next(s, Send(i), Update(s, i, x.(forwarder := Receiving)).(out := s.out + [Taken(i, x.forwarder.value)]));
      } else if x.todo != [] {
        assert Next(s, Receive(i), Update(s, i, x.(todo := x.todo[1..], forwarder := Holding(x.todo[0]))));
      } else if x.closed {
        assert Next(s, SeeClosed(i), Update(s, i, x.(forwarder := Stopped([]))));
      } else {
        assert Next(s, CloseInput(i), Update(s, i, x.(closed := true)));
      }
    } else {
      assert Next(s, CloseOut, s.(outClosed := true));
    }
  }

  ghost predicate KeepsGoing(s: State, t: State) {
    (exists a: Action :: !a.Cancel? && Next(s, a, t)) || (t == s && !exists a: Action, u :: !a.Cancel? && Next(s, a, u))
  }

  lemma StepTowardsClose(values: seq<seq<Message>>, s: State, t: State)
    requires Inv(values, s) && !s.cancelled && !s.outClosed && KeepsGoing(s, t)
    ensures Inv(values, t) && !t.cancelled && Rank(t) < Rank(s)
  {
    NeverStuck(values, s);
    var a: Action :| !a.Cancel? && Next(s, a, t);
    NextInv(values, s, a, t);
    NextDecreases(s, a, t);
  }

  lemma {:induction false} ReachClose(values: seq<seq<Message>>, run: nat -> State, k: nat) returns (n: nat)
    requires Inv(values, run(k)) && !run(k).cancelled
    requires forall j: nat :: KeepsGoing(run(j), run(j + 1))
    ensures run(n).outClosed && AllDelivered(values, run(n))
    decreases Rank(run(k))
  {
    if run(k).outClosed {
      ClosedMeansAllDelivered(values, run(k));
      return k;
    }
    assert KeepsGoing(run(k), run(k + 1));
    StepTowardsClose(values, run(k), run(k + 1));
    n := ReachClose(values, run, k + 1);
  }

  /** Every uncancelled execution that keeps taking steps while it can delivers everything and closes
      its output. */
  lemma EveryFanInEnds(values: seq<seq<Message>>, run: nat -> State)
    requires Init(values, run(0))
    requires forall j: nat :: KeepsGoing(run(j), run(j + 1))
    ensures exists n: nat :: run(n).outClosed && AllDelivered(values, run(n))
  {
    var n := ReachClose(values, run, 0);
  }
}
