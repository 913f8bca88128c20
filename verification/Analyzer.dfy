/** The analyzer over many notifications: what it says in each, and when a fix is due. */
module Analyzer {
  import opened Prelude
  import opened Entities
  import opened AlertsStorage
  import opened AlertStream
  import opened StorageTrace
  import AnalyzerRound

  /** One polling result, with what the event storage answers and the alerts of the criteria in the
      order in which they reach the proxy. */
  datatype Notification = Notification(
    timestamp: int, error: Option<string>, nodesCount: nat, storageError: Option<string>, arrivals: seq<Alert>)
  {
    /** Whether the notification leads to a round of analysis. */
    predicate Analyzed() {
      nodesCount > 0 && storageError.None?
    }
  }

  function ErrorCauses(ts: int, error: Option<string>): seq<Cause> {
    match error
    case None => []
    case Some(text) => [Direct(NewAlert(ts, InternalErrorAlert(text)))]
  }

  ghost predicate ArePuts(ts: int, arrivals: seq<Alert>, es: seq<Cause>) {
    && |es| == |arrivals|
    && forall i :: 0 <= i < |es| ==>
         es[i].Stored? && es[i].ts == ts && es[i].step.Put? && es[i].step.alert == arrivals[i]
  }

  /** A round puts its arrivals one by one and then vacuums. */
  ghost predicate IsRound(ts: int, arrivals: seq<Alert>, round: seq<Cause>) {
    && |round| == |arrivals| + 1
    && ArePuts(ts, arrivals, round[..|arrivals|])
    && round[|arrivals|].Stored? && round[|arrivals|].ts == ts && round[|arrivals|].step.Vacuum?
  }

  /** What follows a notification's own error: a round, or the error that prevented it, or nothing
      when there are no nodes. */
  ghost predicate FollowsUp(n: Notification, now: int, rest: seq<Cause>) {
    if n.Analyzed() then IsRound(n.timestamp, n.arrivals, rest)
    else rest == if n.nodesCount == 0 then [] else ErrorCauses(now, n.storageError)
  }

  lemma Joined<T>(before: seq<T>, round: seq<T>, e: T)
    ensures (before + round) + [e] == before + (round + [e])
    ensures (round + [e])[..|round|] == round
  {
  }

  lemma Record(before: seq<Cause>, round: seq<Cause>, e: Cause)
    ensures (before + round) + [e] == before + (round + [e])
    ensures StreamOf(round + [e]) == StreamOf(round) + CauseMessages(e)
    ensures (round + [e])[..|round|] == round
  {
    Joined(before, round, e);
    Grows(round, e);
  }

  lemma OneMorePut(ts: int, arrivals: seq<Alert>, k: nat, round: seq<Cause>, e: Cause)
    requires k < |arrivals| && ArePuts(ts, arrivals[..k], round)
    requires e.Stored? && e.ts == ts && e.step.Put? && e.step.alert == arrivals[k]
    ensures ArePuts(ts, arrivals[..k + 1], round + [e])
  {
  }

  class Analyzer {
    const storage: AlertsStorage
    ghost var causes: seq<Cause>

    ghost predicate Valid()
      reads this, storage
    {
      storage.Valid() && HistoryOf(causes) == storage.history
    }

    constructor (storage: AlertsStorage)
      requires storage.Valid() && storage.history == []
      ensures Valid() && this.storage == storage && causes == []
    {
      this.storage := storage;
      causes := [];
    }

    method PutAndForward(ts: int, alert: Alert) returns (out: seq<Message>, ghost e: Cause)
      requires Valid()
      modifies this, storage
      ensures Valid() && causes == old(causes) + [e]
      ensures e.Stored? && e.ts == ts && e.step.Put? && e.step.alert == alert && out == CauseMessages(e)
    {
      var sendAlertNow := storage.PutAlert(alert);
      e := Stored(ts, Put(alert, sendAlertNow));
      Grows(causes, e);
      causes := causes + [e];
      out := if sendAlertNow then [Raised(alert)] else [];
    }

    method VacuumAndForward(ts: int) returns (out: seq<Message>, ghost e: Cause)
      requires Valid()
      modifies this, storage
      ensures Valid() && causes == old(causes) + [e]
      ensures e.Stored? && e.ts == ts && e.step.Vacuum? && out == CauseMessages(e)
    {
      var vacuumed := storage.Vacuum();
      e := Stored(ts, Vacuum(vacuumed));
      Grows(causes, e);
      causes := causes + [e];
      out := [];
      for k := 0 to |vacuumed|
        invariant |out| == k && forall i :: 0 <= i < k ==> out[i] == AlertFixed(ts, vacuumed[i])
      {
        out := out + [AlertFixed(ts, vacuumed[k])];
      }
    }

    /** The proxy's work: put each arriving alert, forward it if told to, and at the end vacuum and
        forward the fixes. */
    method Proxy(ts: int, arrivals: seq<Alert>) returns (out: seq<Message>, ghost round: seq<Cause>)
      requires Valid()
      modifies this, storage
      ensures Valid() && causes == old(causes) + round
      ensures IsRound(ts, arrivals, round) && out == StreamOf(round)
    {
      ghost var before := causes;
      out, round := [], [];
      for k := 0 to |arrivals|
        invariant Valid() && causes == before + round
        invariant ArePuts(ts, arrivals[..k], round) && out == StreamOf(round)
      {
        var said, e := PutAndForward(ts, arrivals[k]);
        Record(before, round, e);
        OneMorePut(ts, arrivals, k, round, e);
        out, round := out + said, round + [e];
      }
      assert arrivals[..|arrivals|] == arrivals;
      var said, e := VacuumAndForward(ts);
      Record(before, round, e);
      out, round := out + said, round + [e];
    }

    method SendError(ts: int, text: string) returns (out: seq<Message>)
      requires Valid()
      modifies this
      ensures Valid() && causes == old(causes) + ErrorCauses(ts, Some(text))
      ensures out == StreamOf(ErrorCauses(ts, Some(text)))
      ensures |out| == 1 && out[0].Raised? && out[0].alert.body == InternalErrorAlert(text)
              && out[0].alert.timestamp == ts && out[0].alert.alertType == InternalErrorAlertType
    {
      var ia := NewAlert(ts, InternalErrorAlert(text));
      Grows(causes, Direct(ia));
      Grows([], Direct(ia));
      assert [] + [Direct(ia)] == [Direct(ia)];
      causes := causes + [Direct(ia)];
      out := [Raised(ia)];
    }

    method ProcessNotification(n: Notification, now: int) returns (out: seq<Message>, ghost rest: seq<Cause>)
      requires Valid()
      modifies this, storage
      ensures Valid() && causes == old(causes) + ErrorCauses(n.timestamp, n.error) + rest
      ensures FollowsUp(n, now, rest)
      ensures out == StreamOf(ErrorCauses(n.timestamp, n.error)) + StreamOf(rest)
      ensures n.error.Some? ==>
                out != [] && out[0].Raised? && out[0].alert.body == InternalErrorAlert(n.error.value)
                && out[0].alert.timestamp == n.timestamp
      ensures n.nodesCount > 0 && n.storageError.None? ==> IsRound(n.timestamp, n.arrivals, rest)
      ensures n.nodesCount == 0 ==> |out| == if n.error.Some? then 1 else 0
      ensures n.nodesCount > 0 && n.storageError.Some? ==>
                var k := if n.error.Some? then 1 else 0;
                |out| == k + 1 && out[k].Raised? && out[k].alert.body == InternalErrorAlert(n.storageError.value)
                && out[k].alert.timestamp == now
    {
      out, rest := [], [];
      if n.error.Some? {
        out := SendError(n.timestamp, n.error.value);
      }
      var said := [];
      if n.nodesCount > 0 {
        if n.storageError.Some? {
          rest := ErrorCauses(now, n.storageError);
          said := SendError(now, n.storageError.value);
        } else {
          said, rest := Proxy(n.timestamp, n.arrivals);
        }
      }
      out := out + said;
    }
  }

  // ----- when a fix is due -----

  /** A round as the storage sees it: its puts, then its vacuum. */
  datatype Round = Round(puts: History, fixed: seq<Alert>) {
    predicate OnlyPuts() {
      forall i :: 0 <= i < |puts| ==> puts[i].Put?
    }

    predicate Raises(id: AlertID) {
      exists i :: 0 <= i < |puts| && puts[i].Raises(id)
    }
  }

  function Flatten(rounds: seq<Round>): History {
    if rounds == [] then []
    else
      var r := rounds[|rounds| - 1];
      Flatten(rounds[..|rounds| - 1]) + r.puts + [Vacuum(r.fixed)]
  }

  /** The last of the rounds that raises the ID. */
  function LastRaised(rounds: seq<Round>, id: AlertID): Option<nat> {
    if rounds == [] then None
    else if rounds[|rounds| - 1].Raises(id) then Some(|rounds| - 1)
    else LastRaised(rounds[..|rounds| - 1], id)
  }

  lemma {:induction false} AppendPuts(h: History, puts: History, id: AlertID)
    requires forall i :: 0 <= i < |puts| ==> puts[i].Put?
    ensures var raised := exists i :: 0 <= i < |puts| && puts[i].Raises(id);
            && (raised ==> LastPut(h + puts, id).Some? && VacuumsSince(h + puts, id) == 0)
            && (!raised ==> LastPut(h + puts, id) == LastPut(h, id) && VacuumsSince(h + puts, id) == VacuumsSince(h, id))
  {
    if puts == [] {
      assert h + puts == h;
    } else {
      var puts', s := puts[..|puts| - 1], puts[|puts| - 1];
      assert (h + puts)[..|h + puts| - 1] == h + puts';
      AppendPuts(h, puts', id);
      if i :| 0 <= i < |puts'| && puts'[i].Raises(id) {
        assert puts[i].Raises(id);
      }
    }
  }

  lemma {:induction false} VacuumsInRounds(rounds: seq<Round>, id: AlertID)
    requires forall i :: 0 <= i < |rounds| ==> rounds[i].OnlyPuts()
    ensures LastPut(Flatten(rounds), id).Some? <==> LastRaised(rounds, id).Some?
    ensures LastRaised(rounds, id).Some? ==>
              LastRaised(rounds, id).value < |rounds|
              && VacuumsSince(Flatten(rounds), id) == |rounds| - LastRaised(rounds, id).value
  {
    if rounds != [] {
      var rounds', r := rounds[..|rounds| - 1], rounds[|rounds| - 1];
      VacuumsInRounds(rounds', id);
      AppendPuts(Flatten(rounds'), r.puts, id);
      var h := Flatten(rounds);
      assert h[..|h| - 1] == Flatten(rounds') + r.puts;
    }
  }

  /** An alert is reported fixed at the end of round j exactly when it was last raised quota-1 rounds
      before and had been confirmed. */
  lemma FixedAfterQuotaRounds(c: Config, rounds: seq<Round>, id: AlertID)
    requires c.quota >= 2 && rounds != [] && (forall i :: 0 <= i < |rounds| ==> rounds[i].OnlyPuts())
    requires Consistent(c, Flatten(rounds)) && Keyed(Flatten(rounds))
    ensures var j, r := |rounds| - 1, LastRaised(rounds, id);
            var h := Flatten(rounds[..j]) + rounds[j].puts;
            Vacuum(rounds[j].fixed).Fixes(id) <==>
              && r.Some? && j == r.value + c.quota - 1
              && LastPut(h, id).Some? && PutsInLifetime(c, h, id) >= Needed(c, LastPut(h, id).value)
  {
    var j := |rounds| - 1;
    var h, v := Flatten(rounds[..j]) + rounds[j].puts, Vacuum(rounds[j].fixed);
    assert Flatten(rounds) == h + [v];
    VacuumsInRounds(rounds, id);
    assert (h + [v])[..|h|] == h;
    KeyedPrefix(h + [v]);
    FixedMeaning(c, h, rounds[j].fixed, id);
  }

  // ----- the same for the interleavings of each round -----

  /** Rounds run one after the other on one storage, each to the return of analyze; rounds[j] is what
      the j-th did to the storage. */
  ghost predicate RanInTurn(
      c: Config, xs: seq<AnalyzerRound.Input>, ends: seq<AnalyzerRound.State>, rounds: seq<Round>)
  {
    && |xs| == |ends| == |rounds|
    && forall j :: 0 <= j < |xs| ==> RanTo(c, xs[j], ends[j], Flatten(rounds[..j]), rounds[j])
  }

  ghost predicate RanTo(c: Config, x: AnalyzerRound.Input, end: AnalyzerRound.State, past: History, round: Round) {
    && x.config == c && x.past == past && AnalyzerRound.Outcome(x, end)
    && AnalyzerRound.Steps(end.log) == round.puts + [Vacuum(round.fixed)]
  }

  /** Whatever the interleaving, the log of a finished round is such a round. */
  lemma OutcomeIsRound(x: AnalyzerRound.Input, end: AnalyzerRound.State) returns (round: Round)
    requires AnalyzerRound.Outcome(x, end)
    ensures RanTo(x.config, x, end, x.past, round)
  {
    var n := |end.log| - 1;
    var steps := AnalyzerRound.Steps(end.log);
    round := Round(steps[..n], steps[n].fixed);
  }

  lemma RanToMeans(c: Config, x: AnalyzerRound.Input, end: AnalyzerRound.State, past: History, round: Round)
    requires RanTo(c, x, end, past, round)
    ensures round.OnlyPuts()
    ensures Consistent(c, past + round.puts + [Vacuum(round.fixed)])
    ensures forall m :: (m in end.out && m.AlertFixed?) <==> m in FixMessages(x.ts, round.fixed)
  {
    var n := |end.log| - 1;
    var steps := AnalyzerRound.Steps(end.log);
    assert |round.puts| == n;
    forall i | 0 <= i < n ensures round.puts[i].Put? {
      assert round.puts[i] == steps[i] == end.log[i].step && end.log[i] == end.log[..n][i];
    }
    assert steps[n] == end.log[n].step == Vacuum(round.fixed);
    assert past + round.puts + [Vacuum(round.fixed)] == past + steps;
    FixesOfStream(Messages(x.ts, AnalyzerRound.Steps(end.log[..n])), FixMessages(x.ts, round.fixed));
  }

  lemma FixesOfStream(raised: seq<Message>, fixes: seq<Message>)
    requires forall m :: m in raised ==> m.Raised?
    requires forall i :: 0 <= i < |fixes| ==> fixes[i].AlertFixed?
    ensures forall m :: (m in raised + fixes && m.AlertFixed?) <==> m in fixes
  {
  }

  /** In every interleaving of every round: at the end of round j a fix of the ID is delivered exactly
      when the ID was last raised quota-1 rounds before and had been confirmed. */
  lemma FixDeliveredAfterQuotaRounds(
      c: Config, xs: seq<AnalyzerRound.Input>, ends: seq<AnalyzerRound.State>, rounds: seq<Round>, id: AlertID)
    requires c.quota >= 2 && rounds != [] && RanInTurn(c, xs, ends, rounds) && Keyed(Flatten(rounds))
    ensures var j, r := |rounds| - 1, LastRaised(rounds, id);
            var h := Flatten(rounds[..j]) + rounds[j].puts;
            (exists m :: m in ends[j].out && m.AlertFixed? && m.ReferenceID() == id) <==>
              && r.Some? && j == r.value + c.quota - 1
              && LastPut(h, id).Some? && PutsInLifetime(c, h, id) >= Needed(c, LastPut(h, id).value)
  {
    var j := |rounds| - 1;
    forall i | 0 <= i < |rounds| ensures rounds[i].OnlyPuts() {
      RanToMeans(c, xs[i], ends[i], Flatten(rounds[..i]), rounds[i]);
    }
    RanToMeans(c, xs[j], ends[j], Flatten(rounds[..j]), rounds[j]);
    FixedAfterQuotaRounds(c, rounds, id);
    var fixed := rounds[j].fixed;
    FixesNameFixed(xs[j].ts, fixed, id);
    assert (exists m :: m in ends[j].out && m.AlertFixed? && m.ReferenceID() == id)
      <==> (exists m :: m in FixMessages(xs[j].ts, fixed) && m.ReferenceID() == id);
  }

  lemma FixesNameFixed(ts: int, fixed: seq<Alert>, id: AlertID)
    ensures (exists m :: m in FixMessages(ts, fixed) && m.ReferenceID() == id) <==> Vacuum(fixed).Fixes(id)
  {
    var ms := FixMessages(ts, fixed);
    forall i | 0 <= i < |fixed| ensures ms[i] in ms && ms[i].ReferenceID() == fixed[i].id {
    }
  }
}
