/** What the L2 loop sends on: failed height requests and stuck alerts. */
module L2Sends {
  import opened Prelude
  import opened Strings
  import opened Entities
  import opened StuckIDs
  import opened AlertsStorage
  import opened StorageTrace
  import opened L2Analyzer

  // ----- counting failures off the events -----

  predicate FailsWith(e: LoopEvent, error: string) {
    e.Failed? && e.error == error
  }

  predicate HasFailed(es: seq<LoopEvent>, error: string) {
    exists i :: 0 <= i < |es| && FailsWith(es[i], error)
  }

  /** Turns since the last failure with this text that were not failures themselves. */
  function QuietTurns(es: seq<LoopEvent>, error: string): nat {
    if es == [] || FailsWith(es[|es| - 1], error) then 0
    else QuietTurns(es[..|es| - 1], error) + if es[|es| - 1].Failed? then 0 else 1
  }

  /** Failures with this text, counted anew after eight quiet turns. */
  function Failures(es: seq<LoopEvent>, error: string): nat {
    if es == [] then 0
    else
      var es' := es[..|es| - 1];
      if FailsWith(es[|es| - 1], error) then
        (if HasFailed(es', error) && QuietTurns(es', error) < 8 then Failures(es', error) else 0) + 1
      else Failures(es', error)
  }

  // ----- the storage counts the same -----

  function ErrorID(node: string, error: string): AlertID {
    ErrorAlert(node, 0, error).id
  }

  lemma ErrorIDTellsError(node: string, at: int, error: string, other: string)
    ensures ErrorAlert(node, at, error).id == ErrorID(node, other) <==> error == other
  {
    var name, start := Name(SimpleAlertType), "Failed to update height for L2 node " + Quote(node) + ": ";
    SameAfterPrefix(name, start + error, start + other);
    SameAfterPrefix(start, error, other);
  }

  lemma StuckIsNoError(node: string, at: int, height: uint64, error: string)
    ensures StuckAlert(node, at, height).id != ErrorID(node, error)
  {
    if StuckAlert(node, at, height).id == ErrorID(node, error) {
      IDDeterminesType(StuckAlert(node, at, height), ErrorAlert(node, 0, error));
    }
  }

  /** What the calls of a turn have to do with failures. */
  ghost predicate CallsOf(e: LoopEvent, block: History, id: AlertID, error: string) {
    && 1 <= |block| <= 2 && (|block| == 2 ==> block[1].Vacuum?)
    && (block[0].Raises(id) <==> FailsWith(e, error))
    && (if e.Failed? then |block| == 1 && block[0].Put?
        else block[|block| - 1].Vacuum? && (|block| == 2 ==> block[0].Put?))
  }

  lemma TurnCalls(node: string, last: uint64, e: LoopEvent, block: History, error: string)
    requires Turn(node, last, e, block)
    ensures CallsOf(e, block, ErrorID(node, error), error)
  {
    PutIDs(node, last, e, error);
  }

  lemma PutIDs(node: string, last: uint64, e: LoopEvent, error: string)
    ensures e.Failed? ==> (ErrorAlert(node, e.at, e.error).id == ErrorID(node, error) <==> FailsWith(e, error))
    ensures e.TimerFired? ==> StuckAlert(node, e.at, last).id != ErrorID(node, error)
  {
    if e.Failed? {
      ErrorIDTellsError(node, e.at, e.error, error);
    } else if e.TimerFired? {
      StuckIsNoError(node, e.at, last, error);
    }
  }

  /** The storage's calls h count failures as the events es do. */
  ghost predicate CountsFailures(h: History, id: AlertID, es: seq<LoopEvent>, error: string) {
    && (LastPut(h, id).Some? <==> HasFailed(es, error))
    && (HasFailed(es, error) ==> VacuumsSince(h, id) == QuietTurns(es, error))
    && PutsInLifetime(L2_CONFIG, h, id) == Failures(es, error)
  }

  lemma OneMoreTurn(past: History, block: History, id: AlertID, es: seq<LoopEvent>, error: string)
    requires es != [] && CountsFailures(past, id, es[..|es| - 1], error)
    requires CallsOf(es[|es| - 1], block, id, error)
    ensures CountsFailures(past + block, id, es, error)
  {
    QuotaIsEight();
    AfterBlock(past, block, id);
    PutsAfterBlock(past, block, id);
    var es' := es[..|es| - 1];
    assert HasFailed(es, error) <==> HasFailed(es', error) || FailsWith(es[|es| - 1], error) by {
      if i :| 0 <= i < |es'| && FailsWith(es'[i], error) {
        assert FailsWith(es[i], error);
      }
    }
  }

  lemma PutsAfterBlock(h: History, block: History, id: AlertID)
    requires 1 <= |block| <= 2 && (|block| == 2 ==> block[1].Vacuum?)
    ensures PutsInLifetime(L2_CONFIG, h + block, id)
         == if block[0].Raises(id) then (if Alive(L2_CONFIG, h, id) then PutsInLifetime(L2_CONFIG, h, id) else 0) + 1
            else PutsInLifetime(L2_CONFIG, h, id)
  {
    var g := h + [block[0]];
    assert g[..|h|] == h;
    if |block| == 1 {
      assert h + block == g;
    } else {
      assert h + block == g + [block[1]];
      assert (g + [block[1]])[..|g|] == g;
    }
  }

  lemma LastTurnCalls(node: string, es: seq<LoopEvent>, blocks: seq<History>, error: string)
    requires es != [] && Turns(node, es, blocks)
    ensures CallsOf(es[|es| - 1], blocks[|es| - 1], ErrorID(node, error), error)
  {
    var n := |es| - 1;
    assert Turn(node, LastHeight(es[..n]), es[n], blocks[n]);
    TurnCalls(node, LastHeight(es[..n]), es[n], blocks[n], error);
  }

  lemma {:induction false} StorageCountsFailures(node: string, es: seq<LoopEvent>, blocks: seq<History>, error: string)
    requires Turns(node, es, blocks)
    ensures CountsFailures(Concat(blocks), ErrorID(node, error), es, error)
  {
    if es != [] {
      var n := |es| - 1;
      TurnsPrefix(node, es, blocks);
      StorageCountsFailures(node, es[..n], blocks[..n], error);
      LastTurnCalls(node, es, blocks, error);
      OneMoreTurn(Concat(blocks[..n]), blocks[n], ErrorID(node, error), es, error);
    }
  }

  // ----- what goes out -----

  /** The call of the storage in a turn that failed, and the calls before it. */
  lemma FailedTurn(node: string, es: seq<LoopEvent>, blocks: seq<History>, error: string)
    returns (past: History, put: Step)
    requires es != [] && FailsWith(es[|es| - 1], error) && Turns(node, es, blocks)
    ensures var at := es[|es| - 1].at;
            && put.Put? && put.alert == ErrorAlert(node, at, error) && blocks[|es| - 1] == [put]
            && Concat(blocks) == past + [put]
            && BlockMessages(at, blocks[|es| - 1]) == if put.sent then [Raised(put.alert)] else []
  {
    var n := |es| - 1;
    TurnsPrefix(node, es, blocks);
    assert Turn(node, LastHeight(es[..n]), es[n], blocks[n]);
    past, put := Concat(blocks[..n]), blocks[n][0];
    assert blocks[n] == [put];
    OneStep(es[n].at / SECOND, put);
  }

  lemma FailureAnswer(node: string, at: int, error: string, past: History, put: Step)
    requires put.Put? && put.alert == ErrorAlert(node, at, error)
    requires Consistent(L2_CONFIG, past + [put]) && Keyed(past + [put])
    ensures var n := PutsInLifetime(L2_CONFIG, past + [put], ErrorID(node, error));
            && (n < 3 ==> !put.sent) && (n == 3 ==> put.sent)
            && (n > 3 ==> (put.sent <==> exists k: nat :: n - 3 == Geometric(2, k)))
  {
    ErrorIDTellsError(node, at, error, error);
    assert put == Put(put.alert, put.sent);
    assert L2_CONFIG.confirmations[SimpleAlertType] == 3 && L2_CONFIG.backoff == 2;
    QuotaIsEight();
    ConfirmationsCount(L2_CONFIG, past, put.alert, put.sent);
    SentMeaning(L2_CONFIG, past, put.alert, put.sent);
  }

  /** In every run: the first two failures with one text say nothing, the third sends an alert with the
      node's quoted name and the text, and from then on the backoff of two decides. */
  lemma ThirdFailureGoesOut(node: string, es: seq<LoopEvent>, blocks: seq<History>, error: string)
    requires es != [] && FailsWith(es[|es| - 1], error)
    requires Turns(node, es, blocks) && Consistent(L2_CONFIG, Concat(blocks))
    ensures var n, at, out := Failures(es, error), es[|es| - 1].at, BlockMessages(es[|es| - 1].at, blocks[|es| - 1]);
            && (n < 3 ==> out == [])
            && (n == 3 ==> out != [])
            && (n > 3 ==> (out != [] <==> exists k: nat :: n - 3 == Geometric(2, k)))
            && (out != [] ==>
                  |out| == 1 && out[0].Raised? && out[0].alert.timestamp == at / SECOND
                  && out[0].alert.alertType == SimpleAlertType
                  && out[0].alert.body
                     == SimpleAlert("Failed to update height for L2 node " + Quote(node) + ": " + error))
  {
    var past, put := FailedTurn(node, es, blocks, error);
    AllGenuine(node, es, blocks);
    GenuineIsKeyed(Concat(blocks));
    StorageCountsFailures(node, es, blocks, error);
    FailureAnswer(node, es[|es| - 1].at, error, past, put);
  }

  /** In every run: a firing of the timer that begins a lifetime of its stuck alert, or the first one
      since eight vacuums passed, sends it with the height and the node's name. */
  lemma FirstFiringGoesOut(node: string, es: seq<LoopEvent>, blocks: seq<History>)
    requires es != [] && es[|es| - 1].TimerFired?
    requires Turns(node, es, blocks) && Consistent(L2_CONFIG, Concat(blocks))
    requires var front, h := es[..|es| - 1], LastHeight(es[..|es| - 1]);
             LastFiring(front, h).None? || VacuumTurns(front, h) >= 8
    ensures var at, h := es[|es| - 1].at, LastHeight(es[..|es| - 1]);
            [Raised(StuckAlert(node, at, h))] <= BlockMessages(at, blocks[|es| - 1])
  {
    var h := LastHeight(es[..|es| - 1]);
    var past, put, vacuum := FiredTurn(node, es, blocks);
    NotAlive(node, es[..|es| - 1], blocks[..|es| - 1], past, h);
    FiringAnswer(node, es[|es| - 1].at, h, es, blocks, past, put, vacuum);
  }

  lemma StuckAlertFields(node: string, at: int, h: uint64)
    ensures var a := StuckAlert(node, at, h);
            && a.timestamp == at / SECOND && a.alertType == L2StuckAlertType
            && a.body == L2StuckAlert(h, node) && a.id == StuckID(node, h)
  {
  }

  lemma FiringAnswer(
      node: string, at: int, h: uint64, es: seq<LoopEvent>, blocks: seq<History>, past: History, put: Step, vacuum: Step)
    requires Turns(node, es, blocks) && Consistent(L2_CONFIG, Concat(blocks))
    requires Concat(blocks) == past + [put] + [vacuum]
    requires put.Put? && put.alert == StuckAlert(node, at, h) && !Alive(L2_CONFIG, past, StuckID(node, h))
    ensures put.sent
  {
    AllGenuine(node, es, blocks);
    WithoutLast(past + [put], vacuum);
    StuckAnswer(node, at, h, past, put);
  }

  lemma NotAlive(node: string, es: seq<LoopEvent>, blocks: seq<History>, past: History, h: uint64)
    requires Turns(node, es, blocks) && past == Concat(blocks)
    requires LastFiring(es, h).None? || VacuumTurns(es, h) >= 8
    ensures !Alive(L2_CONFIG, past, StuckID(node, h))
  {
    QuotaIsEight();
    VacuumsAreTurns(node, es, blocks, h);
  }

  /** The calls of a turn in which the timer fired, and the calls before it. */
  lemma FiredTurn(node: string, es: seq<LoopEvent>, blocks: seq<History>)
    returns (past: History, put: Step, vacuum: Step)
    requires es != [] && es[|es| - 1].TimerFired? && Turns(node, es, blocks)
    ensures var n := |es| - 1;
            && put.Put? && put.alert == StuckAlert(node, es[n].at, LastHeight(es[..n])) && vacuum.Vacuum?
            && past == Concat(blocks[..n]) && Turns(node, es[..n], blocks[..n])
            && Concat(blocks) == past + [put] + [vacuum]
            && (put.sent ==> [Raised(put.alert)] <= BlockMessages(es[n].at, blocks[n]))
  {
    var n := |es| - 1;
    TurnsPrefix(node, es, blocks);
    assert Turn(node, LastHeight(es[..n]), es[n], blocks[n]);
    past, put, vacuum := Concat(blocks[..n]), blocks[n][0], blocks[n][1];
    assert blocks[n] == [put] + [vacuum];
    Associates(past, [put], [vacuum]);
    PutGoesFirst(es[n].at / SECOND, put, vacuum);
  }

  lemma PutGoesFirst(ts: int, put: Step, vacuum: Step)
    requires put.Put?
    ensures put.sent ==> [Raised(put.alert)] <= Messages(ts, [put] + [vacuum])
  {
    OneStep(ts, put);
    L2Analyzer.Split(ts, [put], vacuum);
  }

  lemma WithoutLast(h: History, last: Step)
    requires Consistent(L2_CONFIG, h + [last]) && GenuinePuts(h + [last])
    ensures Consistent(L2_CONFIG, h) && Keyed(h)
  {
    Extend(L2_CONFIG, h, last);
    GenuineIsKeyed(h + [last]);
    KeyedPrefix(h + [last]);
    assert (h + [last])[..|h|] == h;
  }

  lemma NewLifetime(c: Config, past: History, put: Step, id: AlertID)
    requires put.Raises(id) && !Alive(c, past, id)
    ensures PutsInLifetime(c, past + [put], id) == 1
  {
    assert (past + [put])[..|past|] == past;
  }

  lemma StuckAnswer(node: string, at: int, h: uint64, past: History, put: Step)
    requires put.Put? && put.alert == StuckAlert(node, at, h)
    requires Consistent(L2_CONFIG, past + [put]) && Keyed(past + [put])
    requires !Alive(L2_CONFIG, past, StuckID(node, h))
    ensures put.sent
  {
    QuotaIsEight();
    assert put == Put(put.alert, put.sent);
    NewLifetime(L2_CONFIG, past, put, StuckID(node, h));
    ConfirmationsCount(L2_CONFIG, past, put.alert, put.sent);
  }
}
