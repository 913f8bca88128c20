/** The L2 loop in time: a ticker that asks every minute, answers within five seconds, and a timer of
    five minutes. Whether the vacuum quota is large enough is a question about these numbers. */
module L2Timing {
  import opened Prelude
  import opened Entities
  import opened StuckIDs
  import opened AlertsStorage
  import opened L2Analyzer

  /** Responses so far, failures included: the index of the next one. */
  function Responses(es: seq<LoopEvent>): nat {
    if es == [] then 0
    else Responses(es[..|es| - 1]) + if es[|es| - 1].TimerFired? then 0 else 1
  }

  function Now(start: int, es: seq<LoopEvent>): int {
    if es == [] then start else es[|es| - 1].at
  }

  /** Events come in order, the timer fires when it is due and nothing overtakes it, and the k-th
      request, sent at the k-th tick after `first`, is answered within the request timeout. */
  ghost predicate Timed(start: int, first: int, es: seq<LoopEvent>) {
    es != [] ==>
      var es', e := es[..|es| - 1], es[|es| - 1];
      && Timed(start, first, es')
      && Now(start, es') <= e.at <= Deadline(start, es')
      && (e.TimerFired? ==> e.at == Deadline(start, es'))
      && (!e.TimerFired? ==>
            var tick := first + Responses(es') * HEIGHT_COLLECTOR_TIMEOUT;
            tick <= e.at <= tick + HEIGHT_REQUEST_TIMEOUT)
  }

  lemma {:induction false} TimedPrefix(start: int, first: int, es: seq<LoopEvent>, k: nat)
    requires Timed(start, first, es) && k <= |es|
    ensures Timed(start, first, es[..k])
  {
    if k == |es| {
      assert es[..k] == es;
    } else {
      TimedPrefix(start, first, es[..|es| - 1], k);
      assert es[..|es| - 1][..k] == es[..k];
    }
  }

  /** The responses after a firing, as long as nothing resets the timer again. */
  ghost predicate Quiet(es: seq<LoopEvent>, f: nat, h: uint64) {
    forall i :: f < i < |es| ==> es[i].Collected? && es[i].height == h
  }

  lemma {:induction false} QuietTimes(start: int, first: int, es: seq<LoopEvent>, f: nat, h: uint64)
    requires Timed(start, first, es) && f < |es| && FiresAt(es, f, h) && Quiet(es, f, h)
    ensures LastHeight(es) == h
    ensures Deadline(start, es) == es[f].at + SAME_HEIGHT_TIMER_DURATION
    ensures Responses(es) == Responses(es[..f]) + (|es| - 1 - f)
    decreases |es|
  {
    var es' := es[..|es| - 1];
    if f < |es| - 1 {
      assert es'[..f] == es[..f];
      QuietTimes(start, first, es', f, h);
    }
  }

  /** A quiet stretch after a firing fits at most six responses before the timer fires again. */
  lemma AtMostSixResponses(start: int, first: int, es: seq<LoopEvent>, f: nat, h: uint64)
    requires Timed(start, first, es) && f < |es| && FiresAt(es, f, h) && Quiet(es, f, h)
    ensures |es| - 1 - f <= 6
  {
    if f + 2 < |es| {
      var es', one := es[..|es| - 1], es[..f + 2];
      assert es'[..f] == es[..f] && one[..f] == es[..f] && one[..f + 1] == es[..f + 1];
      assert es[..f + 1][..f] == es[..f];
      QuietTimes(start, first, es', f, h);
      TimedPrefix(start, first, es, f + 2);
      TimedPrefix(start, first, es, f + 1);
      QuietTimes(start, first, es[..f + 1], f, h);
      assert one[f + 1] == es[f + 1] && one[..f + 1][f] == es[f];
    }
  }

  /** Some event after f that explains a fix: the height changed, or a request failed. */
  ghost predicate ChangedOrFailedSince(es: seq<LoopEvent>, f: nat, h: uint64) {
    exists i :: f < i < |es| && (es[i].Failed? || (es[i].Collected? && es[i].height != h))
  }

  lemma SameFirings(es: seq<LoopEvent>, h: uint64)
    requires es != []
    ensures forall i :: 0 <= i < |es| - 1 ==> FiresAt(es[..|es| - 1], i, h) == FiresAt(es, i, h)
  {
    forall i | 0 <= i < |es| - 1 ensures FiresAt(es[..|es| - 1], i, h) == FiresAt(es, i, h) {
      assert es[..|es| - 1][..i] == es[..i];
    }
  }

  lemma {:induction false} LastFiringIsLast(es: seq<LoopEvent>, h: uint64)
    requires LastFiring(es, h).Some?
    ensures FiresAt(es, LastFiring(es, h).value, h)
    ensures forall i :: LastFiring(es, h).value < i < |es| ==> !FiresAt(es, i, h)
  {
    var es' := es[..|es| - 1];
    if !FiresAt(es, |es| - 1, h) {
      LastFiringIsLast(es', h);
      SameFirings(es, h);
    }
  }

  lemma ChangedEarlier(es: seq<LoopEvent>, f: nat, h: uint64)
    requires es != []
    ensures ChangedOrFailedSince(es[..|es| - 1], f, h) ==> ChangedOrFailedSince(es, f, h)
  {
    var es' := es[..|es| - 1];
    if ChangedOrFailedSince(es', f, h) {
      var i :| f < i < |es'| && (es'[i].Failed? || (es'[i].Collected? && es'[i].height != h));
      assert es[i] == es'[i];
    }
  }

  lemma {:induction false} UnchangedIsQuiet(es: seq<LoopEvent>, f: nat, h: uint64)
    requires f < |es| && FiresAt(es, f, h)
    requires forall i :: f < i < |es| ==> !FiresAt(es, i, h)
    requires !ChangedOrFailedSince(es, f, h)
    ensures Quiet(es, f, h) && LastHeight(es) == h
    decreases |es|
  {
    if f < |es| - 1 {
      var es' := es[..|es| - 1];
      SameFirings(es, h);
      ChangedEarlier(es, f, h);
      forall i | f < i < |es'| ensures !FiresAt(es', i, h) {
        assert FiresAt(es', i, h) == FiresAt(es, i, h);
      }
      assert es'[..f] == es[..f];
      UnchangedIsQuiet(es', f, h);
      assert !FiresAt(es, |es| - 1, h);
    }
  }

  lemma LargeQuotaEndures(
      q: int, node: string, start: int, first: int, es: seq<LoopEvent>, blocks: seq<History>, h: uint64)
    requires es != [] && Timed(start, first, es) && q >= 8
    requires Turns(node, es, blocks) && Consistent(WithQuota(q), Concat(blocks))
    requires BlockFixes(blocks[|es| - 1], StuckID(node, h))
    ensures LastFiring(es, h).Some? && ChangedOrFailedSince(es, LastFiring(es, h).value, h)
  {
    StuckFixedExactly(q, node, es, blocks, h);
    LastFiringIsLast(es, h);
    var f := LastFiring(es, h).value;
    if !ChangedOrFailedSince(es, f, h) {
      UnchangedIsQuiet(es, f, h);
      AtMostSixResponses(start, first, es, f, h);
      ResponsesAreVacuums(es, h, f);
      assert false;
    }
  }

  /** With the real intervals the quota never lapses by itself: whenever a stuck alert is reported
      fixed, the node has shown another height or a request has failed since the timer fired. */
  lemma FixMeansChangeOrFailure(
      node: string, start: int, first: int, es: seq<LoopEvent>, blocks: seq<History>, h: uint64)
    requires es != [] && Timed(start, first, es)
    requires Turns(node, es, blocks) && Consistent(L2_CONFIG, Concat(blocks))
    requires BlockFixes(blocks[|es| - 1], StuckID(node, h))
    ensures LastFiring(es, h).Some? && ChangedOrFailedSince(es, LastFiring(es, h).value, h)
  {
    QuotaIsEight();
    LargeQuotaEndures(8, node, start, first, es, blocks, h);
  }

  // ----- runs at one height -----

  /** The state of the clock and the counters that the examples track, in seconds. */
  ghost predicate Reaches(es: seq<LoopEvent>, responses: nat, now: int, deadline: int, vacuums: nat) {
    && Timed(0, 0, es)
    && LastHeight(es) == 7 && Responses(es) == responses
    && Now(0, es) == now * SECOND && Deadline(0, es) == deadline * SECOND
    && VacuumTurns(es, 7) == vacuums
    && (forall i :: 0 <= i < |es| && es[i].Collected? ==> es[i].height == 7)
  }

  ghost predicate NoFailure(es: seq<LoopEvent>) {
    forall i :: 0 <= i < |es| ==> !es[i].Failed?
  }

  lemma StaysAtSeven(es: seq<LoopEvent>, k: nat, now: int, deadline: int, vacuums: nat, at: int) returns (es': seq<LoopEvent>)
    requires Reaches(es, k, now, deadline, vacuums)
    requires now <= at <= deadline && 60 * k <= at <= 60 * k + 5
    ensures es' == es + [Collected(at * SECOND, 7)] && Reaches(es', k + 1, at, deadline, vacuums + 1)
    ensures LastFiring(es, 7).Some? ==> LastFiring(es', 7).Some?
    ensures NoFailure(es) ==> NoFailure(es')
  {
    es' := es + [Collected(at * SECOND, 7)];
    assert es'[..|es|] == es;
  }

  lemma FirstAnswer(at: int) returns (es: seq<LoopEvent>)
    requires 0 <= at <= 5
    ensures Reaches(es, 1, at, at + 300, 1) && NoFailure(es)
  {
    var none: seq<LoopEvent> := [];
    var answered := Collected(at * SECOND, 7);
    assert Responses(none) == 0 && LastHeight(none) == 0 && VacuumTurns(none, 7) == 0 && Timed(0, 0, none);
    assert Deadline(0, none) == 300 * SECOND;
    es := none + [answered];
    assert es[..|es| - 1] == none && es[|es| - 1] == answered;
  }

  /** When the k-th answer of an example comes: so many seconds after it was asked for. */
  function AnswerAt(k: nat, delay: int): int {
    60 * k + delay
  }

  lemma AnswersUntilDue(first: int, delay: int) returns (es: seq<LoopEvent>)
    requires 0 <= first <= 5 && 0 <= delay <= 5
    ensures Reaches(es, 5, AnswerAt(4, delay), first + 300, 5) && NoFailure(es)
  {
    es := FirstAnswer(first);
    es := StaysAtSeven(es, 1, first, first + 300, 1, AnswerAt(1, delay));
    es := StaysAtSeven(es, 2, AnswerAt(1, delay), first + 300, 2, AnswerAt(2, delay));
    es := StaysAtSeven(es, 3, AnswerAt(2, delay), first + 300, 3, AnswerAt(3, delay));
    es := StaysAtSeven(es, 4, AnswerAt(3, delay), first + 300, 4, AnswerAt(4, delay));
  }

  lemma FiresOnce(first: int, delay: int) returns (es: seq<LoopEvent>)
    requires 0 <= first <= 5 && 0 <= delay <= 5
    ensures Reaches(es, 5, first + 300, first + 600, 1) && LastFiring(es, 7).Some? && NoFailure(es)
  {
    var answered := AnswersUntilDue(first, delay);
    es := answered + [TimerFired((first + 300) * SECOND)];
    assert es[..|answered|] == answered;
  }

  // ----- the quota is exactly sufficient -----

  /** With this quota a stuck alert is reported fixed only after a change or a failure. */
  ghost predicate Endures(q: int) {
    forall node, start, first, es, blocks, h ::
      BringsFix(q, node, start, first, es, blocks, h) ==>
        LastFiring(es, h).Some? && ChangedOrFailedSince(es, LastFiring(es, h).value, h)
  }

  ghost predicate BringsFix(
      q: int, node: string, start: int, first: int, es: seq<LoopEvent>, blocks: seq<History>, h: uint64)
  {
    && es != [] && Timed(start, first, es)
    && Turns(node, es, blocks) && Consistent(WithQuota(q), Concat(blocks))
    && BlockFixes(blocks[|es| - 1], StuckID(node, h))
  }

  /** Six answers fit between two firings: the first of them comes together with the firing at 305 s,
      the last at 600 s. A run with the first `answers` of them. */
  lemma AnswersAfterFiring(answers: nat) returns (es: seq<LoopEvent>)
    requires 1 <= answers <= 6
    ensures Reaches(es, 5 + answers, if answers == 1 then 305 else 60 * (4 + answers), 605, 1 + answers)
    ensures LastFiring(es, 7).Some? && NoFailure(es) && es != []
  {
    if answers == 1 {
      es := FiresOnce(5, 0);
      es := StaysAtSeven(es, 5, 305, 605, 1, 305);
    } else {
      es := AnswersAfterFiring(answers - 1);
      var now := if answers == 2 then 305 else 60 * (3 + answers);
      es := StaysAtSeven(es, 4 + answers, now, 605, answers, 60 * (4 + answers));
    }
  }

  /** With a quota below eight some node that stays at its height, and answers every request, is
      reported fixed. */
  lemma SmallQuotaFails(q: int, node: string) returns (es: seq<LoopEvent>, blocks: seq<History>)
    requires 2 <= q <= 7
    ensures BringsFix(q, node, 0, 0, es, blocks, 7) && NoFailure(es)
    ensures forall i :: 0 <= i < |es| && es[i].Collected? ==> es[i].height == 7
  {
    es := AnswersAfterFiring(q - 1);
    blocks := SomeTurns(WithQuota(q), node, es);
    StuckFixedExactly(q, node, es, blocks, 7);
  }

  /** So eight is the smallest quota that stores alerts and survives the firings of a stuck node. */
  lemma QuotaIsExact(q: int)
    requires q >= 2
    ensures Endures(q) <==> q >= DEFAULT_ALERT_VACUUM_QUOTA
  {
    QuotaIsEight();
    if q >= 8 {
      forall node, start, first, es, blocks, h | BringsFix(q, node, start, first, es, blocks, h)
        ensures LastFiring(es, h).Some? && ChangedOrFailedSince(es, LastFiring(es, h).value, h)
      {
        LargeQuotaEndures(q, node, start, first, es, blocks, h);
      }
    } else {
      var es, blocks := SmallQuotaFails(q, "l2");
      assert BringsFix(q, "l2", 0, 0, es, blocks, 7);
    }
  }

  // ----- a failed request can hide a stuck node -----

  lemma AnswersAgain() returns (es: seq<LoopEvent>)
    ensures Reaches(es, 10, 542, 601, 6) && LastFiring(es, 7).Some?
  {
    es := FiresOnce(1, 2);
    es := StaysAtSeven(es, 5, 301, 601, 1, 302);
    es := StaysAtSeven(es, 6, 302, 601, 2, 362);
    es := StaysAtSeven(es, 7, 362, 601, 3, 422);
    es := StaysAtSeven(es, 8, 422, 601, 4, 482);
    es := StaysAtSeven(es, 9, 482, 601, 5, 542);
  }

  lemma ThenFails() returns (es: seq<LoopEvent>)
    ensures Reaches(es, 11, 600, 900, 6) && LastFiring(es, 7).Some?
  {
    var before := AnswersAgain();
    es := before + [Failed(600 * SECOND, "timeout")];
    assert es[..|before|] == before;
  }

  lemma EightVacuums() returns (es: seq<LoopEvent>)
    ensures Reaches(es, 13, 722, 900, 8) && LastFiring(es, 7).Some? && es != [] && !es[|es| - 1].Failed?
  {
    es := ThenFails();
    es := StaysAtSeven(es, 11, 600, 900, 6, 662);
    es := StaysAtSeven(es, 12, 662, 900, 7, 722);
  }

  /** The node stays at height 7 all the time, the timer fires, one request fails, and two answers
      later, still at height 7, the loop reports the stuck alert fixed. */
  lemma FailureHidesStuckNode(node: string) returns (es: seq<LoopEvent>, blocks: seq<History>)
    ensures BringsFix(DEFAULT_ALERT_VACUUM_QUOTA, node, 0, 0, es, blocks, 7)
    ensures forall i :: 0 <= i < |es| && es[i].Collected? ==> es[i].height == 7
  {
    es := EightVacuums();
    QuotaIsEight();
    blocks := SomeTurns(WithQuota(8), node, es);
    StuckFixedExactly(8, node, es, blocks, 7);
  }
}
