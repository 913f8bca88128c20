/** The variables of the L2 loop, read off the events: the last height and the time the timer is due. */
module L2State {
  import opened Prelude
  import opened L2Analyzer

  ghost predicate LastCollected(es: seq<LoopEvent>, i: int) {
    0 <= i < |es| && es[i].Collected? && forall j :: i < j < |es| ==> !es[j].Collected?
  }

  /** The last height is that of the newest response, and zero before the first. */
  lemma {:induction false} LastHeightMeaning(es: seq<LoopEvent>)
    ensures forall i :: LastCollected(es, i) ==> LastHeight(es) == es[i].height
    ensures (forall i :: 0 <= i < |es| ==> !es[i].Collected?) ==> LastHeight(es) == 0
  {
    if es != [] {
      LastHeightMeaning(es[..|es| - 1]);
      forall i | LastCollected(es, i) && i < |es| - 1 ensures LastCollected(es[..|es| - 1], i) {
      }
    }
  }

  /** What makes the timer start anew: a failure, its own firing, or a height other than the last. */
  predicate Restarts(es: seq<LoopEvent>, i: nat)
    requires i < |es|
  {
    !es[i].Collected? || es[i].height != LastHeight(es[..i])
  }

  ghost predicate LastRestart(es: seq<LoopEvent>, i: int) {
    0 <= i < |es| && Restarts(es, i) && forall j :: i < j < |es| ==> !Restarts(es, j)
  }

  lemma SameRestart(es: seq<LoopEvent>, k: nat, i: nat)
    requires i < k <= |es|
    ensures Restarts(es[..k], i) <==> Restarts(es, i)
  {
    assert es[..k][..i] == es[..i];
  }

  lemma DeadlineStep(start: int, es: seq<LoopEvent>)
    requires es != []
    ensures Deadline(start, es) == if Restarts(es, |es| - 1) then es[|es| - 1].at + 300_000_000_000
                                   else Deadline(start, es[..|es| - 1])
  {
  }

  /** The timer is due five minutes, in nanoseconds, after its last start. */
  lemma {:induction false} DueAfterRestart(start: int, es: seq<LoopEvent>, i: nat)
    requires LastRestart(es, i)
    ensures Deadline(start, es) == es[i].at + 300_000_000_000
    decreases |es|
  {
    DeadlineStep(start, es);
    if i < |es| - 1 {
      var n := |es| - 1;
      SameRestart(es, n, i);
      forall j | i < j < n ensures !Restarts(es[..n], j) {
        SameRestart(es, n, j);
      }
      DueAfterRestart(start, es[..n], i);
    }
  }

  /** Or after the start of the loop. */
  lemma {:induction false} DueAfterStart(start: int, es: seq<LoopEvent>)
    requires forall i :: 0 <= i < |es| ==> !Restarts(es, i)
    ensures Deadline(start, es) == start + 300_000_000_000
  {
    if es != [] {
      var n := |es| - 1;
      DeadlineStep(start, es);
      forall j | 0 <= j < n ensures !Restarts(es[..n], j) {
        SameRestart(es, n, j);
      }
      DueAfterStart(start, es[..n]);
    }
  }
}
