/** The search for the last height at which two nodes agree: a bounded linear search from the top of
    the overlap of their heights, and a binary search when that finds nothing. */
module ForkFinder {
  import opened Prelude
  import opened Entities
  import opened Events
  import opened HeightSearch

  /** FindLastCommonBlock compares block IDs, FindLastCommonStateHash compares sum hashes. */
  datatype Aspect = BlockIDs | SumHashes

  function Compare(a: History, b: History, aspect: Aspect, h: uint64): Comparison {
    match (StateHashAt(a, h), StateHashAt(b, h))
    case (Some(x), Some(y)) =>
      if (if aspect.BlockIDs? then x.blockID == y.blockID else x.sumHash == y.sumHash) then Same else Different
    case _ => Missing
  }

  function Comparing(a: History, b: History, aspect: Aspect): Chains {
    (h: uint64) => Compare(a, b, aspect, h)
  }

  datatype Outcome = Found(height: uint64, stateHash: StateHash) | NoFullStatement | NoCommonBlocks

  predicate HaveHeights(a: History, b: History) {
    && EarliestHeightOf(a).Some? && EarliestHeightOf(b).Some?
    && LatestHeightOf(a).Some? && LatestHeightOf(b).Some?
  }

  function Start(a: History, b: History): (r: uint64)
    requires HaveHeights(a, b)
    ensures r >= 1
  {
    Max(EarliestHeightOf(a).value, EarliestHeightOf(b).value)
  }

  function Stop(a: History, b: History): uint64
    requires HaveHeights(a, b)
  {
    Min(LatestHeightOf(a).value, LatestHeightOf(b).value)
  }

  function Linear(a: History, b: History, aspect: Aspect, depth: Option<uint64>): Option<uint64>
    requires HaveHeights(a, b)
  {
    if depth.None? then None else LinearSearch(Comparing(a, b, aspect), Start(a, b), Stop(a, b), depth.value, 0)
  }

  /** The finder returns; below 2^63 it always does, see BelowSearchEnds. */
  ghost predicate SearchEnds(a: History, b: History, aspect: Aspect, depth: Option<uint64>) {
    HaveHeights(a, b) && Linear(a, b, aspect, depth).None? ==>
      Ends(Comparing(a, b, aspect), Begin(Start(a, b), Stop(a, b)))
  }

  function FoundAt(a: History, h: uint64): Outcome {
    match StateHashAt(a, h)
    case None => NoFullStatement
    case Some(sh) => Found(h, sh)
  }

  ghost function BinaryResult(cmp: Chains, first: uint64, last: uint64): Option<uint64>
    requires Ends(cmp, Begin(first, last))
  {
    var n: nat :| After(cmp, Begin(first, last), n).Ended?;
    After(cmp, Begin(first, last), n).result
  }

  lemma BinaryResultIs(cmp: Chains, first: uint64, last: uint64, n: nat)
    requires After(cmp, Begin(first, last), n).Ended?
    ensures BinaryResult(cmp, first, last) == After(cmp, Begin(first, last), n).result
  {
    ResultIsUnique(cmp, Begin(first, last), BinaryResult(cmp, first, last), After(cmp, Begin(first, last), n).result);
  }

  /** After n turns of a search that ends in `turns` turns. */
  ghost predicate Reached(cmp: Chains, begin: Search, turns: nat, n: nat, s: Search) {
    n <= turns && After(cmp, begin, n) == s && After(cmp, begin, turns).Ended?
  }

  lemma NextTurn(cmp: Chains, begin: Search, turns: nat, n: nat, s: Search)
    requires Reached(cmp, begin, turns, n, s) && s.Running?
    ensures Reached(cmp, begin, turns, n + 1, Turn(cmp, s))
  {
  }

  lemma ReachedEnd(cmp: Chains, first: uint64, last: uint64, turns: nat, n: nat, result: Option<uint64>)
    requires Reached(cmp, Begin(first, last), turns, n, Ended(result))
    ensures Ends(cmp, Begin(first, last)) && BinaryResult(cmp, first, last) == result
  {
    BinaryResultIs(cmp, first, last, n);
  }

  ghost function LastCommon(a: History, b: History, aspect: Aspect, depth: Option<uint64>): Outcome
    requires SearchEnds(a, b, aspect, depth)
  {
    if !HaveHeights(a, b) then NoFullStatement
    else if Linear(a, b, aspect, depth).Some? then FoundAt(a, Linear(a, b, aspect, depth).value)
    else
      match BinaryResult(Comparing(a, b, aspect), Start(a, b), Stop(a, b))
      case None => NoFullStatement
      case Some(r) => if r < Start(a, b) then NoCommonBlocks else FoundAt(a, r)
  }

  // ----- the finder -----

  class ForkFinder {
    const storage: Storage
    var linearSearchParams: Option<uint64>

    constructor (storage: Storage)
      ensures this.storage == storage && linearSearchParams == None
    {
      this.storage := storage;
      linearSearchParams := None;
    }

    method WithLinearSearchParams(searchDepth: uint64)
      modifies this
      ensures linearSearchParams == Some(searchDepth)
    {
      linearSearchParams := Some(searchDepth);
    }

    function Chains(nodeA: string, nodeB: string, aspect: Aspect): Chains
      reads storage
    {
      Comparing(storage.HistoryOf(nodeA), storage.HistoryOf(nodeB), aspect)
    }

    method CompareAt(nodeA: string, nodeB: string, aspect: Aspect, h: uint64) returns (r: Comparison)
      ensures r == Chains(nodeA, nodeB, aspect)(h)
    {
      var shA := storage.StateHashAtHeight(nodeA, h);
      if shA.None? {
        return Missing;
      }
      var shB := storage.StateHashAtHeight(nodeB, h);
      if shB.None? {
        return Missing;
      }
      var same := if aspect.BlockIDs? then shA.value.blockID == shB.value.blockID
                  else shA.value.sumHash == shB.value.sumHash;
      r := if same then Same else Different;
    }

    method TryLinearSearch(nodeA: string, nodeB: string, aspect: Aspect, start: uint64, stop: uint64)
      returns (r: Option<uint64>)
      ensures r == if linearSearchParams.None? then None
                   else LinearSearch(Chains(nodeA, nodeB, aspect), start, stop, linearSearchParams.value, 0)
    {
      if linearSearchParams.None? {
        return None;
      }
      var depth := linearSearchParams.value;
      ghost var cmp := Chains(nodeA, nodeB, aspect);
      var i: uint64 := 0;
      while i < depth && Wrap(stop - start) > i
        invariant LinearSearch(cmp, start, stop, depth, 0) == LinearSearch(cmp, start, stop, depth, i)
        decreases depth - i
      {
        var h := Wrap(stop - i);
        var c := CompareAt(nodeA, nodeB, aspect, h);
        if c.Same? {
          return Some(h);
        }
        i := i + 1;
      }
      r := None;
    }

    method BinarySearchLoop(nodeA: string, nodeB: string, aspect: Aspect, first: uint64, last: uint64)
      returns (result: Option<uint64>)
      requires Ends(Chains(nodeA, nodeB, aspect), Begin(first, last))
      ensures result == BinaryResult(Chains(nodeA, nodeB, aspect), first, last)
    {
      ghost var cmp, begin := Chains(nodeA, nodeB, aspect), Begin(first, last);
      ghost var turns: nat :| After(cmp, begin, turns).Ended?;
      ghost var n: nat := 0;
      var start: uint64, stop: uint64, r: uint64 := first, last, 0;
      while start <= stop
        invariant Reached(cmp, begin, turns, n, Running(start, stop, r))
        decreases turns - n
      {
        NextTurn(cmp, begin, turns, n, Running(start, stop, r));
        n := n + 1;
        var middle := Wrap(start + stop) / 2;
        var c := CompareAt(nodeA, nodeB, aspect, middle);
        if c.Missing? {
          ReachedEnd(cmp, first, last, turns, n, None);
          return None;
        }
        if c.Different? {
          stop := Wrap(middle - 1);
          r := stop;
        } else {
          start := Wrap(middle + 1);
          r := middle;
        }
      }
      NextTurn(cmp, begin, turns, n, Running(start, stop, r));
      ReachedEnd(cmp, first, last, turns, n + 1, Some(r));
      result := Some(r);
    }

    /** FindLastCommonStateHash; with block IDs and no linear search it is FindLastCommonBlock. */
    method FindLastCommon(nodeA: string, nodeB: string, aspect: Aspect) returns (outcome: Outcome)
      requires SearchEnds(storage.HistoryOf(nodeA), storage.HistoryOf(nodeB), aspect, linearSearchParams)
      ensures outcome == LastCommon(storage.HistoryOf(nodeA), storage.HistoryOf(nodeB), aspect, linearSearchParams)
    {
      var startA := storage.EarliestHeight(nodeA);
      var startB := storage.EarliestHeight(nodeB);
      var stopA := storage.LatestHeight(nodeA);
      var stopB := storage.LatestHeight(nodeB);
      if startA.None? || startB.None? || stopA.None? || stopB.None? {
        return NoFullStatement;
      }
      var start, stop := Max(startA.value, startB.value), Min(stopA.value, stopB.value);
      var h := TryLinearSearch(nodeA, nodeB, aspect, start, stop);
      if h.None? {
        var r := BinarySearchLoop(nodeA, nodeB, aspect, start, stop);
        if r.None? {
          return NoFullStatement;
        }
        if r.value < start {
          return NoCommonBlocks;
        }
        h := r;
      }
      var sh := storage.StateHashAtHeight(nodeA, h.value);
      outcome := match sh case None => NoFullStatement case Some(x) => Found(h.value, x);
    }
  }

  // ----- every outcome -----

  ghost predicate AgreesAt(a: History, b: History, aspect: Aspect, h: int) {
    SameAt(Comparing(a, b, aspect), h)
  }

  lemma AgreementIsFound(a: History, b: History, aspect: Aspect, h: uint64)
    requires AgreesAt(a, b, aspect, h)
    ensures FoundAt(a, h).Found? && FoundAt(a, h).height == h && StateHashAt(a, h) == Some(FoundAt(a, h).stateHash)
  {
  }

  lemma BelowSearchEnds(a: History, b: History, aspect: Aspect, depth: Option<uint64>)
    requires HaveHeights(a, b) && Start(a, b) <= Stop(a, b) ==> Stop(a, b) < TWO_TO_63
    ensures SearchEnds(a, b, aspect, depth)
  {
    if HaveHeights(a, b) {
      var cmp, begin := Comparing(a, b, aspect), Begin(Start(a, b), Stop(a, b));
      if Start(a, b) <= Stop(a, b) {
        var result := BinarySearchMeaning(cmp, Start(a, b), Stop(a, b));
      } else {
        assert After(cmp, begin, 0) == begin;
        assert After(cmp, begin, 1) == Ended(Some(0));
      }
    }
  }

  /** Every outcome on overlapping ranges, whatever the histories: a height found lies in the overlap,
      both nodes agree there and not at the next height; no common blocks means disagreement at the
      lowest height; and a missing statement means one is missing in the overlap. */
  ghost predicate OutcomeMeans(a: History, b: History, aspect: Aspect, outcome: Outcome)
    requires HaveHeights(a, b)
  {
    match outcome
    case Found(h, sh) =>
      && Start(a, b) <= h <= Stop(a, b) && AgreesAt(a, b, aspect, h)
      && StateHashAt(a, h) == Some(sh)
      && (h < Stop(a, b) ==> !AgreesAt(a, b, aspect, h + 1))
    case NoCommonBlocks => DifferentAt(Comparing(a, b, aspect), Start(a, b))
    case NoFullStatement => MissesOne(Comparing(a, b, aspect), Start(a, b), Stop(a, b))
  }

  lemma OutcomeMeaning(a: History, b: History, aspect: Aspect, depth: Option<uint64>)
    requires HaveHeights(a, b) && Start(a, b) <= Stop(a, b) < TWO_TO_63
    ensures SearchEnds(a, b, aspect, depth)
    ensures OutcomeMeans(a, b, aspect, LastCommon(a, b, aspect, depth))
  {
    BelowSearchEnds(a, b, aspect, depth);
    var cmp, start, stop := Comparing(a, b, aspect), Start(a, b), Stop(a, b);
    var linear := Linear(a, b, aspect, depth);
    if linear.Some? {
      LinearSearchOnRange(cmp, start, stop, depth.value);
      AgreementIsFound(a, b, aspect, linear.value);
    } else {
      var result := BinarySearchMeaning(cmp, start, stop);
      ResultIsUnique(cmp, Begin(start, stop), result, BinaryResult(cmp, start, stop));
      if result.Some? && result.value >= start {
        AgreementIsFound(a, b, aspect, result.value);
      }
    }
  }

  // ----- agreement on a prefix -----

  /** Both nodes have full statements all over the overlap and agree exactly up to some height. */
  ghost predicate AgreeOnPrefix(a: History, b: History, aspect: Aspect)
    requires HaveHeights(a, b)
  {
    && (forall h :: Start(a, b) <= h <= Stop(a, b) ==> !MissingAt(Comparing(a, b, aspect), h))
    && (forall g, h :: Start(a, b) <= g < h <= Stop(a, b) && AgreesAt(a, b, aspect, h) ==> AgreesAt(a, b, aspect, g))
  }

  ghost predicate IsGreatestCommon(a: History, b: History, aspect: Aspect, h: int)
    requires HaveHeights(a, b)
  {
    && Start(a, b) <= h <= Stop(a, b) && AgreesAt(a, b, aspect, h)
    && forall k :: h < k <= Stop(a, b) ==> !AgreesAt(a, b, aspect, k)
  }

  ghost predicate IsRight(a: History, b: History, aspect: Aspect, outcome: Outcome)
    requires HaveHeights(a, b)
  {
    match outcome
    case Found(h, sh) => IsGreatestCommon(a, b, aspect, h) && StateHashAt(a, h) == Some(sh)
    case NoCommonBlocks => forall h :: Start(a, b) <= h <= Stop(a, b) ==> !AgreesAt(a, b, aspect, h)
    case NoFullStatement => false
  }

  /** For chains that agree on a prefix the finder gives the greatest common height, for every depth
      of the linear search or none, and it finds nothing exactly when nothing is common. */
  lemma FindsGreatestCommon(a: History, b: History, aspect: Aspect, depth: Option<uint64>)
    requires HaveHeights(a, b) && Start(a, b) <= Stop(a, b) < TWO_TO_63 && AgreeOnPrefix(a, b, aspect)
    ensures SearchEnds(a, b, aspect, depth)
    ensures IsRight(a, b, aspect, LastCommon(a, b, aspect, depth))
  {
    OutcomeMeaning(a, b, aspect, depth);
    match LastCommon(a, b, aspect, depth)
    case Found(h, _) =>
      assert forall k :: h + 1 < k <= Stop(a, b) && AgreesAt(a, b, aspect, k) ==> AgreesAt(a, b, aspect, h + 1);
    case NoCommonBlocks =>
      assert !AgreesAt(a, b, aspect, Start(a, b));
    case NoFullStatement =>
  }

  /** So the linear search only saves work: the outcome is that of plain binary search. */
  lemma LinearRefinesBinary(a: History, b: History, aspect: Aspect, depth: Option<uint64>)
    requires HaveHeights(a, b) && Start(a, b) <= Stop(a, b) < TWO_TO_63 && AgreeOnPrefix(a, b, aspect)
    ensures SearchEnds(a, b, aspect, depth) && SearchEnds(a, b, aspect, None)
    ensures LastCommon(a, b, aspect, depth) == LastCommon(a, b, aspect, None)
  {
    FindsGreatestCommon(a, b, aspect, depth);
    FindsGreatestCommon(a, b, aspect, None);
  }

  /** In terms of the histories: without rollbacks, a full statement of each node at a height makes
      that height comparable. */
  lemma CompleteHistoriesCompare(a: History, b: History, aspect: Aspect, h: uint64)
    requires NoRollback(a) && NoRollback(b)
    ensures !MissingAt(Comparing(a, b, aspect), h) <==> HasFullAt(a, h) && HasFullAt(b, h)
  {
    ScanIsComplete(a, h);
    ScanIsComplete(b, h);
    if FullStatementAt(a, h).Some? {
      FoundMeansFull(a, h);
    }
    if FullStatementAt(b, h).Some? {
      FoundMeansFull(b, h);
    }
  }

  // ----- disjoint ranges -----

  ghost predicate FullHeightsNeverDecrease(h: History) {
    forall i, j :: 0 <= i < j < |h| && h[i].Full() && h[j].Full() ==> h[i].height <= h[j].height
  }

  lemma {:induction false} EarliestIsLowest(h: History, height: uint64)
    requires FullHeightsNeverDecrease(h) && EarliestHeightOf(h).Some? && HasFullAt(h, height)
    ensures EarliestHeightOf(h).value <= height
  {
    if !h[0].Full() {
      assert HasFullAt(h[1..], height) by {
        var i :| 0 <= i < |h| && h[i].FullAt(height);
        assert h[1..][i - 1] == h[i];
      }
      EarliestIsLowest(h[1..], height);
    }
  }

  lemma {:induction false} LatestIsHighest(h: History, height: uint64)
    requires FullHeightsNeverDecrease(h) && LatestHeightOf(h).Some? && HasFullAt(h, height)
    ensures height <= LatestHeightOf(h).value
  {
    var n := |h| - 1;
    if !h[n].Full() {
      assert HasFullAt(h[..n], height) by {
        var i :| 0 <= i < |h| && h[i].FullAt(height);
        assert h[..n][i] == h[i];
      }
      LatestIsHighest(h[..n], height);
    }
  }

  /** A height at which the nodes can be compared lies in both ranges. */
  lemma ComparableIsInOverlap(a: History, b: History, aspect: Aspect, h: uint64)
    requires HaveHeights(a, b) && FullHeightsNeverDecrease(a) && FullHeightsNeverDecrease(b)
    requires !Compare(a, b, aspect, h).Missing?
    ensures Start(a, b) <= h <= Stop(a, b)
  {
    FoundMeansFull(a, h);
    FoundMeansFull(b, h);
    EarliestIsLowest(a, h);
    EarliestIsLowest(b, h);
    LatestIsHighest(a, h);
    LatestIsHighest(b, h);
  }

  /** Ranges that do not overlap end in "no common blocks" for every depth, although the distance
      stop - start and the heights stop - i wrap. */
  lemma DisjointRangesHaveNothingCommon(a: History, b: History, aspect: Aspect, depth: Option<uint64>)
    requires HaveHeights(a, b) && Start(a, b) > Stop(a, b)
    requires FullHeightsNeverDecrease(a) && FullHeightsNeverDecrease(b)
    ensures SearchEnds(a, b, aspect, depth)
    ensures LastCommon(a, b, aspect, depth) == NoCommonBlocks
  {
    BelowSearchEnds(a, b, aspect, depth);
    var cmp, begin := Comparing(a, b, aspect), Begin(Start(a, b), Stop(a, b));
    assert After(cmp, begin, 0) == begin;
    assert After(cmp, begin, 1) == Ended(Some(0));
    BinaryResultIs(cmp, Start(a, b), Stop(a, b), 1);
    if depth.Some? {
      var j := LinearSearchMeaning(cmp, Start(a, b), Stop(a, b), depth.value, 0);
      var h := Wrap(Stop(a, b) - j);
      if !Compare(a, b, aspect, h).Missing? {
        ComparableIsInOverlap(a, b, aspect, h);
      }
    }
  }
}
