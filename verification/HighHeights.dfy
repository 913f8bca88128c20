/** The fork finder at heights of 2^63 and above, where the midpoint of its binary search can wrap. */
module HighHeights {
  import opened Prelude
  import opened Entities
  import opened Events
  import opened HeightSearch
  import opened ForkFinder

  // ----- exactly below 2^63 the finder is right -----

  /** Histories of two nodes without rollbacks that agree on a prefix of the overlap first..last. */
  ghost predicate Comparable(
      nodeA: string, nodeB: string, a: History, b: History, aspect: Aspect, first: uint64, last: uint64)
  {
    && ValidHistory(nodeA, a) && ValidHistory(nodeB, b) && NoRollback(a) && NoRollback(b)
    && HaveHeights(a, b) && Start(a, b) == first && Stop(a, b) == last
    && AgreeOnPrefix(a, b, aspect)
  }

  /** The finder returns, with the greatest common height if there is one. */
  ghost predicate AnswersRightly(a: History, b: History, aspect: Aspect, depth: Option<uint64>)
    requires HaveHeights(a, b)
  {
    SearchEnds(a, b, aspect, depth) && IsRight(a, b, aspect, LastCommon(a, b, aspect, depth))
  }

  /** A full statement at every height from first to last. */
  function Complete(node: string, sh: StateHash, first: uint64, last: uint64): (h: History)
    requires first <= last
    ensures |h| == last - first + 1
    ensures forall i :: 0 <= i < |h| ==> h[i] == NodeStatement(node, i, OK, first + i, Some(sh))
  {
    seq(last - first + 1, i requires 0 <= i < last - first + 1 => NodeStatement(node, i, OK, first + i, Some(sh)))
  }

  lemma CompleteHasAll(node: string, sh: StateHash, first: uint64, last: uint64)
    requires 1 <= first <= last
    ensures var h := Complete(node, sh, first, last);
            && ValidHistory(node, h) && NoRollback(h)
            && EarliestHeightOf(h) == Some(first) && LatestHeightOf(h) == Some(last)
            && forall height: uint64 :: StateHashAt(h, height) == if first <= height <= last then Some(sh) else None
  {
    var h := Complete(node, sh, first, last);
    assert h[0].Full() && h[|h| - 1].Full();
    forall height: uint64
      ensures StateHashAt(h, height) == if first <= height <= last then Some(sh) else None
    {
      ScanIsComplete(h, height);
      if first <= height <= last {
        assert h[height - first].FullAt(height);
      }
      if FullStatementAt(h, height).Some? {
        FoundMeansFull(h, height);
      }
    }
  }

  lemma CompleteAreComparable(
      nodeA: string, nodeB: string, aspect: Aspect, sh: StateHash, first: uint64, last: uint64)
    requires 1 <= first <= last
    ensures var a, b := Complete(nodeA, sh, first, last), Complete(nodeB, sh, first, last);
            && Comparable(nodeA, nodeB, a, b, aspect, first, last)
            && IsGreatestCommon(a, b, aspect, last)
            && NeverDifferent(Comparing(a, b, aspect))
  {
    CompleteHasAll(nodeA, sh, first, last);
    CompleteHasAll(nodeB, sh, first, last);
    var a, b := Complete(nodeA, sh, first, last), Complete(nodeB, sh, first, last);
    forall h: uint64 ensures Comparing(a, b, aspect)(h) == if first <= h <= last then Same else Missing {
    }
  }

  lemma PlainSearchFails(a: History, b: History, aspect: Aspect)
    requires HaveHeights(a, b) && Start(a, b) <= Stop(a, b) && TWO_TO_63 <= Stop(a, b)
    requires NeverDifferent(Comparing(a, b, aspect))
    ensures !AnswersRightly(a, b, aspect, None)
  {
    var cmp, first, last := Comparing(a, b, aspect), Start(a, b), Stop(a, b);
    if SearchEnds(a, b, aspect, None) {
      var n: nat :| After(cmp, Begin(first, last), n).Ended?;
      BinaryResultIs(cmp, first, last, n);
      NeverPasses(cmp, first, last, n);
    }
  }

  /** For nodes that agree on a prefix of first..last the finder is right, whatever the depth of its
      linear search, if and only if last is below 2^63. */
  lemma RightExactlyBelow63(nodeA: string, nodeB: string, aspect: Aspect, first: uint64, last: uint64)
    requires 1 <= first <= last
    ensures (forall a, b, depth :: Comparable(nodeA, nodeB, a, b, aspect, first, last)
                               ==> AnswersRightly(a, b, aspect, depth))
            <==> last < TWO_TO_63
  {
    if last < TWO_TO_63 {
      forall a, b, depth | Comparable(nodeA, nodeB, a, b, aspect, first, last)
        ensures AnswersRightly(a, b, aspect, depth)
      {
        FindsGreatestCommon(a, b, aspect, depth);
      }
    } else {
      var sh := StateHash("block", "hash");
      var a, b := Complete(nodeA, sh, first, last), Complete(nodeB, sh, first, last);
      CompleteAreComparable(nodeA, nodeB, aspect, sh, first, last);
      PlainSearchFails(a, b, aspect);
      assert Comparable(nodeA, nodeB, a, b, aspect, first, last);
    }
  }

  // ----- a search that never ends -----

  const LOW: uint64 := 702_170_617_526_965_590
  const MIDDLE: uint64 := 6_851_085_308_763_482_795
  const HIGH: uint64 := 13_000_000_000_000_000_000

  function Sparse(node: string, sh: StateHash, top: StateHash): History {
    [NodeStatement(node, 1, OK, LOW, Some(sh)), NodeStatement(node, 2, OK, MIDDLE, Some(sh)),
     NodeStatement(node, 3, OK, HIGH, Some(top))]
  }

  lemma SparseHistory(node: string, sh: StateHash, top: StateHash)
    ensures var h := Sparse(node, sh, top);
            && ValidHistory(node, h) && NoRollback(h)
            && EarliestHeightOf(h) == Some(LOW) && LatestHeightOf(h) == Some(HIGH)
            && StateHashAt(h, LOW) == StateHashAt(h, MIDDLE) == Some(sh) && StateHashAt(h, HIGH) == Some(top)
            && forall x: uint64 :: StateHashAt(h, x).Some? ==> x == LOW || x == MIDDLE || x == HIGH
  {
    var h := Sparse(node, sh, top);
    assert h[0].FullAt(LOW) && h[1].FullAt(MIDDLE) && h[2].FullAt(HIGH);
    forall x: uint64 | StateHashAt(h, x).Some? || x == LOW || x == MIDDLE || x == HIGH
      ensures x == LOW || x == MIDDLE || x == HIGH
      ensures StateHashAt(h, x) == Some(if x == HIGH then top else sh)
    {
      ScanIsComplete(h, x);
      FoundMeansFull(h, x);
    }
  }

  lemma {:induction false} Circles(cmp: Chains, n: nat)
    requires cmp(LOW).Same? && cmp(MIDDLE).Same?
    ensures var s := After(cmp, Begin(LOW, HIGH), n);
            s == Begin(LOW, HIGH) || s == Running(MIDDLE + 1, HIGH, MIDDLE) || s == Running(LOW + 1, HIGH, LOW)
  {
    if n > 0 {
      Circles(cmp, n - 1);
    }
  }

  /** Two histories of three statements each, without rollbacks, that agree at the lower two heights:
      the midpoint jumps between these for ever. Neither the plain search returns nor, if the nodes
      disagree at the top, one with a linear search. */
  lemma EndlessSearch(
      nodeA: string, nodeB: string, sh: StateHash, topA: StateHash, topB: StateHash, depth: Option<uint64>)
    requires depth.Some? ==> topA.sumHash != topB.sumHash && depth.value <= HIGH - MIDDLE
    ensures var a, b := Sparse(nodeA, sh, topA), Sparse(nodeB, sh, topB);
            && ValidHistory(nodeA, a) && ValidHistory(nodeB, b) && NoRollback(a) && NoRollback(b)
            && !SearchEnds(a, b, SumHashes, depth)
  {
    SparseHistory(nodeA, sh, topA);
    SparseHistory(nodeB, sh, topB);
    var a, b := Sparse(nodeA, sh, topA), Sparse(nodeB, sh, topB);
    var cmp := Comparing(a, b, SumHashes);
    if depth.Some? {
      LinearSearchOnRange(cmp, LOW, HIGH, depth.value);
    }
    forall n: nat ensures After(cmp, Begin(LOW, HIGH), n).Running? {
      Circles(cmp, n);
    }
  }
}
