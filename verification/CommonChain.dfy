/** The fork finder in terms of the two histories alone: full statements, their heights and hashes. */
module CommonChain {
  import opened Prelude
  import opened Entities
  import opened Events
  import opened HeightSearch
  import opened ForkFinder

  /** What is compared of two state hashes. */
  predicate Alike(aspect: Aspect, x: StateHash, y: StateHash) {
    match aspect
    case BlockIDs => x.blockID == y.blockID
    case SumHashes => x.sumHash == y.sumHash
  }

  /** The state hash the scan finds at a height: that of the newest full statement there, unless something
      newer reports a lower height. */
  ghost predicate HashAt(h: History, height: uint64, sh: StateHash) {
    exists i :: NewestFullAt(h, height, i) && NothingLowerSince(h, height, i) && h[i].stateHash == Some(sh)
  }

  lemma OneHashAt(h: History, height: uint64, sh: StateHash, sh': StateHash)
    requires HashAt(h, height, sh) && HashAt(h, height, sh')
    ensures sh == sh'
  {
    StateHashMeaning(h, height, sh);
    StateHashMeaning(h, height, sh');
  }

  /** Both nodes have such a state hash at the height, and they are alike. */
  ghost predicate Common(a: History, b: History, aspect: Aspect, height: uint64) {
    exists x, y :: HashAt(a, height, x) && HashAt(b, height, y) && Alike(aspect, x, y)
  }

  /** Agreement, disagreement and what is missing, in these terms. */
  lemma ComparisonMeaning(a: History, b: History, aspect: Aspect, height: uint64)
    ensures AgreesAt(a, b, aspect, height) <==> Common(a, b, aspect, height)
    ensures MissingAt(Comparing(a, b, aspect), height) <==>
              (forall x :: !HashAt(a, height, x)) || (forall y :: !HashAt(b, height, y))
  {
    forall x ensures StateHashAt(a, height) == Some(x) <==> HashAt(a, height, x) {
      StateHashMeaning(a, height, x);
    }
    forall y ensures StateHashAt(b, height) == Some(y) <==> HashAt(b, height, y) {
      StateHashMeaning(b, height, y);
    }
    ComparedBy(a, b, aspect, height);
  }

  lemma ComparedBy(a: History, b: History, aspect: Aspect, height: uint64)
    ensures var x, y := StateHashAt(a, height), StateHashAt(b, height);
            && (AgreesAt(a, b, aspect, height) <==> x.Some? && y.Some? && Alike(aspect, x.value, y.value))
            && (MissingAt(Comparing(a, b, aspect), height) <==> x.None? || y.None?)
  {
  }

  /** The overlap: no lower than either oldest full statement and no higher than either newest one. */
  lemma OverlapMeaning(a: History, b: History, x: uint64)
    ensures HaveHeights(a, b) <==>
              && (exists i :: IsOldestFull(a, i) && a[i].height != 0) && (exists i :: IsOldestFull(b, i) && b[i].height != 0)
              && (exists i :: IsNewestFull(a, i) && a[i].height != 0) && (exists i :: IsNewestFull(b, i) && b[i].height != 0)
    ensures HaveHeights(a, b) ==>
              (Start(a, b) <= x <= Stop(a, b) <==>
               && (forall i :: IsOldestFull(a, i) ==> a[i].height <= x) && (forall i :: IsOldestFull(b, i) ==> b[i].height <= x)
               && (forall i :: IsNewestFull(a, i) ==> x <= a[i].height) && (forall i :: IsNewestFull(b, i) ==> x <= b[i].height))
  {
    OldestEnd(a);
    OldestEnd(b);
    NewestEnd(a);
    NewestEnd(b);
  }

  lemma OneOldest(h: History, i: int, j: int)
    requires IsOldestFull(h, i) && IsOldestFull(h, j)
    ensures i == j
  {
  }

  lemma OneNewest(h: History, i: int, j: int)
    requires IsNewestFull(h, i) && IsNewestFull(h, j)
    ensures i == j
  {
  }

  lemma OldestEnd(h: History)
    ensures EarliestHeightOf(h).Some? <==> exists i :: IsOldestFull(h, i) && h[i].height != 0
    ensures EarliestHeightOf(h).Some? ==> forall i :: IsOldestFull(h, i) ==> h[i].height == EarliestHeightOf(h).value
  {
    var x := if EarliestHeightOf(h).Some? then EarliestHeightOf(h).value else 0;
    EarliestMeaning(h, x);
    if k :| IsOldestFull(h, k) {
      forall i | IsOldestFull(h, i) ensures i == k {
        OneOldest(h, i, k);
      }
    }
  }

  lemma NewestEnd(h: History)
    ensures LatestHeightOf(h).Some? <==> exists i :: IsNewestFull(h, i) && h[i].height != 0
    ensures LatestHeightOf(h).Some? ==> forall i :: IsNewestFull(h, i) ==> h[i].height == LatestHeightOf(h).value
  {
    var x := if LatestHeightOf(h).Some? then LatestHeightOf(h).value else 0;
    LatestMeaning(h, x);
    if k :| IsNewestFull(h, k) {
      forall i | IsNewestFull(h, i) ensures i == k {
        OneNewest(h, i, k);
      }
    }
  }

  /** For histories without rollbacks whose nodes agree on a prefix of an overlap below 2^63: the finder
      gives, for every depth, the greatest height of all at which both have a common state hash, and
      nothing exactly if there is none. */
  lemma FindsGreatestOfAll(a: History, b: History, aspect: Aspect, depth: Option<uint64>)
    requires FullHeightsNeverDecrease(a) && FullHeightsNeverDecrease(b) && HaveHeights(a, b)
    requires Start(a, b) <= Stop(a, b) < TWO_TO_63 && AgreeOnPrefix(a, b, aspect)
    ensures SearchEnds(a, b, aspect, depth)
    ensures match LastCommon(a, b, aspect, depth)
            case Found(h, sh) =>
              Common(a, b, aspect, h) && HashAt(a, h, sh) && forall k: uint64 :: k > h ==> !Common(a, b, aspect, k)
            case NoCommonBlocks => forall k: uint64 :: !Common(a, b, aspect, k)
            case NoFullStatement => false
  {
    FindsGreatestCommon(a, b, aspect, depth);
    var o := LastCommon(a, b, aspect, depth);
    forall k: uint64
      ensures Common(a, b, aspect, k) <==> AgreesAt(a, b, aspect, k)
      ensures Common(a, b, aspect, k) ==> Start(a, b) <= k <= Stop(a, b)
    {
      ComparisonMeaning(a, b, aspect, k);
      if Common(a, b, aspect, k) {
        ComparableIsInOverlap(a, b, aspect, k);
      }
    }
    if o.Found? {
      StateHashMeaning(a, o.height, o.stateHash);
    }
  }
}
