/** Searching a range of heights for the last agreement, given how two nodes compare at each height. */
module HeightSearch {
  import opened Prelude

  datatype Comparison = Missing | Same | Different

  type Chains = uint64 -> Comparison

  // ----- the binary search, turn by turn -----

  /** The variables of the loop, or what it ended with: r, or None after meeting a height at which a
      full statement is missing. */
  datatype Search = Running(start: uint64, stop: uint64, r: uint64) | Ended(result: Option<uint64>)

  function Begin(first: uint64, last: uint64): Search {
    Running(first, last, 0)
  }

  /** One turn in 64-bit arithmetic, where the midpoint and its neighbours can wrap. */
  function Turn(cmp: Chains, s: Search): Search {
    match s
    case Ended(_) => s
    case Running(start, stop, r) =>
      if start > stop then Ended(Some(r))
      else
        var middle := Wrap(start + stop) / 2;
        match cmp(middle)
        case Missing => Ended(None)
        case Different => Running(start, Wrap(middle - 1), Wrap(middle - 1))
        case Same => Running(Wrap(middle + 1), stop, middle)
  }

  function After(cmp: Chains, s: Search, n: nat): Search {
    if n == 0 then s else Turn(cmp, After(cmp, s, n - 1))
  }

  ghost predicate EndsWith(cmp: Chains, s: Search, result: Option<uint64>) {
    exists n: nat :: After(cmp, s, n) == Ended(result)
  }

  ghost predicate Ends(cmp: Chains, s: Search) {
    exists n: nat :: After(cmp, s, n).Ended?
  }

  lemma {:induction false} EndIsFinal(cmp: Chains, s: Search, m: nat, n: nat)
    requires m <= n && After(cmp, s, m).Ended?
    ensures After(cmp, s, n) == After(cmp, s, m)
  {
    if m < n {
      EndIsFinal(cmp, s, m, n - 1);
    }
  }

  /** A search has at most one result. */
  lemma ResultIsUnique(cmp: Chains, s: Search, x: Option<uint64>, y: Option<uint64>)
    requires EndsWith(cmp, s, x) && EndsWith(cmp, s, y)
    ensures x == y
  {
    var m: nat :| After(cmp, s, m) == Ended(x);
    var n: nat :| After(cmp, s, n) == Ended(y);
    EndIsFinal(cmp, s, Min(m, n), Max(m, n));
  }

  // ----- the linear search -----

  /** Agreement at distance i below the top, modulo 2^64. */
  predicate SameAtDistance(cmp: Chains, stop: uint64, i: uint64) {
    cmp(Wrap(stop - i)).Same?
  }

  /** The distances the linear search may visit. */
  predicate InReach(start: uint64, stop: uint64, depth: uint64, i: uint64) {
    i < depth && Wrap(stop - start) > i
  }

  /** The first height from the top, at distance i or more, at which the nodes agree. */
  function LinearSearch(cmp: Chains, start: uint64, stop: uint64, depth: uint64, i: uint64): Option<uint64>
    decreases Max(0, depth - i)
  {
    if !InReach(start, stop, depth, i) then None
    else if SameAtDistance(cmp, stop, i) then Some(Wrap(stop - i))
    else LinearSearch(cmp, start, stop, depth, i + 1)
  }

  // ----- what they find -----

  /** The midpoint stays between the ends exactly when their sum does not overflow. */
  lemma MidpointInRange(start: uint64, stop: uint64)
    requires start <= stop
    ensures start <= Wrap(start + stop) / 2 <= stop <==> start + stop <= MAX_UINT64
  {
    if start + stop > MAX_UINT64 {
      assert Wrap(start + stop) == start + stop - (MAX_UINT64 + 1);
    }
  }

  ghost predicate SameAt(cmp: Chains, h: int) {
    0 <= h <= MAX_UINT64 && cmp(h).Same?
  }

  ghost predicate DifferentAt(cmp: Chains, h: int) {
    0 <= h <= MAX_UINT64 && cmp(h).Different?
  }

  ghost predicate MissingAt(cmp: Chains, h: int) {
    0 <= h <= MAX_UINT64 && cmp(h).Missing?
  }

  /** The lower end of the search has agreement right below it, the upper end disagreement right
      above, unless they have not moved. */
  ghost predicate Bracketed(cmp: Chains, first: uint64, last: uint64, start: uint64, stop: uint64) {
    && 1 <= first <= start && stop <= last < TWO_TO_63 && start <= stop + 1
    && (start > first ==> SameAt(cmp, start - 1))
    && (stop < last ==> DifferentAt(cmp, stop + 1))
  }

  /** What a finished search over first..last has found. */
  ghost predicate EndsAtEdge(cmp: Chains, first: uint64, last: uint64, r: int) {
    && first - 1 <= r <= last
    && (r >= first ==> SameAt(cmp, r))
    && (r < last ==> DifferentAt(cmp, r + 1))
  }

  /** One that gives up has met a height in the range at which a statement is missing. */
  ghost predicate MissesOne(cmp: Chains, first: uint64, last: uint64) {
    exists h :: first <= h <= last && MissingAt(cmp, h)
  }

  ghost predicate RightResult(cmp: Chains, first: uint64, last: uint64, result: Option<uint64>) {
    match result
    case Some(r) => EndsAtEdge(cmp, first, last, r)
    case None => MissesOne(cmp, first, last)
  }

  ghost predicate OnTrack(cmp: Chains, first: uint64, last: uint64, s: Search) {
    match s
    case Running(start, stop, r) => Bracketed(cmp, first, last, start, stop) && (start <= stop || r == stop)
    case Ended(result) => RightResult(cmp, first, last, result)
  }

  /** How many turns are still possible. */
  function Left(s: Search): nat {
    match s
    case Running(start, stop, _) => if start <= stop then stop - start + 2 else 1
    case Ended(_) => 0
  }

  /** Below 2^63 nothing wraps: a turn keeps the bracket and narrows it. */
  lemma TurnKeeps(cmp: Chains, first: uint64, last: uint64, s: Search)
    requires OnTrack(cmp, first, last, s)
    ensures OnTrack(cmp, first, last, Turn(cmp, s))
    ensures s.Running? ==> Left(Turn(cmp, s)) < Left(s)
  {
    if s.Running? && s.start <= s.stop {
      var middle := Wrap(s.start + s.stop) / 2;
      assert Wrap(s.start + s.stop) == s.start + s.stop && s.start <= middle <= s.stop;
      if cmp(middle).Missing? {
        assert MissingAt(cmp, middle);
      } else if cmp(middle).Different? {
        assert DifferentAt(cmp, (middle - 1) + 1);
      } else {
        assert SameAt(cmp, (middle + 1) - 1);
      }
    }
  }

  lemma {:induction false} RunKeeps(cmp: Chains, first: uint64, last: uint64, s: Search, n: nat)
    requires OnTrack(cmp, first, last, s)
    ensures OnTrack(cmp, first, last, After(cmp, s, n))
    ensures After(cmp, s, n).Running? ==> Left(After(cmp, s, n)) + n <= Left(s)
  {
    if n > 0 {
      RunKeeps(cmp, first, last, s, n - 1);
      TurnKeeps(cmp, first, last, After(cmp, s, n - 1));
    }
  }

  /** With no assumption on how the chains agree: below 2^63 every search over first..last ends, with
      agreement at its result and disagreement right above it as far as these lie in the range, or
      with a height in the range at which a statement is missing. */
  lemma BinarySearchMeaning(cmp: Chains, first: uint64, last: uint64) returns (result: Option<uint64>)
    requires 1 <= first <= last < TWO_TO_63
    ensures EndsWith(cmp, Begin(first, last), result) && RightResult(cmp, first, last, result)
  {
    var s := Begin(first, last);
    var n := Left(s) + 1;
    RunKeeps(cmp, first, last, s, n);
    result := After(cmp, s, n).result;
  }

  // ----- from 2^63 on -----

  ghost predicate NeverDifferent(cmp: Chains) {
    forall h :: !cmp(h).Different?
  }

  /** A midpoint is below 2^63 whatever wraps, so while no disagreement is met the search does not get
      past an upper end at 2^63 or above. */
  lemma {:induction false} NeverPasses(cmp: Chains, first: uint64, last: uint64, n: nat)
    requires NeverDifferent(cmp) && first <= last && TWO_TO_63 <= last
    ensures match After(cmp, Begin(first, last), n)
            case Running(start, stop, _) => start <= stop == last
            case Ended(result) => result == None
  {
    if n > 0 {
      NeverPasses(cmp, first, last, n - 1);
      var s := After(cmp, Begin(first, last), n - 1);
      if s.Running? {
        assert Wrap(s.start + s.stop) / 2 < TWO_TO_63;
      }
    }
  }

  function Everywhere(): Chains {
    (h: uint64) => Same
  }

  lemma {:induction false} AgreementEverywhereNeverEnds(first: uint64, last: uint64, n: nat)
    requires first <= last && TWO_TO_63 <= last
    ensures After(Everywhere(), Begin(first, last), n).Running?
  {
    if n > 0 {
      AgreementEverywhereNeverEnds(first, last, n - 1);
      NeverPasses(Everywhere(), first, last, n - 1);
    }
  }

  /** The search ends, and with the right result. */
  ghost predicate Reliable(cmp: Chains, first: uint64, last: uint64) {
    exists result :: EndsWith(cmp, Begin(first, last), result) && RightResult(cmp, first, last, result)
  }

  /** Exactly below 2^63 the binary search can be relied on however the nodes compare. */
  lemma ReliableExactlyBelow63(first: uint64, last: uint64)
    requires 1 <= first <= last
    ensures (forall cmp :: Reliable(cmp, first, last)) <==> last < TWO_TO_63
  {
    if last < TWO_TO_63 {
      forall cmp ensures Reliable(cmp, first, last) {
        var result := BinarySearchMeaning(cmp, first, last);
      }
    } else {
      assert !Reliable(Everywhere(), first, last) by {
        forall n: nat ensures After(Everywhere(), Begin(first, last), n).Running? {
          AgreementEverywhereNeverEnds(first, last, n);
        }
      }
    }
  }

  /** A turn in which the sum of the ends exceeds 64 bits. */
  predicate Overflows(s: Search) {
    s.Running? && s.start <= s.stop && s.start + s.stop > MAX_UINT64
  }

  lemma {:induction false} ClimbsUnlessOverflow(first: uint64, last: uint64, n: nat)
    requires first <= last && TWO_TO_63 <= last
    requires forall k: nat :: k < n ==> !Overflows(After(Everywhere(), Begin(first, last), k))
    ensures After(Everywhere(), Begin(first, last), n).Running?
    ensures After(Everywhere(), Begin(first, last), n).start >= first + n
  {
    if n > 0 {
      ClimbsUnlessOverflow(first, last, n - 1);
      NeverPasses(Everywhere(), first, last, n - 1);
      var s := After(Everywhere(), Begin(first, last), n - 1);
      assert !Overflows(s);
      MidpointInRange(s.start, s.stop);
    }
  }

  ghost predicate NeverOverflows(cmp: Chains, first: uint64, last: uint64) {
    forall n: nat :: !Overflows(After(cmp, Begin(first, last), n))
  }

  /** And exactly below 2^63 no turn of any search over first..last overflows. */
  lemma NoOverflowExactlyBelow63(first: uint64, last: uint64)
    requires 1 <= first <= last
    ensures (forall cmp :: NeverOverflows(cmp, first, last)) <==> last < TWO_TO_63
  {
    if last < TWO_TO_63 {
      forall cmp ensures NeverOverflows(cmp, first, last) {
        forall n: nat ensures !Overflows(After(cmp, Begin(first, last), n)) {
          RunKeeps(cmp, first, last, Begin(first, last), n);
        }
      }
    } else if NeverOverflows(Everywhere(), first, last) {
      ClimbsUnlessOverflow(first, last, last);
      NeverPasses(Everywhere(), first, last, last);
    }
  }

  // ----- what the linear search finds -----

  /** The linear search gives the first agreement among the heights it visits, or there is none. */
  lemma {:induction false} LinearSearchMeaning(
      cmp: Chains, start: uint64, stop: uint64, depth: uint64, i: uint64) returns (j: uint64)
    ensures var v := LinearSearch(cmp, start, stop, depth, i);
            if v.Some? then
              && i <= j && InReach(start, stop, depth, j) && SameAtDistance(cmp, stop, j) && v.value == Wrap(stop - j)
              && forall k: uint64 :: i <= k < j ==> !SameAtDistance(cmp, stop, k)
            else
              forall k: uint64 :: i <= k && InReach(start, stop, depth, k) ==> !SameAtDistance(cmp, stop, k)
    decreases Max(0, depth - i)
  {
    j := i;
    if InReach(start, stop, depth, i) && !SameAtDistance(cmp, stop, i) {
      j := LinearSearchMeaning(cmp, start, stop, depth, i + 1);
    }
  }

  /** On a proper range: every height above the one found, down to it, disagrees or is missing. */
  lemma LinearSearchOnRange(cmp: Chains, start: uint64, stop: uint64, depth: uint64)
    requires start <= stop
    ensures var v := LinearSearch(cmp, start, stop, depth, 0);
            v.Some? ==>
              && start < v.value <= stop && SameAt(cmp, v.value) && v.value > stop - depth
              && forall h :: v.value < h <= stop ==> !SameAt(cmp, h)
    ensures LinearSearch(cmp, start, stop, depth, 0).None? ==>
              forall h :: start < h <= stop && h > stop - depth ==> !SameAt(cmp, h)
  {
    var j := LinearSearchMeaning(cmp, start, stop, depth, 0);
    var v := LinearSearch(cmp, start, stop, depth, 0);
    forall h | start < h <= stop && h > stop - depth && (v.Some? ==> h > v.value) ensures !SameAt(cmp, h) {
      var k: uint64 := stop - h;
      assert InReach(start, stop, depth, k) && !SameAtDistance(cmp, stop, k);
    }
  }
}
