/** The event storage: per node, the statements in the order of their keys, and the scans over them. */
module Events {
  import opened Prelude
  import opened Entities

  /** The statements of one node, oldest first. */
  type History = seq<NodeStatement>

  ghost predicate InTimeOrder(h: History) {
    forall i, j :: 0 <= i < j < |h| ==> h[i].timestamp < h[j].timestamp
  }

  ghost predicate ValidHistory(node: string, h: History) {
    && (forall i :: 0 <= i < |h| ==> h[i].node == node && h[i].WellFormed())
    && InTimeOrder(h)
  }

  /** A statement takes its place by time; one with the same time replaces the old one. */
  function InsertByTime(h: History, s: NodeStatement): (r: History)
    requires InTimeOrder(h)
    ensures InTimeOrder(r)
    ensures forall x :: x in r <==> x == s || (x in h && x.timestamp != s.timestamp)
  {
    if h == [] then [s]
    else
      var init, last := h[..|h| - 1], h[|h| - 1];
      assert h == init + [last];
      if last.timestamp < s.timestamp then h + [s]
      else if last.timestamp == s.timestamp then init + [s]
      else InsertByTime(init, s) + [last]
  }

  // ----- what the scans look for -----

  /** The height of the oldest full statement; a height of zero counts as none. */
  function EarliestHeightOf(h: History): (r: Option<uint64>)
    ensures r.Some? ==> r.value != 0
  {
    if h == [] then None
    else if h[0].Full() then (if h[0].height == 0 then None else Some(h[0].height))
    else EarliestHeightOf(h[1..])
  }

  /** The height of the newest full statement; a height of zero counts as none. */
  function LatestHeightOf(h: History): (r: Option<uint64>)
    ensures r.Some? ==> r.value != 0
  {
    if h == [] then None
    else
      var last := h[|h| - 1];
      if last.Full() then (if last.height == 0 then None else Some(last.height))
      else LatestHeightOf(h[..|h| - 1])
  }

  /** i is the newest full statement of all. */
  ghost predicate IsNewestFull(h: History, i: int) {
    0 <= i < |h| && h[i].Full() && forall j :: i < j < |h| ==> !h[j].Full()
  }

  /** i is the oldest full statement of all. */
  ghost predicate IsOldestFull(h: History, i: int) {
    0 <= i < |h| && h[i].Full() && forall j :: 0 <= j < i ==> !h[j].Full()
  }

  /** The latest height is that of the newest full statement, whatever the statements after it say;
      there is none exactly if no statement is full or the newest full one has height zero. */
  lemma {:induction false} LatestMeaning(h: History, x: uint64)
    ensures LatestHeightOf(h) == Some(x) <==> x != 0 && exists i :: IsNewestFull(h, i) && h[i].height == x
    ensures LatestHeightOf(h).None? <==>
              (forall i :: 0 <= i < |h| ==> !h[i].Full()) || exists i :: IsNewestFull(h, i) && h[i].height == 0
  {
    if h != [] {
      var h', n := h[..|h| - 1], |h| - 1;
      if h[n].Full() {
        assert IsNewestFull(h, n);
        assert forall i :: IsNewestFull(h, i) ==> i == n;
      } else {
        LatestMeaning(h', x);
        assert forall i :: IsNewestFull(h, i) <==> IsNewestFull(h', i);
        assert forall i :: 0 <= i < n ==> h[i] == h'[i];
      }
    }
  }

  /** The earliest height is that of the oldest full statement, and missing as the latest one is. */
  lemma {:induction false} EarliestMeaning(h: History, x: uint64)
    ensures EarliestHeightOf(h) == Some(x) <==> x != 0 && exists i :: IsOldestFull(h, i) && h[i].height == x
    ensures EarliestHeightOf(h).None? <==>
              (forall i :: 0 <= i < |h| ==> !h[i].Full()) || exists i :: IsOldestFull(h, i) && h[i].height == 0
  {
    if h != [] {
      var h' := h[1..];
      if h[0].Full() {
        assert IsOldestFull(h, 0);
        assert forall i :: IsOldestFull(h, i) ==> i == 0;
      } else {
        EarliestMeaning(h', x);
        assert forall i :: 0 <= i < |h'| ==> h'[i] == h[i + 1];
        forall i ensures IsOldestFull(h, i) <==> IsOldestFull(h', i - 1) {
          OldestShifts(h, i);
        }
        assert forall i :: IsOldestFull(h', i) ==> IsOldestFull(h, i + 1);
      }
    }
  }

  lemma OldestShifts(h: History, i: int)
    requires h != [] && !h[0].Full()
    ensures IsOldestFull(h, i) <==> IsOldestFull(h[1..], i - 1)
  {
    var h' := h[1..];
    assert forall j :: 0 <= j < |h'| ==> h'[j] == h[j + 1];
    if IsOldestFull(h', i - 1) {
      forall j | 0 <= j < i ensures !h[j].Full() {
        assert j > 0 ==> h[j] == h'[j - 1];
      }
    }
  }

  /** Newest first, giving up at the first known height below the one asked for. */
  function FullStatementAt(h: History, height: uint64): Option<NodeStatement> {
    if h == [] then None
    else
      var last := h[|h| - 1];
      if last.height != 0 && last.height < height then None
      else if last.FullAt(height) then Some(last)
      else FullStatementAt(h[..|h| - 1], height)
  }

  /** i is the newest full statement at this height. */
  ghost predicate NewestFullAt(h: History, height: uint64, i: int) {
    && 0 <= i < |h| && h[i].FullAt(height)
    && forall j :: i < j < |h| ==> !h[j].FullAt(height)
  }

  /** Nothing newer than i reports a lower height. */
  ghost predicate NothingLowerSince(h: History, height: uint64, i: int) {
    forall j :: i < j < |h| && 0 <= j ==> h[j].height == 0 || h[j].height >= height
  }

  /** The scan succeeds exactly when there is a full statement at the height and nothing after the
      newest one reports a lower height, and then it gives the newest one. */
  lemma {:induction false} ScanMeaning(h: History, height: uint64)
    ensures FullStatementAt(h, height).Some? <==>
              exists i :: NewestFullAt(h, height, i) && NothingLowerSince(h, height, i)
    ensures forall i :: NewestFullAt(h, height, i) && FullStatementAt(h, height).Some? ==>
              FullStatementAt(h, height) == Some(h[i])
  {
    if h != [] {
      var h', n := h[..|h| - 1], |h| - 1;
      ScanMeaning(h', height);
      if h[n].FullAt(height) {
        assert NewestFullAt(h, height, n) && NothingLowerSince(h, height, n);
        assert forall i :: NewestFullAt(h, height, i) ==> i == n;
      } else {
        forall i ensures NewestFullAt(h, height, i) <==> NewestFullAt(h', height, i) {
        }
        forall i | NewestFullAt(h, height, i)
          ensures NothingLowerSince(h, height, i) <==>
                  NothingLowerSince(h', height, i) && (h[n].height == 0 || h[n].height >= height)
        {
        }
      }
    }
  }

  /** Known heights do not fall below an earlier full statement's. */
  ghost predicate NoRollback(h: History) {
    forall i, j :: 0 <= i < j < |h| && h[i].Full() && h[j].height != 0 ==> h[j].height >= h[i].height
  }

  ghost predicate HasFullAt(h: History, height: uint64) {
    exists i :: 0 <= i < |h| && h[i].FullAt(height)
  }

  lemma {:induction false} NewestExists(h: History, height: uint64)
    requires HasFullAt(h, height)
    ensures exists i :: NewestFullAt(h, height, i)
  {
    var h', n := h[..|h| - 1], |h| - 1;
    if h[n].FullAt(height) {
      assert NewestFullAt(h, height, n);
    } else {
      var i :| 0 <= i < |h| && h[i].FullAt(height);
      assert h'[i] == h[i];
      NewestExists(h', height);
      var k :| NewestFullAt(h', height, k);
      assert NewestFullAt(h, height, k);
    }
  }

  /** Without rollbacks the early exit loses nothing: the scan fails only where no full statement is. */
  lemma ScanIsComplete(h: History, height: uint64)
    requires NoRollback(h)
    ensures FullStatementAt(h, height).Some? <==> HasFullAt(h, height)
  {
    ScanMeaning(h, height);
    if HasFullAt(h, height) {
      NewestExists(h, height);
      var i :| NewestFullAt(h, height, i);
      assert NothingLowerSince(h, height, i);
    }
  }

  /** With a rollback it can miss one. */
  lemma RollbackHidesStatement(node: string, sh: StateHash)
    ensures var h := [NodeStatement(node, 1, OK, 5, Some(sh)), NodeStatement(node, 2, Incomplete, 3, None)];
            ValidHistory(node, h) && HasFullAt(h, 5) && FullStatementAt(h, 5) == None
  {
    var h := [NodeStatement(node, 1, OK, 5, Some(sh)), NodeStatement(node, 2, Incomplete, 3, None)];
    assert h[0].FullAt(5) && h[1].height == 3;
  }

  lemma {:induction false} LatestIsFull(h: History)
    requires LatestHeightOf(h).Some?
    ensures HasFullAt(h, LatestHeightOf(h).value)
  {
    var h', n := h[..|h| - 1], |h| - 1;
    if h[n].Full() {
      assert h[n].FullAt(h[n].height);
    } else {
      LatestIsFull(h');
      var i :| 0 <= i < |h'| && h'[i].FullAt(LatestHeightOf(h).value);
      assert h[i] == h'[i];
    }
  }

  /** Without rollbacks the newest full statement is found at its own height. */
  lemma LatestIsFound(h: History)
    requires NoRollback(h) && LatestHeightOf(h).Some?
    ensures FullStatementAt(h, LatestHeightOf(h).value).Some?
  {
    LatestIsFull(h);
    ScanIsComplete(h, LatestHeightOf(h).value);
  }

  lemma FoundMeansFull(h: History, height: uint64)
    requires FullStatementAt(h, height).Some?
    ensures FullStatementAt(h, height).value.FullAt(height)
    ensures FullStatementAt(h, height).value in h
  {
    ScanMeaning(h, height);
  }

  function StateHashAt(h: History, height: uint64): Option<StateHash> {
    match FullStatementAt(h, height)
    case None => None
    case Some(st) => st.stateHash
  }

  /** The state hash is that of the newest full statement at the height, if nothing lower follows it. */
  lemma StateHashMeaning(h: History, height: uint64, sh: StateHash)
    ensures StateHashAt(h, height) == Some(sh) <==>
              exists i :: NewestFullAt(h, height, i) && NothingLowerSince(h, height, i) && h[i].stateHash == Some(sh)
  {
    ScanMeaning(h, height);
  }

  // ----- the storage -----

  type DB = map<string, History>

  ghost predicate ValidDB(db: DB) {
    forall node :: node in db ==> ValidHistory(node, db[node])
  }

  function HistoryIn(db: DB, node: string): History {
    if node in db then db[node] else []
  }

  class Storage {
    var db: DB

    ghost predicate Valid()
      reads this
    {
      ValidDB(db)
    }

    function HistoryOf(node: string): History
      reads this
    {
      HistoryIn(db, node)
    }

    constructor ()
      ensures Valid() && db == map[]
    {
      db := map[];
    }

    method PutEvent(e: Event)
      requires Valid()
      modifies this
      ensures Valid() && e.Statement() in HistoryOf(e.node)
      ensures exists s :: s in HistoryOf(e.node) && s.timestamp == e.ts
      ensures forall s :: s in HistoryOf(e.node) && s.timestamp == e.ts ==>
                && (s.status.OK? <==> e.StateHashEvent?) && (s.status.Unreachable? <==> e.UnreachableEvent?)
                && (s.status.InvalidHeight? <==> e.InvalidHeightEvent?)
                && s.height == (if e.UnreachableEvent? || e.VersionEvent? then 0 else e.h)
                && s.stateHash == if e.StateHashEvent? then e.sh else None
      ensures e.StateHashEvent? && e.sh.Some? ==> HasFullAt(HistoryOf(e.node), e.h)
      ensures forall s :: s in HistoryOf(e.node) <==>
                s == e.Statement() || (s in old(HistoryOf(e.node)) && s.timestamp != e.ts)
      ensures forall node :: node != e.node ==> HistoryOf(node) == old(HistoryOf(node))
    {
      var h, s := HistoryOf(e.node), e.Statement();
      var h' := InsertByTime(h, s);
      forall i | 0 <= i < |h'| ensures h'[i].node == e.node && h'[i].WellFormed() {
        assert h'[i] in h';
      }
      db := db[e.node := h'];
      var i :| 0 <= i < |h'| && h'[i] == s;
      assert s.Full() ==> h'[i].FullAt(s.height);
    }

    method EarliestHeight(node: string) returns (r: Option<uint64>)
      ensures r == EarliestHeightOf(HistoryOf(node))
    {
      var hist, h := HistoryOf(node), 0;
      var k := 0;
      while k < |hist|
        invariant 0 <= k <= |hist| && h == 0
        invariant EarliestHeightOf(hist) == EarliestHeightOf(hist[k..])
      {
        if hist[k].Full() {
          h := hist[k].height;
          break;
        }
        k := k + 1;
      }
      r := if h == 0 then None else Some(h);
    }

    method LatestHeight(node: string) returns (r: Option<uint64>)
      ensures r == LatestHeightOf(HistoryOf(node))
    {
      var hist, h := HistoryOf(node), 0;
      var k := |hist|;
      assert hist[..k] == hist;
      while k > 0
        invariant 0 <= k <= |hist| && h == 0
        invariant LatestHeightOf(hist) == LatestHeightOf(hist[..k])
      {
        k := k - 1;
        assert hist[..k + 1][..k] == hist[..k];
        if hist[k].Full() {
          h := hist[k].height;
          break;
        }
      }
      r := if h == 0 then None else Some(h);
    }

    method GetFullStatementAtHeight(node: string, height: uint64) returns (r: Option<NodeStatement>)
      ensures r == FullStatementAt(HistoryOf(node), height)
    {
      var hist := HistoryOf(node);
      var st: Option<NodeStatement> := None;
      var notFound, notFoundFull := true, true;
      var k := |hist|;
      assert hist[..k] == hist;
      while k > 0
        invariant 0 <= k <= |hist| && notFoundFull
        invariant FullStatementAt(hist, height) == FullStatementAt(hist[..k], height)
      {
        k := k - 1;
        assert hist[..k + 1][..k] == hist[..k];
        st := Some(hist[k]);
        var h := hist[k].height;
        if h != 0 && h < height {
          break;
        }
        notFound := h != height;
        notFoundFull := notFound || hist[k].stateHash.None?;
        if !notFoundFull {
          break;
        }
      }
      // notFound only chooses the wording of the error
      r := if notFoundFull then None else st;
    }

    method StateHashAtHeight(node: string, height: uint64) returns (r: Option<StateHash>)
      ensures r == StateHashAt(HistoryOf(node), height)
    {
      var st := GetFullStatementAtHeight(node, height);
      if st.None? {
        return None;
      }
      FoundMeansFull(HistoryOf(node), height);
      r := Some(st.value.stateHash.value);
    }
  }
}
