/** FindAllStatementsOnCommonHeight: the statements of many nodes at one height they all reached. */
module CommonHeight {
  import opened Prelude
  import opened Entities
  import opened Events

  const DEPTH_COMMON_HEIGHT_SEARCH := 50
  const HEIGHT_DIFFERENCE := 50

  function Latest(db: DB, node: string): Option<uint64> {
    LatestHeightOf(HistoryIn(db, node))
  }

  predicate Found(db: DB, node: string, h: uint64) {
    FullStatementAt(HistoryIn(db, node), h).Some?
  }

  // ----- the entries of the three kinds of list -----

  function UnreachableEntry(node: string): NodeStatement {
    NodeStatement(node, 0, Unreachable, 0, None)
  }

  function HeightEntry(node: string, h: uint64): NodeStatement {
    NodeStatement(node, 0, OK, h, None)
  }

  function LatestEntry(db: DB, node: string): NodeStatement {
    match Latest(db, node)
    case None => UnreachableEntry(node)
    case Some(h) => HeightEntry(node, h)
  }

  function SpecificEntry(db: DB, h: uint64, node: string): NodeStatement {
    if Found(db, node, h) then HeightEntry(node, h) else UnreachableEntry(node)
  }

  function ReportEntry(db: DB, h: uint64, node: string): NodeStatement {
    if Latest(db, node).Some? && Found(db, node, h) then FullStatementAt(HistoryIn(db, node), h).value
    else UnreachableEntry(node)
  }

  function LatestEntries(db: DB): string -> NodeStatement {
    n => LatestEntry(db, n)
  }

  function SpecificEntries(db: DB, h: uint64): string -> NodeStatement {
    n => SpecificEntry(db, h, n)
  }

  function ReportEntries(db: DB, h: uint64): string -> NodeStatement {
    n => ReportEntry(db, h, n)
  }

  /** The list has one entry for each of the nodes, in some order. */
  ghost predicate Lists(entries: seq<NodeStatement>, nodes: set<string>, entry: string -> NodeStatement) {
    && (forall i, j :: 0 <= i < j < |entries| ==> entries[i].node != entries[j].node)
    && (forall i :: 0 <= i < |entries| ==> entries[i].node in nodes && entries[i] == entry(entries[i].node))
    && (forall n :: n in nodes ==> exists i :: 0 <= i < |entries| && entries[i].node == n)
  }

  lemma ListGrows(entries: seq<NodeStatement>, nodes: set<string>, entry: string -> NodeStatement, n: string)
    requires Lists(entries, nodes, entry) && n !in nodes && entry(n).node == n
    ensures Lists(entries + [entry(n)], nodes + {n}, entry)
  {
    var longer := entries + [entry(n)];
    assert longer[|entries|] == entry(n);
    forall m | m in nodes + {n} ensures exists i :: 0 <= i < |longer| && longer[i].node == m {
      if m != n {
        var i :| 0 <= i < |entries| && entries[i].node == m;
        assert longer[i] == entries[i];
      }
    }
  }

  // ----- the first pass: who is reachable, and how far apart -----

  ghost predicate IsMinLatest(db: DB, nodes: set<string>, m: int) {
    && (forall n :: n in nodes && Latest(db, n).Some? ==> m <= Latest(db, n).value)
    && (m == MAX_UINT64 || exists n :: n in nodes && Latest(db, n) == Some(m))
  }

  ghost predicate IsMaxLatest(db: DB, nodes: set<string>, m: int) {
    && (forall n :: n in nodes && Latest(db, n).Some? ==> Latest(db, n).value <= m)
    && (m == 0 || exists n :: n in nodes && Latest(db, n) == Some(m))
  }

  lemma LatestGrows(db: DB, nodes: set<string>, n: string, lo: uint64, hi: uint64)
    requires IsMinLatest(db, nodes, lo) && IsMaxLatest(db, nodes, hi)
    ensures IsMinLatest(db, nodes + {n}, if Latest(db, n).Some? then Min(lo, Latest(db, n).value) else lo)
    ensures IsMaxLatest(db, nodes + {n}, if Latest(db, n).Some? then Max(hi, Latest(db, n).value) else hi)
  {
    assert n in nodes + {n};
    if m :| m in nodes && Latest(db, m) == Some(lo) {
      assert m in nodes + {n};
    }
    if m :| m in nodes && Latest(db, m) == Some(hi) {
      assert m in nodes + {n};
    }
  }

  ghost predicate MarksReachable(db: DB, nodesList: map<string, bool>) {
    forall n :: n in nodesList ==> nodesList[n] == Latest(db, n).Some?
  }

  /** What the first pass knows of the nodes it has visited. */
  ghost predicate FirstPass(db: DB, visited: set<string>, entries: seq<NodeStatement>, lo: int, hi: int) {
    Lists(entries, visited, LatestEntries(db)) && IsMinLatest(db, visited, lo) && IsMaxLatest(db, visited, hi)
  }

  method VisitLatest(s: Storage, node: string, ghost visited: set<string>, entries: seq<NodeStatement>, lo: uint64, hi: uint64)
    returns (reachable: bool, entries': seq<NodeStatement>, lo': uint64, hi': uint64)
    requires FirstPass(s.db, visited, entries, lo, hi) && node !in visited
    ensures FirstPass(s.db, visited + {node}, entries', lo', hi') && reachable == Latest(s.db, node).Some?
  {
    ListGrows(entries, visited, LatestEntries(s.db), node);
    LatestGrows(s.db, visited, node, lo, hi);
    var h := s.LatestHeight(node);
    if h.None? {
      return false, entries + [UnreachableEntry(node)], lo, hi;
    }
    lo', hi' := lo, hi;
    if h.value < lo {
      lo' := h.value;
    }
    if h.value > hi {
      hi' := h.value;
    }
    reachable, entries' := true, entries + [HeightEntry(node, h.value)];
  }

  ghost predicate PartlyMarked(db: DB, nodes: set<string>, rest: set<string>, nodesList: map<string, bool>) {
    && nodesList.Keys == nodes
    && forall n :: n in nodes ==> nodesList[n] == (n in rest || Latest(db, n).Some?)
  }

  lemma MarkOne(db: DB, nodes: set<string>, rest: set<string>, nodesList: map<string, bool>, node: string)
    requires PartlyMarked(db, nodes, rest, nodesList) && node in rest && rest <= nodes
    ensures PartlyMarked(db, nodes, rest - {node},
                         if Latest(db, node).Some? then nodesList else nodesList[node := false])
  {
  }

  lemma VisitedOne(
      db: DB, nodes: set<string>, rest: set<string>, nodesList: map<string, bool>, node: string,
      entries: seq<NodeStatement>, lo: uint64, hi: uint64)
    requires PartlyMarked(db, nodes, rest, nodesList) && node in rest && rest <= nodes
    requires FirstPass(db, (nodes - rest) + {node}, entries, lo, hi)
    ensures PartlyMarked(db, nodes, rest - {node},
                         if Latest(db, node).Some? then nodesList else nodesList[node := false])
    ensures FirstPass(db, nodes - (rest - {node}), entries, lo, hi)
  {
    MarkOne(db, nodes, rest, nodesList, node);
    assert nodes - (rest - {node}) == (nodes - rest) + {node};
  }

  method FindMinCommonLatestHeight(s: Storage, list: map<string, bool>)
    returns (nodesHeights: seq<NodeStatement>, nodesList: map<string, bool>, minHeight: uint64, maxHeight: uint64)
    requires forall n :: n in list ==> list[n]
    ensures nodesList.Keys == list.Keys && MarksReachable(s.db, nodesList)
    ensures FirstPass(s.db, list.Keys, nodesHeights, minHeight, maxHeight)
  {
    nodesHeights, nodesList, minHeight, maxHeight := [], list, MAX_UINT64, 0;
    var rest := list.Keys;
    while rest != {}
      invariant rest <= list.Keys && PartlyMarked(s.db, list.Keys, rest, nodesList)
      invariant FirstPass(s.db, list.Keys - rest, nodesHeights, minHeight, maxHeight)
    {
      var node :| node in rest;
      var reachable;
      reachable, nodesHeights, minHeight, maxHeight :=
        VisitLatest(s, node, list.Keys - rest, nodesHeights, minHeight, maxHeight);
      VisitedOne(s.db, list.Keys, rest, nodesList, node, nodesHeights, minHeight, maxHeight);
      if !reachable {
        nodesList := nodesList[node := false];
      }
      rest := rest - {node};
    }
    assert list.Keys - rest == list.Keys;
  }

  method FindMinCommonSpecificHeight(s: Storage, nodesList: map<string, bool>, h: uint64)
    returns (nodesHeights: seq<NodeStatement>)
    ensures Lists(nodesHeights, nodesList.Keys, SpecificEntries(s.db, h))
  {
    ghost var db := s.db;
    ghost var entry := SpecificEntries(db, h);
    nodesHeights := [];
    var rest := nodesList.Keys;
    while rest != {}
      invariant rest <= nodesList.Keys
      invariant Lists(nodesHeights, nodesList.Keys - rest, entry)
    {
      var node :| node in rest;
      ListGrows(nodesHeights, nodesList.Keys - rest, entry, node);
      assert nodesList.Keys - (rest - {node}) == (nodesList.Keys - rest) + {node};
      rest := rest - {node};
      var found := s.GetFullStatementAtHeight(node, h);
      nodesHeights := nodesHeights + [if found.None? then UnreachableEntry(node) else HeightEntry(node, h)];
    }
    assert nodesList.Keys - rest == nodesList.Keys;
  }

  method FindStatementsOnHeight(s: Storage, nodesList: map<string, bool>, h: uint64)
    returns (statements: seq<NodeStatement>)
    requires s.Valid() && MarksReachable(s.db, nodesList)
    ensures Lists(statements, nodesList.Keys, ReportEntries(s.db, h))
  {
    ghost var db := s.db;
    ghost var entry := ReportEntries(db, h);
    statements := [];
    var rest := nodesList.Keys;
    while rest != {}
      invariant rest <= nodesList.Keys
      invariant Lists(statements, nodesList.Keys - rest, entry)
    {
      var node :| node in rest;
      var st := s.GetFullStatementAtHeight(node, h);
      if st.Some? {
        FoundMeansFull(HistoryIn(db, node), h);
      }
      ListGrows(statements, nodesList.Keys - rest, entry, node);
      assert nodesList.Keys - (rest - {node}) == (nodesList.Keys - rest) + {node};
      rest := rest - {node};
      var report := if nodesList[node] && st.Some? && st.value.height == h then st.value else UnreachableEntry(node);
      statements := statements + [report];
    }
    assert nodesList.Keys - rest == nodesList.Keys;
  }

  // ----- the search for the height -----

  ghost predicate AllLatestAt(db: DB, nodes: set<string>, h: uint64) {
    forall n :: n in nodes && Latest(db, n).Some? ==> Latest(db, n) == Some(h)
  }

  ghost predicate AllFoundAt(db: DB, nodes: set<string>, h: int) {
    0 <= h <= MAX_UINT64 && forall n :: n in nodes && Latest(db, n).Some? ==> Found(db, n, h)
  }

  /** The lowest height the search may end at. */
  function Floor(top: uint64): uint64 {
    Max(0, top - (DEPTH_COMMON_HEIGHT_SEARCH - 1))
  }

  ghost function FoundHeights(db: DB, nodes: set<string>): int -> bool {
    h => AllFoundAt(db, nodes, h)
  }

  /** The height the loop settles on, for a minimum latest height of top; atTop tells whether all
      latest heights are equal, and common at which heights all nodes are found. */
  ghost predicate Settled(atTop: bool, common: int -> bool, top: uint64, h: uint64) {
    if atTop then h == top
    else
      && Floor(top) <= h <= top
      && (forall k :: h < k <= top ==> !common(k))
      && (common(h) || h == Floor(top))
  }

  ghost predicate SettledFor(db: DB, nodes: set<string>, top: uint64, h: uint64) {
    Settled(AllLatestAt(db, nodes, top), FoundHeights(db, nodes), top, h)
  }

  /** Whether some reachable node's entry is at another height. */
  predicate Mismatch(nodesHeights: seq<NodeStatement>, nodesList: map<string, bool>, h: uint64)
    requires forall i :: 0 <= i < |nodesHeights| ==> nodesHeights[i].node in nodesList
  {
    exists i :: 0 <= i < |nodesHeights| && nodesHeights[i].height != h && nodesList[nodesHeights[i].node]
  }

  method SameHeight(nodesHeights: seq<NodeStatement>, nodesList: map<string, bool>, h: uint64) returns (same: bool)
    requires forall i :: 0 <= i < |nodesHeights| ==> nodesHeights[i].node in nodesList
    ensures same <==> !Mismatch(nodesHeights, nodesList, h)
  {
    same := true;
    for k := 0 to |nodesHeights|
      invariant same
      invariant forall i :: 0 <= i < k ==> nodesHeights[i].height == h || !nodesList[nodesHeights[i].node]
    {
      if nodesHeights[k].height != h && nodesList[nodesHeights[k].node] {
        same := false;
        return;
      }
    }
  }

  lemma MismatchOfLatest(db: DB, entries: seq<NodeStatement>, nodesList: map<string, bool>, h: uint64)
    requires MarksReachable(db, nodesList) && Lists(entries, nodesList.Keys, LatestEntries(db))
    ensures Mismatch(entries, nodesList, h) <==> !AllLatestAt(db, nodesList.Keys, h)
  {
    forall n | n in nodesList && Latest(db, n).Some? && Latest(db, n) != Some(h)
      ensures Mismatch(entries, nodesList, h)
    {
      var i :| 0 <= i < |entries| && entries[i].node == n;
    }
  }

  lemma MismatchOfSpecific(db: DB, entries: seq<NodeStatement>, nodesList: map<string, bool>, h: uint64)
    requires MarksReachable(db, nodesList) && Lists(entries, nodesList.Keys, SpecificEntries(db, h))
    ensures Mismatch(entries, nodesList, h) <==> h != 0 && !AllFoundAt(db, nodesList.Keys, h)
  {
    forall n | n in nodesList && Latest(db, n).Some? && !Found(db, n, h) && h != 0
      ensures Mismatch(entries, nodesList, h)
    {
      var i :| 0 <= i < |entries| && entries[i].node == n;
    }
  }

  /** The loop before its i-th turn: all heights above h are out. */
  ghost predicate Searching(atTop: bool, common: int -> bool, top: uint64, i: int, h: uint64) {
    && h <= top && (forall k :: h < k <= top ==> !common(k))
    && if i == 0 then h == top else !atTop && h == top - (i - 1)
  }

  lemma SearchGoesOn(atTop: bool, common: int -> bool, top: uint64, i: nat, h: uint64)
    requires Searching(atTop, common, top, i, h) && !atTop
    requires i > 0 ==> h > 0 && !common(h)
    ensures Searching(atTop, common, top, i + 1, if i > 0 then h - 1 else h)
  {
  }

  /** What the entries tell in the i-th turn. */
  ghost predicate Informs(
      db: DB, nodes: set<string>, i: int, h: uint64, entries: seq<NodeStatement>)
  {
    Lists(entries, nodes, if i == 0 then LatestEntries(db) else SpecificEntries(db, h))
  }

  /** Whether the i-th turn is the last. */
  ghost predicate Stops(db: DB, nodes: set<string>, i: nat, h: uint64) {
    if i == 0 then AllLatestAt(db, nodes, h) else h == 0 || FoundHeights(db, nodes)(h)
  }

  /** A mismatch rules out the height. The decrement that follows never goes below zero, because at
      zero no entry mismatches. */
  lemma MismatchTells(db: DB, nodesList: map<string, bool>, i: nat, h: uint64, entries: seq<NodeStatement>)
    requires MarksReachable(db, nodesList) && Informs(db, nodesList.Keys, i, h, entries)
    ensures forall j :: 0 <= j < |entries| ==> entries[j].node in nodesList
    ensures !Mismatch(entries, nodesList, h) <==> Stops(db, nodesList.Keys, i, h)
  {
    if i == 0 {
      MismatchOfLatest(db, entries, nodesList, h);
    } else {
      MismatchOfSpecific(db, entries, nodesList, h);
    }
  }

  /** The comparison of the i-th turn. */
  method AllAtSameHeight(ghost db: DB, nodesList: map<string, bool>, i: nat, h: uint64, entries: seq<NodeStatement>)
    returns (same: bool)
    requires MarksReachable(db, nodesList) && Informs(db, nodesList.Keys, i, h, entries)
    ensures same <==> Stops(db, nodesList.Keys, i, h)
  {
    MismatchTells(db, nodesList, i, h, entries);
    same := SameHeight(entries, nodesList, h);
  }

  lemma SearchEnds(atTop: bool, common: int -> bool, top: uint64, i: nat, h: uint64)
    requires Searching(atTop, common, top, i, h)
    requires i <= DEPTH_COMMON_HEIGHT_SEARCH
    requires if i == 0 then atTop else i == DEPTH_COMMON_HEIGHT_SEARCH || h == 0 || common(h)
    ensures Settled(atTop, common, top, h)
  {
  }

  /** The search for this database and these nodes. */
  ghost predicate SearchingFor(db: DB, nodes: set<string>, top: uint64, i: nat, h: uint64) {
    Searching(AllLatestAt(db, nodes, top), FoundHeights(db, nodes), top, i, h)
  }

  lemma StopMeansSettled(db: DB, nodes: set<string>, top: uint64, i: nat, h: uint64)
    requires SearchingFor(db, nodes, top, i, h) && i <= DEPTH_COMMON_HEIGHT_SEARCH
    requires i == DEPTH_COMMON_HEIGHT_SEARCH || Stops(db, nodes, i, h)
    ensures SettledFor(db, nodes, top, h)
  {
    SearchEnds(AllLatestAt(db, nodes, top), FoundHeights(db, nodes), top, i, h);
  }

  lemma StepDown(db: DB, nodes: set<string>, top: uint64, i: nat, h: uint64)
    requires SearchingFor(db, nodes, top, i, h) && !Stops(db, nodes, i, h)
    ensures i > 0 ==> h > 0
    ensures SearchingFor(db, nodes, top, i + 1, if i > 0 then h - 1 else h)
  {
    SearchGoesOn(AllLatestAt(db, nodes, top), FoundHeights(db, nodes), top, i, h);
  }

  method GoDown(s: Storage, ghost db: DB, nodesList: map<string, bool>, ghost top: uint64, i: nat, h: uint64)
    returns (h': uint64, entries: seq<NodeStatement>)
    requires s.db == db && SearchingFor(db, nodesList.Keys, top, i, h) && !Stops(db, nodesList.Keys, i, h)
    ensures SearchingFor(db, nodesList.Keys, top, i + 1, h')
    ensures Informs(db, nodesList.Keys, i + 1, h', entries)
  {
    StepDown(db, nodesList.Keys, top, i, h);
    h' := h;
    if i > 0 {
      h' := h - 1;
    }
    entries := FindMinCommonSpecificHeight(s, nodesList, h');
  }

  method SettleHeight(s: Storage, latest: seq<NodeStatement>, nodesList: map<string, bool>, top: uint64)
    returns (minHeight: uint64)
    requires MarksReachable(s.db, nodesList)
    requires Informs(s.db, nodesList.Keys, 0, top, latest)
    ensures SettledFor(s.db, nodesList.Keys, top, minHeight)
  {
    ghost var db, nodes := s.db, nodesList.Keys;
    minHeight := top;
    var nodesHeights := latest;
    var i := 0;
    while i < DEPTH_COMMON_HEIGHT_SEARCH
      invariant 0 <= i <= DEPTH_COMMON_HEIGHT_SEARCH && s.db == db
      invariant SearchingFor(db, nodes, top, i, minHeight)
      invariant Informs(db, nodes, i, minHeight, nodesHeights)
    {
      var sameHeight := AllAtSameHeight(db, nodesList, i, minHeight, nodesHeights);
      assert s.db == db;
      if sameHeight {
        break;
      }
      minHeight, nodesHeights := GoDown(s, db, nodesList, top, i, minHeight);
      assert s.db == db;
      i := i + 1;
    }
    StopMeansSettled(db, nodes, top, i, minHeight);
  }

  datatype Answer = BigHeightDifference(heights: seq<NodeStatement>) | Statements(statements: seq<NodeStatement>)

  ghost predicate TooFarApart(db: DB, nodes: set<string>) {
    exists m, n :: m in nodes && n in nodes && Latest(db, m).Some? && Latest(db, n).Some?
                && Latest(db, n).value - Latest(db, m).value > HEIGHT_DIFFERENCE
  }

  lemma SpreadMeaning(db: DB, nodes: set<string>, lo: uint64, hi: uint64)
    requires IsMinLatest(db, nodes, lo) && IsMaxLatest(db, nodes, hi)
    ensures Wrap(hi - lo) > HEIGHT_DIFFERENCE <==> TooFarApart(db, nodes)
  {
    if n :| n in nodes && Latest(db, n).Some? {
      assert lo <= Latest(db, n).value <= hi;
      if hi - lo > HEIGHT_DIFFERENCE {
        assert lo != MAX_UINT64 && hi != 0;
        var a :| a in nodes && Latest(db, a) == Some(lo);
        var b :| b in nodes && Latest(db, b) == Some(hi);
      }
    }
  }

  /** The answer for a set of nodes: either two latest heights are more than fifty apart, or one entry
      per node, reporting at the settled height. */
  ghost predicate IsAnswer(db: DB, nodes: set<string>, answer: Answer) {
    match answer
    case BigHeightDifference(heights) =>
      TooFarApart(db, nodes) && Lists(heights, nodes, LatestEntries(db))
    case Statements(sts) =>
      && !TooFarApart(db, nodes)
      && exists top, h: uint64 :: IsMinLatest(db, nodes, top) && SettledFor(db, nodes, top, h)
           && Lists(sts, nodes, ReportEntries(db, h))
  }

  method AllReachable(nodes: seq<string>) returns (list: map<string, bool>)
    ensures list.Keys == (set n | n in nodes) && forall n :: n in list ==> list[n]
  {
    list := map[];
    for k := 0 to |nodes|
      invariant list.Keys == (set n | n in nodes[..k]) && forall n :: n in list ==> list[n]
    {
      list := list[nodes[k] := true];
    }
    assert nodes[..|nodes|] == nodes;
  }

  lemma Answered(db: DB, nodes: set<string>, sts: seq<NodeStatement>, top: uint64, h: uint64)
    requires !TooFarApart(db, nodes) && IsMinLatest(db, nodes, top) && SettledFor(db, nodes, top, h)
    requires Lists(sts, nodes, ReportEntries(db, h))
    ensures IsAnswer(db, nodes, Statements(sts))
  {
  }

  method FindAllStatementsOnCommonHeight(s: Storage, nodes: seq<string>) returns (answer: Answer)
    requires s.Valid()
    ensures IsAnswer(s.db, (set n | n in nodes), answer)
  {
    ghost var all := set n | n in nodes;
    var list := AllReachable(nodes);
    var nodesHeights, nodesList, minHeight, maxHeight := FindMinCommonLatestHeight(s, list);
    assert list.Keys == all;
    SpreadMeaning(s.db, all, minHeight, maxHeight);
    if Wrap(maxHeight as int - minHeight) > HEIGHT_DIFFERENCE {
      return BigHeightDifference(nodesHeights);
    }
    var h := SettleHeight(s, nodesHeights, nodesList, minHeight);
    var statements := FindStatementsOnHeight(s, nodesList, h);
    Answered(s.db, all, statements, minHeight, h);
    answer := Statements(statements);
  }

  // ----- what the answer means without rollbacks -----

  /** Every reachable node has a full statement at the height. */
  ghost predicate CommonAt(db: DB, nodes: set<string>, h: int) {
    0 <= h <= MAX_UINT64 && forall n :: n in nodes && Latest(db, n).Some? ==> HasFullAt(HistoryIn(db, n), h)
  }

  ghost predicate NoRollbacks(db: DB, nodes: set<string>) {
    forall n :: n in nodes ==> NoRollback(HistoryIn(db, n))
  }

  lemma FoundIsCommon(db: DB, nodes: set<string>, h: int)
    requires NoRollbacks(db, nodes)
    ensures AllFoundAt(db, nodes, h) <==> CommonAt(db, nodes, h)
  {
    if 0 <= h <= MAX_UINT64 {
      forall n | n in nodes ensures Found(db, n, h) <==> HasFullAt(HistoryIn(db, n), h) {
        ScanIsComplete(HistoryIn(db, n), h);
      }
    }
  }

  /** Without rollbacks the settled height is the greatest among the fifty ending at top at which
      every reachable node has a full statement; if there is none it is the lowest of them, cut off
      at zero. */
  lemma SettledIsGreatestCommon(db: DB, nodes: set<string>, top: uint64, h: uint64)
    requires NoRollbacks(db, nodes) && IsMinLatest(db, nodes, top) && SettledFor(db, nodes, top, h)
    ensures Floor(top) <= h <= top
    ensures forall k :: h < k <= top ==> !CommonAt(db, nodes, k)
    ensures CommonAt(db, nodes, h) || h == Floor(top)
  {
    assert Settled(AllLatestAt(db, nodes, top), FoundHeights(db, nodes), top, h);
    forall k | h <= k <= top ensures FoundHeights(db, nodes)(k) <==> CommonAt(db, nodes, k) {
      FoundIsCommon(db, nodes, k);
    }
    if AllLatestAt(db, nodes, top) {
      forall n | n in nodes && Latest(db, n).Some? ensures Found(db, n, top) {
        LatestIsFound(HistoryIn(db, n));
      }
      assert FoundHeights(db, nodes)(h);
    }
  }

  /** Every entry that is not "unreachable" is a newest full statement of a reachable node at the one
      height; and if that height is common, every reachable node has such an entry. */
  lemma AnswerMeaning(db: DB, nodes: set<string>, sts: seq<NodeStatement>, h: uint64)
    requires ValidDB(db)
    requires Lists(sts, nodes, ReportEntries(db, h))
    ensures forall i :: 0 <= i < |sts| && !sts[i].status.Unreachable? ==>
              sts[i].FullAt(h) && sts[i] in HistoryIn(db, sts[i].node)
    ensures AllFoundAt(db, nodes, h) ==>
              forall n :: n in nodes && Latest(db, n).Some? ==>
                exists i :: 0 <= i < |sts| && sts[i].node == n && sts[i].FullAt(h)
  {
    forall i | 0 <= i < |sts| && !sts[i].status.Unreachable?
      ensures sts[i].FullAt(h) && sts[i] in HistoryIn(db, sts[i].node)
    {
      FoundMeansFull(HistoryIn(db, sts[i].node), h);
    }
    if AllFoundAt(db, nodes, h) {
      forall n | n in nodes && Latest(db, n).Some?
        ensures exists i :: 0 <= i < |sts| && sts[i].node == n && sts[i].FullAt(h)
      {
        FoundMeansFull(HistoryIn(db, n), h);
        var i :| 0 <= i < |sts| && sts[i].node == n;
      }
    }
  }

  /** The whole answer for histories without rollbacks: one entry for each node; those that are not
      "unreachable" are stored full statements at one height h, among the fifty heights ending at the
      least latest height; no greater one of these is common to all reachable nodes; and if any of
      them is common, h is, and every reachable node has an entry there. */
  lemma AnswerIsGreatestCommon(db: DB, nodes: set<string>, sts: seq<NodeStatement>) returns (top: uint64, h: uint64)
    requires ValidDB(db) && NoRollbacks(db, nodes) && IsAnswer(db, nodes, Statements(sts))
    ensures !TooFarApart(db, nodes) && IsMinLatest(db, nodes, top) && Floor(top) <= h <= top
    ensures Lists(sts, nodes, ReportEntries(db, h))
    ensures |sts| == |nodes| && forall i, j :: 0 <= i < j < |sts| ==> sts[i].node != sts[j].node
    ensures forall i :: 0 <= i < |sts| ==> sts[i].node in nodes
    ensures forall i :: 0 <= i < |sts| && !sts[i].status.Unreachable? ==>
              sts[i].FullAt(h) && sts[i] in HistoryIn(db, sts[i].node)
    ensures forall k :: h < k <= top ==> !CommonAt(db, nodes, k)
    ensures (exists k :: Floor(top) <= k <= top && CommonAt(db, nodes, k)) ==>
              CommonAt(db, nodes, h)
              && forall n :: n in nodes && Latest(db, n).Some? ==>
                   exists i :: 0 <= i < |sts| && sts[i].node == n && sts[i].FullAt(h)
  {
    top, h :| IsMinLatest(db, nodes, top) && SettledFor(db, nodes, top, h) && Lists(sts, nodes, ReportEntries(db, h));
    SettledIsGreatestCommon(db, nodes, top, h);
    AnswerMeaning(db, nodes, sts, h);
    FoundIsCommon(db, nodes, h);
    ListHasEachOnce(sts, nodes, ReportEntries(db, h));
  }

  lemma {:induction false} ListHasEachOnce(
      entries: seq<NodeStatement>, nodes: set<string>, entry: string -> NodeStatement)
    requires Lists(entries, nodes, entry)
    ensures |entries| == |nodes|
  {
    if entries == [] {
      assert nodes == {};
    } else {
      var e, rest := entries[|entries| - 1], entries[..|entries| - 1];
      forall n | n in nodes - {e.node} ensures exists i :: 0 <= i < |rest| && rest[i].node == n {
        var i :| 0 <= i < |entries| && entries[i].node == n;
        assert rest[i].node == n;
      }
      ListHasEachOnce(rest, nodes - {e.node}, entry);
    }
  }
}
