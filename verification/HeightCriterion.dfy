/** The height criterion: groups of nodes that lag behind the highest one. */
module HeightCriterion {
  import opened Prelude
  import opened Strings
  import opened Entities
  import opened Statements

  ghost function MaxHeight(s: Statements): (m: uint64)
    ensures forall i :: 0 <= i < |s| ==> s[i].height <= m
    ensures s != [] ==> exists i :: 0 <= i < |s| && s[i].height == m
  {
    if s == [] then 0
    else
      var n := |s| - 1;
      var m := MaxHeight(s[..n]);
      assert forall i :: 0 <= i < n ==> s[i] == s[..n][i];
      if n == 0 || s[n].height > m then s[n].height else m
  }

  function HeightGroupAt(s: Statements, h: uint64): HeightGroup {
    HeightGroup(h, SortedNodes(Group(s, Height(), h)))
  }

  function LagAlert(ts: int, s: Statements, top: uint64, h: uint64): Alert {
    NewAlert(ts, HeightAlert(HeightGroupAt(s, top), HeightGroupAt(s, h)))
  }

  /** Some node is at h, more than maxDiff below the highest. */
  ghost predicate Lags(s: Statements, maxDiff: uint64, h: uint64) {
    Group(s, Height(), h) != [] && MaxHeight(s) - h > maxDiff
  }

  /** One alert for each lagging height and no other alert. */
  ghost predicate Reports(ts: int, s: Statements, maxDiff: uint64, heights: seq<uint64>, alerts: seq<Alert>) {
    && Distinct(heights) && (forall h :: h in heights <==> Lags(s, maxDiff, h))
    && |alerts| == |heights|
    && forall i :: 0 <= i < |alerts| ==> alerts[i] == LagAlert(ts, s, MaxHeight(s), heights[i])
  }

  ghost predicate IsReport(ts: int, s: Statements, maxDiff: uint64, alerts: seq<Alert>) {
    exists heights :: Reports(ts, s, maxDiff, heights, alerts)
  }

  lemma HighestOfSplit(s: Statements, split: map<uint64, Statements>, top: uint64)
    requires IsSplit(s, Height(), split) && split.Keys != {}
    requires top in split && forall h :: h in split ==> h <= top
    ensures top == MaxHeight(s)
  {
    var x := split[top][0];
    assert x in s && x.height == top;
    var i :| 0 <= i < |s| && s[i].height == MaxHeight(s);
    assert s[i] in Group(s, Height(), MaxHeight(s));
    assert MaxHeight(s) in split;
  }

  lemma EmptySplit(s: Statements, split: map<uint64, Statements>)
    requires IsSplit(s, Height(), split) && split.Keys == {}
    ensures s == []
  {
    assert s != [] ==> s[0] in Group(s, Height(), s[0].height);
  }

  /** A report in which the heights in rest are still to be looked at. */
  ghost predicate PartlyReports(
      ts: int, s: Statements, maxDiff: uint64, rest: set<uint64>, heights: seq<uint64>, alerts: seq<Alert>)
  {
    && Distinct(heights) && (forall h :: h in heights <==> Lags(s, maxDiff, h) && h !in rest)
    && |alerts| == |heights|
    && forall i :: 0 <= i < |alerts| ==> alerts[i] == LagAlert(ts, s, MaxHeight(s), heights[i])
  }

  lemma ReportGrows(
      ts: int, s: Statements, maxDiff: uint64, rest: set<uint64>, heights: seq<uint64>, alerts: seq<Alert>, h: uint64)
    requires PartlyReports(ts, s, maxDiff, rest, heights, alerts) && h in rest
    ensures if Lags(s, maxDiff, h)
            then PartlyReports(ts, s, maxDiff, rest - {h}, heights + [h], alerts + [LagAlert(ts, s, MaxHeight(s), h)])
            else PartlyReports(ts, s, maxDiff, rest - {h}, heights, alerts)
  {
    assert h !in heights;
  }

  lemma AtMostMax(s: Statements, h: uint64)
    requires Group(s, Height(), h) != []
    ensures h <= MaxHeight(s)
  {
    assert Group(s, Height(), h)[0] in s;
  }

  /** The loop over the split, in whatever order the map is visited. */
  method ReportLagging(ts: int, ghost s: Statements, split: map<uint64, Statements>, top: uint64, maxDiff: uint64)
    returns (alerts: seq<Alert>)
    requires IsSplit(s, Height(), split) && top in split && top == MaxHeight(s)
    ensures IsReport(ts, s, maxDiff, alerts)
  {
    ghost var heights: seq<uint64> := [];
    var sortedMaxGroup := SortedNodes(split[top]);
    var rest := split.Keys;
    alerts := [];
    while rest != {}
      invariant rest <= split.Keys && PartlyReports(ts, s, maxDiff, rest, heights, alerts)
    {
      var height :| height in rest;
      AtMostMax(s, height);
      ReportGrows(ts, s, maxDiff, rest, heights, alerts, height);
      var heightDiff := Wrap(top - height);
      if heightDiff > maxDiff {
        alerts := alerts + [NewAlert(ts, HeightAlert(HeightGroup(top, sortedMaxGroup),
                                                     HeightGroup(height, SortedNodes(split[height]))))];
        heights := heights + [height];
      }
      rest := rest - {height};
    }
    assert Reports(ts, s, maxDiff, heights, alerts);
  }

  method Analyze(maxDiff: uint64, ts: int, statements: Statements) returns (alerts: seq<Alert>)
    ensures IsReport(ts, statements, maxDiff, alerts)
  {
    var split := SplitBy(statements, Height());
    var minHeight, maxHeight := MinMaxHeight(split);
    if split.Keys == {} {
      EmptySplit(statements, split);
    } else {
      HighestOfSplit(statements, split, maxHeight);
    }
    if minHeight == maxHeight {
      assert forall h :: Lags(statements, maxDiff, h) ==> h in split && h == maxHeight;
      assert Reports(ts, statements, maxDiff, [], []);
      return [];
    }
    alerts := ReportLagging(ts, statements, split, maxHeight, maxDiff);
  }

  // ----- what a report says -----

  lemma NodeInGroup(s: Statements, i: nat, h: uint64)
    requires DistinctNodes(s) && i < |s|
    ensures s[i].node in HeightGroupAt(s, h).nodes <==> s[i].height == h
  {
    var g := Group(s, Height(), h);
    SortedNodesContain(g, s[i].node);
    assert s[i].height == h ==> s[i] in g;
    if s[i].node in SortedNodes(g) {
      var k :| 0 <= k < |g| && g[k].node == s[i].node;
      assert g[k] in s;
    }
  }

  predicate Names(a: Alert, node: string) {
    a.body.HeightAlert? && node in a.body.otherHeightGroup.nodes
  }

  lemma NamedByItsHeight(ts: int, s: Statements, maxDiff: uint64, heights: seq<uint64>, alerts: seq<Alert>, i: nat)
    requires Reports(ts, s, maxDiff, heights, alerts) && DistinctNodes(s) && i < |s|
    ensures forall k :: 0 <= k < |alerts| ==> (Names(alerts[k], s[i].node) <==> heights[k] == s[i].height)
  {
    forall k | 0 <= k < |alerts| ensures Names(alerts[k], s[i].node) <==> heights[k] == s[i].height {
      NodeInGroup(s, i, heights[k]);
    }
  }

  lemma LagsWhenFarBelow(s: Statements, maxDiff: uint64, i: nat)
    requires i < |s|
    ensures Lags(s, maxDiff, s[i].height) <==> MaxHeight(s) - s[i].height > maxDiff
  {
    assert s[i] in Group(s, Height(), s[i].height);
  }

  /** A node is in the lagging group of exactly one alert if it is more than maxDiff below the highest
      height, and of none otherwise. */
  lemma LaggingNodesAreNamedOnce(
      ts: int, s: Statements, maxDiff: uint64, heights: seq<uint64>, alerts: seq<Alert>, i: nat)
    requires Reports(ts, s, maxDiff, heights, alerts) && DistinctNodes(s) && i < |s|
    ensures (exists k :: 0 <= k < |alerts| && Names(alerts[k], s[i].node)) <==> MaxHeight(s) - s[i].height > maxDiff
    ensures forall k, l :: 0 <= k < l < |alerts| && Names(alerts[k], s[i].node) ==> !Names(alerts[l], s[i].node)
  {
    var h, node := s[i].height, s[i].node;
    NamedByItsHeight(ts, s, maxDiff, heights, alerts, i);
    LagsWhenFarBelow(s, maxDiff, i);
    assert h in heights <==> Lags(s, maxDiff, h);
    if h in heights {
      var k :| 0 <= k < |heights| && heights[k] == h;
      assert Names(alerts[k], node);
    }
  }

  /** The fields of the alerts: the highest height with all its nodes, the lagging height with all its
      nodes, both in the order of names, and the time of the round. */
  lemma ReportFields(ts: int, s: Statements, maxDiff: uint64, heights: seq<uint64>, alerts: seq<Alert>, k: nat)
    requires Reports(ts, s, maxDiff, heights, alerts) && k < |alerts|
    ensures alerts[k].body.HeightAlert? && alerts[k].timestamp == ts && alerts[k].alertType == HeightAlertType
    ensures var top, lag := alerts[k].body.maxHeightGroup, alerts[k].body.otherHeightGroup;
            && (forall i :: 0 <= i < |s| ==> s[i].height <= top.height)
            && top.height - lag.height > maxDiff
            && Sorted(top.nodes) && Sorted(lag.nodes)
            && (forall node :: node in top.nodes <==> exists x :: x in s && x.height == top.height && x.node == node)
            && (forall node :: node in lag.nodes <==> exists x :: x in s && x.height == lag.height && x.node == node)
            && lag.nodes != []
  {
    var h := heights[k];
    assert h in heights;
    GroupFields(s, MaxHeight(s));
    GroupFields(s, h);
    assert |SortedNodes(Group(s, Height(), h))| == |Group(s, Height(), h)|;
  }

  lemma GroupFields(s: Statements, h: uint64)
    ensures var g := HeightGroupAt(s, h);
            && g.height == h && Sorted(g.nodes)
            && forall node :: node in g.nodes <==> exists x :: x in s && x.height == h && x.node == node
  {
    var g := Group(s, Height(), h);
    SortSorts(Nodes(g));
    forall node ensures node in SortedNodes(g) <==> exists x :: x in s && x.height == h && x.node == node {
      SortedNodesContain(g, node);
      assert forall x :: x in g <==> x in s && x.height == h;
    }
  }

  /** The ID of a lag alert depends on the lagging nodes alone: not on their order, nor on the
      heights, the leaders or the time, so a repeated lag counts as the same alert. */
  lemma SameLaggardsSameID(
      ts: int, s: Statements, top: uint64, h: uint64, ts': int, s': Statements, top': uint64, h': uint64)
    requires multiset(Nodes(Group(s, Height(), h))) == multiset(Nodes(Group(s', Height(), h')))
    ensures LagAlert(ts, s, top, h).id == LagAlert(ts', s', top', h').id
  {
    SortIgnoresOrder(Nodes(Group(s, Height(), h)), Nodes(Group(s', Height(), h')));
  }

  /** In particular the order in which the statements come does not matter. */
  lemma IDsIgnoreStatementOrder(ts: int, s: Statements, t: Statements, top: uint64, h: uint64)
    requires multiset(s) == multiset(t)
    ensures LagAlert(ts, s, top, h) == LagAlert(ts, t, top, h)
  {
    GroupsOfPermutation(s, t, h);
    GroupsOfPermutation(s, t, top);
  }

  lemma GroupsOfPermutation(s: Statements, t: Statements, h: uint64)
    requires multiset(s) == multiset(t)
    ensures HeightGroupAt(s, h) == HeightGroupAt(t, h)
  {
    var g, g' := Group(s, Height(), h), Group(t, Height(), h);
    forall x ensures multiset(g)[x] == multiset(g')[x] {
      GroupCounts(s, Height(), h, x);
      GroupCounts(t, Height(), h, x);
    }
    NodesOfPermutation(g, g');
    SortIgnoresOrder(Nodes(g), Nodes(g'));
  }
}
