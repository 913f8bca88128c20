/** The answer of FindAllStatementsOnCommonHeight in terms of the histories alone. */
module CommonHeightMeaning {
  import opened Prelude
  import opened Entities
  import opened Events
  import opened CommonHeight

  /** x is the height of the node's newest full statement, and not zero. */
  ghost predicate IsLatest(db: DB, n: string, x: uint64) {
    x != 0 && exists i :: IsNewestFull(HistoryIn(db, n), i) && HistoryIn(db, n)[i].height == x
  }

  lemma LatestIsLatest(db: DB, n: string)
    ensures forall x: uint64 :: IsLatest(db, n, x) <==> Latest(db, n) == Some(x)
  {
    forall x: uint64 ensures IsLatest(db, n, x) <==> Latest(db, n) == Some(x) {
      LatestMeaning(HistoryIn(db, n), x);
    }
  }

  /** Two of the nodes have latest heights more than fifty apart. */
  ghost predicate MoreThanFiftyApart(db: DB, nodes: set<string>) {
    exists m, n, x: uint64, y: uint64 ::
      m in nodes && n in nodes && IsLatest(db, m, x) && IsLatest(db, n, y) && y - x > 50
  }

  lemma ApartMeaning(db: DB, nodes: set<string>)
    ensures TooFarApart(db, nodes) <==> MoreThanFiftyApart(db, nodes)
  {
    forall n ensures forall x: uint64 :: IsLatest(db, n, x) <==> Latest(db, n) == Some(x) {
      LatestIsLatest(db, n);
    }
    if TooFarApart(db, nodes) {
      var m, n :| m in nodes && n in nodes && Latest(db, m).Some? && Latest(db, n).Some?
                  && Latest(db, n).value - Latest(db, m).value > HEIGHT_DIFFERENCE;
      assert IsLatest(db, m, Latest(db, m).value) && IsLatest(db, n, Latest(db, n).value);
    }
  }

  /** The answer "too far apart" is given exactly then, and lists each node once: "OK" with its latest
      height, or "unreachable" without one. */
  lemma BigDifferenceMeaning(db: DB, nodes: set<string>, answer: Answer)
    requires IsAnswer(db, nodes, answer)
    ensures answer.BigHeightDifference? <==> MoreThanFiftyApart(db, nodes)
    ensures answer.BigHeightDifference? ==>
              && |answer.heights| == |nodes|
              && (forall n :: n in nodes ==> exists i :: 0 <= i < |answer.heights| && answer.heights[i].node == n)
              && forall i :: 0 <= i < |answer.heights| ==>
                   var e := answer.heights[i];
                   && (e.status == OK || e.status == Unreachable)
                   && (e.status == OK <==> exists x :: IsLatest(db, e.node, x))
                   && (e.status == OK ==> IsLatest(db, e.node, e.height))
  {
    ApartMeaning(db, nodes);
    if answer.BigHeightDifference? {
      ListHasEachOnce(answer.heights, nodes, LatestEntries(db));
      forall i | 0 <= i < |answer.heights|
        ensures var e := answer.heights[i];
                && (e.status == OK || e.status == Unreachable)
                && (e.status == OK <==> exists x :: IsLatest(db, e.node, x))
                && (e.status == OK ==> IsLatest(db, e.node, e.height))
      {
        LatestIsLatest(db, answer.heights[i].node);
      }
    }
  }

  /** Every node with a latest height has a full statement at k. */
  ghost predicate AllHaveFullAt(db: DB, nodes: set<string>, k: int) {
    0 <= k <= MAX_UINT64
    && forall n, x :: n in nodes && IsLatest(db, n, x) ==> HasFullAt(HistoryIn(db, n), k)
  }

  lemma CommonMeaning(db: DB, nodes: set<string>)
    ensures forall k :: CommonAt(db, nodes, k) <==> AllHaveFullAt(db, nodes, k)
  {
    forall n ensures forall x: uint64 :: IsLatest(db, n, x) <==> Latest(db, n) == Some(x) {
      LatestIsLatest(db, n);
    }
    forall k ensures CommonAt(db, nodes, k) <==> AllHaveFullAt(db, nodes, k) {
      if AllHaveFullAt(db, nodes, k) {
        forall n | n in nodes && Latest(db, n).Some? ensures HasFullAt(HistoryIn(db, n), k) {
          assert IsLatest(db, n, Latest(db, n).value);
        }
      }
    }
  }

  predicate Listed(entries: seq<NodeStatement>, n: string) {
    exists i :: 0 <= i < |entries| && entries[i].node == n
  }

  predicate ListedFull(entries: seq<NodeStatement>, n: string, h: uint64) {
    exists i :: 0 <= i < |entries| && entries[i].node == n && entries[i].FullAt(h)
  }

  /** The whole answer without rollbacks: top is the least latest height, and h is the greatest of the
      fifty heights ending there at which all nodes with a latest height have full statements, if there
      is one. Then each of these nodes has an entry at h; no entry is at another height. */
  lemma AnswerInFull(db: DB, nodes: set<string>, sts: seq<NodeStatement>) returns (top: uint64, h: uint64)
    requires ValidDB(db) && NoRollbacks(db, nodes) && IsAnswer(db, nodes, Statements(sts))
    ensures !MoreThanFiftyApart(db, nodes)
    ensures forall n, x :: n in nodes && IsLatest(db, n, x) ==> top <= x
    ensures top == MAX_UINT64 || exists n :: n in nodes && IsLatest(db, n, top)
    ensures top - 49 <= h <= top
    ensures |sts| == |nodes| && forall n :: n in nodes ==> Listed(sts, n)
    ensures forall i :: 0 <= i < |sts| && !sts[i].status.Unreachable? ==>
              sts[i].FullAt(h) && sts[i] in HistoryIn(db, sts[i].node)
    ensures forall i :: 0 <= i < |sts| && !sts[i].status.Unreachable? ==> exists x :: IsLatest(db, sts[i].node, x)
    ensures forall n, x :: n in nodes && IsLatest(db, n, x) && HasFullAt(HistoryIn(db, n), h) ==> ListedFull(sts, n, h)
    ensures forall k :: h < k <= top ==> !AllHaveFullAt(db, nodes, k)
    ensures (exists k :: top - 49 <= k <= top && AllHaveFullAt(db, nodes, k)) ==>
              AllHaveFullAt(db, nodes, h)
              && forall n, x :: n in nodes && IsLatest(db, n, x) ==> ListedFull(sts, n, h)
  {
    top, h := AnswerIsGreatestCommon(db, nodes, sts);
    EntriesMeaning(db, nodes, sts, h);
    ApartMeaning(db, nodes);
    CommonMeaning(db, nodes);
    TopMeaning(db, nodes, top);
    forall n | n in nodes ensures Listed(sts, n) {
      EachIsListed(db, nodes, sts, n);
    }
    if k :| top - 49 <= k <= top && AllHaveFullAt(db, nodes, k) {
      assert CommonAt(db, nodes, k);
      ListedAtCommon(db, nodes, sts, h);
    }
  }

  /** Without rollbacks, exactly the nodes with a latest height and a full statement at h have an entry
      that is not "unreachable". */
  lemma EntriesMeaning(db: DB, nodes: set<string>, sts: seq<NodeStatement>, h: uint64)
    requires ValidDB(db) && NoRollbacks(db, nodes) && Lists(sts, nodes, ReportEntries(db, h))
    ensures forall i :: 0 <= i < |sts| && !sts[i].status.Unreachable? ==> exists x :: IsLatest(db, sts[i].node, x)
    ensures forall n, x :: n in nodes && IsLatest(db, n, x) && HasFullAt(HistoryIn(db, n), h) ==> ListedFull(sts, n, h)
  {
    forall i | 0 <= i < |sts| && !sts[i].status.Unreachable? ensures exists x :: IsLatest(db, sts[i].node, x) {
      var n := sts[i].node;
      LatestIsLatest(db, n);
      assert IsLatest(db, n, Latest(db, n).value);
    }
    forall n, x | n in nodes && IsLatest(db, n, x) && HasFullAt(HistoryIn(db, n), h) ensures ListedFull(sts, n, h) {
      LatestIsLatest(db, n);
      ScanIsComplete(HistoryIn(db, n), h);
      FoundMeansFull(HistoryIn(db, n), h);
      var i :| 0 <= i < |sts| && sts[i].node == n;
      assert sts[i] == ReportEntry(db, h, n);
    }
  }

  lemma ListedAtCommon(db: DB, nodes: set<string>, sts: seq<NodeStatement>, h: uint64)
    requires forall n :: n in nodes && Latest(db, n).Some? ==>
               exists i :: 0 <= i < |sts| && sts[i].node == n && sts[i].FullAt(h)
    ensures forall n, x :: n in nodes && IsLatest(db, n, x) ==> ListedFull(sts, n, h)
  {
    forall n, x | n in nodes && IsLatest(db, n, x) ensures ListedFull(sts, n, h) {
      LatestIsLatest(db, n);
    }
  }

  lemma TopMeaning(db: DB, nodes: set<string>, top: uint64)
    requires IsMinLatest(db, nodes, top)
    ensures forall n, x :: n in nodes && IsLatest(db, n, x) ==> top <= x
    ensures top == MAX_UINT64 || exists n :: n in nodes && IsLatest(db, n, top)
  {
    forall n, x | n in nodes && IsLatest(db, n, x) ensures top <= x {
      LatestIsLatest(db, n);
    }
    if n :| n in nodes && Latest(db, n) == Some(top) {
      LatestIsLatest(db, n);
    }
  }

  lemma EachIsListed(db: DB, nodes: set<string>, sts: seq<NodeStatement>, n: string)
    requires IsAnswer(db, nodes, Statements(sts)) && n in nodes
    ensures Listed(sts, n)
  {
  }
}
