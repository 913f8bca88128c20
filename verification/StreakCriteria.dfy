/** The unreachable and the incomplete criterion: a run of bad statements near the end of a history. */
module StreakCriteria {
  import opened Prelude
  import opened Entities
  import opened Events

  datatype Options = Options(streak: int, depth: int)

  /** Which statements extend the streak. */
  datatype Kind = UnreachableKind | IncompleteKind(considerUnreachable: bool)

  predicate Matches(kind: Kind, s: NodeStatement) {
    match kind
    case UnreachableKind => s.status.Unreachable?
    case IncompleteKind(consider) => s.status.Incomplete? || (consider && s.status.Unreachable?)
  }

  ghost predicate RunAt(h: History, kind: Kind, from: int, length: int) {
    0 <= from && from + length <= |h| && forall i :: from <= i < from + length ==> Matches(kind, h[i])
  }

  lemma NoLongerRun(h: History, kind: Kind, from: nat, length: nat, wanted: int)
    requires from + length <= |h| && length < wanted
    requires from + length < |h| ==> !Matches(kind, h[from + length])
    ensures !RunAt(h, kind, from, wanted)
  {
  }

  /** Some `streak` consecutive statements match among the newest `depth`; a depth below one still
      looks at the newest statement, and a streak below one is always there. */
  ghost predicate HasStreak(h: History, kind: Kind, opts: Options) {
    opts.streak <= 0 || exists from :: from >= |h| - Max(1, opts.depth) && RunAt(h, kind, from, opts.streak)
  }

  /** The scan over a node's statements, newest first. */
  method Scan(h: History, kind: Kind, opts: Options) returns (streak: int)
    ensures streak >= opts.streak <==> HasStreak(h, kind, opts)
  {
    streak := 0;
    var depth := 0;
    while depth < |h|
      invariant 0 <= streak <= depth <= |h|
      invariant depth > 0 ==> streak < opts.streak && depth < opts.depth
      invariant RunAt(h, kind, |h| - depth, streak)
      invariant streak < depth ==> !Matches(kind, h[|h| - depth + streak])
      invariant opts.streak > 0 ==> forall from :: from >= |h| - depth ==> !RunAt(h, kind, from, opts.streak)
    {
      var k := |h| - depth - 1;
      streak := if Matches(kind, h[k]) then streak + 1 else 0;
      depth := depth + 1;
      if opts.streak > 0 {
        if streak >= opts.streak {
          assert RunAt(h, kind, k, opts.streak);
        } else {
          NoLongerRun(h, kind, k, streak, opts.streak);
        }
      }
      if streak >= opts.streak || depth >= opts.depth {
        return;
      }
    }
  }

  // ----- the criteria -----

  ghost predicate NodeHasStreak(db: DB, kind: Kind, opts: Options, s: NodeStatement) {
    HasStreak(HistoryIn(db, s.node), kind, opts)
  }

  /** The alerts: one for each listed statement whose node has the streak, in the order of the list. */
  ghost function AlertsFor(
      db: DB, kind: Kind, opts: Options, statements: seq<NodeStatement>,
      alert: NodeStatement -> Alert): seq<Alert>
  {
    if statements == [] then []
    else
      var init, s := statements[..|statements| - 1], statements[|statements| - 1];
      AlertsFor(db, kind, opts, init, alert)
      + if NodeHasStreak(db, kind, opts, s) then [alert(s)] else []
  }

  function UnreachableAlertFor(ts: int): NodeStatement -> Alert {
    (s: NodeStatement) => NewAlert(ts, UnreachableAlert(s.node))
  }

  function IncompleteAlertFor(): NodeStatement -> Alert {
    (s: NodeStatement) => NewAlert(s.timestamp, IncompleteAlert(s))
  }

  method Analyze(es: Storage, kind: Kind, opts: Options, alert: NodeStatement -> Alert, statements: seq<NodeStatement>)
    returns (alerts: seq<Alert>)
    ensures alerts == AlertsFor(es.db, kind, opts, statements, alert)
  {
    alerts := [];
    for i := 0 to |statements|
      invariant alerts == AlertsFor(es.db, kind, opts, statements[..i], alert)
    {
      assert statements[..i + 1][..i] == statements[..i];
      var streak := Scan(es.HistoryOf(statements[i].node), kind, opts);
      if streak >= opts.streak {
        alerts := alerts + [alert(statements[i])];
      }
    }
    assert statements[..|statements|] == statements;
  }

  ghost predicate AllUnreachable(h: History, from: int, length: int) {
    0 <= from && from + length <= |h| && forall i :: from <= i < from + length ==> h[i].status == Unreachable
  }

  ghost predicate AllIncomplete(h: History, from: int, length: int, consider: bool) {
    && 0 <= from && from + length <= |h|
    && forall i :: from <= i < from + length ==>
         h[i].status == Incomplete || (consider && h[i].status == Unreachable)
  }

  /** Some `streak` consecutive statements of the newest `depth` have status Unreachable. */
  ghost predicate UnreachableStreak(h: History, streak: int, depth: int) {
    exists from :: |h| - depth <= from && AllUnreachable(h, from, streak)
  }

  /** The same for Incomplete, and for Unreachable where that counts as incomplete. */
  ghost predicate IncompleteStreak(h: History, streak: int, depth: int, consider: bool) {
    exists from :: |h| - depth <= from && AllIncomplete(h, from, streak, consider)
  }

  /** In terms of the statuses, for streaks and depths of at least one. */
  lemma StreakMeaning(h: History, opts: Options, consider: bool)
    requires opts.streak >= 1 && opts.depth >= 1
    ensures HasStreak(h, UnreachableKind, opts) <==> UnreachableStreak(h, opts.streak, opts.depth)
    ensures HasStreak(h, IncompleteKind(consider), opts) <==> IncompleteStreak(h, opts.streak, opts.depth, consider)
  {
    assert forall from :: RunAt(h, UnreachableKind, from, opts.streak) <==> AllUnreachable(h, from, opts.streak);
    assert forall from :: RunAt(h, IncompleteKind(consider), from, opts.streak)
                     <==> AllIncomplete(h, from, opts.streak, consider);
  }

  method AnalyzeUnreachable(es: Storage, opts: Options, ts: int, statements: seq<NodeStatement>)
    returns (alerts: seq<Alert>)
    ensures alerts == AlertsFor(es.db, UnreachableKind, opts, statements, UnreachableAlertFor(ts))
    ensures forall a :: a in alerts ==>
              a.body.UnreachableAlert? && a.timestamp == ts && a.id == a.body.ID() && a.alertType == UnreachableAlertType
    ensures opts.streak >= 1 && opts.depth >= 1 ==>
              forall node :: (exists a :: a in alerts && a.body == UnreachableAlert(node)) <==>
                (exists i :: 0 <= i < |statements| && statements[i].node == node)
                && UnreachableStreak(es.HistoryOf(node), opts.streak, opts.depth)
  {
    alerts := Analyze(es, UnreachableKind, opts, UnreachableAlertFor(ts), statements);
    UnreachableExactly(es.db, opts, ts, statements);
  }

  lemma UnreachableExactly(db: DB, opts: Options, ts: int, statements: seq<NodeStatement>)
    ensures var alerts := AlertsFor(db, UnreachableKind, opts, statements, UnreachableAlertFor(ts));
            && (forall a :: a in alerts ==> a.body.UnreachableAlert? && a.timestamp == ts
                                            && a.id == a.body.ID() && a.alertType == UnreachableAlertType)
            && (opts.streak >= 1 && opts.depth >= 1 ==>
                  forall node :: (exists a :: a in alerts && a.body == UnreachableAlert(node)) <==>
                    (exists i :: 0 <= i < |statements| && statements[i].node == node)
                    && UnreachableStreak(HistoryIn(db, node), opts.streak, opts.depth))
  {
    var f := UnreachableAlertFor(ts);
    var alerts := AlertsFor(db, UnreachableKind, opts, statements, f);
    forall a
      ensures a in alerts <==> exists i :: 0 <= i < |statements| && a == f(statements[i])
                                   && NodeHasStreak(db, UnreachableKind, opts, statements[i])
    {
      NamesExactlyNodesWithStreak(db, UnreachableKind, opts, statements, f, a);
    }
    if opts.streak >= 1 && opts.depth >= 1 {
      forall node ensures (exists a :: a in alerts && a.body == UnreachableAlert(node)) <==>
                            (exists i :: 0 <= i < |statements| && statements[i].node == node)
                            && UnreachableStreak(HistoryIn(db, node), opts.streak, opts.depth)
      {
        StreakMeaning(HistoryIn(db, node), opts, false);
        forall i | 0 <= i < |statements| && statements[i].node == node
          ensures f(statements[i]).body == UnreachableAlert(node)
        {
        }
      }
    }
  }

  method AnalyzeIncomplete(es: Storage, opts: Options, consider: bool, statements: seq<NodeStatement>)
    returns (alerts: seq<Alert>)
    ensures alerts == AlertsFor(es.db, IncompleteKind(consider), opts, statements, IncompleteAlertFor())
    ensures forall a :: a in alerts ==>
              a.body.IncompleteAlert? && a.timestamp == a.body.statement.timestamp
              && a.id == a.body.ID() && a.alertType == IncompleteAlertType
    ensures opts.streak >= 1 && opts.depth >= 1 ==>
              forall s :: (exists a :: a in alerts && a.body == IncompleteAlert(s)) <==>
                s in statements && IncompleteStreak(es.HistoryOf(s.node), opts.streak, opts.depth, consider)
  {
    alerts := Analyze(es, IncompleteKind(consider), opts, IncompleteAlertFor(), statements);
    IncompleteExactly(es.db, opts, consider, statements);
  }

  lemma IncompleteExactly(db: DB, opts: Options, consider: bool, statements: seq<NodeStatement>)
    ensures var alerts := AlertsFor(db, IncompleteKind(consider), opts, statements, IncompleteAlertFor());
            && (forall a :: a in alerts ==> a.body.IncompleteAlert? && a.timestamp == a.body.statement.timestamp
                                            && a.id == a.body.ID() && a.alertType == IncompleteAlertType)
            && (opts.streak >= 1 && opts.depth >= 1 ==>
                  forall s :: (exists a :: a in alerts && a.body == IncompleteAlert(s)) <==>
                    s in statements && IncompleteStreak(HistoryIn(db, s.node), opts.streak, opts.depth, consider))
  {
    var f := IncompleteAlertFor();
    var alerts := AlertsFor(db, IncompleteKind(consider), opts, statements, f);
    forall a
      ensures a in alerts <==> exists i :: 0 <= i < |statements| && a == f(statements[i])
                                   && NodeHasStreak(db, IncompleteKind(consider), opts, statements[i])
    {
      NamesExactlyNodesWithStreak(db, IncompleteKind(consider), opts, statements, f, a);
    }
    if opts.streak >= 1 && opts.depth >= 1 {
      forall s ensures (exists a :: a in alerts && a.body == IncompleteAlert(s)) <==>
                         s in statements && IncompleteStreak(HistoryIn(db, s.node), opts.streak, opts.depth, consider)
      {
        StreakMeaning(HistoryIn(db, s.node), opts, consider);
        forall i | 0 <= i < |statements| && statements[i] == s ensures f(statements[i]).body == IncompleteAlert(s) {
        }
      }
    }
  }

  /** So a node is named exactly when it is listed and has the streak. */
  lemma {:induction false} NamesExactlyNodesWithStreak(
      db: DB, kind: Kind, opts: Options, statements: seq<NodeStatement>,
      alert: NodeStatement -> Alert, a: Alert)
    ensures a in AlertsFor(db, kind, opts, statements, alert) <==>
            exists i :: 0 <= i < |statements| && a == alert(statements[i]) && NodeHasStreak(db, kind, opts, statements[i])
  {
    if statements != [] {
      var n := |statements| - 1;
      NamesExactlyNodesWithStreak(db, kind, opts, statements[..n], alert, a);
      assert forall i :: 0 <= i < n ==> statements[..n][i] == statements[i];
    }
  }

  /** A larger depth or a shorter streak never loses an alert. */
  lemma StreakIsMonotone(h: History, kind: Kind, opts: Options, wider: Options)
    requires wider.streak <= opts.streak && opts.depth <= wider.depth
    ensures HasStreak(h, kind, opts) ==> HasStreak(h, kind, wider)
  {
    if opts.streak > 0 && HasStreak(h, kind, opts) {
      var from :| from >= |h| - Max(1, opts.depth) && RunAt(h, kind, from, opts.streak);
      assert RunAt(h, kind, from, wider.streak);
    }
  }

  /** A streak longer than the depth can never alert. */
  lemma StreakBeyondDepthNeverAlerts(h: History, kind: Kind, opts: Options)
    requires opts.streak > Max(1, opts.depth)
    ensures !HasStreak(h, kind, opts)
  {
  }
}
