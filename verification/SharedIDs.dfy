/** Storages that share an alert ID break the pairing of fixes with chat messages: for any two such
    alerts there is a run in which a fix finds nothing. */
module SharedIDs {
  import opened Prelude
  import opened Strings
  import opened Entities
  import opened StuckIDs
  import opened AlertsStorage
  import opened AlertStream
  import opened StorageTrace
  import opened L2Analyzer
  import opened Bots
  import opened BotPairing

  // ----- one storage -----

  ghost predicate OnlyOf(g: History, a: Alert) {
    forall i :: 0 <= i < |g| && g[i].Put? ==> g[i].alert == a
  }

  lemma OnlyOfIsKeyed(g: History, a: Alert)
    requires OnlyOf(g, a)
    ensures Keyed(g)
  {
  }

  /** n puts of one alert. */
  lemma {:induction false} Puts(c: Config, a: Alert, n: nat) returns (g: History)
    requires c.quota >= 2
    ensures Consistent(c, g) && OnlyOf(g, a) && VacuumsSince(g, a.id) == 0 && PutsInLifetime(c, g, a.id) == n
    ensures n > 0 ==> LastPut(g, a.id) == Some(a)
  {
    g := [];
    if n > 0 {
      var g' := Puts(c, a, n - 1);
      var sent := SomePut(c, g', a);
      g := g' + [Put(a, sent)];
      assert g[..|g'|] == g';
    }
  }

  ghost predicate OnlyVacuums(g: History) {
    forall i :: 0 <= i < |g| ==> g[i].Vacuum?
  }

  /** n vacuums after any calls. */
  lemma {:induction false} Vacuums(c: Config, h: History, n: nat, id: AlertID) returns (g: History)
    requires Consistent(c, h)
    ensures Consistent(c, h + g) && OnlyVacuums(g)
    ensures LastPut(h + g, id) == LastPut(h, id) && PutsInLifetime(c, h + g, id) == PutsInLifetime(c, h, id)
    ensures LastPut(h, id).Some? ==> VacuumsSince(h + g, id) == VacuumsSince(h, id) + n
  {
    g := [];
    assert h + [] == h;
    if n > 0 {
      var g' := Vacuums(c, h, n - 1, id);
      var fixed := SomeVacuum(c, h + g');
      g := g' + [Vacuum(fixed)];
      assert h + g == (h + g') + [Vacuum(fixed)];
      assert (h + g)[..|h + g'|] == h + g';
    }
  }

  /** The life of one alert: the puts that confirm it, vacuums, and the vacuum that reports it. */
  lemma Life(c: Config, a: Alert) returns (puts: History, vacuums: History, fixed: seq<Alert>)
    requires c.quota >= 2
    ensures Consistent(c, puts) && Consistent(c, puts + vacuums) && Consistent(c, puts + vacuums + [Vacuum(fixed)])
    ensures OnlyOf(puts, a) && OnlyVacuums(vacuums) && Vacuum(fixed).Fixes(a.id)
  {
    puts := Puts(c, a, Needed(c, a));
    vacuums := Vacuums(c, puts, c.quota - 1, a.id);
    var h := puts + vacuums;
    fixed := SomeVacuum(c, h);
    OnlyOfIsKeyed(h + [Vacuum(fixed)], a);
    assert OnlyOf(h, a);
    FixedMeaning(c, h, fixed, a.id);
  }

  // ----- runs of the system -----

  /** A run and its last state. */
  ghost predicate RunsTo(cs: seq<Config>, may: May, run: seq<System>, actions: seq<Action>, s: System) {
    IsRun(cs, may, run, actions) && run[|actions|] == s
  }

  lemma OneStep(cs: seq<Config>, may: May, run: seq<System>, actions: seq<Action>, s: System, a: Action, t: System)
    requires RunsTo(cs, may, run, actions, s) && Next(cs, may, s, a, t)
    ensures RunsTo(cs, may, run + [t], actions + [a], t)
  {
    var run', actions' := run + [t], actions + [a];
    forall i | 0 <= i < |actions'| ensures Next(cs, may, run'[i], actions'[i], run'[i + 1]) {
      if i < |actions| {
        StepOf(cs, may, run, actions, i);
        assert run'[i] == run[i] && run'[i + 1] == run[i + 1] && actions'[i] == actions[i];
      }
    }
  }

  ghost predicate Reachable(cs: seq<Config>, may: May, s: System) {
    exists run, actions :: RunsTo(cs, may, run, actions, s)
  }

  lemma ReachNext(cs: seq<Config>, may: May, s: System, a: Action, t: System)
    requires Reachable(cs, may, s) && Next(cs, may, s, a, t)
    ensures Reachable(cs, may, t)
  {
    var run, actions :| RunsTo(cs, may, run, actions, s);
    OneStep(cs, may, run, actions, s, a, t);
  }

  lemma ReachInit(cs: seq<Config>, may: May) returns (s: System)
    ensures Reachable(cs, may, s) && s == System(seq(|cs|, _ => []), [], [])
  {
    s := System(seq(|cs|, _ => []), [], []);
    assert RunsTo(cs, may, [s], [], s);
  }

  ghost predicate Given(may: May, k: nat, g: History) {
    forall i :: 0 <= i < |g| && g[i].Put? ==> may(k, g[i].alert)
  }

  /** From s to t analyzer k made the calls g and said what they call for. */
  ghost predicate Performed(s: System, k: nat, g: History, t: System)
    requires k < |s.analyzers|
  {
    && |t.analyzers| == |s.analyzers| && t.delivered == s.delivered
    && HistoryOf(t.analyzers[k]) == HistoryOf(s.analyzers[k]) + g
    && (forall j :: 0 <= j < |s.analyzers| && j != k ==> t.analyzers[j] == s.analyzers[j])
    && t.queue == s.queue + Messages(0, g)
  }

  lemma {:induction false} Perform(cs: seq<Config>, may: May, s: System, k: nat, g: History) returns (t: System)
    requires Reachable(cs, may, s) && k < |cs| == |s.analyzers|
    requires Consistent(cs[k], HistoryOf(s.analyzers[k]) + g) && Given(may, k, g)
    ensures Reachable(cs, may, t) && Performed(s, k, g, t)
  {
    if g == [] {
      t := s;
      NothingPerformed(s, k);
    } else {
      var n := |g| - 1;
      LastCall(cs[k], HistoryOf(s.analyzers[k]), g);
      var u := Perform(cs, may, s, k, g[..n]);
      t := SayOne(cs, may, u, k, g[n]);
      PerformedMore(s, k, g, u, t);
    }
  }

  lemma NothingPerformed(s: System, k: nat)
    requires k < |s.analyzers|
    ensures Performed(s, k, [], s)
  {
    assert HistoryOf(s.analyzers[k]) + [] == HistoryOf(s.analyzers[k]) && s.queue + [] == s.queue;
  }

  lemma PerformedMore(s: System, k: nat, g: History, u: System, t: System)
    requires g != [] && k < |s.analyzers| && Performed(s, k, g[..|g| - 1], u)
    requires |t.analyzers| == |u.analyzers| && t.delivered == u.delivered
    requires HistoryOf(t.analyzers[k]) == HistoryOf(u.analyzers[k]) + [g[|g| - 1]]
    requires forall j :: 0 <= j < |u.analyzers| && j != k ==> t.analyzers[j] == u.analyzers[j]
    requires t.queue == u.queue + StepMessages(0, g[|g| - 1])
    ensures Performed(s, k, g, t)
  {
    var n := |g| - 1;
    assert g == g[..n] + [g[n]];
    Associates(HistoryOf(s.analyzers[k]), g[..n], [g[n]]);
    Associates(s.queue, Messages(0, g[..n]), StepMessages(0, g[n]));
  }

  lemma LastCall(c: Config, h: History, g: History)
    requires g != [] && Consistent(c, h + g)
    ensures var n := |g| - 1;
            Consistent(c, h + g[..n]) && AnswersRightly(c, StoreAfter(c, h + g[..n]), g[n])
  {
    var n := |g| - 1;
    assert h + g == (h + g[..n]) + [g[n]];
    Extend(c, h + g[..n], g[n]);
  }

  lemma SayOne(cs: seq<Config>, may: May, s: System, k: nat, step: Step) returns (t: System)
    requires Reachable(cs, may, s) && k < |cs| == |s.analyzers|
    requires AnswersRightly(cs[k], StoreAfter(cs[k], HistoryOf(s.analyzers[k])), step)
    requires step.Put? ==> may(k, step.alert)
    ensures Reachable(cs, may, t) && |t.analyzers| == |cs|
    ensures HistoryOf(t.analyzers[k]) == HistoryOf(s.analyzers[k]) + [step]
    ensures forall j :: 0 <= j < |cs| && j != k ==> t.analyzers[j] == s.analyzers[j]
    ensures t.queue == s.queue + StepMessages(0, step) && t.delivered == s.delivered
  {
    var cause := Stored(0, step);
    t := s.(analyzers := s.analyzers[k := s.analyzers[k] + [cause]], queue := s.queue + CauseMessages(cause));
    Grows(s.analyzers[k], cause);
    ReachNext(cs, may, s, Say(k, cause), t);
  }

  /** The bot gets the next n messages. */
  lemma {:induction false} DeliverSome(cs: seq<Config>, may: May, p: Platform, s: System, n: nat) returns (t: System)
    requires Reachable(cs, may, s) && n <= |s.queue| && Listens(p)
    ensures Reachable(cs, may, t) && t.analyzers == s.analyzers && t.queue == s.queue[n..]
    ensures Known(p, t.delivered) == KnownAfter(Known(p, s.delivered), s.queue[..n])
  {
    if n == 0 {
      t := s;
      assert s.queue[..0] == [];
    } else {
      var u := DeliverSome(cs, may, p, s, n - 1);
      t := System(u.analyzers, u.queue[1..], u.delivered + [Delivery(u.queue[0], Some(0))]);
      DeliveryLearns(p, u.delivered, u.queue[0], 0);
      ReachNext(cs, may, u, Deliver(0), t);
      assert s.queue[..n] == s.queue[..n - 1] + [s.queue[n - 1]];
      QueueGrows(Known(p, s.delivered), s.queue[..n - 1], s.queue[n - 1]);
    }
  }

  // ----- a fix that finds nothing -----

  predicate OnlyFixes(queue: seq<Message>) {
    forall i :: 0 <= i < |queue| ==> queue[i].AlertFixed?
  }

  lemma {:induction false} VacuumsSayFixes(g: History)
    requires OnlyVacuums(g)
    ensures OnlyFixes(Messages(0, g))
  {
    if g != [] {
      VacuumsSayFixes(g[..|g| - 1]);
    }
  }

  /** Fixes make nothing known, and their own IDs unknown. */
  lemma {:induction false} FixesForget(ids: set<AlertID>, queue: seq<Message>, fixes: seq<Message>, id: AlertID)
    requires OnlyFixes(fixes)
    ensures id in KnownAfter(ids, queue + fixes) ==> id in KnownAfter(ids, queue)
    ensures (exists i :: 0 <= i < |fixes| && fixes[i].ReferenceID() == id) ==> id !in KnownAfter(ids, queue + fixes)
  {
    if fixes == [] {
      assert queue + fixes == queue;
    } else {
      var n := |fixes| - 1;
      FixesForget(ids, queue, fixes[..n], id);
      assert queue + fixes == (queue + fixes[..n]) + [fixes[n]];
      QueueGrows(ids, queue + fixes[..n], fixes[n]);
      if i :| 0 <= i < |fixes| && fixes[i].ReferenceID() == id {
        assert i < n ==> fixes[..n][i] == fixes[i];
      }
    }
  }

  /** The next message is a fix, and the bot does not know its ID. */
  predicate FixFindsNothing(p: Platform, s: System) {
    s.queue != [] && s.queue[0].AlertFixed? && s.queue[0].ReferenceID() !in MapAfter(p, s.delivered)
  }

  /** The vacuums of a life say fixes only, one of them of the ID. */
  lemma LifeSaysFix(vacuums: History, fixed: seq<Alert>, id: AlertID) returns (n: nat)
    requires OnlyVacuums(vacuums) && Vacuum(fixed).Fixes(id)
    ensures var ms := Messages(0, vacuums + [Vacuum(fixed)]);
            OnlyFixes(ms) && n < |ms| && ms[n].ReferenceID() == id
  {
    var g := vacuums + [Vacuum(fixed)];
    VacuumsSayFixes(g);
    var a :| a in fixed && a.id == id;
    var i :| 0 <= i < |fixed| && fixed[i] == a;
    assert g[..|vacuums|] == vacuums;
    n := |Messages(0, vacuums)| + i;
    assert Messages(0, g)[n] == FixMessages(0, fixed)[i];
  }

  /** Storage k ages its alert until it is fixed, and the bot gets everything. */
  lemma FixedBy(cs: seq<Config>, may: May, p: Platform, s: System, k: nat, vacuums: History, fixed: seq<Alert>, id: AlertID)
    returns (t: System)
    requires Reachable(cs, may, s) && k < |cs| == |s.analyzers| && Listens(p) && OnlyVacuums(vacuums)
    requires Consistent(cs[k], HistoryOf(s.analyzers[k]) + (vacuums + [Vacuum(fixed)])) && Vacuum(fixed).Fixes(id)
    ensures Reachable(cs, may, t) && |t.analyzers| == |cs| && t.queue == [] && id !in Known(p, t.delivered)
    ensures forall j :: 0 <= j < |cs| && j != k ==> t.analyzers[j] == s.analyzers[j]
  {
    var g := vacuums + [Vacuum(fixed)];
    var n := LifeSaysFix(vacuums, fixed, id);
    var u := Perform(cs, may, s, k, g);
    t := DeliverSome(cs, may, p, u, |u.queue|);
    assert u.queue[..|u.queue|] == u.queue;
    FixesForget(Known(p, s.delivered), s.queue, Messages(0, g), id);
  }

  /** Once the ID is unknown, the other storage's fix of it finds nothing. */
  lemma FixedAgain(cs: seq<Config>, may: May, p: Platform, s: System, k: nat, vacuums: History, fixed: seq<Alert>, id: AlertID)
    returns (t: System)
    requires Reachable(cs, may, s) && k < |cs| == |s.analyzers| && Listens(p) && OnlyVacuums(vacuums)
    requires s.queue == [] && id !in Known(p, s.delivered)
    requires Consistent(cs[k], HistoryOf(s.analyzers[k]) + (vacuums + [Vacuum(fixed)])) && Vacuum(fixed).Fixes(id)
    ensures Reachable(cs, may, t) && FixFindsNothing(p, t)
  {
    var g := vacuums + [Vacuum(fixed)];
    var n := LifeSaysFix(vacuums, fixed, id);
    var u := Perform(cs, may, s, k, g);
    var ms := Messages(0, g);
    assert u.queue == ms by {
      assert [] + ms == ms;
    }
    t := DeliverSome(cs, may, p, u, n);
    FixesForget(Known(p, s.delivered), [], ms[..n], id);
    assert [] + ms[..n] == ms[..n];
  }

  /** Both storages have raised their alerts. */
  lemma RaiseBoth(cs: seq<Config>, may: May, i: nat, j: nat, putsA: History, putsB: History) returns (s: System)
    requires i < j < |cs| && Given(may, i, putsA) && Given(may, j, putsB)
    requires Consistent(cs[i], putsA) && Consistent(cs[j], putsB)
    ensures Reachable(cs, may, s) && |s.analyzers| == |cs|
    ensures HistoryOf(s.analyzers[i]) == putsA && HistoryOf(s.analyzers[j]) == putsB
  {
    assert [] + putsA == putsA && [] + putsB == putsB;
    var start := ReachInit(cs, may);
    var one := Perform(cs, may, start, i, putsA);
    s := Perform(cs, may, one, j, putsB);
  }

  lemma LifeInOne(puts: History, vacuums: History, last: Step)
    ensures puts + (vacuums + [last]) == puts + vacuums + [last]
  {
  }

  lemma SharedIDBreaksPairing(cs: seq<Config>, may: May, p: Platform, i: nat, j: nat, a: Alert, b: Alert)
    returns (t: System)
    requires i < j < |cs| && cs[i].quota >= 2 && cs[j].quota >= 2 && Listens(p)
    requires may(i, a) && may(j, b) && a.id == b.id
    ensures Reachable(cs, may, t) && FixFindsNothing(p, t)
  {
    var putsA, vacuumsA, fixedA := Life(cs[i], a);
    var putsB, vacuumsB, fixedB := Life(cs[j], b);
    LifeInOne(putsA, vacuumsA, Vacuum(fixedA));
    LifeInOne(putsB, vacuumsB, Vacuum(fixedB));
    var s := RaiseBoth(cs, may, i, j, putsA, putsB);
    var u := FixedBy(cs, may, p, s, i, vacuumsA, fixedA, a.id);
    t := FixedAgain(cs, may, p, u, j, vacuumsB, fixedB, a.id);
  }

  // ----- exactly when every fix finds its message -----

  ghost predicate EveryFixFinds(cs: seq<Config>, may: May, p: Platform) {
    forall s :: Reachable(cs, may, s) ==> !FixFindsNothing(p, s)
  }

  /** For storages with a quota of two or more: every fix finds its chat message in every run, if and
      only if no two storages may be given alerts with the same ID. */
  lemma PairingExactlyIfDisjoint(cs: seq<Config>, may: May, p: Platform)
    requires Listens(p) && forall k :: 0 <= k < |cs| ==> cs[k].quota >= 2
    ensures EveryFixFinds(cs, may, p) <==> Disjoint(|cs|, may)
  {
    if Disjoint(|cs|, may) {
      forall s | Reachable(cs, may, s) ensures !FixFindsNothing(p, s) {
        var run, actions :| RunsTo(cs, may, run, actions, s);
        RunInv(cs, may, p, run, actions, |actions|);
        if s.queue != [] {
          TakeFirst(Known(p, s.delivered), s.queue);
        }
      }
    } else {
      var i, j, a, b :| 0 <= i < j < |cs| && may(i, a) && may(j, b) && a.id == b.id;
      var t := SharedIDBreaksPairing(cs, may, p, i, j, a, b);
    }
  }

  // ----- the stuck alerts of L2 nodes -----

  /** Analyzer k raises the stuck alerts of the k-th node. */
  function StuckAlertsOf(nodes: seq<string>): May {
    (k: nat, a: Alert) =>
      k < |nodes| && a.body.L2StuckAlert? && a.body.l2Node == nodes[k]
      && a == NewAlert(a.timestamp, a.body)
  }

  /** No name occurs twice, or is another one followed by a number that can begin a height. */
  ghost predicate NamesApart(nodes: seq<string>) {
    forall i, j :: 0 <= i < |nodes| && 0 <= j < |nodes| && i != j ==>
      nodes[i] != nodes[j] && !ContinuesByNumber(nodes[i], nodes[j])
  }

  lemma SharedStuckID(n: string, m: string)
    ensures CanCollide(n, m) <==> n == m || ContinuesByNumber(n, m) || ContinuesByNumber(m, n)
  {
    if n == m {
      assert StuckID(n, 0) == StuckID(m, 0);
    } else if |n| <= |m| {
      NamesCollideExactly(n, m);
    } else {
      NamesCollideExactly(m, n);
      assert CanCollide(m, n) <==> CanCollide(n, m) by {
        forall h: uint64, k: uint64 ensures StuckID(n, h) == StuckID(m, k) <==> StuckID(m, k) == StuckID(n, h) {
        }
      }
    }
  }

  lemma StuckAlertsDisjoint(nodes: seq<string>)
    ensures Disjoint(|nodes|, StuckAlertsOf(nodes)) <==> NamesApart(nodes)
  {
    var may := StuckAlertsOf(nodes);
    if NamesApart(nodes) {
      forall i, j, a, b | 0 <= i < j < |nodes| && may(i, a) && may(j, b) ensures a.id != b.id {
        SharedStuckID(nodes[i], nodes[j]);
        assert a.id == StuckID(nodes[i], a.body.l2Height) && b.id == StuckID(nodes[j], b.body.l2Height);
      }
    }
    forall i, j | 0 <= i < j < |nodes| && CanCollide(nodes[i], nodes[j]) ensures !Disjoint(|nodes|, may) {
      var h: uint64, k: uint64 :| StuckID(nodes[i], h) == StuckID(nodes[j], k);
      var a, b := NewAlert(0, L2StuckAlert(h, nodes[i])), NewAlert(0, L2StuckAlert(k, nodes[j]));
      assert may(i, a) && may(j, b) && a.id == b.id;
    }
    if !NamesApart(nodes) {
      var i, j :| 0 <= i < |nodes| && 0 <= j < |nodes| && i != j
                  && (nodes[i] == nodes[j] || ContinuesByNumber(nodes[i], nodes[j]));
      SharedStuckID(nodes[i], nodes[j]);
      SharedStuckID(nodes[j], nodes[i]);
    }
  }

  /** With the L2 analyzers' own configuration: every fix of a stuck alert finds its chat message if
      and only if the names of the nodes are apart. */
  lemma L2PairingExactly(nodes: seq<string>, p: Platform)
    requires Listens(p)
    ensures EveryFixFinds(seq(|nodes|, _ => L2_CONFIG), StuckAlertsOf(nodes), p) <==> NamesApart(nodes)
  {
    QuotaIsEight();
    PairingExactlyIfDisjoint(seq(|nodes|, _ => L2_CONFIG), StuckAlertsOf(nodes), p);
    StuckAlertsDisjoint(nodes);
  }

  /** Nodes "l2" and "l21", whose stuck alerts at the heights 12 and 2 have one ID. */
  lemma NamesThatBreakPairing(p: Platform)
    requires Listens(p)
    ensures StuckID("l2", 12) == StuckID("l21", 2)
    ensures !EveryFixFinds([L2_CONFIG, L2_CONFIG], StuckAlertsOf(["l2", "l21"]), p)
  {
    var nodes := ["l2", "l21"];
    assert FormatUint(1) == "1" && FormatUint(2) == "2" && FormatUint(12) == FormatUint(1) + "2";
    assert "l21"[2..] == "1" && "l2" < "l21";
    StuckIDsCollide("l2", 12, "l21", 2);
    assert ContinuesByNumber(nodes[0], nodes[1]);
    L2PairingExactly(nodes, p);
    assert seq(|nodes|, _ => L2_CONFIG) == [L2_CONFIG, L2_CONFIG];
  }
}
