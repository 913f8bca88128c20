/** End to end: analyzers with a storage each, one FIFO of messages to the bot, and the bot's map.
    Every fix finds the chat message of its alert exactly if no two storages share an alert ID. */
module BotPairing {
  import opened Prelude
  import opened Entities
  import opened AlertsStorage
  import opened AlertStream
  import opened Bots

  /** analyzers[k] is what analyzer k has said so far, on a storage of its own. */
  datatype System = System(analyzers: seq<seq<Cause>>, queue: seq<Message>, delivered: seq<Delivery>)

  datatype Action = Say(k: nat, cause: Cause) | Deliver(messageID: int)

  /** Which alerts storage k may be given. */
  type May = (nat, Alert) -> bool

  ghost predicate Init(cs: seq<Config>, s: System) {
    s == System(seq(|cs|, _ => []), [], [])
  }

  ghost predicate MaySay(c: Config, may: May, k: nat, past: seq<Cause>, cause: Cause) {
    cause.Stored? ==>
      && AnswersRightly(c, StoreAfter(c, HistoryOf(past)), cause.step)
      && (cause.step.Put? ==> may(k, cause.step.alert))
  }

  /** An analyzer says something, or the bot gets a message and posts it successfully. */
  ghost predicate Next(cs: seq<Config>, may: May, s: System, a: Action, t: System) {
    match a
    case Say(k, cause) =>
      && k < |cs| == |s.analyzers| && MaySay(cs[k], may, k, s.analyzers[k], cause)
      && t == s.(analyzers := s.analyzers[k := s.analyzers[k] + [cause]], queue := s.queue + CauseMessages(cause))
    case Deliver(messageID) =>
      && s.queue != []
      && t == s.(queue := s.queue[1..], delivered := s.delivered + [Delivery(s.queue[0], Some(messageID))])
  }

  ghost predicate IsRun(cs: seq<Config>, may: May, run: seq<System>, actions: seq<Action>) {
    && |run| == |actions| + 1
    && Init(cs, run[0])
    && forall i :: 0 <= i < |actions| ==> Next(cs, may, run[i], actions[i], run[i + 1])
  }

  // ----- what the bot will know -----

  function ConfirmedIDs(m: Store): set<AlertID> {
    set id | id in m && m[id].confirmed
  }

  function Learn(ids: set<AlertID>, m: Message): set<AlertID> {
    if m.Raised? then ids + {m.ReferenceID()} else ids - {m.ReferenceID()}
  }

  /** The IDs that are known after the queue, if ids are known before it. */
  function KnownAfter(ids: set<AlertID>, queue: seq<Message>): set<AlertID> {
    if queue == [] then ids else Learn(KnownAfter(ids, queue[..|queue| - 1]), queue[|queue| - 1])
  }

  /** Every fix in the queue will find its ID known. */
  predicate Served(ids: set<AlertID>, queue: seq<Message>) {
    queue != [] ==>
      && Served(ids, queue[..|queue| - 1])
      && var m := queue[|queue| - 1];
         (m.AlertFixed? ==> m.ReferenceID() in KnownAfter(ids, queue[..|queue| - 1]))
  }

  lemma {:induction false} TakeFirst(ids: set<AlertID>, queue: seq<Message>)
    requires queue != []
    ensures KnownAfter(Learn(ids, queue[0]), queue[1..]) == KnownAfter(ids, queue)
    ensures Served(ids, queue) ==>
              Served(Learn(ids, queue[0]), queue[1..]) && (queue[0].AlertFixed? ==> queue[0].ReferenceID() in ids)
  {
    var n := |queue| - 1;
    if n == 0 {
      assert queue[..0] == [] && queue[1..] == [];
    } else {
      TakeFirst(ids, queue[..n]);
      assert queue[1..][..n - 1] == queue[..n][1..];
    }
  }

  lemma QueueGrows(ids: set<AlertID>, queue: seq<Message>, m: Message)
    ensures KnownAfter(ids, queue + [m]) == Learn(KnownAfter(ids, queue), m)
    ensures Served(ids, queue + [m]) <==>
              Served(ids, queue) && (m.AlertFixed? ==> m.ReferenceID() in KnownAfter(ids, queue))
  {
    assert (queue + [m])[..|queue|] == queue;
  }

  function FixedIDs(fixed: seq<Alert>): set<AlertID> {
    set i | 0 <= i < |fixed| :: fixed[i].id
  }

  lemma LastFix(queue: seq<Message>, ts: int, fixed: seq<Alert>)
    requires fixed != []
    ensures var n := |fixed| - 1;
            queue + FixMessages(ts, fixed) == (queue + FixMessages(ts, fixed[..n])) + [AlertFixed(ts, fixed[n])]
  {
    var n := |fixed| - 1;
    assert FixMessages(ts, fixed) == FixMessages(ts, fixed[..n]) + [AlertFixed(ts, fixed[n])];
  }

  lemma LastFixedID(fixed: seq<Alert>)
    requires fixed != []
    ensures FixedIDs(fixed) == FixedIDs(fixed[..|fixed| - 1]) + {fixed[|fixed| - 1].id}
  {
    var n := |fixed| - 1;
    forall id | id in FixedIDs(fixed) ensures id in FixedIDs(fixed[..n]) + {fixed[n].id} {
      var i :| 0 <= i < |fixed| && fixed[i].id == id;
      assert i < n ==> fixed[..n][i].id == id;
    }
    forall id | id in FixedIDs(fixed[..n]) ensures id in FixedIDs(fixed) {
      var i :| 0 <= i < n && fixed[..n][i].id == id;
      assert fixed[i].id == id;
    }
  }

  /** Fixes make their IDs unknown and no others; they are served if their IDs are known and differ. */
  lemma {:induction false} FixesRemove(ids: set<AlertID>, queue: seq<Message>, ts: int, fixed: seq<Alert>)
    ensures KnownAfter(ids, queue + FixMessages(ts, fixed)) == KnownAfter(ids, queue) - FixedIDs(fixed)
    ensures Served(ids, queue) && FixedIDs(fixed) <= KnownAfter(ids, queue)
            && (forall i, j :: 0 <= i < j < |fixed| ==> fixed[i].id != fixed[j].id)
            ==> Served(ids, queue + FixMessages(ts, fixed))
  {
    if fixed == [] {
      assert queue + FixMessages(ts, fixed) == queue;
    } else {
      var n := |fixed| - 1;
      FixesRemove(ids, queue, ts, fixed[..n]);
      LastFix(queue, ts, fixed);
      LastFixedID(fixed);
      QueueGrows(ids, queue + FixMessages(ts, fixed[..n]), AlertFixed(ts, fixed[n]));
    }
  }

  function Known(p: Platform, ds: seq<Delivery>): set<AlertID> {
    MapAfter(p, ds).Keys
  }

  lemma DeliveryLearns(p: Platform, ds: seq<Delivery>, m: Message, messageID: int)
    requires Listens(p)
    ensures Known(p, ds + [Delivery(m, Some(messageID))]) == Learn(Known(p, ds), m)
  {
    assert (ds + [Delivery(m, Some(messageID))])[..|ds|] == ds;
  }

  // ----- what every step keeps -----

  ghost predicate Owns(may: May, k: nat, id: AlertID) {
    exists a :: may(k, a) && a.id == id
  }

  /** No two storages may be given alerts with the same ID. */
  ghost predicate Disjoint(n: nat, may: May) {
    forall i, j, a, b :: 0 <= i < j < n && may(i, a) && may(j, b) ==> a.id != b.id
  }

  /** Storage k after the calls h, when the IDs in horizon will be known after the queue. */
  ghost predicate Covered(c: Config, may: May, k: nat, h: History, horizon: set<AlertID>) {
    && Consistent(c, h)
    && ConfirmedIDs(StoreAfter(c, h)) <= horizon
    && forall id :: id in StoreAfter(c, h) ==> Owns(may, k, id)
  }

  ghost predicate AllCovered(cs: seq<Config>, may: May, analyzers: seq<seq<Cause>>, horizon: set<AlertID>) {
    && |analyzers| == |cs|
    && forall k :: 0 <= k < |cs| ==> Covered(cs[k], may, k, HistoryOf(analyzers[k]), horizon)
  }

  ghost predicate Inv(cs: seq<Config>, may: May, p: Platform, s: System) {
    && Served(Known(p, s.delivered), s.queue)
    && AllCovered(cs, may, s.analyzers, KnownAfter(Known(p, s.delivered), s.queue))
  }

  lemma PutCovered(c: Config, may: May, k: nat, h: History, horizon: set<AlertID>, a: Alert, sent: bool)
    requires Covered(c, may, k, h, horizon) && may(k, a)
    requires AnswersRightly(c, StoreAfter(c, h), Put(a, sent))
    ensures Covered(c, may, k, h + [Put(a, sent)], if sent then horizon + {a.id} else horizon)
  {
    Extend(c, h, Put(a, sent));
    assert Owns(may, k, a.id);
  }

  lemma VacuumCovered(c: Config, may: May, k: nat, h: History, horizon: set<AlertID>, fixed: seq<Alert>)
    requires Covered(c, may, k, h, horizon) && AnswersRightly(c, StoreAfter(c, h), Vacuum(fixed))
    ensures Covered(c, may, k, h + [Vacuum(fixed)], horizon - FixedIDs(fixed))
    ensures FixedIDs(fixed) <= horizon && forall id :: id in FixedIDs(fixed) ==> Owns(may, k, id)
  {
    var m := StoreAfter(c, h);
    Extend(c, h, Vacuum(fixed));
    forall i | 0 <= i < |fixed| ensures fixed[i].id in ConfirmedIDs(m) && m[fixed[i].id].Expires() {
      assert fixed[i] in fixed;
    }
  }

  lemma OtherCovered(c: Config, may: May, j: nat, h: History, horizon: set<AlertID>, horizon': set<AlertID>)
    requires Covered(c, may, j, h, horizon)
    requires forall id :: id in horizon && id !in horizon' ==> !Owns(may, j, id)
    ensures Covered(c, may, j, h, horizon')
  {
  }

  lemma OneOwner(n: nat, may: May, k: nat, j: nat, id: AlertID)
    requires Disjoint(n, may) && k < n && j < n && k != j && Owns(may, k, id)
    ensures !Owns(may, j, id)
  {
    var a :| may(k, a) && a.id == id;
    forall b | may(j, b) ensures b.id != id {
      assert if k < j then a.id != b.id else b.id != a.id;
    }
  }

  /** One analyzer says more; the IDs lost are its own. */
  lemma SayCovered(
      cs: seq<Config>, may: May, analyzers: seq<seq<Cause>>, horizon: set<AlertID>, k: nat, cause: Cause,
      horizon': set<AlertID>)
    requires AllCovered(cs, may, analyzers, horizon) && k < |cs| && Disjoint(|cs|, may)
    requires forall id :: id in horizon && id !in horizon' ==> Owns(may, k, id)
    requires Covered(cs[k], may, k, HistoryOf(analyzers[k] + [cause]), horizon')
    ensures AllCovered(cs, may, analyzers[k := analyzers[k] + [cause]], horizon')
  {
    var analyzers' := analyzers[k := analyzers[k] + [cause]];
    forall j | 0 <= j < |cs| ensures Covered(cs[j], may, j, HistoryOf(analyzers'[j]), horizon') {
      if j != k {
        forall id | id in horizon && id !in horizon' ensures !Owns(may, j, id) {
          OneOwner(|cs|, may, k, j, id);
        }
        OtherCovered(cs[j], may, j, HistoryOf(analyzers[j]), horizon, horizon');
      }
    }
  }

  lemma SayInv(cs: seq<Config>, may: May, p: Platform, s: System, k: nat, cause: Cause, t: System)
    requires Disjoint(|cs|, may) && Inv(cs, may, p, s) && Next(cs, may, s, Say(k, cause), t)
    ensures Inv(cs, may, p, t)
  {
    var known := Known(p, s.delivered);
    var horizon := KnownAfter(known, s.queue);
    var h := HistoryOf(s.analyzers[k]);
    Grows(s.analyzers[k], cause);
    assert Covered(cs[k], may, k, h, horizon);
    match cause
    case Direct(a) =>
      assert h + [] == h;
      QueueGrows(known, s.queue, Raised(a));
      SayCovered(cs, may, s.analyzers, horizon, k, cause, horizon + {a.id});
    case Stored(ts, Put(a, sent)) =>
      PutCovered(cs[k], may, k, h, horizon, a, sent);
      if sent {
        QueueGrows(known, s.queue, Raised(a));
        SayCovered(cs, may, s.analyzers, horizon, k, cause, horizon + {a.id});
      } else {
        assert s.queue + [] == s.queue;
        SayCovered(cs, may, s.analyzers, horizon, k, cause, horizon);
      }
    case Stored(ts, Vacuum(fixed)) =>
      VacuumCovered(cs[k], may, k, h, horizon, fixed);
      FixesRemove(known, s.queue, ts, fixed);
      SayCovered(cs, may, s.analyzers, horizon, k, cause, horizon - FixedIDs(fixed));
  }

  lemma NextInv(cs: seq<Config>, may: May, p: Platform, s: System, a: Action, t: System)
    requires Disjoint(|cs|, may) && Listens(p) && Inv(cs, may, p, s) && Next(cs, may, s, a, t)
    ensures Inv(cs, may, p, t)
  {
    match a
    case Say(k, cause) => SayInv(cs, may, p, s, k, cause, t);
    case Deliver(messageID) =>
      TakeFirst(Known(p, s.delivered), s.queue);
      DeliveryLearns(p, s.delivered, s.queue[0], messageID);
  }

  lemma StepOf(cs: seq<Config>, may: May, run: seq<System>, actions: seq<Action>, k: nat)
    requires IsRun(cs, may, run, actions) && k < |actions|
    ensures Next(cs, may, run[k], actions[k], run[k + 1])
  {
  }

  lemma InitInv(cs: seq<Config>, may: May, p: Platform, s: System)
    requires Init(cs, s)
    ensures Inv(cs, may, p, s)
  {
    forall k | 0 <= k < |cs| ensures Covered(cs[k], may, k, HistoryOf(s.analyzers[k]), {}) {
      assert s.analyzers[k] == [];
    }
  }

  lemma {:induction false} RunInv(
      cs: seq<Config>, may: May, p: Platform, run: seq<System>, actions: seq<Action>, k: nat)
    requires Disjoint(|cs|, may) && Listens(p) && IsRun(cs, may, run, actions) && k < |run|
    ensures Inv(cs, may, p, run[k])
  {
    if k == 0 {
      InitInv(cs, may, p, run[0]);
    } else {
      RunInv(cs, may, p, run, actions, k - 1);
      StepOf(cs, may, run, actions, k - 1);
      NextInv(cs, may, p, run[k - 1], actions[k - 1], run[k]);
    }
  }

  /** In every run of analyzers without common IDs, whenever a fix reaches the bot it replies, and to
      the chat message with which the fixed alert was last posted. */
  lemma EveryFixFindsItsMessage(
      cs: seq<Config>, may: May, p: Platform, run: seq<System>, actions: seq<Action>, k: nat)
    requires Disjoint(|cs|, may) && Listens(p) && IsRun(cs, may, run, actions)
    requires k < |actions| && actions[k].Deliver? && run[k].queue != [] && run[k].queue[0].AlertFixed?
    ensures var s, fix := run[k], run[k].queue[0];
            exists i :: LastPost(s.delivered, fix.fixed.id, i)
                     && React(p, MapAfter(p, s.delivered), fix, Some(actions[k].messageID)).1
                     == Replied(s.delivered[i].result.value)
  {
    RunInv(cs, may, p, run, actions, k);
    var s := run[k];
    TakeFirst(Known(p, s.delivered), s.queue);
    var id := s.queue[0].fixed.id;
    MapMeaning(p, s.delivered, id);
    var i :| LastPost(s.delivered, id, i);
  }
}
