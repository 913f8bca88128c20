/** The alerts storage: confirmation counting, backoff of repeats, ageing, and the report of fixed alerts. */
module AlertsStorage {
  import opened Prelude
  import opened Entities

  const DEFAULT_ALERT_BACKOFF := 2

  datatype AlertInfo = AlertInfo(
    vacuumQuota: int, repeats: int, backoffThreshold: int, confirmed: bool, alert: Alert)
  {
    /** The next vacuum evicts the entry. */
    predicate Expires() {
      vacuumQuota <= 1
    }
  }

  type Store = map<AlertID, AlertInfo>

  datatype Config = Config(backoff: int, quota: int, confirmations: map<AlertType, int>) {
    /** Reading an absent key of a Go map gives zero. */
    function Required(t: AlertType): int {
      if t in confirmations then confirmations[t] else 0
    }
  }

  /** One call of the storage with its answer. */
  datatype Step = Put(alert: Alert, sent: bool) | Vacuum(fixed: seq<Alert>) {
    ghost predicate Fixes(id: AlertID) {
      Vacuum? && exists a :: a in fixed && a.id == id
    }

    predicate Raises(id: AlertID) {
      Put? && alert.id == id
    }
  }

  function Lookup(m: Store, id: AlertID): Option<AlertInfo> {
    if id in m then Some(m[id]) else None
  }

  // ----- one step, as functions of the state -----

  /** Whether a put of a, finding the entry prior, is to be sent on. */
  function Sends(c: Config, prior: Option<AlertInfo>, a: Alert): bool {
    match prior
    case None => 1 >= c.Required(a.alertType)
    case Some(o) =>
      if o.confirmed then o.repeats + 1 > o.backoffThreshold
      else o.repeats + 1 >= c.Required(a.alertType)
  }

  /** The entry that a put of a leaves behind. */
  function Updated(c: Config, prior: Option<AlertInfo>, a: Alert): AlertInfo {
    var confirmed := prior.Some? && prior.value.confirmed;
    var threshold := if prior.Some? then prior.value.backoffThreshold else 0;
    if Sends(c, prior, a) then
      AlertInfo(c.quota, 1, if confirmed then c.backoff * threshold else c.backoff, true, a)
    else
      AlertInfo(c.quota, (if prior.Some? then prior.value.repeats else 0) + 1, threshold, confirmed, a)
  }

  function StoreAfterPut(c: Config, m: Store, a: Alert): Store {
    if c.quota <= 1 then m else m[a.id := Updated(c, Lookup(m, a.id), a)]
  }

  function StoreAfterVacuum(m: Store): Store {
    map id | id in m && !m[id].Expires() :: m[id].(vacuumQuota := m[id].vacuumQuota - 1)
  }

  predicate IsFixed(m: Store, a: Alert) {
    a.id in m && m[a.id].Expires() && m[a.id].confirmed && m[a.id].alert == a
  }

  /** A vacuum reports each expiring confirmed entry once, in the map's arbitrary order. */
  ghost predicate ReportsFixed(m: Store, fixed: seq<Alert>) {
    && (forall i, j :: 0 <= i < j < |fixed| ==> fixed[i].id != fixed[j].id)
    && (forall a :: a in fixed <==> IsFixed(m, a))
  }

  function StoreAfterStep(c: Config, m: Store, s: Step): Store {
    match s
    case Put(a, _) => StoreAfterPut(c, m, a)
    case Vacuum(_) => StoreAfterVacuum(m)
  }

  ghost predicate AnswersRightly(c: Config, m: Store, s: Step) {
    match s
    case Put(a, sent) => sent == (c.quota <= 1 || Sends(c, Lookup(m, a.id), a))
    case Vacuum(fixed) => ReportsFixed(m, fixed)
  }

  // ----- whole runs -----

  type History = seq<Step>

  function StoreAfter(c: Config, h: History): Store {
    if h == [] then map[] else StoreAfterStep(c, StoreAfter(c, h[..|h| - 1]), h[|h| - 1])
  }

  /** Every recorded answer is the one the storage gives in the state it was asked in. */
  ghost predicate Consistent(c: Config, h: History) {
    h != [] ==>
      && Consistent(c, h[..|h| - 1])
      && AnswersRightly(c, StoreAfter(c, h[..|h| - 1]), h[|h| - 1])
  }

  lemma Extend(c: Config, h: History, s: Step)
    ensures StoreAfter(c, h + [s]) == StoreAfterStep(c, StoreAfter(c, h), s)
    ensures Consistent(c, h + [s]) <==> Consistent(c, h) && AnswersRightly(c, StoreAfter(c, h), s)
  {
    assert (h + [s])[..|h|] == h;
  }

  lemma {:induction false} ConsistentPrefix(c: Config, h: History, k: nat)
    requires Consistent(c, h) && k <= |h|
    ensures Consistent(c, h[..k])
    ensures k < |h| ==> AnswersRightly(c, StoreAfter(c, h[..k]), h[k])
  {
    if k < |h| - 1 {
      ConsistentPrefix(c, h[..|h| - 1], k);
      assert h[..|h| - 1][..k] == h[..k];
    } else if k == |h| {
      assert h[..k] == h;
    }
  }

  /** Entries are stored under the ID of the alert they hold. */
  lemma {:induction false} StoredUnderOwnID(c: Config, h: History, id: AlertID)
    requires id in StoreAfter(c, h)
    ensures StoreAfter(c, h)[id].alert.id == id
  {
    var h', s := h[..|h| - 1], h[|h| - 1];
    if id in StoreAfter(c, h') {
      StoredUnderOwnID(c, h', id);
    }
  }

  // ----- what the callers make of the answers -----

  /** A vacuum always has an answer. */
  lemma SomeReport(c: Config, h: History) returns (fixed: seq<Alert>)
    ensures ReportsFixed(StoreAfter(c, h), fixed)
  {
    var m := StoreAfter(c, h);
    var ids := m.Keys;
    fixed := [];
    while ids != {}
      invariant ids <= m.Keys
      invariant forall i, j :: 0 <= i < j < |fixed| ==> fixed[i].id != fixed[j].id
      invariant forall a :: a in fixed <==> IsFixed(m, a) && a.id !in ids
    {
      var id :| id in ids;
      StoredUnderOwnID(c, h, id);
      if m[id].Expires() && m[id].confirmed {
        fixed := fixed + [m[id].alert];
      }
      ids := ids - {id};
    }
  }

  /** So has a put. */
  function PutAnswer(c: Config, m: Store, a: Alert): (sent: bool)
    ensures AnswersRightly(c, m, Put(a, sent))
  {
    c.quota <= 1 || Sends(c, Lookup(m, a.id), a)
  }

  lemma SomeVacuum(c: Config, h: History) returns (fixed: seq<Alert>)
    requires Consistent(c, h)
    ensures Consistent(c, h + [Vacuum(fixed)])
  {
    fixed := SomeReport(c, h);
    Extend(c, h, Vacuum(fixed));
  }

  lemma SomePut(c: Config, h: History, a: Alert) returns (sent: bool)
    requires Consistent(c, h)
    ensures Consistent(c, h + [Put(a, sent)])
  {
    sent := PutAnswer(c, StoreAfter(c, h), a);
    Extend(c, h, Put(a, sent));
  }

  function FixMessages(ts: int, fixed: seq<Alert>): (r: seq<Message>)
    ensures |r| == |fixed|
    ensures forall i :: 0 <= i < |r| ==> r[i] == AlertFixed(ts, fixed[i])
  {
    seq(|fixed|, i requires 0 <= i < |fixed| => AlertFixed(ts, fixed[i]))
  }

  /** What is sent on after one call: the alert that was put, or a fix for each alert reported. */
  function StepMessages(ts: int, s: Step): seq<Message> {
    match s
    case Put(a, sent) => if sent then [Raised(a)] else []
    case Vacuum(fixed) => FixMessages(ts, fixed)
  }

  function Messages(ts: int, h: History): seq<Message> {
    if h == [] then [] else Messages(ts, h[..|h| - 1]) + StepMessages(ts, h[|h| - 1])
  }

  // ----- the storage itself -----

  datatype AlertConfirmationsValue = AlertConfirmationsValue(alertType: AlertType, confirmations: int)

  /** The value given last for a type. */
  function LastValue(custom: seq<AlertConfirmationsValue>, t: AlertType): Option<int> {
    if custom == [] then None
    else
      var v := custom[|custom| - 1];
      if v.alertType == t then Some(v.confirmations) else LastValue(custom[..|custom| - 1], t)
  }

  method NewAlertConfirmations(custom: seq<AlertConfirmationsValue>) returns (m: map<AlertType, int>)
    ensures forall t: AlertType :: (if t in m then Some(m[t]) else None) == LastValue(custom, t)
    ensures forall t: AlertType :: t in m <==> exists i :: GivenLast(custom, t, i)
    ensures forall t: AlertType, i :: GivenLast(custom, t, i) ==> m[t] == custom[i].confirmations
  {
    m := map[];
    for k := 0 to |custom|
      invariant forall t: AlertType :: (if t in m then Some(m[t]) else None) == LastValue(custom[..k], t)
    {
      assert custom[..k + 1][..k] == custom[..k];
      m := m[custom[k].alertType := custom[k].confirmations];
    }
    assert custom[..|custom|] == custom;
    forall t: AlertType
      ensures LastValue(custom, t).Some? <==> exists i :: GivenLast(custom, t, i)
      ensures forall i :: GivenLast(custom, t, i) ==> LastValue(custom, t) == Some(custom[i].confirmations)
    {
      LastValueMeaning(custom, t);
    }
  }

  ghost predicate GivenLast(custom: seq<AlertConfirmationsValue>, t: AlertType, i: int) {
    0 <= i < |custom| && custom[i].alertType == t && forall j :: i < j < |custom| ==> custom[j].alertType != t
  }

  lemma {:induction false} LastValueMeaning(custom: seq<AlertConfirmationsValue>, t: AlertType)
    ensures LastValue(custom, t).Some? <==> exists i :: GivenLast(custom, t, i)
    ensures forall i :: GivenLast(custom, t, i) ==> LastValue(custom, t) == Some(custom[i].confirmations)
  {
    if custom != [] {
      var front, n := custom[..|custom| - 1], |custom| - 1;
      if custom[n].alertType == t {
        assert GivenLast(custom, t, n);
        assert forall i :: GivenLast(custom, t, i) ==> i == n;
      } else {
        LastValueMeaning(front, t);
        assert forall i :: GivenLast(custom, t, i) <==> GivenLast(front, t, i);
      }
    }
  }

  /** A vacuum with the entries in ids still to come. */
  ghost predicate PartlyVacuumed(m: Store, ids: set<AlertID>, now: Store) {
    && ids <= m.Keys
    && (forall id :: id in now <==> id in ids || id in StoreAfterVacuum(m))
    && (forall id :: id in now ==> now[id] == if id in ids then m[id] else StoreAfterVacuum(m)[id])
  }

  ghost predicate PartlyReported(m: Store, ids: set<AlertID>, fixed: seq<Alert>) {
    && (forall i, j :: 0 <= i < j < |fixed| ==> fixed[i].id != fixed[j].id)
    && (forall a :: a in fixed <==> IsFixed(m, a) && a.id !in ids)
  }

  lemma AllUnderOwnID(c: Config, h: History)
    ensures forall id :: id in StoreAfter(c, h) ==> StoreAfter(c, h)[id].alert.id == id
  {
    forall id | id in StoreAfter(c, h) ensures StoreAfter(c, h)[id].alert.id == id {
      StoredUnderOwnID(c, h, id);
    }
  }

  lemma VacuumBegins(m: Store)
    requires forall id :: id in m ==> m[id].alert.id == id
    ensures PartlyVacuumed(m, m.Keys, m) && PartlyReported(m, m.Keys, [])
  {
  }

  lemma VacuumEnds(m: Store, now: Store)
    requires PartlyVacuumed(m, {}, now)
    ensures now == StoreAfterVacuum(m)
  {
  }

  lemma VacuumOne(m: Store, ids: set<AlertID>, now: Store, fixed: seq<Alert>, id: AlertID)
    requires ids <= m.Keys && id in ids && m[id].alert.id == id
    requires PartlyVacuumed(m, ids, now) && PartlyReported(m, ids, fixed)
    ensures PartlyVacuumed(m, ids - {id}, if m[id].Expires() then now - {id}
                                          else now[id := m[id].(vacuumQuota := m[id].vacuumQuota - 1)])
    ensures PartlyReported(m, ids - {id}, if m[id].Expires() && m[id].confirmed then fixed + [m[id].alert] else fixed)
  {
  }

  class AlertsStorage {
    const config: Config
    var internalStorage: Store
    ghost var history: History

    ghost predicate Valid()
      reads this
    {
      internalStorage == StoreAfter(config, history) && Consistent(config, history)
    }

    constructor (config: Config)
      ensures Valid() && this.config == config && history == []
    {
      this.config := config;
      internalStorage := map[];
      history := [];
    }

    method PutAlert(alert: Alert) returns (sendNow: bool)
      requires Valid()
      modifies this
      ensures Valid() && history == old(history) + [Put(alert, sendNow)]
      ensures config.quota <= 1 ==> sendNow && internalStorage == old(internalStorage)
      ensures config.quota > 1 ==> alert.id in internalStorage && internalStorage[alert.id].alert == alert
      ensures forall id :: id != alert.id ==> Lookup(internalStorage, id) == old(Lookup(internalStorage, id))
    {
      Extend(config, history, Put(alert, config.quota <= 1 || Sends(config, Lookup(internalStorage, alert.id), alert)));
      if config.quota <= 1 {
        history := history + [Put(alert, true)];
        return true;
      }
      var prior := Lookup(internalStorage, alert.id);
      var repeats := (if prior.Some? then prior.value.repeats else 0) + 1;
      var confirmed := prior.Some? && prior.value.confirmed;
      var threshold := if prior.Some? then prior.value.backoffThreshold else 0;
      if !confirmed && repeats >= config.Required(alert.alertType) {
        internalStorage := internalStorage[alert.id := AlertInfo(config.quota, 1, config.backoff, true, alert)];
        sendNow := true;
      } else if confirmed && repeats > threshold {
        internalStorage :=
          internalStorage[alert.id := AlertInfo(config.quota, 1, config.backoff * threshold, true, alert)];
        sendNow := true;
      } else {
        internalStorage :=
          internalStorage[alert.id := AlertInfo(config.quota, repeats, threshold, confirmed, alert)];
        sendNow := false;
      }
      history := history + [Put(alert, sendNow)];
    }

    method Vacuum() returns (alertsFixed: seq<Alert>)
      requires Valid()
      modifies this
      ensures Valid() && history == old(history) + [Step.Vacuum(alertsFixed)]
      ensures ReportsFixed(old(internalStorage), alertsFixed)
      ensures internalStorage == StoreAfterVacuum(old(internalStorage))
    {
      ghost var m := internalStorage;
      AllUnderOwnID(config, history);
      VacuumBegins(m);
      alertsFixed := [];
      var ids := internalStorage.Keys;
      while ids != {}
        invariant ids <= m.Keys && history == old(history)
        invariant PartlyVacuumed(m, ids, internalStorage) && PartlyReported(m, ids, alertsFixed)
      {
        var id :| id in ids;
        assert internalStorage[id] == m[id];
        VacuumOne(m, ids, internalStorage, alertsFixed, id);
        ids := ids - {id};
        var info := internalStorage[id];
        info := info.(vacuumQuota := info.vacuumQuota - 1);
        if info.vacuumQuota <= 0 {
          if info.confirmed {
            alertsFixed := alertsFixed + [info.alert];
          }
          internalStorage := internalStorage - {id};
        } else {
          internalStorage := internalStorage[id := info];
        }
      }
      VacuumEnds(m, internalStorage);
      Extend(config, history, Step.Vacuum(alertsFixed));
      history := history + [Step.Vacuum(alertsFixed)];
    }
  }
}
