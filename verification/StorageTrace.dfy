/** What the storage's entries and answers mean in terms of the calls made so far. */
module StorageTrace {
  import opened Prelude
  import opened Entities
  import opened AlertsStorage

  // ----- what can be read off the calls alone -----

  /** The alert of the newest put with this ID. */
  function LastPut(h: History, id: AlertID): Option<Alert> {
    if h == [] then None
    else if h[|h| - 1].Raises(id) then Some(h[|h| - 1].alert)
    else LastPut(h[..|h| - 1], id)
  }

  /** How many vacuums there were since that put. */
  function VacuumsSince(h: History, id: AlertID): nat {
    if h == [] || h[|h| - 1].Raises(id) then 0
    else VacuumsSince(h[..|h| - 1], id) + if h[|h| - 1].Vacuum? then 1 else 0
  }

  predicate Alive(c: Config, h: History, id: AlertID) {
    LastPut(h, id).Some? && VacuumsSince(h, id) < c.quota
  }

  /** How many puts the current lifetime of the ID has seen. */
  function PutsInLifetime(c: Config, h: History, id: AlertID): nat {
    if h == [] then 0
    else
      var h' := h[..|h| - 1];
      if h[|h| - 1].Raises(id) then (if Alive(c, h', id) then PutsInLifetime(c, h', id) else 0) + 1
      else PutsInLifetime(c, h', id)
  }

  /** How many of them were answered with "send now". */
  function SendsInLifetime(c: Config, h: History, id: AlertID): nat {
    if h == [] then 0
    else
      var h', s := h[..|h| - 1], h[|h| - 1];
      if s.Raises(id) then
        (if Alive(c, h', id) then SendsInLifetime(c, h', id) else 0) + if s.sent then 1 else 0
      else SendsInLifetime(c, h', id)
  }

  /** Alerts with one ID have one type; see Entities.IDDeterminesType. */
  ghost predicate Keyed(h: History) {
    forall i, j :: 0 <= i < |h| && 0 <= j < |h| && h[i].Put? && h[j].Put? && h[i].alert.id == h[j].alert.id
               ==> h[i].alert.alertType == h[j].alert.alertType
  }

  /** The number of puts after which an alert counts as confirmed. */
  function Needed(c: Config, a: Alert): nat {
    Max(1, c.Required(a.alertType))
  }

  // ----- powers and geometric sums -----

  function Pow(b: int, k: nat): int {
    if k == 0 then 1 else b * Pow(b, k - 1)
  }

  lemma {:induction false} PowPositive(b: int, k: nat)
    requires b >= 1
    ensures Pow(b, k) >= 1
  {
    if k > 0 {
      PowPositive(b, k - 1);
      assert b * Pow(b, k - 1) >= Pow(b, k - 1);
    }
  }

  /** b + b^2 + ... + b^k. */
  function Geometric(b: int, k: nat): int {
    if k == 0 then 0 else Geometric(b, k - 1) + Pow(b, k)
  }

  /** The largest k with b + ... + b^k <= n. */
  function Resends(b: int, n: nat): (k: nat)
    requires b >= 1
    ensures Geometric(b, k) <= n < Geometric(b, k + 1)
  {
    if n == 0 then
      PowPositive(b, 1);
      0
    else
      var k := Resends(b, n - 1);
      PowPositive(b, k + 2);
      if Geometric(b, k + 1) <= n then k + 1 else k
  }

  lemma {:induction false} GeometricGrows(b: int, j: nat, k: nat)
    requires b >= 1 && j < k
    ensures Geometric(b, j) < Geometric(b, k)
  {
    PowPositive(b, k);
    if j < k - 1 {
      GeometricGrows(b, j, k - 1);
    }
  }

  lemma ResendsIsLargest(b: int, n: nat, k: nat)
    requires b >= 1
    ensures Geometric(b, k) <= n <==> k <= Resends(b, n)
  {
    var r := Resends(b, n);
    if k < r {
      GeometricGrows(b, k, r);
    } else if k > r + 1 {
      GeometricGrows(b, r + 1, k);
    }
  }

  // ----- presence -----

  lemma KeyedPrefix(h: History)
    requires Keyed(h) && h != []
    ensures Keyed(h[..|h| - 1])
  {
  }

  /** The part of an entry's meaning that holds for every backoff. */
  ghost predicate EntryMeans(c: Config, h: History, id: AlertID) {
    match Lookup(StoreAfter(c, h), id)
    case None => !Alive(c, h, id)
    case Some(info) =>
      && Alive(c, h, id)
      && info.vacuumQuota == c.quota - VacuumsSince(h, id)
      && info.alert == LastPut(h, id).value
      && var n := PutsInLifetime(c, h, id);
         && n >= 1
         && (info.confirmed <==> n >= Needed(c, info.alert))
         && (!info.confirmed ==> info.repeats == n && info.backoffThreshold == 0)
  }

  /** An ID is stored exactly while fewer than quota vacuums followed its last put, with the quota
      that is left; it is confirmed exactly when its lifetime has seen the needed number of puts. */
  lemma {:induction false} EntryMeaning(c: Config, h: History, id: AlertID)
    requires c.quota >= 2 && Keyed(h)
    ensures EntryMeans(c, h, id)
  {
    if h != [] {
      var h', s := h[..|h| - 1], h[|h| - 1];
      KeyedPrefix(h);
      EntryMeaning(c, h', id);
      if s.Raises(id) && Alive(c, h', id) {
        LastPutHasSameType(h, id);
      }
    }
  }

  lemma {:induction false} LastPutIsAPut(h: History, id: AlertID) returns (i: nat)
    requires LastPut(h, id).Some?
    ensures i < |h| && h[i].Raises(id) && h[i].alert == LastPut(h, id).value
  {
    if h[|h| - 1].Raises(id) {
      i := |h| - 1;
    } else {
      i := LastPutIsAPut(h[..|h| - 1], id);
    }
  }

  lemma LastPutHasSameType(h: History, id: AlertID)
    requires h != [] && Keyed(h) && h[|h| - 1].Raises(id)
    requires LastPut(h[..|h| - 1], id).Some?
    ensures LastPut(h[..|h| - 1], id).value.alertType == h[|h| - 1].alert.alertType
  {
    var i := LastPutIsAPut(h[..|h| - 1], id);
    assert h[i].Put? && h[|h| - 1].Put?;
  }

  // ----- backoff -----

  /** With n puts of which `needed` confirm, these are the repeat count and threshold. */
  ghost predicate CountersMean(c: Config, info: AlertInfo, further: nat)
    requires c.backoff >= 1
  {
    var k := Resends(c.backoff, further);
    && info.repeats == 1 + further - Geometric(c.backoff, k)
    && info.backoffThreshold == Pow(c.backoff, k + 1)
  }

  /** A call for another ID, or a vacuum that the entry outlives, leaves the counters alone. */
  lemma QuietCall(c: Config, h: History, id: AlertID)
    requires h != [] && !h[|h| - 1].Raises(id) && id in StoreAfter(c, h)
    ensures var before := StoreAfter(c, h[..|h| - 1]);
            id in before && StoreAfter(c, h)[id] == before[id].(vacuumQuota := StoreAfter(c, h)[id].vacuumQuota)
    ensures PutsInLifetime(c, h, id) == PutsInLifetime(c, h[..|h| - 1], id)
  {
  }

  /** The put that confirms an entry starts the counters. */
  lemma ConfirmingPut(c: Config, h: History, id: AlertID)
    requires c.quota >= 2 && c.backoff >= 1 && Keyed(h) && h != [] && h[|h| - 1].Raises(id)
    requires id in StoreAfter(c, h) && StoreAfter(c, h)[id].confirmed
    requires var before := StoreAfter(c, h[..|h| - 1]); id in before ==> !before[id].confirmed
    ensures PutsInLifetime(c, h, id) == Needed(c, StoreAfter(c, h)[id].alert)
    ensures CountersMean(c, StoreAfter(c, h)[id], 0)
  {
    KeyedPrefix(h);
    EntryMeaning(c, h[..|h| - 1], id);
    EntryMeaning(c, h, id);
    FirstCounters(c);
    if id in StoreAfter(c, h[..|h| - 1]) {
      LastPutHasSameType(h, id);
    }
  }

  /** A put of a confirmed entry counts on. */
  lemma FurtherPut(c: Config, h: History, id: AlertID, further: nat)
    requires c.quota >= 2 && c.backoff >= 1 && Keyed(h) && h != [] && h[|h| - 1].Raises(id)
    requires var before := StoreAfter(c, h[..|h| - 1]);
             && id in before && before[id].confirmed && CountersMean(c, before[id], further)
             && PutsInLifetime(c, h[..|h| - 1], id) == Needed(c, before[id].alert) + further
    ensures id in StoreAfter(c, h) && CountersMean(c, StoreAfter(c, h)[id], further + 1)
    ensures PutsInLifetime(c, h, id) == Needed(c, StoreAfter(c, h)[id].alert) + further + 1
  {
    KeyedPrefix(h);
    EntryMeaning(c, h[..|h| - 1], id);
    LastPutHasSameType(h, id);
    NextPut(c, StoreAfter(c, h[..|h| - 1])[id], h[|h| - 1].alert, further);
  }

  /** After the confirming put, n further puts leave a threshold of b^(k+1) for the largest k with
      b + ... + b^k <= n, and the repeats count what is left of n. */
  lemma {:induction false} CountersMeaning(c: Config, h: History, id: AlertID)
    requires c.quota >= 2 && c.backoff >= 1 && Keyed(h)
    requires id in StoreAfter(c, h) && StoreAfter(c, h)[id].confirmed
    ensures PutsInLifetime(c, h, id) >= Needed(c, StoreAfter(c, h)[id].alert)
    ensures CountersMean(c, StoreAfter(c, h)[id],
                         PutsInLifetime(c, h, id) - Needed(c, StoreAfter(c, h)[id].alert))
  {
    var h' := h[..|h| - 1];
    KeyedPrefix(h);
    if !h[|h| - 1].Raises(id) {
      QuietCall(c, h, id);
      CountersMeaning(c, h', id);
    } else if id in StoreAfter(c, h') && StoreAfter(c, h')[id].confirmed {
      CountersMeaning(c, h', id);
      FurtherPut(c, h, id, PutsInLifetime(c, h', id) - Needed(c, StoreAfter(c, h')[id].alert));
    } else {
      ConfirmingPut(c, h, id);
    }
  }

  lemma FirstCounters(c: Config)
    requires c.backoff >= 1
    ensures Resends(c.backoff, 0) == 0
    ensures Geometric(c.backoff, 0) == 0 && Pow(c.backoff, 1) == c.backoff
  {
    ResendsIsLargest(c.backoff, 0, 1);
    assert Pow(c.backoff, 1) == c.backoff * Pow(c.backoff, 0);
  }

  /** One more put of a confirmed alert is sent exactly when it completes the next power of b. */
  lemma NextPut(c: Config, info: AlertInfo, a: Alert, further: nat)
    requires c.backoff >= 1 && info.confirmed && CountersMean(c, info, further)
    ensures Sends(c, Some(info), a) <==> Resends(c.backoff, further + 1) == Resends(c.backoff, further) + 1
    ensures !Sends(c, Some(info), a) <==> Resends(c.backoff, further + 1) == Resends(c.backoff, further)
    ensures CountersMean(c, Updated(c, Some(info), a), further + 1)
  {
    var b, k := c.backoff, Resends(c.backoff, further);
    ResendsIsLargest(b, further + 1, k);
    ResendsIsLargest(b, further + 1, k + 1);
    PowPositive(b, k + 2);
    assert Geometric(b, k + 2) == Geometric(b, k + 1) + Pow(b, k + 2);
    ResendsIsLargest(b, further + 1, k + 2);
    assert Pow(b, k + 2) == b * Pow(b, k + 1);
  }

  lemma OneMoreSend(c: Config, h: History, id: AlertID)
    requires c.quota >= 2 && c.backoff >= 1 && Keyed(h) && Consistent(c, h)
    requires h != [] && h[|h| - 1].Raises(id) && Alive(c, h[..|h| - 1], id)
    ensures var h', a, sent := h[..|h| - 1], h[|h| - 1].alert, h[|h| - 1].sent;
            var n, needed := PutsInLifetime(c, h', id), Needed(c, a);
            && LastPut(h', id).value.alertType == a.alertType
            && (n + 1 < needed ==> !sent)
            && (n + 1 == needed ==> sent)
            && (n >= needed ==> Resends(c.backoff, n + 1 - needed)
                                == Resends(c.backoff, n - needed) + if sent then 1 else 0)
  {
    var h', s := h[..|h| - 1], h[|h| - 1];
    KeyedPrefix(h);
    EntryMeaning(c, h', id);
    LastPutHasSameType(h, id);
    var info := StoreAfter(c, h')[id];
    if info.confirmed {
      CountersMeaning(c, h', id);
      NextPut(c, info, s.alert, PutsInLifetime(c, h', id) - Needed(c, s.alert));
    }
  }

  /** While an entry lives, its sends are the confirming one and k resends, for the largest k with
      b + ... + b^k not above the number of puts after confirmation. */
  lemma {:induction false} SendsMeaning(c: Config, h: History, id: AlertID)
    requires c.quota >= 2 && c.backoff >= 1 && Keyed(h) && Consistent(c, h) && Alive(c, h, id)
    ensures var n, needed := PutsInLifetime(c, h, id), Needed(c, LastPut(h, id).value);
            SendsInLifetime(c, h, id) == if n < needed then 0 else 1 + Resends(c.backoff, n - needed)
  {
    EntryMeaning(c, h, id);
    var h', s := h[..|h| - 1], h[|h| - 1];
    KeyedPrefix(h);
    EntryMeaning(c, h', id);
    if s.Raises(id) {
      FirstCounters(c);
      if Alive(c, h', id) {
        SendsMeaning(c, h', id);
        OneMoreSend(c, h, id);
      }
    } else {
      SendsMeaning(c, h', id);
    }
  }

  // ----- the order of sends and fixes -----

  /** Some send of the ID has not been followed by a fix of it. */
  ghost predicate Outstanding(h: History, id: AlertID) {
    exists i :: 0 <= i < |h| && h[i].Raises(id) && h[i].sent && forall j :: i < j < |h| ==> !h[j].Fixes(id)
  }

  lemma OutstandingStep(h: History, s: Step, id: AlertID)
    ensures Outstanding(h + [s], id) <==> (s.Raises(id) && s.sent) || (Outstanding(h, id) && !s.Fixes(id))
  {
    var g := h + [s];
    if s.Raises(id) && s.sent {
      assert g[|h|] == s;
    } else if Outstanding(h, id) && !s.Fixes(id) {
      var i :| 0 <= i < |h| && h[i].Raises(id) && h[i].sent && forall j :: i < j < |h| ==> !h[j].Fixes(id);
      assert g[i] == h[i];
    } else if Outstanding(g, id) {
      var i :| 0 <= i < |g| && g[i].Raises(id) && g[i].sent && forall j :: i < j < |g| ==> !g[j].Fixes(id);
      assert i < |h| && h[i] == g[i] && !g[|h|].Fixes(id);
      forall j | i < j < |h| ensures !h[j].Fixes(id) {
        assert h[j] == g[j];
      }
    }
  }

  /** In every run, an ID is stored and confirmed exactly when the last thing said about it was a send. */
  lemma {:induction false} ConfirmedIffOutstanding(c: Config, h: History, id: AlertID)
    requires c.quota >= 2 && Consistent(c, h)
    ensures Outstanding(h, id) <==> id in StoreAfter(c, h) && StoreAfter(c, h)[id].confirmed
  {
    if h != [] {
      var h', s := h[..|h| - 1], h[|h| - 1];
      ConfirmedIffOutstanding(c, h', id);
      assert h == h' + [s];
      OutstandingStep(h', s, id);
      if s.Vacuum? {
        FixedIffExpired(c, h', s.fixed, id);
      }
    }
  }

  /** A vacuum reports an ID exactly when its entry is confirmed and expires; other entries that
      expire leave without a word. */
  lemma FixedIffExpired(c: Config, h: History, fixed: seq<Alert>, id: AlertID)
    requires ReportsFixed(StoreAfter(c, h), fixed)
    ensures Vacuum(fixed).Fixes(id) <==>
            id in StoreAfter(c, h) && StoreAfter(c, h)[id].Expires() && StoreAfter(c, h)[id].confirmed
    ensures Vacuum(fixed).Fixes(id) ==> StoreAfter(c, h)[id].alert in fixed
    ensures id !in StoreAfterVacuum(StoreAfter(c, h)) <==>
            id !in StoreAfter(c, h) || StoreAfter(c, h)[id].Expires()
  {
    var m := StoreAfter(c, h);
    if id in m {
      StoredUnderOwnID(c, h, id);
      assert m[id].Expires() && m[id].confirmed ==> IsFixed(m, m[id].alert);
    }
  }

  /** In every run each fix of an ID has a send of it before, with no other fix of it between. */
  lemma FixFollowsSend(c: Config, h: History, j: nat, id: AlertID)
    requires Consistent(c, h) && j < |h| && h[j].Fixes(id)
    ensures Outstanding(h[..j], id)
  {
    ConsistentPrefix(c, h, j);
    FixedIffExpired(c, h[..j], h[j].fixed, id);
    if c.quota >= 2 {
      ConfirmedIffOutstanding(c, h[..j], id);
    } else {
      NothingStored(c, h[..j]);
    }
  }

  /** With a quota of one or less every put is sent and nothing is ever stored or fixed. */
  lemma {:induction false} NothingStored(c: Config, h: History)
    requires c.quota <= 1
    ensures StoreAfter(c, h) == map[]
  {
    if h != [] {
      NothingStored(c, h[..|h| - 1]);
    }
  }

  // ----- the answers -----

  /** The answer to a put: nothing is sent before the confirming put, that one is, and then each
      put that completes a power of the backoff. */
  lemma SentMeaning(c: Config, h: History, a: Alert, sent: bool)
    requires c.quota >= 2
    requires Consistent(c, h + [Put(a, sent)]) && Keyed(h + [Put(a, sent)])
    ensures var n := PutsInLifetime(c, h + [Put(a, sent)], a.id);
            && (n < Needed(c, a) ==> !sent)
            && (n == Needed(c, a) ==> sent)
            && (c.backoff >= 1 && n > Needed(c, a) ==>
                  (sent <==> exists k: nat :: n - Needed(c, a) == Geometric(c.backoff, k)))
  {
    var g := h + [Put(a, sent)];
    assert g[..|g| - 1] == h;
    KeyedPrefix(g);
    Extend(c, h, Put(a, sent));
    EntryMeaning(c, h, a.id);
    EntryMeaning(c, g, a.id);
    var before := Lookup(StoreAfter(c, h), a.id);
    if before.Some? {
      LastPutHasSameType(g, a.id);
    }
    if before.Some? && before.value.confirmed && c.backoff >= 1 {
      RepeatMeaning(c, h, a, before.value);
    }
  }

  /** The same with the configured number itself: a type with a configured number of confirmations is
      silent until that many puts, at least one, and is sent at that put; without a configured number
      the first put of a lifetime is sent. */
  lemma ConfirmationsCount(c: Config, h: History, a: Alert, sent: bool)
    requires c.quota >= 2
    requires Consistent(c, h + [Put(a, sent)]) && Keyed(h + [Put(a, sent)])
    ensures var n, t := PutsInLifetime(c, h + [Put(a, sent)], a.id), a.alertType;
            && n >= 1
            && (t in c.confirmations && n < c.confirmations[t] ==> !sent)
            && (t in c.confirmations && n == Max(1, c.confirmations[t]) ==> sent)
            && (t !in c.confirmations && n == 1 ==> sent)
  {
    SentMeaning(c, h, a, sent);
  }

  /** A put of a confirmed alert is sent exactly if it completes a power of the backoff. */
  lemma RepeatMeaning(c: Config, h: History, a: Alert, info: AlertInfo)
    requires c.quota >= 2 && c.backoff >= 1 && Keyed(h) && Lookup(StoreAfter(c, h), a.id) == Some(info)
    requires info.confirmed && info.alert.alertType == a.alertType
    ensures var further := PutsInLifetime(c, h, a.id) - Needed(c, a);
            further >= 0 && (Sends(c, Some(info), a) <==> exists k: nat :: further + 1 == Geometric(c.backoff, k))
  {
    CountersMeaning(c, h, a.id);
    var further := PutsInLifetime(c, h, a.id) - Needed(c, a);
    NextPut(c, info, a, further);
    CompletesPower(c.backoff, further);
  }

  lemma CompletesPower(b: int, n: nat)
    requires b >= 1
    ensures Resends(b, n + 1) == Resends(b, n) + 1 <==> exists k: nat :: n + 1 == Geometric(b, k)
  {
    var r := Resends(b, n);
    if Resends(b, n + 1) == r + 1 {
      assert n + 1 == Geometric(b, r + 1);
    }
    forall k: nat | n + 1 == Geometric(b, k) ensures Resends(b, n + 1) == r + 1 {
      ResendsIsLargest(b, n, k);
      ResendsIsLargest(b, n + 1, k);
      ResendsIsLargest(b, n + 1, r + 2);
      if k > r + 1 {
        GeometricGrows(b, r + 1, k);
      }
    }
  }

  /** A vacuum reports an ID exactly when it is the quota-th since the last put and the lifetime
      has seen the needed puts; what it reports is the alert of that put. */
  lemma FixedMeaning(c: Config, h: History, fixed: seq<Alert>, id: AlertID)
    requires c.quota >= 2 && Keyed(h) && Consistent(c, h + [Vacuum(fixed)])
    ensures Vacuum(fixed).Fixes(id) <==>
            && LastPut(h, id).Some?
            && VacuumsSince(h, id) + 1 == c.quota
            && PutsInLifetime(c, h, id) >= Needed(c, LastPut(h, id).value)
    ensures Vacuum(fixed).Fixes(id) ==> LastPut(h, id).value in fixed
  {
    Extend(c, h, Vacuum(fixed));
    FixedIffExpired(c, h, fixed, id);
    EntryMeaning(c, h, id);
  }
}
