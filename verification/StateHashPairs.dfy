/** Which pairs of samples the alerts of a bucket stand for. */
module StateHashPairs {
  import opened Prelude
  import opened Entities
  import opened Statements
  import opened StateHashCriterion

  ghost predicate AtMostOneEach(f: Pairing) {
    forall x, y :: |f(x, y)| <= 1
  }

  ghost predicate GivesAlert(f: Pairing, samples: Statements, p: (nat, nat), a: Alert) {
    p.0 < p.1 < |samples| && f(samples[p.0], samples[p.1]) == [a]
  }

  /** The alerts stand for distinct pairs (i, j) of samples, each with lo <= i < j and with from <= j
      when i = lo, and every such pair that has an alert is among them. */
  ghost predicate Accounts(
      f: Pairing, samples: Statements, lo: nat, from: nat, alerts: seq<Alert>, pairs: seq<(nat, nat)>)
  {
    && |pairs| == |alerts| && Distinct(pairs)
    && (forall t :: 0 <= t < |pairs| ==> GivesAlert(f, samples, pairs[t], alerts[t]) && InScope(lo, from, pairs[t]))
    && forall i, j :: 0 <= i < j < |samples| && InScope(lo, from, (i, j)) && f(samples[i], samples[j]) != []
         ==> (i, j) in pairs
  }

  predicate InScope(lo: nat, from: nat, p: (nat, nat)) {
    lo < p.0 || (lo == p.0 && from <= p.1)
  }

  lemma AccountForOne(
      f: Pairing, samples: Statements, lo: nat, from: nat, alerts: seq<Alert>, pairs: seq<(nat, nat)>)
    requires AtMostOneEach(f) && lo < from < |samples|
    requires Accounts(f, samples, lo, from + 1, alerts, pairs)
    ensures var now := f(samples[lo], samples[from]);
            Accounts(f, samples, lo, from, now + alerts, (if now == [] then [] else [(lo, from)]) + pairs)
  {
    if f(samples[lo], samples[from]) == [] {
      AccountForNone(f, samples, lo, from, alerts, pairs);
    } else {
      AccountForNext(f, samples, lo, from, alerts, pairs);
    }
  }

  lemma AccountForNone(
      f: Pairing, samples: Statements, lo: nat, from: nat, alerts: seq<Alert>, pairs: seq<(nat, nat)>)
    requires lo < from < |samples| && Accounts(f, samples, lo, from + 1, alerts, pairs)
    requires f(samples[lo], samples[from]) == []
    ensures Accounts(f, samples, lo, from, [] + alerts, [] + pairs)
  {
    assert [] + alerts == alerts && [] + pairs == pairs;
    forall i, j | 0 <= i < j < |samples| && InScope(lo, from, (i, j)) && f(samples[i], samples[j]) != []
      ensures (i, j) in pairs
    {
      assert InScope(lo, from + 1, (i, j));
    }
  }

  lemma AccountForNext(
      f: Pairing, samples: Statements, lo: nat, from: nat, alerts: seq<Alert>, pairs: seq<(nat, nat)>)
    requires lo < from < |samples| && Accounts(f, samples, lo, from + 1, alerts, pairs)
    requires |f(samples[lo], samples[from])| == 1
    ensures Accounts(f, samples, lo, from, f(samples[lo], samples[from]) + alerts, [(lo, from)] + pairs)
  {
    var now, pairs' := f(samples[lo], samples[from]), [(lo, from)] + pairs;
    assert now == [now[0]];
    assert (lo, from) !in pairs by {
      assert !InScope(lo, from + 1, (lo, from));
    }
    assert Distinct(pairs');
    forall t | 0 <= t < |pairs'|
      ensures GivesAlert(f, samples, pairs'[t], (now + alerts)[t]) && InScope(lo, from, pairs'[t])
    {
      assert t > 0 ==> pairs'[t] == pairs[t - 1] && (now + alerts)[t] == alerts[t - 1];
    }
    forall i, j | 0 <= i < j < |samples| && InScope(lo, from, (i, j)) && f(samples[i], samples[j]) != []
      ensures (i, j) in pairs'
    {
      assert (i, j) == (lo, from) || InScope(lo, from + 1, (i, j));
    }
  }

  /** The alerts of the pairs in scope. */
  function Remaining(f: Pairing, samples: Statements, lo: nat, from: nat): seq<Alert>
    requires lo < from <= |samples|
  {
    RowAlerts(f, samples[lo], samples[from..]) + AllPairs(f, samples[lo + 1..])
  }

  lemma RemainingUnfolds(f: Pairing, samples: Statements, lo: nat, from: nat)
    requires lo < from <= |samples|
    ensures from < |samples| ==>
              Remaining(f, samples, lo, from) == f(samples[lo], samples[from]) + Remaining(f, samples, lo, from + 1)
    ensures from == |samples| && lo + 1 < |samples| ==>
              Remaining(f, samples, lo, from) == Remaining(f, samples, lo + 1, lo + 2)
    ensures from == |samples| && lo + 1 == |samples| ==> Remaining(f, samples, lo, from) == []
  {
    if from < |samples| {
      RowGrows(f, samples[lo], samples, from, []);
    } else if lo + 1 < |samples| {
      assert samples[lo + 1..][1..] == samples[lo + 2..];
    }
  }

  lemma {:induction false} PairsOf(f: Pairing, samples: Statements, lo: nat, from: nat) returns (pairs: seq<(nat, nat)>)
    requires AtMostOneEach(f) && lo < from <= |samples|
    ensures Accounts(f, samples, lo, from, Remaining(f, samples, lo, from), pairs)
    decreases |samples| - lo, |samples| - from
  {
    RemainingUnfolds(f, samples, lo, from);
    if from < |samples| {
      pairs := PairsOf(f, samples, lo, from + 1);
      AccountForOne(f, samples, lo, from, Remaining(f, samples, lo, from + 1), pairs);
      pairs := (if f(samples[lo], samples[from]) == [] then [] else [(lo, from)]) + pairs;
    } else if lo + 1 < |samples| {
      pairs := PairsOf(f, samples, lo + 1, lo + 2);
      NextRow(f, samples, lo, Remaining(f, samples, lo, from), pairs);
    } else {
      pairs := [];
    }
  }

  lemma NextRow(f: Pairing, samples: Statements, lo: nat, alerts: seq<Alert>, pairs: seq<(nat, nat)>)
    requires Accounts(f, samples, lo + 1, lo + 2, alerts, pairs)
    ensures Accounts(f, samples, lo, |samples|, alerts, pairs)
  {
    forall i, j | 0 <= i < j < |samples| && InScope(lo, |samples|, (i, j)) && f(samples[i], samples[j]) != []
      ensures (i, j) in pairs
    {
      assert InScope(lo + 1, lo + 2, (i, j));
    }
  }

  /** The alerts of a bucket stand for distinct pairs of samples, and every pair that has an alert is
      among them. */
  lemma OneAlertPerPair(f: Pairing, samples: Statements) returns (pairs: seq<(nat, nat)>)
    requires AtMostOneEach(f)
    ensures |pairs| == |AllPairs(f, samples)| && Distinct(pairs)
    ensures forall t :: 0 <= t < |pairs| ==> GivesAlert(f, samples, pairs[t], AllPairs(f, samples)[t])
    ensures forall i, j :: 0 <= i < j < |samples| && f(samples[i], samples[j]) != [] ==> (i, j) in pairs
  {
    pairs := [];
    if samples != [] {
      pairs := PairsOf(f, samples, 0, 1);
      assert AllPairs(f, samples) == Remaining(f, samples, 0, 1);
      forall i, j | 0 <= i < j < |samples| && f(samples[i], samples[j]) != [] ensures (i, j) in pairs {
        assert InScope(0, 1, (i, j));
      }
    }
  }
}
