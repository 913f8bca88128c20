/** The stream of messages an analyzer gives out, and what made it say each of them. */
module AlertStream {
  import opened Prelude
  import opened Entities
  import opened AlertsStorage

  /** An alert sent past the storage, or a call of the storage. */
  datatype Cause = Direct(alert: Alert) | Stored(ts: int, step: Step)

  function HistoryOf(es: seq<Cause>): History {
    if es == [] then []
    else
      var e := es[|es| - 1];
      HistoryOf(es[..|es| - 1]) + if e.Stored? then [e.step] else []
  }

  function CauseMessages(e: Cause): seq<Message> {
    match e
    case Direct(a) => [Raised(a)]
    case Stored(ts, s) => StepMessages(ts, s)
  }

  function StreamOf(es: seq<Cause>): seq<Message> {
    if es == [] then [] else StreamOf(es[..|es| - 1]) + CauseMessages(es[|es| - 1])
  }

  lemma Grows(es: seq<Cause>, e: Cause)
    ensures HistoryOf(es + [e]) == HistoryOf(es) + if e.Stored? then [e.step] else []
    ensures StreamOf(es + [e]) == StreamOf(es) + CauseMessages(e)
  {
    assert (es + [e])[..|es|] == es;
  }

  lemma {:induction false} HistoriesJoin(a: seq<Cause>, b: seq<Cause>)
    ensures HistoryOf(a + b) == HistoryOf(a) + HistoryOf(b)
  {
    if b == [] {
      assert a + b == a;
    } else {
      var b', e := b[..|b| - 1], b[|b| - 1];
      HistoriesJoin(a, b');
      Associates(a, b', [e]);
      assert b == b' + [e];
      Grows(a + b', e);
      Associates(HistoryOf(a), HistoryOf(b'), if e.Stored? then [e.step] else []);
    }
  }

  lemma {:induction false} StreamsJoin(a: seq<Cause>, b: seq<Cause>)
    ensures StreamOf(a + b) == StreamOf(a) + StreamOf(b)
  {
    if b == [] {
      assert a + b == a;
    } else {
      var b', e := b[..|b| - 1], b[|b| - 1];
      StreamsJoin(a, b');
      Associates(a, b', [e]);
      assert b == b' + [e];
      Grows(a + b', e);
      Associates(StreamOf(a), StreamOf(b'), CauseMessages(e));
    }
  }
}
