/** The loop that watches one L2 node: height responses, a timer for an unchanged height, and its own
    alerts storage. Times are in nanoseconds. */
module L2Analyzer {
  import opened Prelude
  import opened Strings
  import opened Entities
  import opened StuckIDs
  import opened AlertsStorage
  import opened StorageTrace

  const SECOND := 1_000_000_000
  const HEIGHT_COLLECTOR_TIMEOUT := 60_000_000_000       // a minute
  const SAME_HEIGHT_TIMER_DURATION := 300_000_000_000    // five minutes
  const HEIGHT_REQUEST_TIMEOUT := 5_000_000_000          // five seconds
  const DEFAULT_ALERT_VACUUM_QUOTA := SAME_HEIGHT_TIMER_DURATION / HEIGHT_COLLECTOR_TIMEOUT + 1 + 2
  const COLLECTOR_ERROR_ALERT_CONFIRMATIONS := 3

  const L2_CONFIG := Config(
    DEFAULT_ALERT_BACKOFF, DEFAULT_ALERT_VACUUM_QUOTA,
    map[SimpleAlertType := COLLECTOR_ERROR_ALERT_CONFIRMATIONS])

  /** What one turn of the loop selects. */
  datatype LoopEvent =
    | Failed(at: int, error: string)
    | Collected(at: int, height: uint64)
    | TimerFired(at: int)

  function StuckAlert(node: string, at: int, height: uint64): Alert {
    NewAlert(at / SECOND, L2StuckAlert(height, node))
  }

  function ErrorAlert(node: string, at: int, error: string): Alert {
    NewAlert(at / SECOND, SimpleAlert("Failed to update height for L2 node " + Quote(node) + ": " + error))
  }

  // ----- the loop's variables as functions of the events -----

  function LastHeight(es: seq<LoopEvent>): uint64 {
    if es == [] then 0
    else if es[|es| - 1].Collected? then es[|es| - 1].height
    else LastHeight(es[..|es| - 1])
  }

  /** When the timer will fire next. */
  function Deadline(start: int, es: seq<LoopEvent>): int {
    if es == [] then start + SAME_HEIGHT_TIMER_DURATION
    else
      var es', e := es[..|es| - 1], es[|es| - 1];
      if e.Collected? && e.height == LastHeight(es') then Deadline(start, es')
      else e.at + SAME_HEIGHT_TIMER_DURATION
  }

  /** The calls of the storage in one turn: a failure is put and skips the vacuum. */
  ghost predicate Turn(node: string, lastHeight: uint64, e: LoopEvent, block: History) {
    match e
    case Failed(at, error) =>
      |block| == 1 && block[0].Put? && block[0].alert == ErrorAlert(node, at, error)
    case Collected(_, _) =>
      |block| == 1 && block[0].Vacuum?
    case TimerFired(at) =>
      |block| == 2 && block[0].Put? && block[0].alert == StuckAlert(node, at, lastHeight) && block[1].Vacuum?
  }

  ghost predicate Turns(node: string, es: seq<LoopEvent>, blocks: seq<History>) {
    && |blocks| == |es|
    && forall i :: 0 <= i < |es| ==> Turn(node, LastHeight(es[..i]), es[i], blocks[i])
  }

  function BlockMessages(at: int, block: History): seq<Message> {
    Messages(at / SECOND, block)
  }

  function Said(es: seq<LoopEvent>, blocks: seq<History>): seq<Message>
    requires |es| == |blocks|
  {
    if es == [] then []
    else
      var n := |es| - 1;
      Said(es[..n], blocks[..n]) + BlockMessages(es[n].at, blocks[n])
  }

  method PutAndSendAlert(s: AlertsStorage, ts: int, alert: Alert) returns (out: seq<Message>, ghost step: Step)
    requires s.Valid()
    modifies s
    ensures s.Valid() && s.history == old(s.history) + [step]
    ensures step.Put? && step.alert == alert && out == StepMessages(ts, step)
  {
    var sendNow := s.PutAlert(alert);
    step := Put(alert, sendNow);
    out := if sendNow then [Raised(alert)] else [];
  }

  method VacuumAlerts(s: AlertsStorage, ts: int) returns (out: seq<Message>, ghost step: Step)
    requires s.Valid()
    modifies s
    ensures s.Valid() && s.history == old(s.history) + [step]
    ensures step.Vacuum? && out == StepMessages(ts, step)
  {
    var vacuumed := s.Vacuum();
    step := Vacuum(vacuumed);
    out := [];
    for k := 0 to |vacuumed|
      invariant |out| == k && forall i :: 0 <= i < k ==> out[i] == AlertFixed(ts, vacuumed[i])
    {
      out := out + [AlertFixed(ts, vacuumed[k])];
    }
  }

  lemma OneStep(ts: int, step: Step)
    ensures Messages(ts, [step]) == StepMessages(ts, step)
  {
    assert [step][..0] == [];
    assert [] + StepMessages(ts, step) == StepMessages(ts, step);
  }

  lemma Split(ts: int, h: History, step: Step)
    ensures Messages(ts, h + [step]) == Messages(ts, h) + StepMessages(ts, step)
  {
    assert (h + [step])[..|h|] == h;
  }

  /** One turn of the loop. */
  method HandleEvent(s: AlertsStorage, node: string, lastHeight: uint64, timer: int, e: LoopEvent)
    returns (lastHeight': uint64, timer': int, out: seq<Message>, ghost block: History)
    requires s.Valid()
    modifies s
    ensures s.Valid() && s.history == old(s.history) + block
    ensures Turn(node, lastHeight, e, block) && out == BlockMessages(e.at, block)
    ensures lastHeight' == if e.Collected? then e.height else lastHeight
    ensures timer' == if e.Collected? && e.height == lastHeight then timer else e.at + SAME_HEIGHT_TIMER_DURATION
  {
    lastHeight', timer', out, block := lastHeight, timer, [], [];
    var ts, due := e.at / SECOND, e.at + SAME_HEIGHT_TIMER_DURATION;
    ghost var step;
    match e {
      case Failed(at, error) =>
        out, step := PutAndSendAlert(s, ts, ErrorAlert(node, at, error));
        block := [step];
        timer' := due;
        OneStep(ts, step);
        return;
      case Collected(at, height) =>
        if height != lastHeight {
          lastHeight' := height;
          timer' := due;
        }
      case TimerFired(at) =>
        out, step := PutAndSendAlert(s, ts, StuckAlert(node, at, lastHeight));
        block := [step];
        timer' := due;
        OneStep(ts, step);
    }
    ghost var before := block;
    var fixes, vacuum := VacuumAlerts(s, ts);
    Split(ts, before, vacuum);
    out, block := out + fixes, before + [vacuum];
  }

  method AnalyzerLoop(node: string, start: int, es: seq<LoopEvent>)
    returns (out: seq<Message>, lastHeight: uint64, timer: int, ghost blocks: seq<History>)
    ensures Turns(node, es, blocks) && Consistent(L2_CONFIG, Concat(blocks))
    ensures out == Said(es, blocks)
    ensures lastHeight == LastHeight(es) && timer == Deadline(start, es)
  {
    var s := new AlertsStorage(L2_CONFIG);
    out, lastHeight, timer, blocks := Loop(s, node, start, es);
  }

  method Loop(s: AlertsStorage, node: string, start: int, es: seq<LoopEvent>)
    returns (out: seq<Message>, lastHeight: uint64, timer: int, ghost blocks: seq<History>)
    requires s.Valid() && s.history == []
    modifies s
    ensures s.Valid() && s.history == Concat(blocks)
    ensures LoopState(node, start, es, blocks, out, lastHeight, timer)
  {
    timer := start + SAME_HEIGHT_TIMER_DURATION;
    lastHeight, out, blocks := 0, [], [];
    for k := 0 to |es|
      invariant s.Valid() && s.history == Concat(blocks)
      invariant LoopState(node, start, es[..k], blocks, out, lastHeight, timer)
    {
      var h, t, said, block := HandleEvent(s, node, lastHeight, timer, es[k]);
      LoopTurn(node, start, es, k, blocks, out, lastHeight, timer, block, said, h, t);
      lastHeight, timer, out, blocks := h, t, out + said, blocks + [block];
    }
    assert es[..|es|] == es;
  }

  /** The variables of the loop after the events es. */
  ghost predicate LoopState(
      node: string, start: int, es: seq<LoopEvent>, blocks: seq<History>, out: seq<Message>, lastHeight: uint64, timer: int)
  {
    && Turns(node, es, blocks) && out == Said(es, blocks)
    && lastHeight == LastHeight(es) && timer == Deadline(start, es)
  }

  lemma LoopTurn(
      node: string, start: int, es: seq<LoopEvent>, k: nat, blocks: seq<History>, out: seq<Message>,
      lastHeight: uint64, timer: int, block: History, said: seq<Message>, h: uint64, t: int)
    requires k < |es| && LoopState(node, start, es[..k], blocks, out, lastHeight, timer)
    requires var e := es[k];
             && Turn(node, lastHeight, e, block) && said == BlockMessages(e.at, block)
             && h == (if e.Collected? then e.height else lastHeight)
             && t == if e.Collected? && e.height == lastHeight then timer else e.at + SAME_HEIGHT_TIMER_DURATION
    ensures LoopState(node, start, es[..k + 1], blocks + [block], out + said, h, t)
    ensures Concat(blocks + [block]) == Concat(blocks) + block
  {
    assert es[..k + 1] == es[..k] + [es[k]];
    TurnsGrow(node, es[..k], es[k], blocks, block);
  }

  lemma TurnsGrow(node: string, es: seq<LoopEvent>, e: LoopEvent, blocks: seq<History>, block: History)
    requires Turns(node, es, blocks) && Turn(node, LastHeight(es), e, block)
    ensures Turns(node, es + [e], blocks + [block])
    ensures Concat(blocks + [block]) == Concat(blocks) + block
    ensures Said(es + [e], blocks + [block]) == Said(es, blocks) + BlockMessages(e.at, block)
    ensures (es + [e])[..|es|] == es
  {
    var es', blocks' := es + [e], blocks + [block];
    assert es'[..|es|] == es && blocks'[..|es|] == blocks;
    forall i | 0 <= i < |es'| ensures Turn(node, LastHeight(es'[..i]), es'[i], blocks'[i]) {
      if i < |es| {
        assert es'[..i] == es[..i];
      }
    }
  }

  // ----- exactly when a stuck alert is reported fixed -----

  predicate FiresAt(es: seq<LoopEvent>, i: nat, h: uint64)
    requires i < |es|
  {
    es[i].TimerFired? && LastHeight(es[..i]) == h
  }

  /** The last firing of the timer while the height was h. */
  function LastFiring(es: seq<LoopEvent>, h: uint64): (f: Option<nat>)
    ensures f.Some? ==> f.value < |es|
  {
    if es == [] then None
    else if FiresAt(es, |es| - 1, h) then Some(|es| - 1)
    else LastFiring(es[..|es| - 1], h)
  }

  /** Vacuums since that firing, its own included: one for each turn but the failures. */
  function VacuumTurns(es: seq<LoopEvent>, h: uint64): nat {
    if es == [] then 0
    else if FiresAt(es, |es| - 1, h) then 1
    else VacuumTurns(es[..|es| - 1], h) + if es[|es| - 1].Failed? then 0 else 1
  }

  ghost predicate GenuinePuts(h: History) {
    forall i :: 0 <= i < |h| && h[i].Put? ==> h[i].alert.Genuine()
  }

  lemma TurnGenuine(node: string, last: uint64, e: LoopEvent, block: History)
    requires Turn(node, last, e, block)
    ensures GenuinePuts(block)
  {
  }

  lemma {:induction false} AllGenuine(node: string, es: seq<LoopEvent>, blocks: seq<History>)
    requires Turns(node, es, blocks)
    ensures GenuinePuts(Concat(blocks))
  {
    if es != [] {
      var n := |es| - 1;
      TurnsPrefix(node, es, blocks);
      AllGenuine(node, es[..n], blocks[..n]);
      TurnGenuine(node, LastHeight(es[..n]), es[n], blocks[n]);
      GenuineJoin(Concat(blocks[..n]), blocks[n]);
    }
  }

  lemma GenuineJoin(h: History, k: History)
    requires GenuinePuts(h) && GenuinePuts(k)
    ensures GenuinePuts(h + k)
  {
    forall i | 0 <= i < |h + k| && (h + k)[i].Put? ensures (h + k)[i].alert.Genuine() {
      if i < |h| {
        assert (h + k)[i] == h[i];
      } else {
        assert (h + k)[i] == k[i - |h|];
      }
    }
  }

  lemma GenuineIsKeyed(h: History)
    requires GenuinePuts(h)
    ensures Keyed(h)
  {
    forall i, j | 0 <= i < |h| && 0 <= j < |h| && h[i].Put? && h[j].Put? && h[i].alert.id == h[j].alert.id
      ensures h[i].alert.alertType == h[j].alert.alertType
    {
      IDDeterminesType(h[i].alert, h[j].alert);
    }
  }

  lemma LastPutGenuine(h: History, a: Alert)
    requires GenuinePuts(h) && a.Genuine() && LastPut(h, a.id).Some?
    ensures LastPut(h, a.id).value.alertType == a.alertType
  {
    var i := LastPutIsAPut(h, a.id);
    IDDeterminesType(h[i].alert, a);
  }

  lemma TurnsPrefix(node: string, es: seq<LoopEvent>, blocks: seq<History>)
    requires Turns(node, es, blocks) && es != []
    ensures Turns(node, es[..|es| - 1], blocks[..|es| - 1])
    ensures Concat(blocks) == Concat(blocks[..|es| - 1]) + blocks[|es| - 1]
  {
    var es' := es[..|es| - 1];
    forall i | 0 <= i < |es'| ensures Turn(node, LastHeight(es'[..i]), es'[i], blocks[i]) {
      assert es'[..i] == es[..i];
    }
  }

  /** Which turn puts the stuck alert of height h. */
  lemma TurnRaises(node: string, last: uint64, e: LoopEvent, block: History, h: uint64)
    requires Turn(node, last, e, block)
    ensures block[0].Raises(StuckID(node, h)) <==> e.TimerFired? && last == h
    ensures e.TimerFired? ==> !block[1].Raises(StuckID(node, h))
  {
    if e.Failed? && block[0].alert.id == StuckID(node, h) {
      IDDeterminesType(block[0].alert, StuckAlert(node, e.at, h));
    } else if e.TimerFired? && block[0].alert.id == StuckID(node, h) {
      StuckIDDeterminesHeight(node, last, h);
    }
  }

  lemma AfterBlock(h: History, block: History, id: AlertID)
    requires 1 <= |block| <= 2 && (|block| == 2 ==> block[1].Vacuum?)
    ensures LastPut(h + block, id) == if block[0].Raises(id) then Some(block[0].alert) else LastPut(h, id)
    ensures VacuumsSince(h + block, id) == (if block[0].Raises(id) then 0
                                            else VacuumsSince(h, id) + if block[0].Vacuum? then 1 else 0) + (|block| - 1)
  {
    var g := h + [block[0]];
    assert g[..|h|] == h;
    if |block| == 1 {
      assert h + block == g;
    } else {
      assert h + block == g + [block[1]];
      assert (g + [block[1]])[..|g|] == g;
    }
  }

  lemma TurnCounts(past: History, node: string, last: uint64, e: LoopEvent, block: History, h: uint64)
    requires Turn(node, last, e, block)
    ensures var id, fires := StuckID(node, h), e.TimerFired? && last == h;
            && (LastPut(past + block, id).Some? <==> fires || LastPut(past, id).Some?)
            && VacuumsSince(past + block, id)
               == if fires then 1 else VacuumsSince(past, id) + if e.Failed? then 0 else 1
  {
    TurnRaises(node, last, e, block, h);
    AfterBlock(past, block, StuckID(node, h));
  }

  /** The storage's calls h count as the events es do. */
  ghost predicate CountsAs(h: History, id: AlertID, es: seq<LoopEvent>, height: uint64) {
    && (LastPut(h, id).Some? <==> LastFiring(es, height).Some?)
    && (LastFiring(es, height).Some? ==> VacuumsSince(h, id) == VacuumTurns(es, height))
  }

  lemma CountsStep(past: History, h: History, id: AlertID, es: seq<LoopEvent>, height: uint64)
    requires es != [] && CountsAs(past, id, es[..|es| - 1], height)
    requires var e, fires := es[|es| - 1], FiresAt(es, |es| - 1, height);
             && (LastPut(h, id).Some? <==> fires || LastPut(past, id).Some?)
             && VacuumsSince(h, id) == if fires then 1 else VacuumsSince(past, id) + if e.Failed? then 0 else 1
    ensures CountsAs(h, id, es, height)
  {
  }

  lemma {:induction false} VacuumsAreTurns(node: string, es: seq<LoopEvent>, blocks: seq<History>, h: uint64)
    requires Turns(node, es, blocks)
    ensures CountsAs(Concat(blocks), StuckID(node, h), es, h)
  {
    if es != [] {
      var n := |es| - 1;
      TurnsPrefix(node, es, blocks);
      VacuumsAreTurns(node, es[..n], blocks[..n], h);
      assert Turn(node, LastHeight(es[..n]), es[n], blocks[n]);
      TurnCounts(Concat(blocks[..n]), node, LastHeight(es[..n]), es[n], blocks[n], h);
      CountsStep(Concat(blocks[..n]), Concat(blocks), StuckID(node, h), es, h);
    }
  }

  ghost predicate BlockFixes(block: History, id: AlertID) {
    exists i :: 0 <= i < |block| && block[i].Fixes(id)
  }

  function WithQuota(q: int): Config {
    L2_CONFIG.(quota := q)
  }

  lemma QuotaIsEight()
    ensures DEFAULT_ALERT_VACUUM_QUOTA == 8 && L2_CONFIG == WithQuota(8)
  {
  }

  /** A stuck alert needs no confirmation, so only the count of vacuums decides its fix. */
  lemma FixedAtQuota(q: int, before: History, fixed: seq<Alert>, id: AlertID)
    requires q >= 2 && Consistent(WithQuota(q), before + [Vacuum(fixed)]) && Keyed(before + [Vacuum(fixed)])
    requires LastPut(before, id).Some? ==> LastPut(before, id).value.alertType == L2StuckAlertType
    ensures Vacuum(fixed).Fixes(id) <==> LastPut(before, id).Some? && VacuumsSince(before, id) + 1 == q
  {
    var all := before + [Vacuum(fixed)];
    assert all[..|all| - 1] == before;
    KeyedPrefix(all);
    FixedMeaning(WithQuota(q), before, fixed, id);
    EntryMeaning(WithQuota(q), before, id);
  }

  lemma StuckFixedByVacuum(q: int, node: string, before: History, fixed: seq<Alert>, h: uint64)
    requires q >= 2 && Consistent(WithQuota(q), before + [Vacuum(fixed)]) && GenuinePuts(before + [Vacuum(fixed)])
    ensures Vacuum(fixed).Fixes(StuckID(node, h)) <==>
              LastPut(before, StuckID(node, h)).Some? && VacuumsSince(before, StuckID(node, h)) + 1 == q
  {
    GenuineIsKeyed(before + [Vacuum(fixed)]);
    LastStuckPut(node, before, [Vacuum(fixed)], h);
    FixedAtQuota(q, before, fixed, StuckID(node, h));
  }

  lemma LastStuckPut(node: string, before: History, rest: History, h: uint64)
    requires GenuinePuts(before + rest)
    ensures LastPut(before, StuckID(node, h)).Some? ==>
              LastPut(before, StuckID(node, h)).value.alertType == L2StuckAlertType
  {
    assert forall i :: 0 <= i < |before| ==> before[i] == (before + rest)[i];
    var stuck := StuckAlert(node, 0, h);
    if LastPut(before, stuck.id).Some? {
      LastPutGenuine(before, stuck);
    }
  }

  /** The history up to and with the vacuum that ends a turn. */
  lemma TurnEndsInVacuum(node: string, es: seq<LoopEvent>, blocks: seq<History>, id: AlertID)
    returns (before: History, fixed: seq<Alert>)
    requires es != [] && Turns(node, es, blocks) && !es[|es| - 1].Failed?
    ensures Concat(blocks) == before + [Vacuum(fixed)]
    ensures BlockFixes(blocks[|es| - 1], id) <==> Vacuum(fixed).Fixes(id)
  {
    var n := |es| - 1;
    assert Turn(node, LastHeight(es[..n]), es[n], blocks[n]);
    var front;
    front, fixed := BlockEndsInVacuum(node, LastHeight(es[..n]), es[n], blocks[n], id);
    before := Concat(blocks[..n]) + front;
    assert Concat(blocks) == Concat(blocks[..n]) + blocks[n];
  }

  lemma BlockEndsInVacuum(node: string, last: uint64, e: LoopEvent, block: History, id: AlertID)
    returns (front: History, fixed: seq<Alert>)
    requires Turn(node, last, e, block) && !e.Failed?
    ensures block == front + [Vacuum(fixed)]
    ensures BlockFixes(block, id) <==> Vacuum(fixed).Fixes(id)
  {
    var k := |block| - 1;
    front, fixed := block[..k], block[k].fixed;
    assert block[k].Fixes(id) ==> BlockFixes(block, id);
  }

  /** In every run, whatever the quota, a turn reports the stuck alert of height h fixed exactly when
      the timer has fired at h and this turn makes the quota-th vacuum since the last such firing. */
  lemma StuckFixedExactly(q: int, node: string, es: seq<LoopEvent>, blocks: seq<History>, h: uint64)
    requires es != [] && Turns(node, es, blocks) && q >= 2 && Consistent(WithQuota(q), Concat(blocks))
    ensures BlockFixes(blocks[|es| - 1], StuckID(node, h)) <==>
              LastFiring(es, h).Some? && !es[|es| - 1].Failed? && VacuumTurns(es, h) == q
  {
    if es[|es| - 1].Failed? {
      FailureFixesNothing(node, es, blocks, StuckID(node, h));
    } else {
      VacuumTurnFixes(q, node, es, blocks, h);
      VacuumsAreTurns(node, es, blocks, h);
    }
  }

  lemma FailureFixesNothing(node: string, es: seq<LoopEvent>, blocks: seq<History>, id: AlertID)
    requires es != [] && Turns(node, es, blocks) && es[|es| - 1].Failed?
    ensures !BlockFixes(blocks[|es| - 1], id)
  {
    assert Turn(node, LastHeight(es[..|es| - 1]), es[|es| - 1], blocks[|es| - 1]);
  }

  lemma VacuumTurnFixes(q: int, node: string, es: seq<LoopEvent>, blocks: seq<History>, h: uint64)
    requires es != [] && Turns(node, es, blocks) && !es[|es| - 1].Failed?
    requires q >= 2 && Consistent(WithQuota(q), Concat(blocks))
    ensures var all, id := Concat(blocks), StuckID(node, h);
            BlockFixes(blocks[|es| - 1], id) <==> LastPut(all, id).Some? && VacuumsSince(all, id) == q
  {
    var before, fixed := TurnEndsInVacuum(node, es, blocks, StuckID(node, h));
    AllGenuine(node, es, blocks);
    StuckFixedByVacuum(q, node, before, fixed, h);
    VacuumCounts(before, fixed, StuckID(node, h));
  }

  lemma VacuumCounts(before: History, fixed: seq<Alert>, id: AlertID)
    ensures LastPut(before + [Vacuum(fixed)], id) == LastPut(before, id)
    ensures LastPut(before, id).Some? ==> VacuumsSince(before + [Vacuum(fixed)], id) == VacuumsSince(before, id) + 1
  {
    assert (before + [Vacuum(fixed)])[..|before|] == before;
  }

  lemma {:induction false} ResponsesAreVacuums(es: seq<LoopEvent>, h: uint64, f: nat)
    requires f < |es| && FiresAt(es, f, h)
    requires forall i :: f < i < |es| ==> es[i].Collected?
    ensures LastFiring(es, h) == Some(f) && VacuumTurns(es, h) == |es| - f
    decreases |es|
  {
    if f < |es| - 1 {
      var es' := es[..|es| - 1];
      assert es'[..f] == es[..f];
      ResponsesAreVacuums(es', h, f);
    }
  }

  /** After a firing at h followed by responses only, the seventh response, and none before or after
      it, brings the fix. */
  lemma SeventhResponseFixes(node: string, es: seq<LoopEvent>, blocks: seq<History>, h: uint64, f: nat)
    requires f < |es| && FiresAt(es, f, h) && forall i :: f < i < |es| ==> es[i].Collected?
    requires Turns(node, es, blocks) && Consistent(L2_CONFIG, Concat(blocks))
    ensures BlockFixes(blocks[|es| - 1], StuckID(node, h)) <==> |es| - 1 - f == 7
  {
    QuotaIsEight();
    StuckFixedExactly(8, node, es, blocks, h);
    ResponsesAreVacuums(es, h, f);
  }

  /** The storage can answer any sequence of turns. */
  lemma {:induction false} SomeTurns(c: Config, node: string, es: seq<LoopEvent>) returns (blocks: seq<History>)
    ensures Turns(node, es, blocks) && Consistent(c, Concat(blocks))
  {
    blocks := [];
    if es != [] {
      var n := |es| - 1;
      blocks := SomeTurns(c, node, es[..n]);
      assert es == es[..n] + [es[n]];
      var block := SomeTurn(c, Concat(blocks), node, LastHeight(es[..n]), es[n]);
      TurnsGrow(node, es[..n], es[n], blocks, block);
      blocks := blocks + [block];
    }
  }

  lemma SomeTurn(c: Config, past: History, node: string, last: uint64, e: LoopEvent) returns (block: History)
    requires Consistent(c, past)
    ensures Turn(node, last, e, block) && Consistent(c, past + block)
  {
    match e
    case Failed(at, error) =>
      var alert := ErrorAlert(node, at, error);
      var sent := SomePut(c, past, alert);
      block := [Put(alert, sent)];
    case Collected(_, _) =>
      var fixed := SomeVacuum(c, past);
      block := [Vacuum(fixed)];
    case TimerFired(at) =>
      var alert := StuckAlert(node, at, last);
      var sent := SomePut(c, past, alert);
      var put := Put(alert, sent);
      var fixed := SomeVacuum(c, past + [put]);
      block := [put, Vacuum(fixed)];
      assert past + block == (past + [put]) + [Vacuum(fixed)];
  }
}
