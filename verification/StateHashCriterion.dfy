/** The state hash criterion: nodes on different chains, found among the statements of one height. */
module StateHashCriterion {
  import opened Prelude
  import opened Strings
  import opened Entities
  import opened Statements
  import opened Events
  import opened ForkFinder

  const TWO_TO_32: int := 0x1_0000_0000

  type uint32 = x: int | 0 <= x < 0x1_0000_0000

  datatype Options = Options(maxForkDepth: uint32, heightBucketSize: uint32)

  /** The linear search goes one deeper than the tolerated fork, in 32-bit arithmetic. */
  function LinearDepth(opts: Options): uint64 {
    if opts.maxForkDepth == TWO_TO_32 - 1 then 0 else opts.maxForkDepth + 1
  }

  /** The finder returns for this pair; below height 2^63 it always does. */
  ghost predicate PairEnds(db: DB, opts: Options, x: NodeStatement, y: NodeStatement) {
    SearchEnds(HistoryIn(db, x.node), HistoryIn(db, y.node), SumHashes, Some(LinearDepth(opts)))
  }

  ghost predicate SearchesEnd(db: DB, opts: Options, s: Statements) {
    forall x, y :: x in s && y in s ==> PairEnds(db, opts, x, y)
  }

  // ----- the statements compared in a bucket -----

  function Bucket(size: uint32): NodeStatement -> uint64
    requires size > 0
  {
    (s: NodeStatement) => BucketOf(s.height, size)
  }

  function BucketOf(h: uint64, size: uint32): (b: uint64)
    requires size > 0
    ensures b <= h < b + size && b == h / size * size
  {
    assert h == h / size * size + h % size;
    h - h % size
  }

  function AtHeight(db: DB, s: NodeStatement, h: uint64): Option<NodeStatement> {
    if s.height == h then Some(s) else FullStatementAt(HistoryIn(db, s.node), h)
  }

  /** For each statement the one of its node at height h, where there is one. */
  function AllAtHeight(db: DB, s: Statements, h: uint64): (r: Statements)
    ensures |r| <= |s|
  {
    if s == [] then []
    else
      var front, last := AllAtHeight(db, s[..|s| - 1], h), AtHeight(db, s[|s| - 1], h);
      if last.Some? then front + [last.value] else front
  }

  method GetAllStatementsAtBucketHeight(es: Storage, s: Statements, bucketHeight: uint64) returns (r: Statements)
    ensures r == AllAtHeight(es.db, s, bucketHeight)
  {
    r := [];
    for i := 0 to |s|
      invariant r == AllAtHeight(es.db, s[..i], bucketHeight)
    {
      assert s[..i + 1][..i] == s[..i];
      var st := Some(s[i]);
      if s[i].height != bucketHeight {
        st := es.GetFullStatementAtHeight(s[i].node, bucketHeight);
        if st.None? {
          continue;
        }
      }
      r := r + [st.value];
    }
    assert s[..|s|] == s;
  }

  // ----- one height -----

  /** All that decides which alerts one bucket gives. */
  datatype Context = Context(db: DB, opts: Options, ts: int, bucketHeight: uint64, statements: Statements)

  predicate IsOK(s: NodeStatement) {
    s.status.OK?
  }

  function SumHash(): NodeStatement -> Digest {
    (s: NodeStatement) => if s.stateHash.Some? then s.stateHash.value.sumHash else ""
  }

  /** Without state hash SplitBySumStateHash would read through a nil pointer. */
  ghost predicate OKMeansFull(s: Statements) {
    forall i :: 0 <= i < |s| && IsOK(s[i]) ==> s[i].Full()
  }

  ghost predicate AllOK(s: Statements) {
    forall i :: 0 <= i < |s| ==> IsOK(s[i])
  }

  lemma {:induction false} FilterAll(s: Statements)
    requires AllOK(s)
    ensures Filter(s, IsOK) == s
  {
    if s != [] {
      FilterAll(s[..|s| - 1]);
      assert s == s[..|s| - 1] + [s[|s| - 1]];
    }
  }

  method SplitBySumStateHash(s: Statements) returns (split: map<Digest, Statements>, others: Statements)
    requires OKMeansFull(s)
    ensures IsSplit(Filter(s, IsOK), SumHash(), split)
    ensures others == Filter(s, x => !IsOK(x))
  {
    split, others := map[], [];
    var notOK := x => !IsOK(x);
    for i := 0 to |s|
      invariant IsSplit(Filter(s[..i], IsOK), SumHash(), split)
      invariant others == Filter(s[..i], notOK)
    {
      var x := s[i];
      assert s[..i + 1][..i] == s[..i];
      if IsOK(x) {
        var ok, k := Filter(s[..i], IsOK), x.stateHash.value.sumHash;
        SplitGrows(ok, SumHash(), split, x);
        split := split[k := (if k in split then split[k] else []) + [x]];
      } else {
        others := others + [x];
      }
    }
    assert s[..|s|] == s;
  }

  ghost predicate IsFirstOfGroup(s: Statements, x: NodeStatement) {
    var g := Group(s, SumHash(), SumHash()(x));
    g != [] && x == g[0]
  }

  /** One statement of each group, in the order of the nodes' names. */
  ghost predicate IsSampling(s: Statements, samples: Statements) {
    && (forall x :: multiset(samples)[x] == if IsFirstOfGroup(s, x) then 1 else 0)
    && Sorted(Nodes(samples))
  }

  ghost predicate PartlySampled(s: Statements, rest: set<Digest>, samples: Statements) {
    forall x :: multiset(samples)[x] == if IsFirstOfGroup(s, x) && SumHash()(x) !in rest then 1 else 0
  }

  lemma SampleOne(s: Statements, rest: set<Digest>, samples: Statements, k: Digest)
    requires PartlySampled(s, rest, samples) && k in rest && Group(s, SumHash(), k) != []
    ensures PartlySampled(s, rest - {k}, samples + [Group(s, SumHash(), k)[0]])
  {
    var first := Group(s, SumHash(), k)[0];
    assert first in Group(s, SumHash(), k) && SumHash()(first) == k;
    forall x
      ensures multiset(samples + [first])[x] == if IsFirstOfGroup(s, x) && SumHash()(x) !in rest - {k} then 1 else 0
    {
      assert multiset(samples + [first])[x] == multiset(samples)[x] + if x == first then 1 else 0;
    }
  }

  lemma AllSampled(s: Statements, split: map<Digest, Statements>)
    requires IsSplit(s, SumHash(), split)
    ensures PartlySampled(s, split.Keys, [])
    ensures forall samples :: PartlySampled(s, {}, samples) ==> IsSampling(s, SortByNodeAsc(samples))
  {
    forall x ensures !(IsFirstOfGroup(s, x) && SumHash()(x) !in split.Keys) {
    }
    forall samples | PartlySampled(s, {}, samples) ensures IsSampling(s, SortByNodeAsc(samples)) {
      SortSorts(Nodes(samples));
    }
  }

  method TakeSamples(ghost s: Statements, split: map<Digest, Statements>) returns (samples: Statements)
    requires IsSplit(s, SumHash(), split)
    ensures IsSampling(s, samples)
  {
    AllSampled(s, split);
    samples := [];
    var rest := split.Keys;
    while rest != {}
      invariant rest <= split.Keys && PartlySampled(s, rest, samples)
    {
      var k :| k in rest;
      SampleOne(s, rest, samples, k);
      samples := samples + [split[k][0]];
      rest := rest - {k};
    }
    samples := SortByNodeAsc(samples);
  }

  // ----- a pair of groups -----

  /** Go's conversion to int64 and its wrapping difference. */
  function AsInt64(x: int): int
    requires -2 * TWO_TO_63 <= x < 2 * TWO_TO_63
  {
    if x >= TWO_TO_63 then x - 2 * TWO_TO_63 else if x < -TWO_TO_63 then x + 2 * TWO_TO_63 else x
  }

  function ForkDepth(bucketHeight: uint64, lastCommon: uint64): int {
    AsInt64(AsInt64(bucketHeight) - AsInt64(lastCommon))
  }

  predicate TooDeep(opts: Options, depth: int) {
    depth > opts.maxForkDepth || depth >= opts.heightBucketSize
  }

  const NO_STATE_HASH := StateHash("", "")

  function GroupOf(c: Context, x: NodeStatement): StateHashGroup
    requires x.Full()
  {
    StateHashGroup(SortedNodes(Group(c.statements, SumHash(), x.stateHash.value.sumHash)), x.stateHash.value)
  }

  function ForkAlert(
      c: Context, first: NodeStatement, second: NodeStatement, exist: bool, height: uint64, sh: StateHash): Alert
    requires first.Full() && second.Full()
  {
    NewAlert(c.ts, StateHashAlert(c.bucketHeight, exist, height, sh, GroupOf(c, first), GroupOf(c, second)))
  }

  ghost function LastCommonOf(c: Context, first: NodeStatement, second: NodeStatement): Outcome
    requires PairEnds(c.db, c.opts, first, second)
  {
    LastCommon(HistoryIn(c.db, first.node), HistoryIn(c.db, second.node), SumHashes, Some(LinearDepth(c.opts)))
  }

  ghost function PairAlerts(c: Context, first: NodeStatement, second: NodeStatement): (r: seq<Alert>)
    requires first.Full() && second.Full()
    requires PairEnds(c.db, c.opts, first, second)
    ensures |r| <= 1
  {
    match LastCommonOf(c, first, second)
    case NoFullStatement => []
    case NoCommonBlocks =>
      if TooDeep(c.opts, ForkDepth(c.bucketHeight, 0)) then [ForkAlert(c, first, second, false, 0, NO_STATE_HASH)]
      else []
    case Found(h, sh) =>
      if TooDeep(c.opts, ForkDepth(c.bucketHeight, h)) then [ForkAlert(c, first, second, true, h, sh)] else []
  }

  /** What the loops over the samples work with. */
  ghost predicate Prepared(c: Context, es: Storage, ff: ForkFinder, split: map<Digest, Statements>)
    reads es, ff
  {
    && es.db == c.db && ff.storage == es && ff.linearSearchParams == Some(LinearDepth(c.opts))
    && IsSplit(c.statements, SumHash(), split)
  }

  method HandleSamplesPair(
      c: Context, es: Storage, ff: ForkFinder, first: NodeStatement, second: NodeStatement,
      split: map<Digest, Statements>)
    returns (alerts: seq<Alert>)
    requires Prepared(c, es, ff, split)
    requires first.Full() && first.stateHash.value.sumHash in split
    requires second.Full() && second.stateHash.value.sumHash in split
    requires PairEnds(c.db, c.opts, first, second)
    ensures alerts == PairAlerts(c, first, second)
  {
    var lastCommonExist, lastCommonHeight, lastCommon := true, 0, NO_STATE_HASH;
    var outcome := ff.FindLastCommon(first.node, second.node, SumHashes);
    match outcome {
      case NoFullStatement => return [];
      case NoCommonBlocks => lastCommonExist := false;
      case Found(h, sh) => lastCommonHeight, lastCommon := h, sh;
    }
    var forkDepth := ForkDepth(c.bucketHeight, lastCommonHeight);
    alerts := [];
    if forkDepth > c.opts.maxForkDepth || forkDepth >= c.opts.heightBucketSize {
      var firstNodes := SortedNodes(split[first.stateHash.value.sumHash]);
      var secondNodes := SortedNodes(split[second.stateHash.value.sumHash]);
      alerts := [NewAlert(c.ts, StateHashAlert(
                            c.bucketHeight, lastCommonExist, lastCommonHeight, lastCommon,
                            StateHashGroup(firstNodes, first.stateHash.value),
                            StateHashGroup(secondNodes, second.stateHash.value)))];
    }
  }

  // ----- all pairs -----

  ghost predicate Ready(c: Context, samples: Statements) {
    SearchesEnd(c.db, c.opts, samples) && forall i :: 0 <= i < |samples| ==> samples[i].Full()
  }

  /** What each pair gives; only full statements are ever paired. */
  type Pairing = (NodeStatement, NodeStatement) -> seq<Alert>

  ghost function PairingOf(c: Context): Pairing {
    (x: NodeStatement, y: NodeStatement) =>
      if x.Full() && y.Full() && PairEnds(c.db, c.opts, x, y) then PairAlerts(c, x, y) else []
  }

  function RowAlerts(f: Pairing, first: NodeStatement, rest: Statements): seq<Alert> {
    if rest == [] then [] else f(first, rest[0]) + RowAlerts(f, first, rest[1..])
  }

  function AllPairs(f: Pairing, samples: Statements): seq<Alert> {
    if samples == [] then [] else RowAlerts(f, samples[0], samples[1..]) + AllPairs(f, samples[1..])
  }

  /** The alerts of one bucket are those of all pairs of samples. */
  ghost predicate BucketReport(c: Context, alerts: seq<Alert>) {
    exists samples ::
      IsSampling(c.statements, samples) && Ready(c, samples) && alerts == AllPairs(PairingOf(c), samples)
  }

  lemma SamplesAreFull(s: Statements, samples: Statements)
    requires OKMeansFull(s) && AllOK(s) && IsSampling(s, samples)
    ensures forall i :: 0 <= i < |samples| ==> samples[i].Full() && samples[i] in s
  {
    forall i | 0 <= i < |samples| ensures samples[i].Full() && samples[i] in s {
      assert multiset(samples)[samples[i]] > 0;
      assert samples[i] in Group(s, SumHash(), SumHash()(samples[i]));
    }
  }

  /** Full samples whose groups are in the split. */
  ghost predicate FromSplit(samples: Statements, split: map<Digest, Statements>) {
    forall i :: 0 <= i < |samples| ==> samples[i].Full() && samples[i].stateHash.value.sumHash in split
  }

  lemma SamplesComeFromSplit(s: Statements, split: map<Digest, Statements>, samples: Statements)
    requires OKMeansFull(s) && AllOK(s) && IsSampling(s, samples) && IsSplit(s, SumHash(), split)
    ensures FromSplit(samples, split)
  {
    SamplesAreFull(s, samples);
    forall i | 0 <= i < |samples| ensures samples[i].stateHash.value.sumHash in split {
      assert multiset(samples)[samples[i]] > 0;
      assert IsFirstOfGroup(s, samples[i]);
    }
  }

  lemma RowGrows(f: Pairing, first: NodeStatement, rest: Statements, j: nat, before: seq<Alert>)
    requires j < |rest|
    ensures before + RowAlerts(f, first, rest[j..]) == before + f(first, rest[j]) + RowAlerts(f, first, rest[j + 1..])
  {
    assert rest[j..][1..] == rest[j + 1..];
  }

  method HandleRow(
      c: Context, es: Storage, ff: ForkFinder, first: NodeStatement, rest: Statements,
      split: map<Digest, Statements>)
    returns (alerts: seq<Alert>)
    requires Prepared(c, es, ff, split) && SearchesEnd(c.db, c.opts, [first] + rest) && FromSplit([first] + rest, split)
    ensures alerts == RowAlerts(PairingOf(c), first, rest)
  {
    alerts := [];
    ghost var f := PairingOf(c);
    assert ([first] + rest)[0] == first;
    assert forall j :: 0 <= j < |rest| ==> ([first] + rest)[j + 1] == rest[j];
    assert rest[0..] == rest;
    for j := 0 to |rest|
      invariant alerts + RowAlerts(f, first, rest[j..]) == RowAlerts(f, first, rest)
    {
      RowGrows(f, first, rest, j, alerts);
      var more := HandleSamplesPair(c, es, ff, first, rest[j], split);
      alerts := alerts + more;
    }
    assert rest[|rest|..] == [];
  }

  lemma SamplesFrom(
      c: Context, f: Pairing, samples: Statements, split: map<Digest, Statements>, i: nat, before: seq<Alert>)
    requires SearchesEnd(c.db, c.opts, samples) && FromSplit(samples, split) && i < |samples|
    ensures var row := [samples[i]] + samples[i + 1..]; SearchesEnd(c.db, c.opts, row) && FromSplit(row, split)
    ensures before + AllPairs(f, samples[i..]) ==
            before + RowAlerts(f, samples[i], samples[i + 1..]) + AllPairs(f, samples[i + 1..])
  {
    assert samples[i..][1..] == samples[i + 1..];
    assert [samples[i]] + samples[i + 1..] == samples[i..];
    assert forall x :: x in samples[i..] ==> x in samples;
  }

  method HandleSamples(c: Context, es: Storage, ff: ForkFinder, samples: Statements, split: map<Digest, Statements>)
    returns (alerts: seq<Alert>)
    requires Prepared(c, es, ff, split) && SearchesEnd(c.db, c.opts, samples) && FromSplit(samples, split)
    ensures alerts == AllPairs(PairingOf(c), samples)
  {
    ghost var f := PairingOf(c);
    alerts := [];
    assert samples[0..] == samples;
    for i := 0 to |samples|
      invariant alerts + AllPairs(f, samples[i..]) == AllPairs(f, samples)
    {
      SamplesFrom(c, f, samples, split, i, alerts);
      var row := HandleRow(c, es, ff, samples[i], samples[i + 1..], split);
      alerts := alerts + row;
    }
    assert samples[|samples|..] == [];
  }

  lemma AllOKMeaning(s: Statements)
    ensures AllOK(s) <==> forall x :: x in s ==> x.status == OK
  {
    assert forall i :: 0 <= i < |s| ==> s[i] in s;
  }

  lemma OthersAreNotOK(s: Statements, others: Statements)
    requires others == Filter(s, x => !IsOK(x))
    ensures others == [] <==> AllOK(s)
  {
    var notOK := x => !IsOK(x);
    assert forall x :: x in Filter(s, notOK) <==> x in s && notOK(x);
    assert others != [] ==> others[0] in s;
    assert forall i :: 0 <= i < |s| ==> s[i] in s;
  }

  lemma OneSampleNoPair(f: Pairing, samples: Statements)
    requires |samples| == 1
    ensures AllPairs(f, samples) == []
  {
    assert samples[1..] == [] && AllPairs(f, samples[1..]) == [];
  }

  lemma NoGroupNoSample(s: Statements, split: map<Digest, Statements>)
    requires IsSplit(s, SumHash(), split) && split == map[]
    ensures IsSampling(s, [])
  {
    assert multiset(SortByNodeAsc([])) == multiset{};
    AllSampled(s, split);
    assert PartlySampled(s, {}, []);
  }

  lemma OneGroupOneSample(s: Statements, split: map<Digest, Statements>, k: Digest) returns (samples: Statements)
    requires IsSplit(s, SumHash(), split) && split.Keys == {k}
    ensures IsSampling(s, samples) && |samples| == 1
  {
    AllSampled(s, split);
    SampleOne(s, {k}, [], k);
    var first := [] + [Group(s, SumHash(), k)[0]];
    assert {k} - {k} == {};
    samples := SortByNodeAsc(first);
    assert |samples| == |multiset(samples)| == |multiset(first)| == 1;
  }

  lemma OnlyKey<K, V>(m: map<K, V>) returns (k: K)
    requires |m| == 1
    ensures m.Keys == {k}
  {
    k :| k in m;
    assert |m.Keys - {k}| == 0;
  }

  /** At most one state hash: one sample at most, and no pair. */
  lemma OneGroupNoAlert(c: Context, split: map<Digest, Statements>)
    requires IsSplit(c.statements, SumHash(), split) && |split| <= 1
    requires SearchesEnd(c.db, c.opts, c.statements) && OKMeansFull(c.statements) && AllOK(c.statements)
    ensures BucketReport(c, [])
  {
    var samples: Statements := [];
    if |split| == 0 {
      NoGroupNoSample(c.statements, split);
    } else {
      var k := OnlyKey(split);
      samples := OneGroupOneSample(c.statements, split, k);
      OneSampleNoPair(PairingOf(c), samples);
    }
    SamplesAreReady(c, samples);
  }

  lemma SamplesAreReady(c: Context, samples: Statements)
    requires IsSampling(c.statements, samples)
    requires SearchesEnd(c.db, c.opts, c.statements) && OKMeansFull(c.statements) && AllOK(c.statements)
    ensures Ready(c, samples)
  {
    SamplesAreFull(c.statements, samples);
  }

  method AnalyzeNodesOnSameHeight(es: Storage, bucketHeight: uint64, timestamp: int, opts: Options, statements: Statements)
    returns (alerts: seq<Alert>, failed: bool)
    requires SearchesEnd(es.db, opts, statements) && OKMeansFull(statements)
    ensures failed <==> !AllOK(statements)
    ensures failed <==> exists x :: x in statements && x.status != OK
    ensures failed ==> alerts == []
    ensures !failed ==> BucketReport(Context(es.db, opts, timestamp, bucketHeight, statements), alerts)
  {
    var split, others := SplitBySumStateHash(statements);
    AllOKMeaning(statements);
    OthersAreNotOK(statements, others);
    if |others| != 0 {
      return [], true;
    }
    FilterAll(statements);
    var c := Context(es.db, opts, timestamp, bucketHeight, statements);
    if |split| <= 1 {
      OneGroupNoAlert(c, split);
      return [], false;
    }
    var samples := TakeSamples(statements, split);
    SamplesAreReady(c, samples);
    SamplesComeFromSplit(statements, split, samples);
    var ff := new ForkFinder(es);
    ff.WithLinearSearchParams(LinearDepth(opts));
    alerts := HandleSamples(c, es, ff, samples, split);
    failed := false;
  }

  // ----- all buckets -----

  ghost predicate SameHeight(g: Statements) {
    forall i :: 0 <= i < |g| ==> g[i].height == g[0].height
  }

  /** The height at which a bucket is compared, and the statements there: those of the bucket itself
      when they share a height, otherwise the ones the nodes made at the bucket's lowest height. */
  ghost function Compared(db: DB, g: Statements, key: uint64): (uint64, Statements) {
    if g != [] && SameHeight(g) then (g[0].height, g) else (key, AllAtHeight(db, g, key))
  }

  ghost function BucketContext(db: DB, opts: Options, ts: int, s: Statements, key: uint64): Context
    requires opts.heightBucketSize > 0
  {
    var compared := Compared(db, Group(s, Bucket(opts.heightBucketSize), key), key);
    Context(db, opts, ts, compared.0, compared.1)
  }

  lemma OneHeightInSplit(g: Statements, split: map<uint64, Statements>, lo: uint64, hi: uint64)
    requires g != [] && IsSplit(g, Height(), split) && lo in split && hi in split
    requires forall h :: h in split ==> lo <= h <= hi
    ensures lo == hi <==> SameHeight(g)
    ensures lo == hi ==> lo == g[0].height
  {
    forall i | 0 <= i < |g| ensures g[i].height in split {
      assert g[i] in Group(g, Height(), g[i].height);
    }
    assert split[lo][0] in g && split[lo][0].height == lo;
    assert split[hi][0] in g && split[hi][0].height == hi;
  }

  method CompareAt(es: Storage, g: Statements, key: uint64) returns (bucketHeight: uint64, statements: Statements)
    requires g != []
    ensures (bucketHeight, statements) == Compared(es.db, g, key)
  {
    var split := SplitBy(g, Height());
    assert split.Keys != {} by {
      assert g[0] in Group(g, Height(), g[0].height);
      assert g[0].height in split;
    }
    var minHeight, maxHeight := MinMaxHeight(split);
    OneHeightInSplit(g, split, minHeight, maxHeight);
    bucketHeight, statements := minHeight, g;
    if minHeight != maxHeight {
      bucketHeight := key;
      statements := GetAllStatementsAtBucketHeight(es, g, key);
    }
  }

  /** The compared statements are of nodes of the bucket, so their searches end as well. */
  lemma ComparedSearchesEnd(db: DB, opts: Options, g: Statements, key: uint64)
    requires ValidDB(db) && SearchesEnd(db, opts, g)
    ensures SearchesEnd(db, opts, Compared(db, g, key).1)
  {
    if !(g != [] && SameHeight(g)) {
      var r := AllAtHeight(db, g, key);
      var origins := Origins(db, g, key);
      forall x | x in r ensures exists y :: y in g && y.node == x.node {
        var i :| 0 <= i < |r| && r[i] == x;
        AtHeightIsFull(db, g[origins[i]], key);
        assert g[origins[i]] in g;
      }
      forall x, y | x in r && y in r ensures PairEnds(db, opts, x, y) {
        var x' :| x' in g && x'.node == x.node;
        var y' :| y' in g && y'.node == y.node;
        assert PairEnds(db, opts, x', y');
      }
    }
  }

  /** From which statement each collected one comes. */
  lemma {:induction false} Origins(db: DB, s: Statements, h: uint64) returns (origins: seq<nat>)
    ensures |origins| == |AllAtHeight(db, s, h)|
    ensures forall i :: 0 <= i < |origins| ==>
              origins[i] < |s| && AtHeight(db, s[origins[i]], h) == Some(AllAtHeight(db, s, h)[i])
    ensures forall i, j :: 0 <= i < j < |origins| ==> origins[i] < origins[j]
  {
    if s == [] {
      origins := [];
    } else {
      var n := |s| - 1;
      origins := Origins(db, s[..n], h);
      if AtHeight(db, s[n], h).Some? {
        origins := origins + [n];
      }
    }
  }

  lemma AtHeightIsFull(db: DB, s: NodeStatement, h: uint64)
    requires ValidDB(db) && AtHeight(db, s, h).Some?
    ensures var x := AtHeight(db, s, h).value; x.node == s.node && x.height == h && (x == s || (x.Full() && IsOK(x)))
  {
    if s.height != h {
      FoundMeansFull(HistoryIn(db, s.node), h);
    }
  }

  /** What is compared is at one height, still means OK is full, and is OK where the input is. */
  lemma ComparedMeaning(db: DB, g: Statements, key: uint64)
    requires ValidDB(db) && OKMeansFull(g)
    ensures forall x :: x in Compared(db, g, key).1 ==> x.height == Compared(db, g, key).0
    ensures OKMeansFull(Compared(db, g, key).1)
    ensures AllOK(g) ==> AllOK(Compared(db, g, key).1)
  {
    if !(g != [] && SameHeight(g)) {
      var r := AllAtHeight(db, g, key);
      var origins := Origins(db, g, key);
      forall i | 0 <= i < |r|
        ensures r[i].height == key && (IsOK(r[i]) ==> r[i].Full()) && (AllOK(g) ==> IsOK(r[i]))
      {
        AtHeightIsFull(db, g[origins[i]], key);
      }
    }
  }

  lemma GroupIsFull<K>(s: Statements, key: NodeStatement -> K, k: K)
    requires OKMeansFull(s)
    ensures OKMeansFull(Group(s, key, k)) && (AllOK(s) ==> AllOK(Group(s, key, k)))
  {
    var g := Group(s, key, k);
    forall i | 0 <= i < |g| ensures (IsOK(g[i]) ==> g[i].Full()) && (AllOK(s) ==> IsOK(g[i])) {
      assert g[i] in s;
    }
  }

  /** Distinct buckets, each with the alerts of its comparison. */
  ghost predicate Reports(
      db: DB, opts: Options, ts: int, s: Statements, keys: seq<uint64>, parts: seq<seq<Alert>>)
    requires opts.heightBucketSize > 0
  {
    && Distinct(keys) && |parts| == |keys|
    && forall i :: 0 <= i < |keys| ==> ReportsBucket(db, opts, ts, s, keys[i], parts[i])
  }

  ghost predicate Occurs(opts: Options, s: Statements, key: uint64)
    requires opts.heightBucketSize > 0
  {
    Group(s, Bucket(opts.heightBucketSize), key) != []
  }

  ghost predicate ReportsBucket(db: DB, opts: Options, ts: int, s: Statements, key: uint64, alerts: seq<Alert>)
    requires opts.heightBucketSize > 0
  {
    Occurs(opts, s, key) && BucketReport(BucketContext(db, opts, ts, s, key), alerts)
  }

  method AnalyzeBucket(es: Storage, opts: Options, ts: int, ghost s: Statements, key: uint64, g: Statements)
    returns (alerts: seq<Alert>, failed: bool)
    requires es.Valid() && SearchesEnd(es.db, opts, s) && OKMeansFull(s) && opts.heightBucketSize > 0
    requires g == Group(s, Bucket(opts.heightBucketSize), key) && g != []
    ensures failed <==> !AllOK(BucketContext(es.db, opts, ts, s, key).statements)
    ensures failed ==> alerts == []
    ensures !failed ==> ReportsBucket(es.db, opts, ts, s, key, alerts)
  {
    GroupIsFull(s, Bucket(opts.heightBucketSize), key);
    ComparedMeaning(es.db, g, key);
    ComparedSearchesEnd(es.db, opts, g, key);
    var bucketHeight, statements := CompareAt(es, g, key);
    alerts, failed := AnalyzeNodesOnSameHeight(es, bucketHeight, ts, opts, statements);
  }

  /** The result of an analysis: the buckets were reported in some order, all of them or up to one
      that failed. */
  ghost predicate IsAnalysis(db: DB, opts: Options, ts: int, s: Statements, alerts: seq<Alert>, failed: bool)
    requires opts.heightBucketSize > 0
  {
    && (exists keys, parts :: Reports(db, opts, ts, s, keys, parts) && alerts == Concat(parts)
                              && (!failed ==> forall key :: key in keys <==> Occurs(opts, s, key)))
    && (failed ==> exists key :: Occurs(opts, s, key) && !AllOK(BucketContext(db, opts, ts, s, key).statements))
  }

  /** The buckets in any order, up to the first that fails. */
  method Analyze(es: Storage, opts: Options, ts: int, statements: Statements)
    returns (alerts: seq<Alert>, failed: bool)
    requires es.Valid() && SearchesEnd(es.db, opts, statements) && OKMeansFull(statements) && opts.heightBucketSize > 0
    ensures IsAnalysis(es.db, opts, ts, statements, alerts, failed)
  {
    var split := SplitBy(statements, Bucket(opts.heightBucketSize));
    ghost var db := es.db;
    alerts, failed := [], false;
    ghost var keys: seq<uint64>, parts: seq<seq<Alert>> := [], [];
    var rest := split.Keys;
    while rest != {}
      invariant rest <= split.Keys && !failed
      invariant Reports(db, opts, ts, statements, keys, parts) && alerts == Concat(parts)
      invariant forall key :: key in keys <==> key in split && key !in rest
    {
      var key :| key in rest;
      var more: seq<Alert>;
      more, failed := AnalyzeBucket(es, opts, ts, statements, key, split[key]);
      if failed {
        assert Occurs(opts, statements, key) && Reports(db, opts, ts, statements, keys, parts);
        return;
      }
      ReportsGrow(db, opts, ts, statements, keys, parts, key, more);
      alerts, keys, parts := alerts + more, keys + [key], parts + [more];
      rest := rest - {key};
    }
    assert Reports(db, opts, ts, statements, keys, parts);
  }

  lemma ReportsGrow(
      db: DB, opts: Options, ts: int, s: Statements, keys: seq<uint64>, parts: seq<seq<Alert>>,
      key: uint64, more: seq<Alert>)
    requires opts.heightBucketSize > 0 && Reports(db, opts, ts, s, keys, parts) && key !in keys
    requires ReportsBucket(db, opts, ts, s, key, more)
    ensures Reports(db, opts, ts, s, keys + [key], parts + [more])
    ensures Concat(parts + [more]) == Concat(parts) + more
  {
    assert (parts + [more])[..|parts|] == parts;
  }
}
