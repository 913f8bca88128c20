/** What the whole analysis of the state hash criterion says about the nodes. */
module StateHashAnalysis {
  import opened Prelude
  import opened Strings
  import opened Entities
  import opened Statements
  import opened Events
  import opened StateHashCriterion
  import opened StateHashMeaning

  /** x and y stand for two state hashes at the height of the bucket, and a is their fork alert. */
  ghost predicate ForkPair(c: Context, x: NodeStatement, y: NodeStatement, a: Alert) {
    && IsFirstOfGroup(c.statements, x) && IsFirstOfGroup(c.statements, y) && Less(x.node, y.node)
    && x.Full() && y.Full() && PairEnds(c.db, c.opts, x, y)
    && Forked(c, x, y) && PairAlerts(c, x, y) == [a]
  }

  lemma FirstIsSample(s: Statements, samples: Statements, x: NodeStatement)
    requires IsSampling(s, samples)
    ensures IsFirstOfGroup(s, x) <==> x in samples
  {
    assert x in samples <==> multiset(samples)[x] > 0;
  }

  lemma SamplesInOrder(s: Statements, samples: Statements, i: nat, j: nat)
    requires IsSampling(s, samples) && DistinctNodes(s) && i < |samples| && j < |samples|
    ensures i < j <==> Less(samples[i].node, samples[j].node)
  {
    LessIsTotal(samples[i].node, samples[j].node);
    var nodes := Nodes(samples);
    assert i < j ==> AtMost(nodes[i], nodes[j]);
    assert j < i ==> AtMost(nodes[j], nodes[i]);
    if i != j {
      SamplesOfDistinctNodes(s, samples, i, j);
    }
  }

  lemma SamplesOfDistinctNodes(s: Statements, samples: Statements, i: nat, j: nat)
    requires IsSampling(s, samples) && DistinctNodes(s) && i < |samples| && j < |samples| && i != j
    ensures samples[i].node != samples[j].node
  {
    SampleIsInput(s, samples, i);
    SampleIsInput(s, samples, j);
    OneSamplePerHash(s, samples);
  }

  /** In a bucket of different nodes the alerts are those of the fork pairs. */
  lemma BucketAlerts(c: Context, alerts: seq<Alert>, a: Alert)
    requires BucketReport(c, alerts) && DistinctNodes(c.statements)
    ensures a in alerts <==> exists x, y :: ForkPair(c, x, y, a)
  {
    var samples :| IsSampling(c.statements, samples) && Ready(c, samples) && alerts == AllPairs(PairingOf(c), samples);
    var pairs := OneAlertPerForkedPair(c, samples);
    if a in alerts {
      var t :| 0 <= t < |alerts| && alerts[t] == a;
      var i, j := pairs[t].0, pairs[t].1;
      FirstIsSample(c.statements, samples, samples[i]);
      FirstIsSample(c.statements, samples, samples[j]);
      SamplesInOrder(c.statements, samples, i, j);
      assert (i, j) in pairs;
      assert ForkPair(c, samples[i], samples[j], a);
    }
    forall x, y | ForkPair(c, x, y, a) ensures a in alerts {
      FirstIsSample(c.statements, samples, x);
      FirstIsSample(c.statements, samples, y);
      var i :| 0 <= i < |samples| && samples[i] == x;
      var j :| 0 <= j < |samples| && samples[j] == y;
      SamplesInOrder(c.statements, samples, i, j);
      assert (i, j) in pairs;
      var t :| 0 <= t < |pairs| && pairs[t] == (i, j);
      assert alerts[t] == a;
    }
  }

  lemma {:induction false} InConcat<T>(parts: seq<seq<T>>, x: T)
    ensures x in Concat(parts) <==> exists i :: 0 <= i < |parts| && x in parts[i]
  {
    if parts != [] {
      InConcat(parts[..|parts| - 1], x);
      assert parts == parts[..|parts| - 1] + [parts[|parts| - 1]];
    }
  }

  /** OK statements of different nodes, and stored heights below 2^63. */
  ghost predicate GoodInput(db: DB, opts: Options, s: Statements) {
    && opts.heightBucketSize > 0 && ValidDB(db) && HeightsBelow63(db)
    && AllOK(s) && OKMeansFull(s) && DistinctNodes(s)
  }

  /** The whole analysis of good input: it may be called, it does not fail, each bucket compares exactly
      the statements its nodes are compared by, and the alerts are exactly the fork alerts of the pairs
      of state hashes among these. */
  lemma AnalysisMeaning(db: DB, opts: Options, ts: int, s: Statements, alerts: seq<Alert>, failed: bool, a: Alert)
    requires GoodInput(db, opts, s) && IsAnalysis(db, opts, ts, s, alerts, failed)
    ensures SearchesEnd(db, opts, s) && !failed
    ensures forall key, x :: Occurs(opts, s, key) ==>
              var c := BucketContext(db, opts, ts, s, key);
              && IsComparisonHeight(s, opts.heightBucketSize, key, c.bucketHeight)
              && (x in c.statements <==> IsCompared(db, s, opts.heightBucketSize, key, c.bucketHeight, x))
    ensures a in alerts <==>
            exists key, x, y :: Occurs(opts, s, key) && ForkPair(BucketContext(db, opts, ts, s, key), x, y, a)
  {
    BelowMeansSearchesEnd(db, opts, s);
    forall key ensures AllOK(BucketContext(db, opts, ts, s, key).statements) {
      OKStatementsNeverFail(db, opts, ts, s, key);
    }
    forall key | Occurs(opts, s, key)
      ensures var c := BucketContext(db, opts, ts, s, key);
              && IsComparisonHeight(s, opts.heightBucketSize, key, c.bucketHeight)
              && forall x :: x in c.statements <==> IsCompared(db, s, opts.heightBucketSize, key, c.bucketHeight, x)
    {
      ComparedExactly(db, opts, ts, s, key);
    }
    AlertsAreForkPairs(db, opts, ts, s, alerts, a);
  }

  /** Every bucket was reported. */
  ghost predicate AllReported(db: DB, opts: Options, ts: int, s: Statements, alerts: seq<Alert>)
    requires opts.heightBucketSize > 0
  {
    exists keys, parts :: Reports(db, opts, ts, s, keys, parts) && alerts == Concat(parts)
                          && forall key :: key in keys <==> Occurs(opts, s, key)
  }

  lemma AlertsAreForkPairs(db: DB, opts: Options, ts: int, s: Statements, alerts: seq<Alert>, a: Alert)
    requires GoodInput(db, opts, s) && AllReported(db, opts, ts, s, alerts)
    ensures a in alerts <==>
            exists key, x, y :: Occurs(opts, s, key) && ForkPair(BucketContext(db, opts, ts, s, key), x, y, a)
  {
    var keys, parts :| Reports(db, opts, ts, s, keys, parts) && alerts == Concat(parts)
                       && forall key :: key in keys <==> Occurs(opts, s, key);
    InConcat(parts, a);
    forall i | 0 <= i < |keys|
      ensures a in parts[i] <==> exists x, y :: ForkPair(BucketContext(db, opts, ts, s, keys[i]), x, y, a)
    {
      ComparedAtOneHeight(db, opts, ts, s, keys[i]);
      assert ReportsBucket(db, opts, ts, s, keys[i], parts[i]);
      BucketAlerts(BucketContext(db, opts, ts, s, keys[i]), parts[i], a);
    }
    forall key, x, y | Occurs(opts, s, key) && ForkPair(BucketContext(db, opts, ts, s, key), x, y, a)
      ensures a in alerts
    {
      var i :| 0 <= i < |keys| && keys[i] == key;
      assert a in parts[i];
    }
  }

  // ----- two nodes on different chains -----

  /** The alert names p in one group and q in the other, at height h. */
  predicate Divides(a: Alert, h: uint64, p: string, q: string) {
    && a.body.StateHashAlert? && a.body.bucketHeight == h
    && ((p in a.body.firstGroup.nodes && q in a.body.secondGroup.nodes)
        || (q in a.body.firstGroup.nodes && p in a.body.secondGroup.nodes))
  }

  /** Two statements with different state hashes. */
  ghost predicate Divided(c: Context, u: NodeStatement, v: NodeStatement) {
    && DistinctNodes(c.statements) && (forall z :: z in c.statements ==> z.Full())
    && u in c.statements && v in c.statements && u.stateHash.value.sumHash != v.stateHash.value.sumHash
  }

  /** x and y are the samples of the hashes of u and v, in the order of their nodes' names. */
  ghost predicate SampledBy(c: Context, u: NodeStatement, v: NodeStatement, x: NodeStatement, y: NodeStatement)
    requires u.Full() && v.Full()
  {
    var hu, hv := u.stateHash.value.sumHash, v.stateHash.value.sumHash;
    && IsFirstOfGroup(c.statements, x) && IsFirstOfGroup(c.statements, y) && Less(x.node, y.node)
    && ((Carries(x, hu) && Carries(y, hv)) || (Carries(x, hv) && Carries(y, hu)))
  }

  lemma FirstIsMember(s: Statements, x: NodeStatement)
    requires IsFirstOfGroup(s, x)
    ensures x in s
  {
    assert x in Group(s, SumHash(), SumHash()(x));
  }

  lemma SamplesOf(c: Context, u: NodeStatement, v: NodeStatement) returns (x: NodeStatement, y: NodeStatement)
    requires Divided(c, u, v)
    ensures SampledBy(c, u, v, x, y)
  {
    x, y := SampleOf(c.statements, u), SampleOf(c.statements, v);
    SampleHasHash(c.statements, u);
    SampleHasHash(c.statements, v);
    LessIsTotal(x.node, y.node);
    if Less(y.node, x.node) {
      x, y := y, x;
    }
  }

  ghost function SampleOf(s: Statements, u: NodeStatement): NodeStatement
    requires u in s
  {
    assert u in Group(s, SumHash(), SumHash()(u));
    Group(s, SumHash(), SumHash()(u))[0]
  }

  lemma SampleHasHash(s: Statements, u: NodeStatement)
    requires u in s && u.Full() && forall z :: z in s ==> z.Full()
    ensures SampleOf(s, u) in s && IsFirstOfGroup(s, SampleOf(s, u))
    ensures Carries(SampleOf(s, u), u.stateHash.value.sumHash)
  {
    var x := SampleOf(s, u);
    assert x in Group(s, SumHash(), SumHash()(u));
    HashOf(u);
    HashOf(x);
  }

  /** A node is in the group of a sample exactly by the statement it is compared by. */
  lemma MemberByHash(c: Context, u: NodeStatement, hash: Digest, nodes: seq<string>)
    requires DistinctNodes(c.statements) && u in c.statements && NamesAllWith(nodes, c.statements, hash)
    ensures u.node in nodes <==> Carries(u, hash)
  {
    if u.node in nodes {
      var z :| z in c.statements && z.node == u.node && Carries(z, hash);
      assert z == u;
    }
  }

  /** An alert of a fork pair divides u and v exactly if the pair stands for their hashes. */
  lemma DividesExactly(c: Context, u: NodeStatement, v: NodeStatement, x: NodeStatement, y: NodeStatement, a: Alert)
    requires Divided(c, u, v) && ForkPair(c, x, y, a)
    ensures Divides(a, c.bucketHeight, u.node, v.node) <==> SampledBy(c, u, v, x, y)
  {
    ForkAlertFields(c, x, y, a);
    var hx, hy := x.stateHash.value.sumHash, y.stateHash.value.sumHash;
    MemberByHash(c, u, hx, a.body.firstGroup.nodes);
    MemberByHash(c, v, hx, a.body.firstGroup.nodes);
    MemberByHash(c, u, hy, a.body.secondGroup.nodes);
    MemberByHash(c, v, hy, a.body.secondGroup.nodes);
  }

  lemma SamplesAreUnique(
      c: Context, u: NodeStatement, v: NodeStatement, x: NodeStatement, y: NodeStatement,
      x': NodeStatement, y': NodeStatement)
    requires Divided(c, u, v) && SampledBy(c, u, v, x, y) && SampledBy(c, u, v, x', y')
    ensures x == x' && y == y'
  {
    LessIsTotal(x.node, y.node);
    LessIsTotal(x'.node, y'.node);
    SameHashSameSample(c.statements, x, x');
    SameHashSameSample(c.statements, x, y');
    SameHashSameSample(c.statements, y, x');
    SameHashSameSample(c.statements, y, y');
  }

  lemma SameHashSameSample(s: Statements, x: NodeStatement, y: NodeStatement)
    requires IsFirstOfGroup(s, x) && IsFirstOfGroup(s, y) && x.Full() && y.Full()
    ensures x.stateHash.value.sumHash == y.stateHash.value.sumHash ==> x == y
  {
    HashOf(x);
    HashOf(y);
  }

  /** The comparison height tells the bucket. */
  lemma HeightTellsBucket(db: DB, opts: Options, ts: int, s: Statements, key: uint64)
    requires opts.heightBucketSize > 0 && Occurs(opts, s, key)
    ensures BucketOf(BucketContext(db, opts, ts, s, key).bucketHeight, opts.heightBucketSize) == key
  {
    var size := opts.heightBucketSize;
    var g := Group(s, Bucket(size), key);
    assert g[0] in g && BucketOf(g[0].height, size) == key;
    LowerEndIsItsBucket(g[0].height, size);
  }

  lemma LowerEndIsItsBucket(h: uint64, size: uint32)
    requires size > 0
    ensures BucketOf(BucketOf(h, size), size) == BucketOf(h, size)
  {
    var q := h / size;
    assert BucketOf(h, size) == q * size;
    MultipleHasNoRest(q, size);
  }

  lemma MultipleHasNoRest(q: nat, size: nat)
    requires size > 0
    ensures q * size / size == q
  {
    var r, m := q * size / size, q * size % size;
    assert q * size == r * size + m;
    MultiplesApart(q, r, size, m);
  }

  lemma MultiplesApart(q: nat, r: nat, size: nat, m: nat)
    requires m < size && q * size == r * size + m
    ensures q == r
  {
    if q > r {
      OneMultiple(q - r, size);
    } else if q < r {
      OneMultiple(r - q, size);
    }
  }

  lemma {:induction false} OneMultiple(d: nat, size: nat)
    requires d > 0
    ensures d * size >= size
  {
    if d > 1 {
      OneMultiple(d - 1, size);
    }
  }

  /** Two nodes of one bucket whose statements there have different hashes: an alert puts one in each
      group if and only if the samples of their hashes are forked deeper than the limits allow. */
  lemma DividedNodesAreReported(
      db: DB, opts: Options, ts: int, s: Statements, alerts: seq<Alert>, failed: bool,
      key: uint64, h: uint64, u: NodeStatement, v: NodeStatement)
    returns (c: Context, x: NodeStatement, y: NodeStatement)
    requires GoodInput(db, opts, s) && IsAnalysis(db, opts, ts, s, alerts, failed)
    requires Occurs(opts, s, key) && IsComparisonHeight(s, opts.heightBucketSize, key, h)
    requires IsCompared(db, s, opts.heightBucketSize, key, h, u) && IsCompared(db, s, opts.heightBucketSize, key, h, v)
    requires u.stateHash.Some? && v.stateHash.Some? && u.stateHash.value.sumHash != v.stateHash.value.sumHash
    ensures c.db == db && c.opts == opts && c.bucketHeight == h
    ensures SampledBy(c, u, v, x, y) && PairEnds(db, opts, x, y)
    ensures (exists a :: a in alerts && Divides(a, h, u.node, v.node)) <==> Forked(c, x, y)
  {
    c := BucketContext(db, opts, ts, s, key);
    x, y := DividedInBucket(db, opts, ts, s, key, h, u, v);
    if Forked(c, x, y) {
      var a := ByFork(db, opts, ts, s, alerts, failed, key, u, v, x, y);
    }
    forall a | a in alerts && Divides(a, h, u.node, v.node) ensures Forked(c, x, y) {
      OnlyByFork(db, opts, ts, s, alerts, failed, key, u, v, x, y, a);
    }
  }

  lemma DividedInBucket(
      db: DB, opts: Options, ts: int, s: Statements, key: uint64, h: uint64, u: NodeStatement, v: NodeStatement)
    returns (x: NodeStatement, y: NodeStatement)
    requires GoodInput(db, opts, s) && Occurs(opts, s, key) && IsComparisonHeight(s, opts.heightBucketSize, key, h)
    requires IsCompared(db, s, opts.heightBucketSize, key, h, u) && IsCompared(db, s, opts.heightBucketSize, key, h, v)
    requires u.stateHash.Some? && v.stateHash.Some? && u.stateHash.value.sumHash != v.stateHash.value.sumHash
    ensures var c := BucketContext(db, opts, ts, s, key);
            && c.db == db && c.opts == opts && c.bucketHeight == h
            && Divided(c, u, v) && SampledBy(c, u, v, x, y) && PairEnds(db, opts, x, y)
  {
    var c := BucketContext(db, opts, ts, s, key);
    ComparedInBucket(db, opts, ts, s, key, h, u);
    ComparedInBucket(db, opts, ts, s, key, h, v);
    ComparedAtOneHeight(db, opts, ts, s, key);
    x, y := SamplesOf(c, u, v);
    BelowMeansSearchesEnd(db, opts, [x, y]);
    assert x in [x, y] && y in [x, y];
  }

  lemma ComparedInBucket(db: DB, opts: Options, ts: int, s: Statements, key: uint64, h: uint64, u: NodeStatement)
    requires opts.heightBucketSize > 0 && Occurs(opts, s, key) && IsComparisonHeight(s, opts.heightBucketSize, key, h)
    requires IsCompared(db, s, opts.heightBucketSize, key, h, u)
    ensures BucketContext(db, opts, ts, s, key).bucketHeight == h && u in BucketContext(db, opts, ts, s, key).statements
  {
    ComparedExactly(db, opts, ts, s, key);
    OneComparisonHeight(s, opts.heightBucketSize, key, h, BucketContext(db, opts, ts, s, key).bucketHeight);
  }

  lemma ByFork(
      db: DB, opts: Options, ts: int, s: Statements, alerts: seq<Alert>, failed: bool, key: uint64,
      u: NodeStatement, v: NodeStatement, x: NodeStatement, y: NodeStatement)
    returns (a: Alert)
    requires GoodInput(db, opts, s) && IsAnalysis(db, opts, ts, s, alerts, failed) && Occurs(opts, s, key)
    requires var c := BucketContext(db, opts, ts, s, key);
             && Divided(c, u, v) && SampledBy(c, u, v, x, y) && PairEnds(db, opts, x, y) && Forked(c, x, y)
    ensures a in alerts && Divides(a, BucketContext(db, opts, ts, s, key).bucketHeight, u.node, v.node)
  {
    var c := BucketContext(db, opts, ts, s, key);
    ComparedAtOneHeight(db, opts, ts, s, key);
    a := ForkPairOf(c, u, v, x, y);
    InAlerts(db, opts, ts, s, alerts, failed, key, x, y, a);
    DividesExactly(c, u, v, x, y, a);
  }

  lemma ForkPairOf(c: Context, u: NodeStatement, v: NodeStatement, x: NodeStatement, y: NodeStatement) returns (a: Alert)
    requires Divided(c, u, v) && SampledBy(c, u, v, x, y) && PairEnds(c.db, c.opts, x, y) && Forked(c, x, y)
    ensures ForkPair(c, x, y, a)
  {
    FirstIsMember(c.statements, x);
    FirstIsMember(c.statements, y);
    a := AlertOfFork(c, x, y);
  }

  lemma AlertOfFork(c: Context, x: NodeStatement, y: NodeStatement) returns (a: Alert)
    requires x.Full() && y.Full() && PairEnds(c.db, c.opts, x, y) && Forked(c, x, y)
    ensures PairAlerts(c, x, y) == [a]
  {
    ReportedIffForked(c, x, y);
    a := PairAlerts(c, x, y)[0];
  }

  lemma InAlerts(
      db: DB, opts: Options, ts: int, s: Statements, alerts: seq<Alert>, failed: bool, key: uint64,
      x: NodeStatement, y: NodeStatement, a: Alert)
    requires GoodInput(db, opts, s) && IsAnalysis(db, opts, ts, s, alerts, failed) && Occurs(opts, s, key)
    requires ForkPair(BucketContext(db, opts, ts, s, key), x, y, a)
    ensures a in alerts
  {
    AnalysisMeaning(db, opts, ts, s, alerts, failed, a);
  }

  lemma OneComparisonHeight(s: Statements, size: uint32, key: uint64, h: uint64, h': uint64)
    requires size > 0 && IsComparisonHeight(s, size, key, h) && IsComparisonHeight(s, size, key, h')
    ensures h == h'
  {
  }

  lemma OnlyByFork(
      db: DB, opts: Options, ts: int, s: Statements, alerts: seq<Alert>, failed: bool, key: uint64,
      u: NodeStatement, v: NodeStatement, x: NodeStatement, y: NodeStatement, a: Alert)
    requires GoodInput(db, opts, s) && IsAnalysis(db, opts, ts, s, alerts, failed) && Occurs(opts, s, key)
    requires var c := BucketContext(db, opts, ts, s, key);
             && Divided(c, u, v) && SampledBy(c, u, v, x, y) && PairEnds(db, opts, x, y)
             && a in alerts && Divides(a, c.bucketHeight, u.node, v.node)
    ensures Forked(BucketContext(db, opts, ts, s, key), x, y)
  {
    var c := BucketContext(db, opts, ts, s, key);
    var x', y' := PairBehind(db, opts, ts, s, alerts, failed, key, a);
    DividesExactly(c, u, v, x', y', a);
    SamplesAreUnique(c, u, v, x, y, x', y');
  }

  /** The pair behind an alert at the comparison height of a bucket is one of that bucket. */
  lemma PairBehind(
      db: DB, opts: Options, ts: int, s: Statements, alerts: seq<Alert>, failed: bool, key: uint64, a: Alert)
    returns (x: NodeStatement, y: NodeStatement)
    requires GoodInput(db, opts, s) && IsAnalysis(db, opts, ts, s, alerts, failed) && Occurs(opts, s, key)
    requires a in alerts && a.body.StateHashAlert?
    requires a.body.bucketHeight == BucketContext(db, opts, ts, s, key).bucketHeight
    ensures ForkPair(BucketContext(db, opts, ts, s, key), x, y, a)
  {
    AnalysisMeaning(db, opts, ts, s, alerts, failed, a);
    var key', x', y' :| Occurs(opts, s, key') && ForkPair(BucketContext(db, opts, ts, s, key'), x', y', a);
    x, y := x', y';
    PairTellsHeight(BucketContext(db, opts, ts, s, key'), x, y, a);
    HeightTellsBucket(db, opts, ts, s, key);
    HeightTellsBucket(db, opts, ts, s, key');
  }

  lemma PairTellsHeight(c: Context, x: NodeStatement, y: NodeStatement, a: Alert)
    requires ForkPair(c, x, y, a)
    ensures a.body.StateHashAlert? && a.body.bucketHeight == c.bucketHeight
  {
    var exist, h, sh := AlertOf(c, x, y, a);
  }
}
