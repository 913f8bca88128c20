/** What the reports of the state hash criterion say: which pairs of groups they name, and when. */
module StateHashMeaning {
  import opened Prelude
  import opened Strings
  import opened Entities
  import opened Statements
  import opened Events
  import opened ForkFinder
  import opened StateHashCriterion
  import opened StateHashPairs

  // ----- conditions a caller can check -----

  ghost predicate HeightsBelow63(db: DB) {
    forall node, i :: node in db && 0 <= i < |db[node]| ==> db[node][i].height < TWO_TO_63
  }

  lemma StoredHeightBelow63(db: DB, node: string, h: uint64)
    requires HeightsBelow63(db) && HasFullAt(HistoryIn(db, node), h)
    ensures h < TWO_TO_63
  {
  }

  /** Below 2^63 every search ends, so the analysis may be called. */
  lemma BelowMeansSearchesEnd(db: DB, opts: Options, s: Statements)
    requires HeightsBelow63(db)
    ensures SearchesEnd(db, opts, s)
  {
    forall x, y | x in s && y in s ensures PairEnds(db, opts, x, y) {
      var a, b := HistoryIn(db, x.node), HistoryIn(db, y.node);
      if HaveHeights(a, b) {
        LatestIsFull(a);
        StoredHeightBelow63(db, x.node, LatestHeightOf(a).value);
      }
      BelowSearchEnds(a, b, SumHashes, Some(LinearDepth(opts)));
    }
  }

  /** Given OK statements only, as the analyzer does, no bucket fails. */
  lemma OKStatementsNeverFail(db: DB, opts: Options, ts: int, s: Statements, key: uint64)
    requires ValidDB(db) && OKMeansFull(s) && AllOK(s) && opts.heightBucketSize > 0
    ensures AllOK(BucketContext(db, opts, ts, s, key).statements)
  {
    GroupIsFull(s, Bucket(opts.heightBucketSize), key);
    ComparedMeaning(db, Group(s, Bucket(opts.heightBucketSize), key), key);
  }

  // ----- the compared statements -----

  lemma GroupHasDistinctNodes<K>(s: Statements, key: NodeStatement -> K, k: K)
    requires DistinctNodes(s)
    ensures DistinctNodes(Group(s, key, k))
  {
    var positions := GroupKeepsOrder(s, key, k);
    var g := Group(s, key, k);
    forall i, j | 0 <= i < j < |g| ensures g[i].node != g[j].node {
      assert s[positions[i]] == g[i] && s[positions[j]] == g[j];
    }
  }

  /** Everything compared in a bucket sits at one height and carries a state hash, and no node is
      compared twice. */
  lemma ComparedAtOneHeight(db: DB, opts: Options, ts: int, s: Statements, key: uint64)
    requires ValidDB(db) && OKMeansFull(s) && AllOK(s) && DistinctNodes(s) && opts.heightBucketSize > 0
    ensures var c := BucketContext(db, opts, ts, s, key);
            && (forall x :: x in c.statements ==> x.height == c.bucketHeight && x.Full())
            && DistinctNodes(c.statements)
  {
    var g := Group(s, Bucket(opts.heightBucketSize), key);
    GroupIsFull(s, Bucket(opts.heightBucketSize), key);
    ComparedMeaning(db, g, key);
    GroupHasDistinctNodes(s, Bucket(opts.heightBucketSize), key);
    var r := AllAtHeight(db, g, key);
    var origins := Origins(db, g, key);
    forall i | 0 <= i < |r| ensures r[i].node == g[origins[i]].node {
      AtHeightIsFull(db, g[origins[i]], key);
    }
    forall i, j | 0 <= i < j < |r| ensures r[i].node != r[j].node {
      assert origins[i] < origins[j];
    }
  }

  /** The height at which a bucket is compared: the common height of its statements if there is one, and
      the bucket's lower end otherwise. */
  ghost predicate IsComparisonHeight(s: Statements, size: uint32, key: uint64, h: uint64)
    requires size > 0
  {
    if exists x :: IsCommonHeight(s, size, key, x) then IsCommonHeight(s, size, key, h) else h == key
  }

  ghost predicate InBucket(x: NodeStatement, size: uint32, key: uint64)
    requires size > 0
  {
    x.height / size * size == key
  }

  ghost predicate IsCommonHeight(s: Statements, size: uint32, key: uint64, h: uint64)
    requires size > 0
  {
    && (exists x :: x in s && InBucket(x, size, key))
    && forall x :: x in s && InBucket(x, size, key) ==> x.height == h
  }

  /** x is what y's node is compared by at height h: y itself if it is there, and otherwise the newest full
      statement of the node at h, unless something newer reports a lower height. */
  ghost predicate StandsFor(db: DB, y: NodeStatement, h: uint64, x: NodeStatement) {
    if y.height == h then x == y
    else
      var hist := HistoryIn(db, y.node);
      exists k :: NewestFullAt(hist, h, k) && NothingLowerSince(hist, h, k) && x == hist[k]
  }

  ghost predicate IsCompared(db: DB, s: Statements, size: uint32, key: uint64, h: uint64, x: NodeStatement)
    requires size > 0
  {
    exists y :: y in s && InBucket(y, size, key) && StandsFor(db, y, h, x)
  }

  lemma AtHeightExactly(db: DB, y: NodeStatement, h: uint64, x: NodeStatement)
    ensures AtHeight(db, y, h) == Some(x) <==> StandsFor(db, y, h, x)
  {
    ScanMeaning(HistoryIn(db, y.node), h);
  }

  lemma {:induction false} AllAtHeightExactly(db: DB, g: Statements, h: uint64, x: NodeStatement)
    ensures x in AllAtHeight(db, g, h) <==> exists y :: y in g && StandsFor(db, y, h, x)
  {
    if g != [] {
      var n := |g| - 1;
      AllAtHeightExactly(db, g[..n], h, x);
      AtHeightExactly(db, g[n], h, x);
      assert g == g[..n] + [g[n]];
    }
  }

  lemma BucketMembers(s: Statements, opts: Options, key: uint64)
    requires opts.heightBucketSize > 0
    ensures forall y :: y in Group(s, Bucket(opts.heightBucketSize), key) <==>
                        y in s && InBucket(y, opts.heightBucketSize, key)
  {
  }

  /** Which statements a bucket compares, and where: nothing else and nothing less. */
  lemma ComparedExactly(db: DB, opts: Options, ts: int, s: Statements, key: uint64)
    requires opts.heightBucketSize > 0 && Occurs(opts, s, key)
    ensures var c := BucketContext(db, opts, ts, s, key);
            && IsComparisonHeight(s, opts.heightBucketSize, key, c.bucketHeight)
            && forall x :: x in c.statements <==> IsCompared(db, s, opts.heightBucketSize, key, c.bucketHeight, x)
  {
    var size := opts.heightBucketSize;
    var g := Group(s, Bucket(size), key);
    var c := BucketContext(db, opts, ts, s, key);
    BucketMembers(s, opts, key);
    assert g[0] in g;
    if SameHeight(g) {
      OneHeight(s, size, key, g);
    } else {
      DifferentHeights(s, size, key, g);
      forall x ensures x in c.statements <==> IsCompared(db, s, size, key, key, x) {
        AllAtHeightExactly(db, g, key, x);
      }
    }
  }

  lemma OneHeight(s: Statements, size: uint32, key: uint64, g: Statements)
    requires size > 0 && g != [] && SameHeight(g)
    requires forall y :: y in g <==> y in s && InBucket(y, size, key)
    ensures IsComparisonHeight(s, size, key, g[0].height)
    ensures forall y :: y in g ==> y.height == g[0].height
  {
    assert g[0] in g;
    assert IsCommonHeight(s, size, key, g[0].height);
  }

  lemma DifferentHeights(s: Statements, size: uint32, key: uint64, g: Statements)
    requires size > 0 && g != [] && !SameHeight(g)
    requires forall y :: y in g <==> y in s && InBucket(y, size, key)
    ensures IsComparisonHeight(s, size, key, key)
  {
    var i :| 0 <= i < |g| && g[i].height != g[0].height;
    assert g[i] in g && g[0] in g;
    forall x ensures !IsCommonHeight(s, size, key, x) {
    }
  }

  /** Without rollbacks no node is left out: whoever is in the bucket and has a full statement at the
      comparison height is compared. */
  lemma ComparedComplete(db: DB, opts: Options, ts: int, s: Statements, key: uint64, y: NodeStatement)
    requires opts.heightBucketSize > 0 && y in s && InBucket(y, opts.heightBucketSize, key)
    requires NoRollback(HistoryIn(db, y.node)) && ValidDB(db)
    requires HasFullAt(HistoryIn(db, y.node), BucketContext(db, opts, ts, s, key).bucketHeight)
    ensures exists x :: x in BucketContext(db, opts, ts, s, key).statements && x.node == y.node
  {
    BucketMembers(s, opts, key);
    assert y in Group(s, Bucket(opts.heightBucketSize), key);
    ComparedExactly(db, opts, ts, s, key);
    var c := BucketContext(db, opts, ts, s, key);
    var hist := HistoryIn(db, y.node);
    if y.height == c.bucketHeight {
      assert StandsFor(db, y, c.bucketHeight, y);
      assert IsCompared(db, s, opts.heightBucketSize, key, c.bucketHeight, y);
    } else {
      ScanIsComplete(hist, c.bucketHeight);
      FoundMeansFull(hist, c.bucketHeight);
      var x := FullStatementAt(hist, c.bucketHeight).value;
      AtHeightExactly(db, y, c.bucketHeight, x);
      assert IsCompared(db, s, opts.heightBucketSize, key, c.bucketHeight, x);
    }
  }

  // ----- the samples -----

  lemma TwiceInMultiset<T>(s: seq<T>, i: nat, j: nat)
    requires i < j < |s| && s[i] == s[j]
    ensures multiset(s)[s[i]] >= 2
  {
    assert s == s[..j] + [s[j]] + s[j + 1..];
    assert s[..j][i] == s[i];
    assert multiset(s[..j])[s[i]] >= 1;
  }

  /** Each state hash that occurs has exactly one sample. */
  lemma OneSamplePerHash(s: Statements, samples: Statements)
    requires IsSampling(s, samples)
    ensures forall i, j :: 0 <= i < j < |samples| ==> SumHash()(samples[i]) != SumHash()(samples[j])
    ensures forall x :: x in s ==> exists i :: 0 <= i < |samples| && SumHash()(samples[i]) == SumHash()(x)
  {
    forall i | 0 <= i < |samples| ensures IsFirstOfGroup(s, samples[i]) {
      assert multiset(samples)[samples[i]] > 0;
    }
    forall i, j | 0 <= i < j < |samples| ensures SumHash()(samples[i]) != SumHash()(samples[j]) {
      if samples[i] == samples[j] {
        TwiceInMultiset(samples, i, j);
      }
    }
    forall x | x in s ensures exists i :: 0 <= i < |samples| && SumHash()(samples[i]) == SumHash()(x) {
      var g := Group(s, SumHash(), SumHash()(x));
      assert x in g;
      assert g[0] in g && IsFirstOfGroup(s, g[0]);
      assert multiset(samples)[g[0]] == 1;
      assert g[0] in samples;
    }
  }

  /** Sorting makes the samples independent of the order in which the map is visited. */
  lemma SamplingIsUnique(s: Statements, samples: Statements, samples': Statements)
    requires DistinctNodes(s) && IsSampling(s, samples) && IsSampling(s, samples')
    ensures samples == samples'
  {
    forall x ensures multiset(samples)[x] == multiset(samples')[x] {
    }
    assert multiset(samples) == multiset(samples');
    NodesOfPermutation(samples, samples');
    SortedIsUnique(Nodes(samples), Nodes(samples'));
    assert |samples| == |samples'|;
    forall i | 0 <= i < |samples| ensures samples[i] == samples'[i] {
      assert Nodes(samples)[i] == Nodes(samples')[i];
      SampleIsInput(s, samples, i);
      SampleIsInput(s, samples', i);
    }
  }

  lemma SampleIsInput(s: Statements, samples: Statements, i: nat)
    requires IsSampling(s, samples) && i < |samples|
    ensures samples[i] in s
  {
    assert multiset(samples)[samples[i]] > 0;
    assert samples[i] in Group(s, SumHash(), SumHash()(samples[i]));
  }

  /** So a bucket has one report. */
  lemma ReportIsDetermined(c: Context, alerts: seq<Alert>, alerts': seq<Alert>)
    requires DistinctNodes(c.statements) && BucketReport(c, alerts) && BucketReport(c, alerts')
    ensures alerts == alerts'
  {
    var samples :| IsSampling(c.statements, samples) && Ready(c, samples) && alerts == AllPairs(PairingOf(c), samples);
    var samples' :| IsSampling(c.statements, samples') && Ready(c, samples') && alerts' == AllPairs(PairingOf(c), samples');
    SamplingIsUnique(c.statements, samples, samples');
  }

  // ----- one alert for each forked pair -----

  /** The last common height as the fork depth counts it: 0 when nothing is common. */
  function LastCommonHeight(o: Outcome): uint64 {
    if o.Found? then o.height else 0
  }

  ghost predicate Forked(c: Context, first: NodeStatement, second: NodeStatement)
    requires PairEnds(c.db, c.opts, first, second)
  {
    var o := LastCommonOf(c, first, second);
    && !o.NoFullStatement?
    && ForkDepth(c.bucketHeight, LastCommonHeight(o)) > Min(c.opts.maxForkDepth, c.opts.heightBucketSize - 1)
  }

  /** The depth is the difference of the heights exactly where that fits 64 bits with a sign, as it does
      for heights below 2^63. */
  lemma DepthIsDifference(bucketHeight: uint64, lastCommon: uint64)
    ensures ForkDepth(bucketHeight, lastCommon) == bucketHeight - lastCommon <==> FitsInt64(bucketHeight - lastCommon)
    ensures bucketHeight < TWO_TO_63 && lastCommon < TWO_TO_63 ==> FitsInt64(bucketHeight - lastCommon)
    ensures FitsInt64(ForkDepth(bucketHeight, lastCommon))
    ensures exists k: int {:trigger DepthWraps(bucketHeight, lastCommon, k)} :: DepthWraps(bucketHeight, lastCommon, k)
  {
    var k := if bucketHeight - lastCommon >= TWO_TO_63 then -1 else if bucketHeight - lastCommon < -TWO_TO_63 then 1 else 0;
    assert DepthWraps(bucketHeight, lastCommon, k);
  }

  /** The depth is the difference up to a multiple of 2^64. */
  predicate DepthWraps(bucketHeight: uint64, lastCommon: uint64, k: int) {
    ForkDepth(bucketHeight, lastCommon) == bucketHeight - lastCommon + k * 0x1_0000_0000_0000_0000
  }

  /** The finder compares sum hashes, after a linear search one deeper than the tolerated fork, modulo 2^32. */
  lemma FinderOf(c: Context, first: NodeStatement, second: NodeStatement)
    requires PairEnds(c.db, c.opts, first, second)
    ensures var depth := if c.opts.maxForkDepth == 0xFFFF_FFFF then 0 else c.opts.maxForkDepth + 1;
            && SearchEnds(HistoryIn(c.db, first.node), HistoryIn(c.db, second.node), SumHashes, Some(depth))
            && LastCommonOf(c, first, second)
               == LastCommon(HistoryIn(c.db, first.node), HistoryIn(c.db, second.node), SumHashes, Some(depth))
  {
  }

  lemma HashOf(x: NodeStatement)
    requires x.Full()
    ensures Some(SumHash()(x)) == Some(x.stateHash.value.sumHash)
  {
  }

  /** A pair is reported if and only if it is forked deeper than both limits allow, and the report
      names the two groups and the last common height. */
  lemma ReportedIffForked(c: Context, first: NodeStatement, second: NodeStatement)
    requires first.Full() && second.Full() && PairEnds(c.db, c.opts, first, second)
    ensures PairAlerts(c, first, second) != [] <==> Forked(c, first, second)
    ensures PairAlerts(c, first, second) != [] ==>
              var a, o := PairAlerts(c, first, second)[0].body, LastCommonOf(c, first, second);
              && a.StateHashAlert? && a.firstGroup == GroupOf(c, first) && a.secondGroup == GroupOf(c, second)
              && (a.lastCommonExist <==> o.Found?) && a.lastCommonHeight == LastCommonHeight(o)
              && a.bucketHeight == c.bucketHeight
  {
  }

  /** The fields of a fork alert: the time and height of the comparison, the last common state hash, and
      for each of the two the whole group of nodes with its hash, in the order of names. */
  lemma ForkAlertFields(c: Context, first: NodeStatement, second: NodeStatement, a: Alert)
    requires first.Full() && second.Full() && PairEnds(c.db, c.opts, first, second)
    requires PairAlerts(c, first, second) == [a] && forall x :: x in c.statements ==> x.Full()
    ensures a.timestamp == c.ts && a.alertType == StateHashAlertType && a.id == a.body.ID() && a.body.StateHashAlert?
    ensures a.body.bucketHeight == c.bucketHeight
    ensures match LastCommonOf(c, first, second)
            case Found(h, sh) => a.body.lastCommonExist && a.body.lastCommonHeight == h && a.body.lastCommon == sh
            case NoCommonBlocks =>
              !a.body.lastCommonExist && a.body.lastCommonHeight == 0 && a.body.lastCommon == StateHash("", "")
            case NoFullStatement => false
    ensures Some(a.body.firstGroup.stateHash) == first.stateHash && Some(a.body.secondGroup.stateHash) == second.stateHash
    ensures NamesAllWith(a.body.firstGroup.nodes, c.statements, first.stateHash.value.sumHash)
    ensures NamesAllWith(a.body.secondGroup.nodes, c.statements, second.stateHash.value.sumHash)
  {
    var exist, h, sh := AlertOf(c, first, second, a);
    GroupInFull(c, first);
    GroupInFull(c, second);
  }

  /** Which alert it is. */
  lemma AlertOf(c: Context, first: NodeStatement, second: NodeStatement, a: Alert)
    returns (exist: bool, h: uint64, sh: StateHash)
    requires first.Full() && second.Full() && PairEnds(c.db, c.opts, first, second)
    requires PairAlerts(c, first, second) == [a]
    ensures a.timestamp == c.ts && a.Genuine()
    ensures a.body == StateHashAlert(c.bucketHeight, exist, h, sh, GroupOf(c, first), GroupOf(c, second))
    ensures match LastCommonOf(c, first, second)
            case Found(h', sh') => exist && h == h' && sh == sh'
            case NoCommonBlocks => !exist && h == 0 && sh == StateHash("", "")
            case NoFullStatement => false
  {
    var o := LastCommonOf(c, first, second);
    exist, h, sh := false, 0, StateHash("", "");
    if o.Found? {
      exist, h, sh := true, o.height, o.stateHash;
    }
  }

  predicate Carries(x: NodeStatement, hash: Digest) {
    x.stateHash.Some? && x.stateHash.value.sumHash == hash
  }

  /** The list names, in order, every node with a statement in s that carries the hash, and no other. */
  ghost predicate NamesAllWith(nodes: seq<string>, s: Statements, hash: Digest) {
    && Sorted(nodes)
    && forall node :: node in nodes <==> exists x :: x in s && x.node == node && Carries(x, hash)
  }

  lemma GroupInFull(c: Context, x: NodeStatement)
    requires x.Full() && forall y :: y in c.statements ==> y.Full()
    ensures Some(GroupOf(c, x).stateHash) == x.stateHash
    ensures NamesAllWith(GroupOf(c, x).nodes, c.statements, x.stateHash.value.sumHash)
  {
    SortSorts(Nodes(Group(c.statements, SumHash(), x.stateHash.value.sumHash)));
    forall node ensures node in GroupOf(c, x).nodes <==>
                          exists y :: y in c.statements && y.node == node && Carries(y, x.stateHash.value.sumHash)
    {
      NodeOfGroup(c, x, node);
      assert forall y :: y in c.statements ==> (SumHash()(y) == SumHash()(x) <==> Carries(y, x.stateHash.value.sumHash));
    }
  }

  /** For chains that agree on a prefix this is the depth below the greatest common height. */
  lemma ForkedMeansDeepFork(c: Context, first: NodeStatement, second: NodeStatement, g: int)
    requires c.bucketHeight < TWO_TO_63
    requires var a, b := HistoryIn(c.db, first.node), HistoryIn(c.db, second.node);
             && HaveHeights(a, b) && Start(a, b) <= Stop(a, b) < TWO_TO_63 && AgreeOnPrefix(a, b, SumHashes)
             && if exists h :: Start(a, b) <= h <= Stop(a, b) && AgreesAt(a, b, SumHashes, h)
                then IsGreatestCommon(a, b, SumHashes, g) else g == 0
    ensures PairEnds(c.db, c.opts, first, second)
    ensures Forked(c, first, second) <==>
            c.bucketHeight - g > Min(c.opts.maxForkDepth, c.opts.heightBucketSize - 1)
  {
    var a, b := HistoryIn(c.db, first.node), HistoryIn(c.db, second.node);
    FindsGreatestCommon(a, b, SumHashes, Some(LinearDepth(c.opts)));
    var o := LastCommonOf(c, first, second);
    if o.Found? {
      GreatestIsUnique(a, b, g, o.height);
    }
    DepthIsDifference(c.bucketHeight, LastCommonHeight(o));
  }

  lemma GreatestIsUnique(a: History, b: History, g: int, h: int)
    requires HaveHeights(a, b) && IsGreatestCommon(a, b, SumHashes, h)
    requires (exists k :: Start(a, b) <= k <= Stop(a, b) && AgreesAt(a, b, SumHashes, k))
             ==> IsGreatestCommon(a, b, SumHashes, g)
    ensures g == h
  {
    assert Start(a, b) <= h <= Stop(a, b) && AgreesAt(a, b, SumHashes, h);
  }

  /** So a bucket's alerts are one for each forked pair of samples and no other. */
  lemma OneAlertPerForkedPair(c: Context, samples: Statements) returns (pairs: seq<(nat, nat)>)
    requires Ready(c, samples)
    ensures |pairs| == |AllPairs(PairingOf(c), samples)| && Distinct(pairs)
    ensures forall t :: 0 <= t < |pairs| ==>
              pairs[t].0 < pairs[t].1 < |samples|
              && PairAlerts(c, samples[pairs[t].0], samples[pairs[t].1]) == [AllPairs(PairingOf(c), samples)[t]]
    ensures forall i, j :: 0 <= i < j < |samples| ==> ((i, j) in pairs <==> Forked(c, samples[i], samples[j]))
  {
    var f := PairingOf(c);
    pairs := OneAlertPerPair(f, samples);
    forall t | 0 <= t < |pairs|
      ensures pairs[t].0 < pairs[t].1 < |samples|
      ensures PairAlerts(c, samples[pairs[t].0], samples[pairs[t].1]) == [AllPairs(f, samples)[t]]
    {
      assert GivesAlert(f, samples, pairs[t], AllPairs(f, samples)[t]);
    }
    forall i, j | 0 <= i < j < |samples| ensures (i, j) in pairs <==> Forked(c, samples[i], samples[j]) {
      ReportedIffForked(c, samples[i], samples[j]);
      assert f(samples[i], samples[j]) == PairAlerts(c, samples[i], samples[j]);
      if (i, j) in pairs {
        var t :| 0 <= t < |pairs| && pairs[t] == (i, j);
      }
    }
  }

  /** Every report of the analysis of OK statements: one alert for each forked pair of state hashes
      among the nodes compared in the bucket. */
  lemma ReportNamesForkedPairs(db: DB, opts: Options, ts: int, s: Statements, key: uint64, alerts: seq<Alert>)
    returns (samples: Statements, pairs: seq<(nat, nat)>)
    requires opts.heightBucketSize > 0 && ReportsBucket(db, opts, ts, s, key, alerts)
    ensures var c := BucketContext(db, opts, ts, s, key);
            && IsSampling(c.statements, samples) && Ready(c, samples) && |pairs| == |alerts| && Distinct(pairs)
            && (forall t :: 0 <= t < |pairs| ==>
                  pairs[t].0 < pairs[t].1 < |samples|
                  && PairAlerts(c, samples[pairs[t].0], samples[pairs[t].1]) == [alerts[t]])
            && forall i, j :: 0 <= i < j < |samples| ==> ((i, j) in pairs <==> Forked(c, samples[i], samples[j]))
  {
    var c := BucketContext(db, opts, ts, s, key);
    samples :| IsSampling(c.statements, samples) && Ready(c, samples) && alerts == AllPairs(PairingOf(c), samples);
    pairs := OneAlertPerForkedPair(c, samples);
  }

  /** The groups of two samples are all the nodes with that hash, and share no node. */
  lemma GroupsAreWholeAndDisjoint(c: Context, samples: Statements, i: nat, j: nat, node: string)
    requires IsSampling(c.statements, samples) && Ready(c, samples) && DistinctNodes(c.statements)
    requires i < j < |samples|
    ensures node in GroupOf(c, samples[i]).nodes <==>
            exists x :: x in c.statements && x.node == node && SumHash()(x) == SumHash()(samples[i])
    ensures !(node in GroupOf(c, samples[i]).nodes && node in GroupOf(c, samples[j]).nodes)
  {
    NodeOfGroup(c, samples[i], node);
    NodeOfGroup(c, samples[j], node);
    OneSamplePerHash(c.statements, samples);
  }

  lemma NodeOfGroup(c: Context, x: NodeStatement, node: string)
    requires x.Full()
    ensures node in GroupOf(c, x).nodes <==>
            exists y :: y in c.statements && y.node == node && SumHash()(y) == SumHash()(x)
  {
    var g := Group(c.statements, SumHash(), SumHash()(x));
    SortedNodesContain(g, node);
    if y :| y in c.statements && y.node == node && SumHash()(y) == SumHash()(x) {
      assert y in g;
      var i :| 0 <= i < |g| && g[i] == y;
    }
  }
}
