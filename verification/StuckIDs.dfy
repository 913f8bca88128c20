/** When two stuck alerts have one ID: the digits of a height can be read as part of a node's name. */
module StuckIDs {
  import opened Prelude
  import opened Strings
  import opened Entities

  function StuckID(node: string, height: uint64): AlertID {
    L2StuckAlert(height, node).ID()
  }

  lemma ContinuedPrefix(n: string, a: string, m: string, b: string)
    requires |n| <= |m|
    ensures n + a == m + b <==> n <= m && a == m[|n|..] + b
  {
    if n + a == m + b {
      assert n == (n + a)[..|n|] == (m + b)[..|n|] == m[..|n|];
      assert a == (n + a)[|n|..] == (m + b)[|n|..];
    }
    if n <= m && a == m[|n|..] + b {
      assert m == n + m[|n|..];
    }
  }

  /** Two IDs are equal if and only if one name continues the other and the heights make up for it. */
  lemma StuckIDsCollide(n: string, h: uint64, m: string, k: uint64)
    requires |n| <= |m|
    ensures StuckID(n, h) == StuckID(m, k) <==> n <= m && FormatUint(h) == m[|n|..] + FormatUint(k)
  {
    var a, b := FormatUint(h), FormatUint(k);
    SameAfterPrefix(Name(L2StuckAlertType), n + a, m + b);
    ContinuedPrefix(n, a, m, b);
  }

  /** For one node the ID tells the height. */
  lemma StuckIDDeterminesHeight(node: string, h: uint64, k: uint64)
    requires StuckID(node, h) == StuckID(node, k)
    ensures h == k
  {
    StuckIDsCollide(node, h, node, k);
    assert node[|node|..] + FormatUint(k) == FormatUint(k);
    FormatUintInjective(h, k);
  }

  /** m is n followed by a decimal number that can begin a height. */
  predicate ContinuesByNumber(n: string, m: string) {
    && n < m
    && var d := m[|n|..];
       AllDigits(d) && d[0] != '0' && 10 * DecimalValue(d) <= MAX_UINT64
  }

  ghost predicate CanCollide(n: string, m: string) {
    exists h: uint64, k: uint64 :: StuckID(n, h) == StuckID(m, k)
  }

  /** Two different names have a common ID if and only if one is the other followed by such a number. */
  lemma NamesCollideExactly(n: string, m: string)
    requires n != m && |n| <= |m|
    ensures CanCollide(n, m) <==> ContinuesByNumber(n, m)
  {
    forall h: uint64, k: uint64 | StuckID(n, h) == StuckID(m, k) ensures ContinuesByNumber(n, m) {
      StuckIDsCollide(n, h, m, k);
      CollisionNeedsNumber(m[|n|..], h, k);
    }
    if ContinuesByNumber(n, m) {
      var d := m[|n|..];
      var h: uint64 := 10 * DecimalValue(d);
      NumberMakesCollision(d);
      StuckIDsCollide(n, h, m, 0);
      assert StuckID(n, h) == StuckID(m, 0);
    }
  }

  lemma CollisionNeedsNumber(d: string, h: uint64, k: uint64)
    requires d != "" && FormatUint(h) == d + FormatUint(k)
    ensures AllDigits(d) && d[0] != '0' && 10 * DecimalValue(d) <= h
  {
    var digits := FormatUint(k);
    DigitsBegin(FormatUint(h), d);
    DecimalValueOfFormat(h);
    DecimalValueOfConcat(d, digits);
    AtLeastTenfold(DecimalValue(d), |digits|);
    TwoDigitsMeanTen(h);
    NoLeadingZero(h);
  }

  lemma TwoDigitsMeanTen(n: nat)
    requires |FormatUint(n)| >= 2
    ensures n >= 10
  {
  }

  lemma DigitsBegin(s: string, d: string)
    requires AllDigits(s) && d <= s
    ensures AllDigits(d)
  {
    assert forall i :: 0 <= i < |d| ==> d[i] == s[i];
  }

  lemma AtLeastTenfold(v: nat, w: nat)
    requires w >= 1
    ensures 10 * v <= v * TenTo(w)
  {
    var p := TenTo(w - 1);
    assert v * (10 * p) == (10 * v) * p >= 10 * v;
  }

  lemma NumberMakesCollision(d: string)
    requires d != "" && AllDigits(d) && d[0] != '0'
    ensures FormatUint(10 * DecimalValue(d)) == d + FormatUint(0)
  {
    PlainDigits(d);
    FormatOfSnoc(0, '0');
    FormatOfSnoc(DecimalValue(d), '0');
  }

  lemma PlainDigits(d: string)
    requires d != "" && AllDigits(d) && d[0] != '0'
    ensures d == FormatUint(DecimalValue(d)) && DecimalValue(d) != 0
  {
    var zeros := DigitsAreZerosAndNumber(d);
    if zeros > 0 {
      ZerosStartWithZero(zeros);
    } else {
      assert Zeros(zeros) == "";
      FormatOfSnoc(0, '0');
    }
  }

  lemma {:induction false} ZerosStartWithZero(n: nat)
    requires n > 0
    ensures Zeros(n)[0] == '0'
  {
    if n > 1 {
      ZerosStartWithZero(n - 1);
    }
  }

  ghost predicate Unambiguous(names: set<string>) {
    forall n, h: uint64, m, k: uint64 ::
      n in names && m in names && StuckID(n, h) == StuckID(m, k) ==> n == m && h == k
  }

  /** The stuck alerts of a set of nodes have different IDs if and only if no name is another one
      followed by such a number. */
  lemma UnambiguousExactly(names: set<string>)
    ensures Unambiguous(names) <==> forall n, m :: n in names && m in names ==> !ContinuesByNumber(n, m)
  {
    forall n, m | n in names && m in names && ContinuesByNumber(n, m) ensures !Unambiguous(names) {
      NamesCollideExactly(n, m);
    }
    if forall n, m :: n in names && m in names ==> !ContinuesByNumber(n, m) {
      forall n, h: uint64, m, k: uint64 | n in names && m in names && StuckID(n, h) == StuckID(m, k)
        ensures n == m && h == k
      {
        if n == m {
          StuckIDDeterminesHeight(n, h, k);
        } else if |n| <= |m| {
          NamesCollideExactly(n, m);
        } else {
          NamesCollideExactly(m, n);
        }
      }
    }
  }
}
