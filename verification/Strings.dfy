/** The parts of Go's strings and strconv packages that the keys and alert IDs rest on. */
module Strings {
  import opened Prelude

  // ----- byte-wise order -----

  /** Go's `a < b` on strings. */
  predicate Less(a: string, b: string) {
    if b == "" then false
    else if a == "" then true
    else if a[0] != b[0] then a[0] < b[0]
    else Less(a[1..], b[1..])
  }

  predicate AtMost(a: string, b: string) {
    !Less(b, a)
  }

  lemma {:induction false} LessIsTotal(a: string, b: string)
    ensures a == b || Less(a, b) || Less(b, a)
    ensures !(Less(a, b) && Less(b, a))
    ensures !Less(a, a)
  {
    if a != "" {
      LessIsTotal(a[1..], a[1..]);
    }
    if a != "" && b != "" && a[0] == b[0] {
      LessIsTotal(a[1..], b[1..]);
      if a[1..] == b[1..] {
        assert a == [a[0]] + a[1..] && b == [b[0]] + b[1..];
      }
    }
  }

  lemma {:induction false} LessIsTransitive(a: string, b: string, c: string)
    requires Less(a, b) && Less(b, c)
    ensures Less(a, c)
  {
    if a != "" && a[0] == b[0] == c[0] {
      LessIsTransitive(a[1..], b[1..], c[1..]);
    }
  }

  lemma {:induction false} LessIgnoresCommonPrefix(p: string, a: string, b: string)
    ensures Less(p + a, p + b) == Less(a, b)
  {
    if p == "" {
      assert p + a == a && p + b == b;
    } else {
      assert (p + a)[1..] == p[1..] + a && (p + b)[1..] == p[1..] + b;
      LessIgnoresCommonPrefix(p[1..], a, b);
    }
  }

  lemma {:induction false} LessOnLastCharacter(a: string, b: string, x: char, y: char)
    requires |a| == |b|
    ensures Less(a + [x], b + [y]) == (Less(a, b) || (a == b && x < y))
  {
    if a == "" {
      assert a + [x] == [x] && b + [y] == [y];
    } else {
      assert (a + [x])[1..] == a[1..] + [x] && (b + [y])[1..] == b[1..] + [y];
      LessOnLastCharacter(a[1..], b[1..], x, y);
      assert a == [a[0]] + a[1..] && b == [b[0]] + b[1..];
    }
  }

  // ----- sorting -----

  ghost predicate Sorted(s: seq<string>) {
    forall i, j :: 0 <= i < j < |s| ==> AtMost(s[i], s[j])
  }

  /** Where x goes in a sorted list: before the first greater element. */
  function Insert(x: string, s: seq<string>): (r: seq<string>)
    ensures multiset(r) == multiset(s) + multiset{x}
  {
    if s == [] then [x]
    else if Less(x, s[0]) then [x] + s
    else
      assert s == [s[0]] + s[1..];
      [s[0]] + Insert(x, s[1..])
  }

  lemma LessThenAtMost(x: string, a: string, b: string)
    requires Less(x, a) && AtMost(a, b)
    ensures AtMost(x, b)
  {
    if Less(b, x) {
      LessIsTransitive(b, x, a);
    }
  }

  lemma {:induction false} InsertSorted(x: string, s: seq<string>)
    requires Sorted(s)
    ensures Sorted(Insert(x, s))
  {
    var r := Insert(x, s);
    if s == [] {
    } else if Less(x, s[0]) {
      LessIsTotal(s[0], s[0]);
      forall j | 0 <= j < |s| ensures AtMost(x, s[j]) {
        LessThenAtMost(x, s[0], s[j]);
      }
      PrependSorted(x, s);
    } else {
      InsertSorted(x, s[1..]);
      var t := Insert(x, s[1..]);
      forall y | y in t ensures AtMost(s[0], y) {
        assert y in multiset(t);
        assert y in s[1..] || y == x;
      }
      PrependSorted(s[0], t);
    }
  }

  lemma PrependSorted(x: string, s: seq<string>)
    requires Sorted(s) && forall y :: y in s ==> AtMost(x, y)
    ensures Sorted([x] + s)
  {
    var r := [x] + s;
    forall i, j | 0 <= i < j < |r| ensures AtMost(r[i], r[j]) {
      assert r[j] == s[j - 1];
      assert i > 0 ==> r[i] == s[i - 1];
    }
  }

  /** sort.Strings, as a function of its input. */
  function Sort(s: seq<string>): (r: seq<string>)
    ensures multiset(r) == multiset(s)
    ensures |r| == |s|
  {
    if s == [] then []
    else
      assert s == s[..|s| - 1] + [s[|s| - 1]];
      var r := Insert(s[|s| - 1], Sort(s[..|s| - 1]));
      assert |multiset(r)| == |multiset(s)|;
      r
  }

  lemma {:induction false} SortSorts(s: seq<string>)
    ensures Sorted(Sort(s))
  {
    if s != [] {
      SortSorts(s[..|s| - 1]);
      InsertSorted(s[|s| - 1], Sort(s[..|s| - 1]));
    }
  }

  lemma SortedHead(a: seq<string>, x: string)
    requires Sorted(a) && x in a
    ensures AtMost(a[0], x)
  {
    LessIsTotal(x, x);
  }

  /** A sorted list is determined by its elements. */
  lemma {:induction false} SortedIsUnique(a: seq<string>, b: seq<string>)
    requires Sorted(a) && Sorted(b) && multiset(a) == multiset(b)
    ensures a == b
  {
    assert |a| == |multiset(a)| == |multiset(b)| == |b|;
    if a != [] {
      assert a[0] == b[0] by {
        assert a[0] in multiset(b) && b[0] in multiset(a);
        SortedHead(a, b[0]);
        SortedHead(b, a[0]);
        LessIsTotal(a[0], b[0]);
      }
      RemoveHead(a);
      RemoveHead(b);
      SortedIsUnique(a[1..], b[1..]);
    }
  }

  lemma RemoveHead(a: seq<string>)
    requires a != []
    ensures a == [a[0]] + a[1..]
    ensures multiset(a[1..]) == multiset(a) - multiset{a[0]}
  {
    assert a == [a[0]] + a[1..];
  }

  /** Sorting forgets the order in which the elements came. */
  lemma SortIgnoresOrder(a: seq<string>, b: seq<string>)
    requires multiset(a) == multiset(b)
    ensures Sort(a) == Sort(b)
  {
    SortSorts(a);
    SortSorts(b);
    SortedIsUnique(Sort(a), Sort(b));
  }

  // ----- decimal numbers -----

  predicate IsDigit(c: char) {
    '0' <= c <= '9'
  }

  function DigitValue(c: char): (d: nat)
    requires IsDigit(c)
    ensures d <= 9
  {
    c as int - '0' as int
  }

  function DigitChar(d: nat): (c: char)
    requires d <= 9
    ensures IsDigit(c) && DigitValue(c) == d
  {
    (d + '0' as int) as char
  }

  predicate AllDigits(s: string) {
    forall i :: 0 <= i < |s| ==> IsDigit(s[i])
  }

  /** strconv.FormatUint(n, 10). */
  function FormatUint(n: nat): (s: string)
    ensures s != "" && AllDigits(s)
  {
    if n < 10 then [DigitChar(n)] else FormatUint(n / 10) + [DigitChar(n % 10)]
  }

  function DecimalValue(s: string): nat
    requires AllDigits(s)
  {
    if s == "" then 0 else 10 * DecimalValue(s[..|s| - 1]) + DigitValue(s[|s| - 1])
  }

  lemma {:induction false} DecimalValueOfFormat(n: nat)
    ensures DecimalValue(FormatUint(n)) == n
  {
    var s := FormatUint(n);
    if n < 10 {
      assert s[..|s| - 1] == "";
    } else {
      DecimalValueOfFormat(n / 10);
      assert s[..|s| - 1] == FormatUint(n / 10);
    }
  }

  lemma FormatUintInjective(m: nat, n: nat)
    requires FormatUint(m) == FormatUint(n)
    ensures m == n
  {
    DecimalValueOfFormat(m);
    DecimalValueOfFormat(n);
  }

  /** Among equally long digit strings the byte order is the numeric order. */
  lemma {:induction false} DigitsCompareAsNumbers(a: string, b: string)
    requires |a| == |b| && AllDigits(a) && AllDigits(b)
    ensures Less(a, b) <==> DecimalValue(a) < DecimalValue(b)
    ensures a == b <==> DecimalValue(a) == DecimalValue(b)
  {
    if a != "" {
      var a', x := a[..|a| - 1], a[|a| - 1];
      var b', y := b[..|b| - 1], b[|b| - 1];
      assert a == a' + [x] && b == b' + [y];
      LessOnLastCharacter(a', b', x, y);
      DigitsCompareAsNumbers(a', b');
    }
  }

  function TenTo(w: nat): (p: nat)
    ensures p >= 1
  {
    if w == 0 then 1 else 10 * TenTo(w - 1)
  }

  lemma DecimalValueOfSnoc(s: string, c: char)
    requires AllDigits(s) && IsDigit(c)
    ensures AllDigits(s + [c]) && DecimalValue(s + [c]) == 10 * DecimalValue(s) + DigitValue(c)
  {
    assert (s + [c])[..|s|] == s;
  }

  lemma ScaleByTen(x: nat, p: nat, rest: nat, d: nat)
    ensures 10 * (x * p + rest) + d == x * (10 * p) + (10 * rest + d)
  {
  }

  lemma {:induction false} DecimalValueOfConcat(a: string, b: string)
    requires AllDigits(a) && AllDigits(b)
    ensures AllDigits(a + b)
    ensures DecimalValue(a + b) == DecimalValue(a) * TenTo(|b|) + DecimalValue(b)
    ensures DecimalValue(b) < TenTo(|b|)
  {
    if b == "" {
      assert a + b == a;
    } else {
      var b', c := b[..|b| - 1], b[|b| - 1];
      assert b == b' + [c] && a + b == (a + b') + [c];
      DecimalValueOfConcat(a, b');
      DecimalValueOfSnoc(b', c);
      DecimalValueOfSnoc(a + b', c);
      ScaleByTen(DecimalValue(a), TenTo(|b'|), DecimalValue(b'), DigitValue(c));
    }
  }

  lemma {:induction false} LessThanLonger(a: string, b: string, rest: string)
    requires |a| == |b| && rest != ""
    ensures Less(a, b + rest) <==> Less(a, b) || a == b
  {
    if a != "" {
      assert (b + rest)[1..] == b[1..] + rest;
      LessThanLonger(a[1..], b[1..], rest);
      assert a == [a[0]] + a[1..] && b == [b[0]] + b[1..];
    }
  }

  lemma CompareScaled(x: nat, y: nat, p: nat, rest: nat)
    requires rest < p
    ensures x * p <= y * p + rest <==> x <= y
  {
    if x > y {
      assert x * p >= (y + 1) * p;
    } else {
      assert x * p <= y * p;
    }
  }

  /** A shorter digit string precedes a longer one if and only if its number, brought to that length
      with zeros, is not greater. */
  lemma ShorterDigitsCompare(a: string, b: string)
    requires |a| < |b| && AllDigits(a) && AllDigits(b)
    ensures Less(a, b) <==> DecimalValue(a) * TenTo(|b| - |a|) <= DecimalValue(b)
  {
    var c, rest := b[..|a|], b[|a|..];
    assert b == c + rest;
    LessThanLonger(a, c, rest);
    DigitsCompareAsNumbers(a, c);
    DigitsCompareAsNumbers(c, a);
    DecimalValueOfConcat(c, rest);
    CompareScaled(DecimalValue(a), DecimalValue(c), TenTo(|rest|), DecimalValue(rest));
  }

  function Zeros(n: nat): (s: string)
    ensures |s| == n && AllDigits(s)
    ensures n > 0 ==> s == Zeros(n - 1) + "0"
  {
    if n == 0 then "" else Zeros(n - 1) + "0"
  }

  lemma {:induction false} DecimalValueOfZeros(n: nat)
    ensures DecimalValue(Zeros(n)) == 0
  {
    if n > 0 {
      DecimalValueOfZeros(n - 1);
      assert Zeros(n)[..n - 1] == Zeros(n - 1);
    }
  }

  lemma FormatOfSnoc(v: nat, c: char)
    requires IsDigit(c)
    ensures FormatUint(10 * v + DigitValue(c)) == if v == 0 then [c] else FormatUint(v) + [c]
  {
    assert DigitChar(DigitValue(c)) == c;
    assert (10 * v + DigitValue(c)) / 10 == v && (10 * v + DigitValue(c)) % 10 == DigitValue(c);
  }

  /** Every digit string is its number's decimal form after some zeros. */
  lemma {:induction false} DigitsAreZerosAndNumber(s: string) returns (zeros: nat)
    requires s != "" && AllDigits(s)
    ensures s == Zeros(zeros) + FormatUint(DecimalValue(s))
  {
    var front, c := s[..|s| - 1], s[|s| - 1];
    var v := DecimalValue(front);
    assert s == front + [c];
    FormatOfSnoc(v, c);
    DecimalValueOfSnoc(front, c);
    zeros := 0;
    if front != "" {
      zeros := DigitsAreZerosAndNumber(front);
      if v == 0 {
        FormatOfSnoc(0, '0');
        zeros := zeros + 1;
      }
    }
  }

  lemma ValueAfterZeros(zeros: nat, n: nat)
    ensures DecimalValue(Zeros(zeros) + FormatUint(n)) == n
  {
    DecimalValueOfZeros(zeros);
    DecimalValueOfFormat(n);
    DecimalValueOfConcat(Zeros(zeros), FormatUint(n));
    assert 0 * TenTo(|FormatUint(n)|) == 0;
  }

  lemma {:induction false} NoLeadingZero(n: nat)
    requires n > 0
    ensures FormatUint(n)[0] != '0'
  {
    if n >= 10 {
      NoLeadingZero(n / 10);
    }
  }

  /** strconv.FormatInt(n, 10). */
  function FormatInt(n: int): (s: string)
    ensures s != ""
  {
    if n < 0 then "-" + FormatUint(-n) else FormatUint(n)
  }

  /** strconv.ParseInt(s, 10, 64): an optional sign, decimal digits only, and a range check. */
  function ParseInt(s: string): Option<int> {
    if s == "" then None
    else
      var signed := s[0] == '+' || s[0] == '-';
      var digits := if signed then s[1..] else s;
      if digits == "" || !AllDigits(digits) then None
      else
        var v: int := DecimalValue(digits);
        if s[0] == '-' then (if v <= TWO_TO_63 then Some(0 - v) else None)
        else if v < TWO_TO_63 then Some(v) else None
  }

  /** ParseInt reads back exactly the int64 values that FormatInt prints. */
  lemma ParseIntOfFormatInt(n: int)
    ensures ParseInt(FormatInt(n)) == if FitsInt64(n) then Some(n) else None
  {
    var s := FormatInt(n);
    if n < 0 {
      assert s[1..] == FormatUint(-n);
      DecimalValueOfFormat(-n);
    } else {
      assert IsDigit(s[0]);
      DecimalValueOfFormat(n);
    }
  }

  predicate FitsInt64(n: int) {
    -TWO_TO_63 <= n < TWO_TO_63
  }

  function Abs(n: int): nat {
    if n < 0 then -n else n
  }

  predicate SignFits(sign: string, n: int) {
    if n < 0 then sign == "-" else sign == "" || sign == "+" || (sign == "-" && n == 0)
  }

  function Spelling(sign: string, zeros: nat, n: int): string {
    sign + (Zeros(zeros) + FormatUint(Abs(n)))
  }

  ghost predicate Spells(s: string, n: int) {
    exists sign, zeros :: SignFits(sign, n) && s == Spelling(sign, zeros, n)
  }

  predicate IsSign(sign: string) {
    sign == "" || sign == "+" || sign == "-"
  }

  lemma ParseIntOfSigned(sign: string, digits: string)
    requires IsSign(sign) && digits != "" && AllDigits(digits)
    ensures var n: int := if sign == "-" then 0 - DecimalValue(digits) else DecimalValue(digits);
            ParseInt(sign + digits) == if FitsInt64(n) then Some(n) else None
  {
    var s := sign + digits;
    assert s[|sign|..] == digits;
    assert sign == "" ==> s[0] == digits[0] && IsDigit(digits[0]);
  }

  lemma ParsedIsSigned(s: string) returns (sign: string, digits: string)
    requires ParseInt(s).Some?
    ensures IsSign(sign) && digits != "" && AllDigits(digits) && s == sign + digits
  {
    sign := if s[0] == '+' || s[0] == '-' then [s[0]] else "";
    digits := s[|sign|..];
  }

  lemma SpellingParses(sign: string, zeros: nat, n: int)
    requires FitsInt64(n) && SignFits(sign, n)
    ensures ParseInt(Spelling(sign, zeros, n)) == Some(n)
  {
    var digits := Zeros(zeros) + FormatUint(Abs(n));
    assert Spelling(sign, zeros, n) == sign + digits;
    ValueAfterZeros(zeros, Abs(n));
    ParseIntOfSigned(sign, digits);
  }

  lemma ParsedIsSpelled(s: string, n: int)
    requires ParseInt(s) == Some(n)
    ensures FitsInt64(n) && Spells(s, n)
  {
    var sign, digits := ParsedIsSigned(s);
    ParseIntOfSigned(sign, digits);
    var zeros := DigitsAreZerosAndNumber(digits);
    assert Abs(n) == DecimalValue(digits) && SignFits(sign, n);
    assert s == Spelling(sign, zeros, n);
  }

  /** ParseInt accepts exactly the int64 values written with any fitting sign and leading zeros. */
  lemma ParseIntAccepts(s: string, n: int)
    ensures ParseInt(s) == Some(n) <==> FitsInt64(n) && Spells(s, n)
  {
    if ParseInt(s) == Some(n) {
      ParsedIsSpelled(s, n);
    } else if FitsInt64(n) {
      forall sign, zeros | SignFits(sign, n) ensures s != Spelling(sign, zeros, n) {
        SpellingParses(sign, zeros, n);
      }
    }
  }

  /** Of these spellings exactly the plain one is the printed form: no plus sign, no leading zeros
      and no "-0". */
  lemma PrintedIsPlain(sign: string, zeros: nat, n: int)
    requires SignFits(sign, n)
    ensures Spelling(sign, zeros, n) == FormatInt(n) <==> zeros == 0 && sign == if n < 0 then "-" else ""
  {
    var plain := if n < 0 then "-" else "";
    assert FormatInt(n) == plain + FormatUint(Abs(n));
    assert |Spelling(sign, zeros, n)| == |sign| + zeros + |FormatUint(Abs(n))|;
    if sign == "" && zeros == 0 {
      assert Spelling(sign, zeros, n) == FormatUint(Abs(n));
    }
    assert sign == "-" && zeros == 0 ==> Spelling(sign, zeros, n) == "-" + FormatUint(Abs(n));
  }

  // ----- quoting -----

  const HEX_DIGITS := "0123456789abcdef"

  /** Go escapes control characters; every character beyond ASCII is taken to be printable here. */
  function QuoteChar(c: char): string {
    var n := c as int;
    if c == '\"' || c == '\\' then ['\\', c]
    else if n == 7 then "\\a"
    else if n == 8 then "\\b"
    else if n == 9 then "\\t"
    else if n == 10 then "\\n"
    else if n == 11 then "\\v"
    else if n == 12 then "\\f"
    else if n == 13 then "\\r"
    else if n < 32 || n == 127 then "\\x" + [HEX_DIGITS[n / 16], HEX_DIGITS[n % 16]]
    else [c]
  }

  /** strconv.Quote, the %q of fmt. */
  function Quote(s: string): string {
    "\"" + Concat(seq(|s|, i requires 0 <= i < |s| => QuoteChar(s[i]))) + "\""
  }

  predicate Plain(c: char) {
    32 <= c as int < 127 && c != '\"' && c != '\\'
  }

  lemma {:induction false} ConcatSingletons(s: string)
    ensures Concat(seq(|s|, i requires 0 <= i < |s| => [s[i]])) == s
  {
    if s != "" {
      var n := |s| - 1;
      ConcatSingletons(s[..n]);
      var parts := seq(|s|, i requires 0 <= i < |s| => [s[i]]);
      assert parts[..n] == seq(n, i requires 0 <= i < n => [s[..n][i]]);
    }
  }

  /** Quoting puts a text without special characters between quotes. */
  lemma QuotePlain(s: string)
    requires forall i :: 0 <= i < |s| ==> Plain(s[i])
    ensures Quote(s) == "\"" + s + "\""
  {
    ConcatSingletons(s);
    assert seq(|s|, i requires 0 <= i < |s| => QuoteChar(s[i])) == seq(|s|, i requires 0 <= i < |s| => [s[i]]);
  }

  /** The special ones are escaped. */
  lemma QuoteSpecial()
    ensures Quote("a\"b") == "\"a\\\"b\"" && Quote("a\\b") == "\"a\\\\b\""
    ensures Quote("a\nb") == "\"a\\nb\"" && Quote("a\tb") == "\"a\\tb\"" && Quote("a\rb") == "\"a\\rb\""
    ensures QuoteChar(1 as char) == "\\x01" && QuoteChar(127 as char) == "\\x7f"
  {
    QuoteThree('a', '\"', 'b');
    QuoteThree('a', '\\', 'b');
    QuoteThree('a', '\n', 'b');
    QuoteThree('a', '\t', 'b');
    QuoteThree('a', '\r', 'b');
  }

  lemma QuoteThree(x: char, y: char, z: char)
    ensures Quote([x, y, z]) == "\"" + (QuoteChar(x) + QuoteChar(y) + QuoteChar(z)) + "\""
  {
    var s := [x, y, z];
    var parts := seq(|s|, i requires 0 <= i < |s| => QuoteChar(s[i]));
    assert parts == [QuoteChar(x), QuoteChar(y), QuoteChar(z)];
    var two, one := parts[..2], parts[..1];
    assert parts[2] == QuoteChar(z) && two[1] == QuoteChar(y) && one[0] == QuoteChar(x);
    assert two[..1] == one && one[..0] == [];
    assert Concat(one) == [] + QuoteChar(x) == QuoteChar(x);
    assert Concat(two) == QuoteChar(x) + QuoteChar(y);
    assert Concat(parts) == (QuoteChar(x) + QuoteChar(y)) + QuoteChar(z);
  }

  // ----- splitting -----

  function IndexOf(s: string, c: char): (i: nat)
    ensures i <= |s|
    ensures i < |s| ==> s[i] == c
    ensures forall j :: 0 <= j < i ==> s[j] != c
  {
    if s == "" || s[0] == c then 0 else 1 + IndexOf(s[1..], c)
  }

  /** strings.Split with a one-character separator. */
  function Split(s: string, c: char): (parts: seq<string>)
    ensures |parts| >= 1
    decreases |s|
  {
    var i := IndexOf(s, c);
    if i == |s| then [s] else [s[..i]] + Split(s[i + 1..], c)
  }

  function Count(s: string, c: char): nat {
    multiset(s)[c]
  }

  lemma {:induction false} SplitLength(s: string, c: char)
    ensures |Split(s, c)| == 1 + Count(s, c)
    decreases |s|
  {
    var i := IndexOf(s, c);
    if i < |s| {
      assert s == s[..i] + [c] + s[i + 1..];
      SplitLength(s[i + 1..], c);
    }
  }

  /** Two parts give back the text around the separator. */
  lemma SplitInTwo(s: string, c: char)
    requires |Split(s, c)| == 2
    ensures s == Split(s, c)[0] + [c] + Split(s, c)[1]
    ensures c !in Split(s, c)[0] && c !in Split(s, c)[1]
  {
    var i := IndexOf(s, c);
    var rest := s[i + 1..];
    assert IndexOf(rest, c) == |rest|;
    assert s == s[..i] + [c] + rest;
  }

  lemma SplitOnce(a: string, c: char, b: string)
    requires c !in a && c !in b
    ensures Split(a + [c] + b, c) == [a, b]
  {
    var s := a + [c] + b;
    var i := IndexOf(s, c);
    assert s[|a|] == c;
    assert forall j :: 0 <= j < |a| ==> s[j] == a[j];
    assert i == |a|;
    assert s[..i] == a && s[i + 1..] == b;
    assert IndexOf(b, c) == |b|;
  }

  predicate HasPrefix(s: string, p: string) {
    p <= s
  }

  function TrimPrefix(s: string, p: string): string {
    if p <= s then s[|p|..] else s
  }
}
