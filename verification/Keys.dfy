/** Keys of the event storage: printing, parsing, and the order in which scans meet them. */
module Keys {
  import opened Prelude
  import opened Strings

  const NODE_PART_PREFIX := "node:"
  const TIMESTAMP_PART_PREFIX := "ts:"
  const SEPARATOR := '|'

  datatype StatementKey = StatementKey(node: string, timestamp: int)

  /** newStatementKey writes the parts into a builder one after the other. */
  method NewStatementKey(node: string, timestamp: string) returns (buf: string)
    ensures buf == Print(node, timestamp)
  {
    buf := "";
    buf := buf + NODE_PART_PREFIX;
    buf := buf + node;
    buf := buf + [SEPARATOR];
    buf := buf + TIMESTAMP_PART_PREFIX;
    buf := buf + timestamp;
  }

  function Print(node: string, timestamp: string): string {
    NODE_PART_PREFIX + node + [SEPARATOR] + TIMESTAMP_PART_PREFIX + timestamp
  }

  function KeyString(k: StatementKey): string {
    Print(k.node, FormatInt(k.timestamp))
  }

  function Parse(key: string): Option<StatementKey> {
    var split := Split(key, SEPARATOR);
    if |split| != 2 then None
    else if !HasPrefix(split[0], NODE_PART_PREFIX) then None
    else if !HasPrefix(split[1], TIMESTAMP_PART_PREFIX) then None
    else
      var node := TrimPrefix(split[0], NODE_PART_PREFIX);
      match ParseInt(TrimPrefix(split[1], TIMESTAMP_PART_PREFIX))
      case None => None
      case Some(ts) => Some(StatementKey(node, ts))
  }

  /** The printed text, letter by letter. */
  lemma KeyText(k: StatementKey)
    ensures KeyString(k) == "node:" + k.node + "|ts:" + FormatInt(k.timestamp)
  {
    assert "|" + "ts:" == "|ts:";
  }

  lemma NoSeparatorInNumbers(n: int)
    ensures SEPARATOR !in FormatInt(n)
    ensures SEPARATOR !in TIMESTAMP_PART_PREFIX + FormatInt(n)
  {
    var s := FormatInt(n);
    if n < 0 {
      assert s == ['-'] + FormatUint(-n);
    }
  }

  lemma ParsesForm(node: string, number: string)
    requires SEPARATOR !in node && SEPARATOR !in number
    ensures Parse(Print(node, number))
         == match ParseInt(number) case None => None case Some(ts) => Some(StatementKey(node, ts))
  {
    var left, right := NODE_PART_PREFIX + node, TIMESTAMP_PART_PREFIX + number;
    assert Print(node, number) == left + [SEPARATOR] + right;
    SplitOnce(left, SEPARATOR, right);
    assert TrimPrefix(left, NODE_PART_PREFIX) == node && TrimPrefix(right, TIMESTAMP_PART_PREFIX) == number;
  }

  lemma SeparatorsSpoilTheForm(node: string, number: string)
    requires SEPARATOR in node
    ensures Parse(Print(node, number)) == None
  {
    var key := Print(node, number);
    SplitLength(key, SEPARATOR);
    var left, right := NODE_PART_PREFIX + node, TIMESTAMP_PART_PREFIX + number;
    assert key == left + [SEPARATOR] + right;
    assert multiset(key) == multiset(left) + multiset{SEPARATOR} + multiset(right);
    assert multiset(left) == multiset(NODE_PART_PREFIX) + multiset(node);
    assert multiset(node)[SEPARATOR] >= 1;
  }

  /** A printed key reads back as itself exactly when the node name has no separator and the
      timestamp is an int64. */
  lemma ParsesBackPrinted(k: StatementKey)
    ensures Parse(KeyString(k)) == Some(k) <==> SEPARATOR !in k.node && -TWO_TO_63 <= k.timestamp < TWO_TO_63
    ensures SEPARATOR in k.node ==> Parse(KeyString(k)) == None
  {
    if SEPARATOR in k.node {
      SeparatorsSpoilTheForm(k.node, FormatInt(k.timestamp));
    } else {
      NoSeparatorInNumbers(k.timestamp);
      ParsesForm(k.node, FormatInt(k.timestamp));
      ParseIntOfFormatInt(k.timestamp);
    }
  }

  lemma ParsedIsPrinted(key: string, k: StatementKey) returns (number: string)
    requires Parse(key) == Some(k)
    ensures SEPARATOR !in k.node && key == Print(k.node, number)
    ensures ParseInt(number) == Some(k.timestamp)
  {
    var split := Split(key, SEPARATOR);
    SplitInTwo(key, SEPARATOR);
    number := TrimPrefix(split[1], TIMESTAMP_PART_PREFIX);
    Untrimmed(split[0], NODE_PART_PREFIX);
    Untrimmed(split[1], TIMESTAMP_PART_PREFIX);
    PrintedInParts(k.node, number);
  }

  lemma Untrimmed(s: string, prefix: string)
    requires HasPrefix(s, prefix)
    ensures s == prefix + TrimPrefix(s, prefix)
    ensures forall c :: c in TrimPrefix(s, prefix) ==> c in s
  {
  }

  lemma PrintedInParts(node: string, number: string)
    ensures Print(node, number) == (NODE_PART_PREFIX + node) + [SEPARATOR] + (TIMESTAMP_PART_PREFIX + number)
  {
  }

  /** Exactly these texts are accepted: the printed form of the node name with the timestamp in any
      spelling; see Strings.PrintedIsPlain for which of them is the printed one. */
  lemma ParseAccepts(key: string, k: StatementKey)
    ensures Parse(key) == Some(k) <==>
            && SEPARATOR !in k.node && FitsInt64(k.timestamp)
            && exists number :: Spells(number, k.timestamp) && key == Print(k.node, number)
  {
    if Parse(key) == Some(k) {
      var number := ParsedIsPrinted(key, k);
      ParseIntAccepts(number, k.timestamp);
    }
    forall number | SEPARATOR !in k.node && FitsInt64(k.timestamp) && Spells(number, k.timestamp)
      ensures Parse(Print(k.node, number)) == Some(k)
    {
      ParseIntAccepts(number, k.timestamp);
      NumbersHaveNoSeparator(number);
      ParsesForm(k.node, number);
    }
  }

  lemma NumbersHaveNoSeparator(number: string)
    requires ParseInt(number).Some?
    ensures SEPARATOR !in number
  {
    var signed := number[0] == '+' || number[0] == '-';
    var digits := if signed then number[1..] else number;
    assert number == (if signed then [number[0]] else "") + digits;
  }

  /** For one node and non-negative timestamps of one width, key order is time order. */
  lemma KeyOrderIsTimeOrder(node: string, s: nat, t: nat)
    requires |FormatInt(s)| == |FormatInt(t)|
    ensures Less(KeyString(StatementKey(node, s)), KeyString(StatementKey(node, t))) <==> s < t
  {
    var p := NODE_PART_PREFIX + node + [SEPARATOR] + TIMESTAMP_PART_PREFIX;
    LessIgnoresCommonPrefix(p, FormatInt(s), FormatInt(t));
    DigitsCompareAsNumbers(FormatUint(s), FormatUint(t));
    DecimalValueOfFormat(s);
    DecimalValueOfFormat(t);
  }

  /** Across widths: the earlier, shorter timestamp comes first if and only if, brought to the width
      of the other with zeros, it is not greater. */
  lemma KeyOrderAcrossWidths(node: string, s: nat, t: nat)
    requires |FormatInt(s)| < |FormatInt(t)|
    ensures s < t
    ensures Less(KeyString(StatementKey(node, s)), KeyString(StatementKey(node, t)))
            <==> s * TenTo(|FormatInt(t)| - |FormatInt(s)|) <= t
  {
    var p := NODE_PART_PREFIX + node + [SEPARATOR] + TIMESTAMP_PART_PREFIX;
    LessIgnoresCommonPrefix(p, FormatInt(s), FormatInt(t));
    ShorterDigitsCompare(FormatUint(s), FormatUint(t));
    DecimalValueOfFormat(s);
    DecimalValueOfFormat(t);
    LongerIsGreater(s, t);
  }

  lemma {:induction false} LongerIsGreater(s: nat, t: nat)
    requires |FormatUint(s)| < |FormatUint(t)|
    ensures s < t
  {
    if s >= 10 && t >= 10 {
      LongerIsGreater(s / 10, t / 10);
    }
  }

  lemma {:induction false} WidthOfNumber(n: nat, w: nat, lo: nat, hi: nat)
    requires lo == TenTo(w) && hi == 10 * lo && lo <= n < hi
    ensures |FormatUint(n)| == w + 1
  {
    if w > 0 {
      WidthOfNumber(n / 10, w - 1, lo / 10, lo);
    }
  }

  /** Unix times in seconds from September 2001 to November 2286 all have ten digits. */
  lemma UnixTimesHaveTenDigits(s: nat, t: nat)
    requires 1_000_000_000 <= s < 10_000_000_000 && 1_000_000_000 <= t < 10_000_000_000
    ensures |FormatInt(s)| == |FormatInt(t)| == 10
  {
    assert TenTo(3) == 1000;
    assert TenTo(6) == 1_000_000;
    assert TenTo(9) == 1_000_000_000;
    WidthOfNumber(s, 9, 1_000_000_000, 10_000_000_000);
    WidthOfNumber(t, 9, 1_000_000_000, 10_000_000_000);
  }
}
