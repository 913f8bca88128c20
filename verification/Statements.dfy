/** Lists of statements: splitting them by a key, their extreme heights, their nodes, sorting. */
module Statements {
  import opened Prelude
  import opened Strings
  import opened Entities

  type Statements = seq<NodeStatement>

  /** The statements with key k, in their order. */
  function Group<K(==)>(s: Statements, key: NodeStatement -> K, k: K): (g: Statements)
    ensures forall x :: x in g <==> x in s && key(x) == k
  {
    if s == [] then []
    else
      var front, last := Group(s[..|s| - 1], key, k), s[|s| - 1];
      assert s == s[..|s| - 1] + [last];
      if key(last) == k then front + [last] else front
  }

  /** Each key that occurs has its group, in the order of the input. */
  ghost predicate IsSplit<K(!new)>(s: Statements, key: NodeStatement -> K, m: map<K, Statements>) {
    forall k :: if k in m then m[k] == Group(s, key, k) != [] else Group(s, key, k) == []
  }

  lemma SplitGrows<K(!new)>(s: Statements, key: NodeStatement -> K, m: map<K, Statements>, x: NodeStatement)
    requires IsSplit(s, key, m)
    ensures IsSplit(s + [x], key, m[key(x) := (if key(x) in m then m[key(x)] else []) + [x]])
  {
    forall k ensures Group(s + [x], key, k) == Group(s, key, k) + if key(x) == k then [x] else [] {
      assert (s + [x])[..|s|] == s;
    }
  }

  /** SplitByNodeHeight, SplitByNodeHeightBuckets and the other splits by a key. */
  method SplitBy<K(==, !new)>(s: Statements, key: NodeStatement -> K) returns (split: map<K, Statements>)
    ensures IsSplit(s, key, split)
  {
    split := map[];
    for i := 0 to |s|
      invariant IsSplit(s[..i], key, split)
    {
      var k := key(s[i]);
      SplitGrows(s[..i], key, split, s[i]);
      assert s[..i + 1] == s[..i] + [s[i]];
      split := split[k := (if k in split then split[k] else []) + [s[i]]];
    }
    assert s[..|s|] == s;
  }

  /** A split is a partition: a statement is in the group of its key as often as in the input, and in
      no other group. */
  lemma {:induction false} GroupCounts<K>(s: Statements, key: NodeStatement -> K, k: K, x: NodeStatement)
    ensures multiset(Group(s, key, k))[x] == if key(x) == k then multiset(s)[x] else 0
  {
    if s != [] {
      GroupCounts(s[..|s| - 1], key, k, x);
      assert s == s[..|s| - 1] + [s[|s| - 1]];
    }
  }

  /** A group is a subsequence: its statements come in the order they have in the input. */
  lemma {:induction false} GroupKeepsOrder<K>(s: Statements, key: NodeStatement -> K, k: K)
    returns (positions: seq<nat>)
    ensures |positions| == |Group(s, key, k)|
    ensures forall i :: 0 <= i < |positions| ==> positions[i] < |s| && s[positions[i]] == Group(s, key, k)[i]
    ensures forall i, j :: 0 <= i < j < |positions| ==> positions[i] < positions[j]
  {
    if s == [] {
      positions := [];
    } else {
      positions := GroupKeepsOrder(s[..|s| - 1], key, k);
      if key(s[|s| - 1]) == k {
        positions := positions + [|s| - 1];
      }
    }
  }

  function Height(): NodeStatement -> uint64 {
    (s: NodeStatement) => s.height
  }

  /** MinMaxHeight of a split by height; (0, 0) for an empty one. */
  method MinMaxHeight(split: map<uint64, Statements>) returns (mih: uint64, mah: uint64)
    ensures split.Keys == {} ==> mih == 0 && mah == 0
    ensures split.Keys != {} ==> mih in split && mah in split
    ensures forall h :: h in split ==> mih <= h <= mah
  {
    if split.Keys == {} {
      return 0, 0;
    }
    mih, mah := MAX_UINT64, 0;
    var rest := split.Keys;
    while rest != {}
      invariant rest <= split.Keys
      invariant forall h :: h in split && h !in rest ==> mih <= h <= mah
      invariant rest == split.Keys ==> mih == MAX_UINT64 && mah == 0
      invariant rest != split.Keys ==> mih in split && mah in split
    {
      var height :| height in rest;
      assert rest == split.Keys ==> mah <= height <= mih;
      if mah < height {
        mah := height;
      }
      if mih > height {
        mih := height;
      }
      if rest == split.Keys {
        assert height == mah && height == mih;
      }
      rest := rest - {height};
    }
  }

  function Nodes(s: Statements): (r: seq<string>)
    ensures |r| == |s|
    ensures forall i :: 0 <= i < |s| ==> r[i] == s[i].node
  {
    seq(|s|, i requires 0 <= i < |s| => s[i].node)
  }

  ghost predicate DistinctNodes(s: Statements) {
    forall i, j :: 0 <= i < j < |s| ==> s[i].node != s[j].node
  }

  /** The nodes of a group as an alert names them. */
  function SortedNodes(s: Statements): seq<string> {
    Sort(Nodes(s))
  }

  lemma RemoveAt<T>(t: seq<T>, i: nat)
    requires i < |t|
    ensures multiset(t) == multiset(t[..i] + t[i + 1..]) + multiset{t[i]}
  {
    assert t == t[..i] + [t[i]] + t[i + 1..];
  }

  lemma RemoveNodeAt(t: Statements, i: nat)
    requires i < |t|
    ensures multiset(Nodes(t)) == multiset(Nodes(t[..i] + t[i + 1..])) + multiset{t[i].node}
  {
    var nodes := Nodes(t);
    RemoveAt(nodes, i);
    assert Nodes(t[..i] + t[i + 1..]) == nodes[..i] + nodes[i + 1..];
  }

  lemma SameRest<T>(a: multiset<T>, a': multiset<T>, b: multiset<T>, b': multiset<T>, x: T)
    requires a == b && a == a' + multiset{x} && b == b' + multiset{x}
    ensures a' == b'
  {
    assert a' == a - multiset{x} && b' == b - multiset{x};
  }

  lemma {:induction false} NodesOfPermutation(s: Statements, t: Statements)
    requires multiset(s) == multiset(t)
    ensures multiset(Nodes(s)) == multiset(Nodes(t))
  {
    if s == [] {
      assert |t| == |multiset(t)| == 0;
    } else {
      assert s[0] in multiset(t);
      var i :| 0 <= i < |t| && t[i] == s[0];
      RemoveAt(s, 0);
      RemoveAt(t, i);
      RemoveNodeAt(s, 0);
      RemoveNodeAt(t, i);
      var s', t' := s[..0] + s[1..], t[..i] + t[i + 1..];
      SameRest(multiset(s), multiset(s'), multiset(t), multiset(t'), s[0]);
      NodesOfPermutation(s', t');
    }
  }

  function InsertByNode(x: NodeStatement, s: Statements): (r: Statements)
    ensures multiset(r) == multiset(s) + multiset{x}
  {
    if s == [] then [x]
    else if Less(x.node, s[0].node) then [x] + s
    else
      assert s == [s[0]] + s[1..];
      [s[0]] + InsertByNode(x, s[1..])
  }

  lemma NodesOfCons(x: NodeStatement, s: Statements)
    ensures Nodes([x] + s) == [x.node] + Nodes(s)
  {
  }

  lemma {:induction false} NodesOfInsert(x: NodeStatement, s: Statements)
    ensures Nodes(InsertByNode(x, s)) == Insert(x.node, Nodes(s))
  {
    if s == [] || Less(x.node, s[0].node) {
      NodesOfCons(x, s);
    } else {
      NodesOfInsert(x, s[1..]);
      NodesOfCons(s[0], InsertByNode(x, s[1..]));
      assert Nodes(s)[1..] == Nodes(s[1..]);
    }
  }

  /** SortByNodeAsc; the order of statements of one node is not part of what it promises. */
  function SortByNodeAsc(s: Statements): (r: Statements)
    ensures multiset(r) == multiset(s)
    ensures Nodes(r) == Sort(Nodes(s))
  {
    if s == [] then []
    else
      var n := |s| - 1;
      assert s == s[..n] + [s[n]] && Nodes(s)[..n] == Nodes(s[..n]);
      NodesOfInsert(s[n], SortByNodeAsc(s[..n]));
      InsertByNode(s[n], SortByNodeAsc(s[..n]))
  }

  lemma SortedNodesContain(s: Statements, node: string)
    ensures node in SortedNodes(s) <==> exists i :: 0 <= i < |s| && s[i].node == node
  {
    assert node in SortedNodes(s) <==> node in multiset(Nodes(s));
  }
}
