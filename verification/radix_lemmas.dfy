/** Properties of the radix tree model: what longestPrefix computes, what a
    split keeps, what Insert and Delete change and leave alone, what Match
    and MatchLongest find, and the structural invariants Insert keeps. */
module RadixLemmas {
  import opened Radix

  // ----- longestPrefix -----------------------------------------------------

  /** The scan from `i` runs at least up to any length both keys agree on. */
  lemma {:induction false} LongestPrefixFromMaximal(a: Key, b: Key, i: nat, m: nat)
    requires i <= m <= |a| && m <= |b|
    requires a[..i] == b[..i] && a[..m] == b[..m]
    ensures m <= LongestPrefixFrom(a, b, i)
    decreases m - i
  {
    if i < m {
      assert a[i] == a[..m][i] == b[..m][i] == b[i];
      assert a[..i + 1] == a[..m][..i + 1] == b[..m][..i + 1] == b[..i + 1];
      LongestPrefixFromMaximal(a, b, i + 1, m);
    }
  }

  /** The scan from `i` stops no later than a length where the keys differ
      or one of them ends. */
  lemma {:induction false} LongestPrefixFromBounded(a: Key, b: Key, i: nat, n: nat)
    requires i <= n <= |a| && n <= |b|
    requires a[..i] == b[..i]
    requires n == |a| || n == |b| || a[n] != b[n]
    ensures LongestPrefixFrom(a, b, i) <= n
    decreases n - i
  {
    if i < n && a[i] == b[i] {
      assert a[..i + 1] == a[..i] + [a[i]] && b[..i + 1] == b[..i] + [b[i]];
      LongestPrefixFromBounded(a, b, i + 1, n);
    }
  }

  /** No common prefix is longer than the one longestPrefix reports. */
  lemma LongestPrefixMaximal(a: Key, b: Key, m: nat)
    requires m <= |a| && m <= |b| && a[..m] == b[..m]
    ensures m <= LongestPrefix(a, b)
  {
    LongestPrefixFromMaximal(a, b, 0, m);
  }

  /** The characterisation of longestPrefix singles out one number. */
  lemma LongestPrefixUnique(a: Key, b: Key, n: nat)
    requires n <= |a| && n <= |b| && a[..n] == b[..n]
    requires n < |a| && n < |b| ==> a[n] != b[n]
    ensures LongestPrefix(a, b) == n
  {
    LongestPrefixFromMaximal(a, b, 0, n);
    LongestPrefixFromBounded(a, b, 0, n);
  }

  /** Two keys that agree on a common part and on what follows it are equal. */
  lemma SameKey(a: Key, b: Key, c: nat)
    ensures c <= |a| && c <= |b| && a[..c] == b[..c] && a[c..] == b[c..] ==> a == b
    ensures c == |a| && c == |b| && a[..c] == b[..c] ==> a == b
  {
    if c <= |a| && c <= |b| {
      assert a == a[..c] + a[c..] && b == b[..c] + b[c..];
    }
  }

  /** A label that the key starts with is consumed whole. */
  lemma LongestPrefixWhole(p: Key, key: Key)
    requires |p| <= |key| && key[..|p|] == p
    ensures LongestPrefix(p, key) == |p|
  {
    assert p[..|p|] == p;
    LongestPrefixUnique(p, key, |p|);
  }

  /** Cutting the label at `c` cuts the common prefix at `c`. */
  lemma LongestPrefixCut(p: Key, key: Key, c: nat)
    requires c <= |p|
    ensures LongestPrefix(p[..c], key) == if c <= LongestPrefix(p, key) then c else LongestPrefix(p, key)
  {
    var d := LongestPrefix(p, key);
    if c <= d {
      assert p[..c][..c] == p[..c] == p[..d][..c] == key[..d][..c] == key[..c];
      LongestPrefixUnique(p[..c], key, c);
    } else {
      assert p[..c][..d] == p[..d];
      LongestPrefixUnique(p[..c], key, d);
    }
  }

  /** Cutting the key at `i` cuts the common prefix at `i`. */
  lemma LongestPrefixTake(p: Key, key: Key, i: nat)
    requires i <= |key|
    ensures LongestPrefix(p, key[..i]) == if i <= LongestPrefix(p, key) then i else LongestPrefix(p, key)
  {
    var d := LongestPrefix(p, key);
    if i <= d {
      assert p[..i] == p[..d][..i] == key[..d][..i] == key[..i][..i];
      LongestPrefixUnique(p, key[..i], i);
    } else {
      assert key[..i][..d] == key[..d];
      LongestPrefixUnique(p, key[..i], d);
    }
  }

  /** Dropping a common part from both sides shortens the common prefix by it. */
  lemma LongestPrefixDrop(p: Key, key: Key, c: nat)
    requires c <= LongestPrefix(p, key)
    ensures LongestPrefix(p[c..], key[c..]) == LongestPrefix(p, key) - c
  {
    var d := LongestPrefix(p, key);
    assert p[c..][..d - c] == p[..d][c..] == key[..d][c..] == key[c..][..d - c];
    LongestPrefixUnique(p[c..], key[c..], d - c);
  }

  // ----- the child scan ------------------------------------------------------

  /** A key enters a child exactly when both are non-empty and share the first byte. */
  lemma EntersHead<V>(child: Node<V>, key: Key)
    ensures Enters(child, key) <==> |child.prefix| > 0 && |key| > 0 && child.prefix[0] == key[0]
  {
    if |child.prefix| > 0 && |key| > 0 && child.prefix[0] == key[0] {
      LongestPrefixMaximal(child.prefix, key, 1);
    }
    if Enters(child, key) {
      var n := LongestPrefix(child.prefix, key);
      assert child.prefix[0] == child.prefix[..n][0] == key[..n][0] == key[0];
    }
  }

  /** The scan result is pinned down by its characterisation. */
  lemma FirstMatchUnique<V>(children: seq<Node<V>>, key: Key, j: nat)
    requires j <= |children|
    requires j < |children| ==> Enters(children[j], key)
    requires forall k :: 0 <= k < j ==> !Enters(children[k], key)
    ensures FirstMatch(children, key) == j
  {
  }

  /** Keys with the same first byte pick the same child. */
  lemma FirstMatchSameHead<V>(children: seq<Node<V>>, a: Key, b: Key)
    requires |a| > 0 && |b| > 0 && a[0] == b[0]
    ensures FirstMatch(children, a) == FirstMatch(children, b)
  {
    forall k | 0 <= k < |children|
      ensures Enters(children[k], a) == Enters(children[k], b)
    {
      EntersHead(children[k], a);
      EntersHead(children[k], b);
    }
    FirstMatchUnique(children, b, FirstMatch(children, a));
  }

  /** Replacing a child by one whose label starts with the same byte does not
      change which child any key picks. */
  lemma FirstMatchReplace<V>(children: seq<Node<V>>, j: nat, x: Node<V>, key: Key)
    requires j < |children| && |children[j].prefix| > 0
    requires |x.prefix| > 0 && x.prefix[0] == children[j].prefix[0]
    ensures FirstMatch(children[j := x], key) == FirstMatch(children, key)
  {
    var cs := children[j := x];
    EntersHead(x, key);
    EntersHead(children[j], key);
    assert Enters(cs[j], key) == Enters(children[j], key);
    FirstMatchUnique(cs, key, FirstMatch(children, key));
  }

  /** Appending a child changes the scan only for keys no earlier child takes. */
  lemma FirstMatchAppend<V>(children: seq<Node<V>>, x: Node<V>, key: Key)
    ensures FirstMatch(children + [x], key) ==
      if FirstMatch(children, key) < |children| || Enters(x, key) then FirstMatch(children, key)
      else |children| + 1
  {
    var cs := children + [x];
    var j := FirstMatch(children, key);
    if j < |children| || Enters(x, key) {
      FirstMatchUnique(cs, key, j);
    } else {
      FirstMatchUnique(cs, key, |children| + 1);
    }
  }

  // ----- lookups that only look below a node --------------------------------

  /** An exact lookup of a non-empty key does not read the node's own value. */
  lemma MatchBelow<V>(a: Node<V>, b: Node<V>, key: Key, zero: V)
    requires |key| > 0 && a.children == b.children
    ensures Match(a, key, zero) == Match(b, key, zero)
  {
  }

  // ----- split ----------------------------------------------------------------

  /** Stepping into a split child finds what stepping into the original child
      found, for every key. */
  lemma SplitMatchEdge<V>(child: Node<V>, c: nat, key: Key, zero: V)
    requires c < |child.prefix|
    ensures MatchEdge(Split(child, c, zero).value, key, zero) == MatchEdge(child, key, zero)
  {
    var s := Split(child, c, zero).value;
    var t := s.children[0];
    var p := child.prefix;
    var d := LongestPrefix(p, key);
    LongestPrefixCut(p, key, c);
    if d >= c && |key| > c {
      var rest := key[c..];
      assert t.prefix == p[c..];
      LongestPrefixDrop(p, key, c);
      if d == c {
        assert !Enters(t, rest);
        FirstMatchUnique(s.children, rest, 1);
      } else {
        assert Enters(t, rest);
        FirstMatchUnique(s.children, rest, 0);
        assert MatchEdge(s, key, zero) == MatchEdge(t, rest, zero);
        if d == |p| && d < |key| {
          assert rest[d - c..] == key[d..];
          MatchBelow(t, child, key[d..], zero);
        }
      }
    }
  }

  /** The same for the longest-prefix lookup. */
  lemma SplitMatchLongestEdge<V>(child: Node<V>, c: nat, key: Key, zero: V)
    requires c < |child.prefix|
    ensures MatchLongestEdge(Split(child, c, zero).value, key, zero) == MatchLongestEdge(child, key, zero)
  {
    var s := Split(child, c, zero).value;
    var t := s.children[0];
    var p := child.prefix;
    var d := LongestPrefix(p, key);
    LongestPrefixCut(p, key, c);
    if d >= c && |key| > c {
      var rest := key[c..];
      assert t.prefix == p[c..];
      LongestPrefixDrop(p, key, c);
      if d == c {
        assert !Enters(t, rest);
        FirstMatchUnique(s.children, rest, 1);
      } else {
        assert Enters(t, rest);
        FirstMatchUnique(s.children, rest, 0);
        assert MatchLongestEdge(s, key, zero) == MatchLongestEdge(t, rest, zero);
        if d == |p| && d < |key| {
          assert rest[d - c..] == key[d..];
          assert MatchLongest(t, key[d..], zero) == MatchLongest(child, key[d..], zero);
        }
      }
    }
  }

  /** Concatenation regroups: the split lemmas move a label between a
      node and its parent. */
  lemma Concat3(a: Key, b: Key, c: Key)
    ensures a + (b + c) == (a + b) + c
  {
  }

  /** The node a split moves the old value and children to stores what the
      original node stored. */
  lemma SplitRestEntries<V>(node: Node<V>, index: nat, zero: V)
    requires index < |node.prefix|
    ensures Entries(Split(node, index, zero).value.children[0]) == Entries(node)
  {
  }

  lemma SplitStoredOld<V>(node: Node<V>, index: nat, zero: V, x: (Key, V))
    requires index < |node.prefix| && x in Stored(node)
    ensures x in Stored(Split(node, index, zero).value)
  {
    var s := Split(node, index, zero).value;
    var t := s.children[0];
    SplitRestEntries(node, index, zero);
    var f :| f in Entries(node) && x == (node.prefix + f.0, f.1);
    assert f in Entries(t);
    var e := (t.prefix + f.0, f.1);
    assert 0 <= 0 < |s.children| && f in Entries(s.children[0]) && e == (s.children[0].prefix + f.0, f.1);
    assert e in Entries(s);
    Concat3(s.prefix, t.prefix, f.0);
    assert x == (s.prefix + e.0, e.1);
  }

  lemma SplitStoredNew<V>(node: Node<V>, index: nat, zero: V, x: (Key, V))
    requires index < |node.prefix| && x in Stored(Split(node, index, zero).value)
    ensures x in Stored(node) || x == (node.prefix[..index], zero)
  {
    var s := Split(node, index, zero).value;
    var t := s.children[0];
    SplitRestEntries(node, index, zero);
    var e :| e in Entries(s) && x == (s.prefix + e.0, e.1);
    if e == ([], s.value) {
      assert s.prefix + [] == node.prefix[..index];
    } else {
      var i, f :| 0 <= i < |s.children| && f in Entries(s.children[i])
        && e == (s.children[i].prefix + f.0, f.1);
      assert i == 0 && f in Entries(node);
      Concat3(s.prefix, t.prefix, f.0);
      assert (node.prefix + f.0, f.1) in Stored(node);
    }
  }

  /** A split keeps every stored (path, value) pair, paths read from the
      parent, and adds only the branch point, which holds `zero`. */
  lemma SplitStored<V>(node: Node<V>, index: nat, zero: V)
    requires index < |node.prefix|
    ensures Stored(Split(node, index, zero).value) == Stored(node) + {(node.prefix[..index], zero)}
  {
    var s := Split(node, index, zero).value;
    forall x | x in Stored(s)
      ensures x in Stored(node) + {(node.prefix[..index], zero)}
    {
      SplitStoredNew(node, index, zero, x);
    }
    forall x | x in Stored(node)
      ensures x in Stored(s)
    {
      SplitStoredOld(node, index, zero, x);
    }
    assert ([], zero) in Entries(s);
    assert (s.prefix + [], zero) in Stored(s);
    assert s.prefix + [] == node.prefix[..index];
  }

  // ----- Insert ---------------------------------------------------------------

  /** After Insert(k, v), Match(k) reads v: the last value inserted wins. */
  lemma {:induction false} InsertMatchSame<V>(node: Node<V>, key: Key, v: V, zero: V)
    ensures Match(Insert(node, key, v, zero).node, key, zero) == v
    decreases |key|, 1
  {
    if |key| > 0 {
      var j := FirstMatch(node.children, key);
      if j == |node.children| {
        var leaf := Node(key, v, [], node.level + 1);
        assert key[..|key|] == key;
        LongestPrefixWhole(key, key);
        FirstMatchAppend(node.children, leaf, key);
      } else {
        var r := InsertEdge(node.children[j], key, v, zero);
        assert r.node.prefix[0] == node.children[j].prefix[0];
        FirstMatchReplace(node.children, j, r.node, key);
        InsertEdgeMatchSame(node.children[j], key, v, zero);
      }
    }
  }

  lemma {:induction false} InsertEdgeMatchSame<V>(child: Node<V>, key: Key, v: V, zero: V)
    requires Enters(child, key)
    ensures MatchEdge(InsertEdge(child, key, v, zero).node, key, zero) == v
    decreases |key|, 0
  {
    var c := LongestPrefix(child.prefix, key);
    if c != |child.prefix| || c != |key| {
      var below := if c < |child.prefix| then Split(child, c, zero).value else child;
      assert below.prefix == child.prefix[..c] == key[..c];
      LongestPrefixWhole(below.prefix, key);
      InsertMatchSame(below, key[c..], v, zero);
    }
  }

  /** Insert(k, v) leaves Match(k') unchanged for every other key k'. */
  lemma {:induction false} InsertMatchOther<V>(node: Node<V>, key: Key, v: V, other: Key, zero: V)
    requires other != key
    ensures Match(Insert(node, key, v, zero).node, other, zero) == Match(node, other, zero)
    decreases |key|, 1
  {
    if |key| > 0 && |other| > 0 {
      var j := FirstMatch(node.children, key);
      if j == |node.children| {
        var leaf := Node(key, v, [], node.level + 1);
        FirstMatchAppend(node.children, leaf, other);
        if FirstMatch(node.children, other) == |node.children| && Enters(leaf, other) {
          var d := LongestPrefix(key, other);
          SameKey(key, other, d);
          assert (node.children + [leaf])[|node.children|] == leaf;
          assert MatchEdge(leaf, other, zero) == zero;
        }
      } else {
        var r := InsertEdge(node.children[j], key, v, zero);
        assert r.node.prefix[0] == node.children[j].prefix[0];
        FirstMatchReplace(node.children, j, r.node, other);
        if FirstMatch(node.children, other) == j {
          InsertEdgeMatchOther(node.children[j], key, v, other, zero);
        }
      }
    }
  }

  lemma {:induction false} InsertEdgeMatchOther<V>(child: Node<V>, key: Key, v: V, other: Key, zero: V)
    requires Enters(child, key) && other != key
    ensures MatchEdge(InsertEdge(child, key, v, zero).node, other, zero) == MatchEdge(child, other, zero)
    decreases |key|, 0
  {
    var p := child.prefix;
    var c := LongestPrefix(p, key);
    var r := InsertEdge(child, key, v, zero).node;
    if c == |p| && c == |key| {
      var c' := LongestPrefix(p, other);
      SameKey(other, p, c');
      SameKey(key, p, c);
      assert p[..|p|] == p;
    } else {
      var below := if c < |p| then Split(child, c, zero).value else child;
      if c < |p| {
        SplitMatchEdge(child, c, other, zero);
      }
      assert below.prefix == p[..c] == key[..c];
      LongestPrefixCut(p, other, c);
      var c' := LongestPrefix(below.prefix, other);
      if c' == c {
        SameKey(key, other, c);
        if c < |other| {
          InsertMatchOther(below, key[c..], v, other[c..], zero);
        }
      }
    }
  }

  /** Insert keeps the structural invariants: non-empty labels below the node
      and pairwise-distinct first bytes among siblings. */
  lemma {:induction false} InsertWellFormed<V>(node: Node<V>, key: Key, v: V, zero: V)
    requires WellFormed(node)
    ensures WellFormed(Insert(node, key, v, zero).node)
    decreases |key|, 1
  {
    if |key| > 0 {
      var cs := node.children;
      var j := FirstMatch(cs, key);
      if j == |cs| {
        AppendLeafWellFormed(node, Node(key, v, [], node.level + 1));
      } else {
        var r := InsertEdge(cs[j], key, v, zero);
        InsertEdgeWellFormed(cs[j], key, v, zero);
        ReplaceChildWellFormed(node, j, r.node);
      }
    }
  }

  /** A child can be replaced by a well-formed node whose label starts with
      the same byte. */
  lemma ReplaceChildWellFormed<V>(node: Node<V>, j: nat, x: Node<V>)
    requires WellFormed(node) && j < |node.children| && WellFormed(x)
    requires |x.prefix| > 0 && x.prefix[0] == node.children[j].prefix[0]
    ensures WellFormed(node.(children := node.children[j := x]))
  {
    var cs := node.children;
    var cs' := cs[j := x];
    assert forall i :: 0 <= i < |cs| && i != j ==> cs'[i] == cs[i];
  }

  /** A leaf whose label no child's label starts like can be appended. */
  lemma AppendLeafWellFormed<V>(node: Node<V>, leaf: Node<V>)
    requires WellFormed(node) && leaf.children == [] && |leaf.prefix| > 0
    requires FirstMatch(node.children, leaf.prefix) == |node.children|
    ensures WellFormed(node.(children := node.children + [leaf]))
  {
    var cs := node.children;
    forall i | 0 <= i < |cs|
      ensures cs[i].prefix[0] != leaf.prefix[0]
    {
      EntersHead(cs[i], leaf.prefix);
    }
    AppendSeparated(cs, leaf);
    AppendChildrenWellFormed(cs, leaf);
  }

  /** Appending a label whose first byte no sibling has keeps siblings
      apart by their first bytes. */
  lemma AppendSeparated<V>(cs: seq<Node<V>>, leaf: Node<V>)
    requires forall i :: 0 <= i < |cs| ==> |cs[i].prefix| > 0
    requires forall i, j :: 0 <= i < j < |cs| && |cs[i].prefix| > 0 && |cs[j].prefix| > 0
                 ==> cs[i].prefix[0] != cs[j].prefix[0]
    requires |leaf.prefix| > 0 && forall i :: 0 <= i < |cs| ==> cs[i].prefix[0] != leaf.prefix[0]
    ensures forall i :: 0 <= i < |cs + [leaf]| ==> |(cs + [leaf])[i].prefix| > 0
    ensures forall i, j :: 0 <= i < j < |cs + [leaf]| && |(cs + [leaf])[i].prefix| > 0 && |(cs + [leaf])[j].prefix| > 0
                 ==> (cs + [leaf])[i].prefix[0] != (cs + [leaf])[j].prefix[0]
  {
    var cs' := cs + [leaf];
    assert forall i :: 0 <= i < |cs| ==> cs'[i] == cs[i];
  }

  /** Appending a well-formed leaf keeps every child well-formed. */
  lemma AppendChildrenWellFormed<V>(cs: seq<Node<V>>, leaf: Node<V>)
    requires forall i :: 0 <= i < |cs| ==> WellFormed(cs[i])
    requires leaf.children == []
    ensures forall i :: 0 <= i < |cs + [leaf]| ==> WellFormed((cs + [leaf])[i])
  {
    var cs' := cs + [leaf];
    assert forall i :: 0 <= i < |cs| ==> cs'[i] == cs[i];
    assert WellFormed(leaf);
  }

  lemma {:induction false} InsertEdgeWellFormed<V>(child: Node<V>, key: Key, v: V, zero: V)
    requires WellFormed(child) && Enters(child, key)
    ensures WellFormed(InsertEdge(child, key, v, zero).node)
    decreases |key|, 0
  {
    var c := LongestPrefix(child.prefix, key);
    if c == |child.prefix| && c == |key| {
      assert WellFormed(child.(value := v));
    } else {
      var below := if c < |child.prefix| then Split(child, c, zero).value else child;
      if c < |child.prefix| {
        var t := below.children[0];
        assert WellFormed(t);
        assert WellFormed(below);
      }
      InsertWellFormed(below, key[c..], v, zero);
    }
  }

  // ----- Delete ---------------------------------------------------------------

  /** After Delete(k), Match(k) reads zero, whether or not a node was found. */
  lemma {:induction false} DeleteMatchSame<V>(node: Node<V>, key: Key, zero: V)
    ensures Match(Delete(node, key, zero).node, key, zero) == zero
    decreases node, 0
  {
    if |key| > 0 {
      var j := FirstMatch(node.children, key);
      if j < |node.children| {
        var r := DeleteEdge(node.children[j], key, zero);
        DeleteEdgeMatchSame(node.children[j], key, zero);
        if r.found {
          FirstMatchReplace(node.children, j, r.node, key);
        }
      }
    }
  }

  lemma {:induction false} DeleteEdgeMatchSame<V>(child: Node<V>, key: Key, zero: V)
    ensures MatchEdge(DeleteEdge(child, key, zero).node, key, zero) == zero
    decreases child, 1
  {
    var c := LongestPrefix(child.prefix, key);
    if c == |child.prefix| && c != |key| {
      DeleteMatchSame(child, key[c..], zero);
    }
  }

  /** Delete(k) leaves Match(k') unchanged for every other key k'. */
  lemma {:induction false} DeleteMatchOther<V>(node: Node<V>, key: Key, other: Key, zero: V)
    requires other != key
    ensures Match(Delete(node, key, zero).node, other, zero) == Match(node, other, zero)
    decreases node, 0
  {
    if |key| > 0 && |other| > 0 {
      var j := FirstMatch(node.children, key);
      if j < |node.children| {
        var r := DeleteEdge(node.children[j], key, zero);
        if r.found {
          FirstMatchReplace(node.children, j, r.node, other);
          if FirstMatch(node.children, other) == j {
            DeleteEdgeMatchOther(node.children[j], key, other, zero);
          }
        }
      }
    }
  }

  lemma {:induction false} DeleteEdgeMatchOther<V>(child: Node<V>, key: Key, other: Key, zero: V)
    requires other != key
    ensures MatchEdge(DeleteEdge(child, key, zero).node, other, zero) == MatchEdge(child, other, zero)
    decreases child, 1
  {
    var p := child.prefix;
    var c := LongestPrefix(p, key);
    var c' := LongestPrefix(p, other);
    SameKey(other, p, c');
    SameKey(key, p, c);
    assert p[..|p|] == p;
    if c == |p| && c < |key| && c' == |p| && c' < |other| {
      SameKey(key, other, c);
      DeleteMatchOther(child, key[c..], other[c..], zero);
    }
  }

  /** Same nodes, labels and levels: a reflexive relation. */
  lemma {:induction false} SameShapeRefl<V>(node: Node<V>)
    ensures SameShape(node, node)
    decreases node
  {
    forall i | 0 <= i < |node.children|
      ensures SameShape(node.children[i], node.children[i])
    {
      SameShapeRefl(node.children[i]);
    }
  }

  /** Delete never removes, adds or relabels a node: only values change. */
  lemma {:induction false} DeleteKeepsShape<V>(node: Node<V>, key: Key, zero: V)
    ensures SameShape(Delete(node, key, zero).node, node)
    decreases node, 0
  {
    SameShapeRefl(node);
    if |key| > 0 {
      var j := FirstMatch(node.children, key);
      if j < |node.children| {
        var r := DeleteEdge(node.children[j], key, zero);
        if r.found {
          DeleteEdgeKeepsShape(node.children[j], key, zero);
          var cs' := node.children[j := r.node];
          forall i | 0 <= i < |cs'|
            ensures SameShape(cs'[i], node.children[i])
          {
            if i != j {
              SameShapeRefl(node.children[i]);
            }
          }
        }
      }
    }
  }

  lemma {:induction false} DeleteEdgeKeepsShape<V>(child: Node<V>, key: Key, zero: V)
    ensures SameShape(DeleteEdge(child, key, zero).node, child)
    decreases child, 1
  {
    SameShapeRefl(child);
    var c := LongestPrefix(child.prefix, key);
    if c == |child.prefix| && c != |key| {
      DeleteKeepsShape(child, key[c..], zero);
    }
  }

  /** The structural invariants depend only on the shape. */
  lemma {:induction false} WellFormedShape<V>(a: Node<V>, b: Node<V>)
    requires SameShape(a, b) && WellFormed(a)
    ensures WellFormed(b)
    decreases a
  {
    forall i | 0 <= i < |b.children|
      ensures WellFormed(b.children[i])
    {
      WellFormedShape(a.children[i], b.children[i]);
    }
  }

  /** Delete keeps the structural invariants. */
  lemma DeleteWellFormed<V>(node: Node<V>, key: Key, zero: V)
    requires WellFormed(node)
    ensures WellFormed(Delete(node, key, zero).node)
  {
    var r := Delete(node, key, zero).node;
    DeleteKeepsShape(node, key, zero);
    SameShapeSym(r, node);
    WellFormedShape(node, r);
  }

  lemma {:induction false} SameShapeSym<V>(a: Node<V>, b: Node<V>)
    requires SameShape(a, b)
    ensures SameShape(b, a)
    decreases a
  {
    forall i | 0 <= i < |b.children|
      ensures SameShape(b.children[i], a.children[i])
    {
      SameShapeSym(a.children[i], b.children[i]);
    }
  }
}
