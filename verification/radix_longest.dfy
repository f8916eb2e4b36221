/** What MatchLongest returns, stated through exact matches of the key's
    prefixes rather than through the traversal. */
module RadixLongest {
  import opened Radix
  import opened RadixLemmas

  /** The exact match of the longest of `key[..1]`, ..., `key[..i]` whose
      match is not `zero`; `zero` when every one of them matches `zero`. */
  ghost function DeepestMatch<V>(node: Node<V>, key: Key, i: nat, zero: V): V
    requires i <= |key|
    decreases i
  {
    if i == 0 then zero
    else if Match(node, key[..i], zero) != zero then Match(node, key[..i], zero)
    else DeepestMatch(node, key, i - 1, zero)
  }

  /** The same, one edge down: through a single child. */
  ghost function DeepestMatchEdge<V>(child: Node<V>, key: Key, i: nat, zero: V): V
    requires i <= |key|
    decreases i
  {
    if i == 0 then zero
    else if MatchEdge(child, key[..i], zero) != zero then MatchEdge(child, key[..i], zero)
    else DeepestMatchEdge(child, key, i - 1, zero)
  }

  /** Prefixes that end inside the child's label, or past a point where the
      key leaves it, match nothing. */
  lemma {:induction false} DeepestEdgeInside<V>(child: Node<V>, key: Key, i: nat, zero: V)
    requires i <= |key|
    requires i < |child.prefix| || LongestPrefix(child.prefix, key) < |child.prefix|
    ensures DeepestMatchEdge(child, key, i, zero) == zero
    decreases i
  {
    if i > 0 {
      LongestPrefixTake(child.prefix, key, i);
      DeepestEdgeInside(child, key, i - 1, zero);
    }
  }

  /** The prefix that ends exactly at the child's label matches the child. */
  lemma DeepestEdgeAtChild<V>(child: Node<V>, key: Key, zero: V)
    requires 0 < |child.prefix| == LongestPrefix(child.prefix, key)
    ensures DeepestMatchEdge(child, key, |child.prefix|, zero) == child.value
  {
    var c := |child.prefix|;
    LongestPrefixTake(child.prefix, key, c);
    DeepestEdgeInside(child, key, c - 1, zero);
  }

  /** Past the child's label, the prefixes of the key match what the
      remaining prefixes match below the child. */
  lemma {:induction false} DeepestEdgeBelow<V>(child: Node<V>, key: Key, i: nat, zero: V)
    requires LongestPrefix(child.prefix, key) == |child.prefix| <= i <= |key|
    ensures DeepestMatchEdge(child, key, i, zero) ==
      var d := DeepestMatch(child, key[|child.prefix|..], i - |child.prefix|, zero);
      if d != zero then d else DeepestMatchEdge(child, key, |child.prefix|, zero)
    decreases i
  {
    var c := |child.prefix|;
    if i > c {
      LongestPrefixTake(child.prefix, key, i);
      assert key[..i][c..] == key[c..][..i - c];
      DeepestEdgeBelow(child, key, i - 1, zero);
    }
  }

  /** With no child to enter, no non-empty prefix matches. */
  lemma {:induction false} DeepestNoChild<V>(node: Node<V>, key: Key, i: nat, zero: V)
    requires 0 < |key| && i <= |key|
    requires FirstMatch(node.children, key) == |node.children|
    ensures DeepestMatch(node, key, i, zero) == zero
    decreases i
  {
    if i > 0 {
      FirstMatchSameHead(node.children, key, key[..i]);
      DeepestNoChild(node, key, i - 1, zero);
    }
  }

  /** Every non-empty prefix of the key goes through the child it enters. */
  lemma {:induction false} DeepestViaChild<V>(node: Node<V>, key: Key, i: nat, zero: V)
    requires 0 < |key| && i <= |key|
    requires FirstMatch(node.children, key) < |node.children|
    ensures DeepestMatch(node, key, i, zero) ==
      DeepestMatchEdge(node.children[FirstMatch(node.children, key)], key, i, zero)
    decreases i
  {
    if i > 0 {
      FirstMatchSameHead(node.children, key, key[..i]);
      DeepestViaChild(node, key, i - 1, zero);
    }
  }

  /** MatchLongest returns the value of the deepest node with a non-zero
      value whose path is a prefix of the key. The node it starts from only
      counts when the key is empty or enters none of its children: a key
      that enters a child and finds nothing non-zero below yields `zero`. */
  lemma {:induction false} MatchLongestDeepest<V>(node: Node<V>, key: Key, zero: V)
    ensures MatchLongest(node, key, zero) ==
      if |key| == 0 || FirstMatch(node.children, key) == |node.children| then node.value
      else DeepestMatch(node, key, |key|, zero)
    decreases node, 0
  {
    if |key| > 0 {
      var j := FirstMatch(node.children, key);
      if j < |node.children| {
        MatchLongestEdgeDeepest(node.children[j], key, zero);
        DeepestViaChild(node, key, |key|, zero);
      }
    }
  }

  lemma {:induction false} MatchLongestEdgeDeepest<V>(child: Node<V>, key: Key, zero: V)
    requires Enters(child, key)
    ensures MatchLongestEdge(child, key, zero) == DeepestMatchEdge(child, key, |key|, zero)
    decreases child, 1
  {
    var p := child.prefix;
    var c := LongestPrefix(p, key);
    if c < |p| {
      DeepestEdgeInside(child, key, |key|, zero);
    } else if c == |key| {
      assert key[..|key|] == key;
      DeepestEdgeAtChild(child, key, zero);
    } else {
      var rest := key[c..];
      MatchLongestDeepest(child, rest, zero);
      DeepestEdgeBelow(child, key, |key|, zero);
      DeepestEdgeAtChild(child, key, zero);
      if FirstMatch(child.children, rest) == |child.children| {
        DeepestNoChild(child, rest, |rest|, zero);
      }
    }
  }

  /** If every prefix matches `zero`, so does the deepest one. */
  lemma {:induction false} DeepestAllZero<V>(node: Node<V>, key: Key, i: nat, zero: V)
    requires i <= |key|
    requires forall k :: Match(node, k, zero) == zero
    ensures DeepestMatch(node, key, i, zero) == zero
    decreases i
  {
    if i > 0 {
      DeepestAllZero(node, key, i - 1, zero);
    }
  }

  /** A tree in which every exact match is `zero` has every longest-prefix
      match `zero` too. */
  lemma MatchLongestAllZero<V>(node: Node<V>, zero: V)
    requires forall k :: Match(node, k, zero) == zero
    ensures forall k :: MatchLongest(node, k, zero) == zero
  {
    forall k
      ensures MatchLongest(node, k, zero) == zero
    {
      MatchLongestDeepest(node, k, zero);
      assert Match(node, [], zero) == node.value;
      DeepestAllZero(node, k, |k|, zero);
    }
  }

  /** When the starting node holds `zero`, MatchLongest is exactly the
      deepest non-zero exact match along the key. */
  lemma MatchLongestZeroRoot<V>(node: Node<V>, key: Key, zero: V)
    requires node.value == zero
    ensures MatchLongest(node, key, zero) == DeepestMatch(node, key, |key|, zero)
  {
    MatchLongestDeepest(node, key, zero);
    if 0 < |key| && FirstMatch(node.children, key) == |node.children| {
      DeepestNoChild(node, key, |key|, zero);
    }
  }

  /** Whatever the root holds, MatchLongest returns the deepest non-zero
      exact match along the key when there is one, and otherwise either
      `zero` or the starting node's own value. */
  lemma MatchLongestBounds<V>(node: Node<V>, key: Key, zero: V)
    ensures DeepestMatch(node, key, |key|, zero) != zero ==>
      MatchLongest(node, key, zero) == DeepestMatch(node, key, |key|, zero)
    ensures DeepestMatch(node, key, |key|, zero) == zero ==>
      MatchLongest(node, key, zero) == zero || MatchLongest(node, key, zero) == node.value
  {
    MatchLongestDeepest(node, key, zero);
    if 0 < |key| && FirstMatch(node.children, key) == |node.children| {
      DeepestNoChild(node, key, |key|, zero);
    }
  }

  /** An exact hit wins: a key whose exact match is not `zero` gets that
      value from MatchLongest too. */
  lemma MatchLongestExact<V>(node: Node<V>, key: Key, zero: V)
    ensures Match(node, key, zero) != zero ==> MatchLongest(node, key, zero) == Match(node, key, zero)
  {
    MatchLongestDeepest(node, key, zero);
    assert key[..|key|] == key;
  }

  /** Below a non-zero match at `key[..m]`, if every longer prefix up to
      `key[..i]` matches `zero`, the deepest match is the one at `m`. */
  lemma {:induction false} DeepestFallsBack<V>(node: Node<V>, key: Key, m: nat, i: nat, zero: V)
    requires 0 < m <= i <= |key|
    requires Match(node, key[..m], zero) != zero
    requires forall j :: m < j <= i ==> Match(node, key[..j], zero) == zero
    ensures DeepestMatch(node, key, i, zero) == Match(node, key[..m], zero)
    decreases i
  {
    if i > m {
      DeepestFallsBack(node, key, m, i - 1, zero);
    }
  }

  /** If no prefix up to `key[..i]` matches, the deepest match is `zero`. */
  lemma {:induction false} DeepestNone<V>(node: Node<V>, key: Key, i: nat, zero: V)
    requires i <= |key|
    requires forall j :: 0 < j <= i ==> Match(node, key[..j], zero) == zero
    ensures DeepestMatch(node, key, i, zero) == zero
    decreases i
  {
    if i > 0 {
      DeepestNone(node, key, i - 1, zero);
    }
  }
}
