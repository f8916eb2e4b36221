/** What the lookups find in terms of the stored (path, value) pairs: the
    labels along a path concatenate to the key Match and Delete look for. */
module RadixPaths {
  import opened Radix
  import opened RadixLemmas

  /** A child's entries are the parent's entries with the child's label in front. */
  lemma EntriesChild<V>(node: Node<V>, i: nat, e: (Key, V))
    requires i < |node.children| && e in Entries(node.children[i])
    ensures (node.children[i].prefix + e.0, e.1) in Entries(node)
  {
  }

  /** A key that runs through child `i`'s label to a path stored below it
      is a path stored below the parent. */
  lemma EntriesUnder<V>(node: Node<V>, i: nat, key: Key, v: V)
    requires i < |node.children|
    requires |node.children[i].prefix| <= |key| && key[..|node.children[i].prefix|] == node.children[i].prefix
    requires (key[|node.children[i].prefix|..], v) in Entries(node.children[i])
    ensures (key, v) in Entries(node)
  {
    var p := node.children[i].prefix;
    assert key == p + key[|p|..];
    EntriesChild(node, i, (key[|p|..], v));
  }

  /** In a well-formed tree only the node's own entry has the empty path. */
  lemma OwnEntryOnly<V>(node: Node<V>)
    requires WellFormed(node)
    ensures forall x :: x in Entries(node) && x.0 == [] ==> x == ([], node.value)
  {
    forall x | x in Entries(node) && x != ([], node.value)
      ensures |x.0| > 0
    {
      var i, e :| 0 <= i < |node.children| && e in Entries(node.children[i])
        && x == (node.children[i].prefix + e.0, e.1);
    }
  }

  /** When Delete finds the key, the path is a stored one and Match reads
      its value. */
  lemma {:induction false} FoundIsStored<V>(node: Node<V>, key: Key, zero: V)
    ensures Delete(node, key, zero).found ==> (key, Match(node, key, zero)) in Entries(node)
    decreases node, 0
  {
    if |key| > 0 {
      var j := FirstMatch(node.children, key);
      if j < |node.children| {
        var child := node.children[j];
        FoundIsStoredEdge(child, key, zero);
        if DeleteEdge(child, key, zero).found {
          assert Match(node, key, zero) == MatchEdge(child, key, zero);
          EntriesUnder(node, j, key, MatchEdge(child, key, zero));
        }
      }
    }
  }

  lemma {:induction false} FoundIsStoredEdge<V>(child: Node<V>, key: Key, zero: V)
    ensures DeleteEdge(child, key, zero).found ==>
      && |child.prefix| <= |key| && key[..|child.prefix|] == child.prefix
      && (key[|child.prefix|..], MatchEdge(child, key, zero)) in Entries(child)
    decreases child, 1
  {
    var c := LongestPrefix(child.prefix, key);
    if c == |child.prefix| {
      assert child.prefix[..c] == child.prefix;
      if c == |key| {
        assert key[c..] == [];
      } else {
        FoundIsStored(child, key[c..], zero);
      }
    }
  }

  /** A non-zero exact match is always found by Delete as well. */
  lemma {:induction false} MatchNonZeroFound<V>(node: Node<V>, key: Key, zero: V)
    ensures Match(node, key, zero) != zero ==> Delete(node, key, zero).found
    decreases node, 0
  {
    if |key| > 0 {
      var j := FirstMatch(node.children, key);
      if j < |node.children| {
        MatchNonZeroFoundEdge(node.children[j], key, zero);
      }
    }
  }

  lemma {:induction false} MatchNonZeroFoundEdge<V>(child: Node<V>, key: Key, zero: V)
    ensures MatchEdge(child, key, zero) != zero ==> DeleteEdge(child, key, zero).found
    decreases child, 1
  {
    var c := LongestPrefix(child.prefix, key);
    if c == |child.prefix| && c < |key| {
      MatchNonZeroFound(child, key[c..], zero);
    }
  }

  /** Match only ever reads a stored pair: a non-zero result is the value
      stored at the key's path. */
  lemma MatchReadsStored<V>(node: Node<V>, key: Key, zero: V)
    ensures Match(node, key, zero) != zero ==> (key, Match(node, key, zero)) in Entries(node)
  {
    MatchNonZeroFound(node, key, zero);
    FoundIsStored(node, key, zero);
  }

  /** In a well-formed tree every stored pair is reached: following the
      labels that concatenate to the path, Delete finds the node and Match
      reads its value. */
  lemma {:induction false} StoredIsFound<V>(node: Node<V>, key: Key, v: V, zero: V)
    requires WellFormed(node) && (key, v) in Entries(node)
    ensures Delete(node, key, zero).found && Match(node, key, zero) == v
    decreases node, 0
  {
    if |key| == 0 {
      OwnEntryOnly(node);
    } else {
      var i := EntryBelow(node, key, v);
      EntersOnly(node, i, key);
      StoredIsFoundEdge(node.children[i], key, v, zero);
      assert Match(node, key, zero) == MatchEdge(node.children[i], key, zero);
    }
  }

  /** A stored pair with a non-empty path lies below some child, whose
      label the path starts with. */
  lemma EntryBelow<V>(node: Node<V>, key: Key, v: V) returns (i: nat)
    requires (key, v) in Entries(node) && |key| > 0
    ensures i < |node.children|
    ensures |node.children[i].prefix| <= |key| && key[..|node.children[i].prefix|] == node.children[i].prefix
    ensures (key[|node.children[i].prefix|..], v) in Entries(node.children[i])
  {
    var cs := node.children;
    var j, e :| 0 <= j < |cs| && e in Entries(cs[j]) && (key, v) == (cs[j].prefix + e.0, e.1);
    var p := cs[j].prefix;
    assert key[..|p|] == p && key[|p|..] == e.0;
    i := j;
  }

  /** In a well-formed tree a key that starts with child `i`'s label enters
      child `i` and no earlier sibling. */
  lemma EntersOnly<V>(node: Node<V>, i: nat, key: Key)
    requires WellFormed(node) && i < |node.children|
    requires |node.children[i].prefix| <= |key| && key[..|node.children[i].prefix|] == node.children[i].prefix
    ensures FirstMatch(node.children, key) == i
  {
    var cs := node.children;
    EntersHead(cs[i], key);
    forall k | 0 <= k < i
      ensures !Enters(cs[k], key)
    {
      EntersHead(cs[k], key);
    }
    FirstMatchUnique(cs, key, i);
  }

  lemma {:induction false} StoredIsFoundEdge<V>(child: Node<V>, key: Key, v: V, zero: V)
    requires WellFormed(child) && |child.prefix| <= |key| && key[..|child.prefix|] == child.prefix
    requires (key[|child.prefix|..], v) in Entries(child)
    ensures DeleteEdge(child, key, zero).found && MatchEdge(child, key, zero) == v
    decreases child, 1
  {
    var p := child.prefix;
    LongestPrefixWhole(p, key);
    if |key| == |p| {
      OwnEntryOnly(child);
      assert key[|p|..] == [];
    } else {
      StoredIsFound(child, key[|p|..], v, zero);
    }
  }

  /** In a well-formed tree Delete reports `found` exactly for the paths of
      existing nodes. */
  lemma DeleteFoundIffPath<V>(node: Node<V>, key: Key, zero: V)
    requires WellFormed(node)
    ensures Delete(node, key, zero).found <==> key in Paths(node)
  {
    FoundIsStored(node, key, zero);
    if key in Paths(node) {
      var e :| e in Entries(node) && e.0 == key;
      StoredIsFound(node, key, e.1, zero);
    }
  }

  /** A key that is no node's path matches nothing. */
  lemma MatchOffPath<V>(node: Node<V>, key: Key, zero: V)
    ensures key !in Paths(node) ==> Match(node, key, zero) == zero
  {
    MatchReadsStored(node, key, zero);
  }
}
