/** The longest-prefix lookup at the root of the tree. The recursion in
    structures/radix.go falls back to a node's own value only one level up,
    in the parent's loop; the root has no parent, so its value is lost as
    soon as the key enters one of its children. */
module RadixFindings {
  import opened Radix
  import opened RadixLongest

  /** The tree after `Insert("", 5)` and `Insert("foo", 1)` on a new tree. */
  const RootAndFoo: Node<int> := Node([], 5, [Node("foo", 1, [], 1)], 0)

  lemma RootAndFooInserted()
    ensures Insert(Insert(NewRadixTree(0), "", 5, 0).node, "foo", 1, 0).node == RootAndFoo
  {
  }

  /** As written: the key "fx" enters the child "foo", leaves its label
      after one byte, and MatchLongest yields 0 although the root, whose
      empty path is a prefix of every key, holds 5. */
  lemma RootValueLost()
    ensures Match(RootAndFoo, [], 0) == 5
    ensures MatchLongest(RootAndFoo, "fx", 0) == 0
    ensures MatchLongestFromRoot(RootAndFoo, "fx", 0) == 5
  {
  }

  /** Longest-prefix lookup with the root counted like every other node:
      the value of the deepest node along the key holding a non-zero
      value, and the root's value when there is none. */
  function MatchLongestFromRoot<V(==)>(root: Node<V>, key: Key, zero: V): (r: V)
    ensures r == if DeepestMatch(root, key, |key|, zero) != zero then DeepestMatch(root, key, |key|, zero)
                 else root.value
  {
    MatchLongestBounds(root, key, zero);
    var v := MatchLongest(root, key, zero);
    if v == zero then root.value else v
  }

  /** The two lookups differ only when the root holds a value: with `zero`
      at the root, as in every tree whose empty key is never inserted, the
      source's MatchLongest already gives the intended result. */
  lemma MatchLongestFromRootAgrees<V>(root: Node<V>, key: Key, zero: V)
    requires root.value == zero
    ensures MatchLongestFromRoot(root, key, zero) == MatchLongest(root, key, zero)
  {
    MatchLongestZeroRoot(root, key, zero);
  }
}
