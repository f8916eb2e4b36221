/** A model of the generic compressed radix tree of structures/radix.go.

    The tree is a value: every operation returns a new tree instead of
    mutating nodes in place. A key is a Go string, one character per byte.
    Values are of any type with equality; the value `zero` plays the part of
    Go's zero value of the type parameter, which the source uses to mean
    "no value stored here". */
module Radix {
  import opened Wrappers

  type Key = string

  /** One node of the tree: the edge label from its parent, its value (`zero`
      when none is stored), its children in the order they were added, and
      the level recorded when the node was created. */
  datatype Node<V> = Node(prefix: Key, value: V, children: seq<Node<V>>, level: int)

  /** What Insert returns: the updated node and the level it reports. */
  datatype Inserted<V> = Inserted(node: Node<V>, level: int)

  /** What Delete returns: the updated node, the level it reports and
      whether the key's path ended exactly at a node. */
  datatype Deleted<V> = Deleted(node: Node<V>, level: int, found: bool)

  /** The loop of longestPrefix from index `i` on, with `a[..i] == b[..i]`
      already established. */
  function LongestPrefixFrom(a: Key, b: Key, i: nat): (n: nat)
    requires i <= |a| && i <= |b|
    requires a[..i] == b[..i]
    ensures i <= n <= |a| && n <= |b| && a[..n] == b[..n]
    ensures n < |a| && n < |b| ==> a[n] != b[n]
    decreases |a| - i
  {
    if i < |a| && i < |b| && a[i] == b[i] then
      assert a[..i + 1] == a[..i] + [a[i]] && b[..i + 1] == b[..i] + [b[i]];
      LongestPrefixFrom(a, b, i + 1)
    else
      i
  }

  /** The length of the longest common prefix of `a` and `b`: both agree up
      to it, and it stops at the first differing byte or at the shorter end. */
  function LongestPrefix(a: Key, b: Key): (n: nat)
    ensures n <= |a| && n <= |b| && a[..n] == b[..n]
    ensures n < |a| && n < |b| ==> a[n] != b[n]
  {
    LongestPrefixFrom(a, b, 0)
  }

  /** The test the child scan applies: a child with an empty label is skipped,
      and a child sharing no first byte with the key is passed over. */
  predicate Enters<V>(child: Node<V>, key: Key)
  {
    |child.prefix| > 0 && LongestPrefix(child.prefix, key) > 0
  }

  /** The scan over children from index `i` on. */
  function FirstMatchFrom<V>(children: seq<Node<V>>, key: Key, i: nat): (j: nat)
    requires i <= |children|
    ensures i <= j <= |children|
    ensures j < |children| ==> Enters(children[j], key)
    ensures forall k :: i <= k < j ==> !Enters(children[k], key)
    decreases |children| - i
  {
    if i == |children| then i
    else if Enters(children[i], key) then i
    else FirstMatchFrom(children, key, i + 1)
  }

  /** The index of the first child the key enters, or `|children|` when there
      is none. */
  function FirstMatch<V>(children: seq<Node<V>>, key: Key): (j: nat)
    ensures j <= |children|
    ensures j < |children| ==> Enters(children[j], key)
    ensures forall k :: 0 <= k < j ==> !Enters(children[k], key)
  {
    FirstMatchFrom(children, key, 0)
  }

  /** The tree NewRadixTree creates: an empty root at level 0 holding `zero`. */
  function NewRadixTree<V>(zero: V): (root: Node<V>)
    ensures root.prefix == [] && root.level == 0 && root.value == zero
    ensures WellFormed(root)
    ensures forall key :: Match(root, key, zero) == zero
  {
    Node([], zero, [], 0)
  }

  /** split: panics unless `index < |node.prefix|`; otherwise cuts the edge at
      `index`, moving the old value and children to a single new child that
      carries the rest of the label. */
  function Split<V>(node: Node<V>, index: nat, zero: V): (r: Result<Node<V>>)
    ensures r.Panic? <==> index >= |node.prefix|
    ensures r.Ok? ==>
      && r.value.prefix == node.prefix[..index]
      && r.value.value == zero
      && r.value.level == node.level
      && |r.value.children| == 1
      && r.value.prefix + r.value.children[0].prefix == node.prefix
      && r.value.children[0].value == node.value
      && r.value.children[0].children == node.children
  {
    if index >= |node.prefix| then
      Panic("index out of range")
    else
      var rest := Node(node.prefix[index..], node.value, node.children, node.level + 1);
      Ok(Node(node.prefix[..index], zero, [rest], node.level))
  }

  /** Insert below `node` the value `v` under `key`, the part of the full key
      that remains once `node` is reached. */
  function Insert<V>(node: Node<V>, key: Key, v: V, zero: V): (r: Inserted<V>)
    ensures r.node.prefix == node.prefix
    ensures |key| > 0 ==> r.node.value == node.value
    decreases |key|, 1
  {
    if |key| == 0 then
      Inserted(node.(value := v), node.level)
    else
      var j := FirstMatch(node.children, key);
      if j == |node.children| then
        var leaf := Node(key, v, [], node.level + 1);
        Inserted(node.(children := node.children + [leaf]), node.level + 1)
      else
        var r := InsertEdge(node.children[j], key, v, zero);
        Inserted(node.(children := node.children[j := r.node]), r.level)
  }

  /** One turn of Insert's child loop, for the first child the key enters:
      overwrite the child, or split it if the key leaves its label partway,
      then go on below it. The child's label keeps its first byte. */
  function InsertEdge<V>(child: Node<V>, key: Key, v: V, zero: V): (r: Inserted<V>)
    requires Enters(child, key)
    ensures 0 < |r.node.prefix| <= |child.prefix| && |r.node.prefix| <= |key|
    ensures r.node.prefix == child.prefix[..|r.node.prefix|]
    ensures r.node.prefix == key[..|r.node.prefix|]
    decreases |key|, 0
  {
    var c := LongestPrefix(child.prefix, key);
    if c == |child.prefix| && c == |key| then
      Inserted(child.(value := v), child.level)
    else
      var below := if c < |child.prefix| then Split(child, c, zero).value else child;
      Insert(below, key[c..], v, zero)
  }

  /** Exact lookup below `node`: the value of the node the key's path ends
      at, or `zero`. */
  function Match<V>(node: Node<V>, key: Key, zero: V): (r: V)
    ensures |key| == 0 ==> r == node.value
    ensures |key| > 0 && node.children == [] ==> r == zero
    decreases node, 0
  {
    if |key| == 0 then
      node.value
    else
      var j := FirstMatch(node.children, key);
      if j == |node.children| then zero else MatchEdge(node.children[j], key, zero)
  }

  /** One turn of Match's child loop, for the first child the key enters. */
  function MatchEdge<V>(child: Node<V>, key: Key, zero: V): V
    decreases child, 1
  {
    var c := LongestPrefix(child.prefix, key);
    if c == |child.prefix| && c == |key| then child.value
    else if c < |child.prefix| then zero
    else Match(child, key[c..], zero)
  }

  /** Longest-prefix lookup below `node`. */
  function MatchLongest<V(==)>(node: Node<V>, key: Key, zero: V): (r: V)
    ensures |key| == 0 ==> r == node.value
    ensures node.children == [] ==> r == node.value
    decreases node, 0
  {
    if |key| == 0 then
      node.value
    else
      var j := FirstMatch(node.children, key);
      if j == |node.children| then node.value else MatchLongestEdge(node.children[j], key, zero)
  }

  /** One turn of MatchLongest's child loop: a `zero` from below falls back
      to the child's own value. */
  function MatchLongestEdge<V(==)>(child: Node<V>, key: Key, zero: V): (r: V)
    ensures |key| < |child.prefix| ==> r == zero
    decreases child, 1
  {
    var c := LongestPrefix(child.prefix, key);
    if c == |child.prefix| && c == |key| then child.value
    else if c < |child.prefix| then zero
    else
      var v := MatchLongest(child, key[c..], zero);
      if v == zero then child.value else v
  }

  /** Delete below `node`: reset the value of the node the key's path ends at
      to `zero`. Nodes are never removed, and a key that leaves the tree
      changes nothing. */
  function Delete<V>(node: Node<V>, key: Key, zero: V): (r: Deleted<V>)
    ensures !r.found ==> r.node == node
    ensures r.node.prefix == node.prefix
    ensures |key| > 0 ==> r.node.value == node.value
    decreases node, 0
  {
    if |key| == 0 then
      Deleted(node.(value := zero), node.level, true)
    else
      var j := FirstMatch(node.children, key);
      if j == |node.children| then
        Deleted(node, node.level, false)
      else
        var r := DeleteEdge(node.children[j], key, zero);
        if r.found then Deleted(node.(children := node.children[j := r.node]), r.level, true)
        else Deleted(node, r.level, false)
  }

  /** One turn of Delete's child loop, for the first child the key enters. */
  function DeleteEdge<V>(child: Node<V>, key: Key, zero: V): (r: Deleted<V>)
    ensures !r.found ==> r.node == child
    ensures r.node.prefix == child.prefix
    decreases child, 1
  {
    var c := LongestPrefix(child.prefix, key);
    if c == |child.prefix| && c == |key| then Deleted(child.(value := zero), child.level, true)
    else if c < |child.prefix| then Deleted(child, child.level, false)
    else Delete(child, key[c..], zero)
  }

  /** The structural invariants below a node: every child has a non-empty
      label, no two siblings start with the same byte, and so on down. */
  ghost predicate WellFormed<V>(node: Node<V>)
    decreases node
  {
    && (forall i :: 0 <= i < |node.children| ==> |node.children[i].prefix| > 0)
    && (forall i, j ::
          0 <= i < j < |node.children| && |node.children[i].prefix| > 0 && |node.children[j].prefix| > 0
          ==> node.children[i].prefix[0] != node.children[j].prefix[0])
    && (forall i :: 0 <= i < |node.children| ==> WellFormed(node.children[i]))
  }

  /** The (path, value) pairs stored below a node, paths taken from just
      after the node's own label: the concatenated labels down to each node. */
  ghost function Entries<V>(node: Node<V>): set<(Key, V)>
    decreases node
  {
    {([], node.value)} +
    set i, e | 0 <= i < |node.children| && e in Entries(node.children[i])
      :: (node.children[i].prefix + e.0, e.1)
  }

  /** The (path, value) pairs a node contributes to its parent: its entries
      with its own label put in front. */
  ghost function Stored<V>(node: Node<V>): set<(Key, V)>
  {
    set e | e in Entries(node) :: (node.prefix + e.0, e.1)
  }

  /** The paths of all nodes below a node. */
  ghost function Paths<V>(node: Node<V>): set<Key>
  {
    set e | e in Entries(node) :: e.0
  }

  /** Two trees with the same nodes, labels and levels, whatever their values. */
  ghost predicate SameShape<V>(a: Node<V>, b: Node<V>)
    decreases a
  {
    && a.prefix == b.prefix
    && a.level == b.level
    && |a.children| == |b.children|
    && forall i :: 0 <= i < |a.children| ==> SameShape(a.children[i], b.children[i])
  }
}
