/** Sequences of Insert and Delete calls on one tree, and what exact
    lookups read after them. */
module RadixHistory {
  import opened Radix
  import opened RadixLemmas

  /** The tree after inserting the pairs of `ps` one after the other. */
  function InsertAll<V>(node: Node<V>, ps: seq<(Key, V)>, zero: V): Node<V>
    decreases |ps|
  {
    if |ps| == 0 then node
    else InsertAll(Insert(node, ps[0].0, ps[0].1, zero).node, ps[1..], zero)
  }

  /** The tree after deleting the keys of `keys` one after the other. */
  function DeleteAll<V>(node: Node<V>, keys: seq<Key>, zero: V): Node<V>
    decreases |keys|
  {
    if |keys| == 0 then node
    else DeleteAll(Delete(node, keys[0], zero).node, keys[1..], zero)
  }

  /** The value of the last pair in `ps` with key `key`; `d` when there is none. */
  function LastValue<V>(ps: seq<(Key, V)>, key: Key, d: V): V
    decreases |ps|
  {
    if |ps| == 0 then d
    else LastValue(ps[1..], key, if ps[0].0 == key then ps[0].1 else d)
  }

  /** After a run of inserts each key reads the last value inserted under it,
      and every other key reads what it read before. */
  lemma {:induction false} InsertAllMatch<V>(node: Node<V>, ps: seq<(Key, V)>, key: Key, zero: V)
    ensures Match(InsertAll(node, ps, zero), key, zero) == LastValue(ps, key, Match(node, key, zero))
    decreases |ps|
  {
    if |ps| > 0 {
      var next := Insert(node, ps[0].0, ps[0].1, zero).node;
      if ps[0].0 == key {
        InsertMatchSame(node, key, ps[0].1, zero);
      } else {
        InsertMatchOther(node, ps[0].0, ps[0].1, key, zero);
      }
      InsertAllMatch(next, ps[1..], key, zero);
    }
  }

  /** A run of inserts keeps the structural invariants. */
  lemma {:induction false} InsertAllWellFormed<V>(node: Node<V>, ps: seq<(Key, V)>, zero: V)
    requires WellFormed(node)
    ensures WellFormed(InsertAll(node, ps, zero))
    decreases |ps|
  {
    if |ps| > 0 {
      InsertWellFormed(node, ps[0].0, ps[0].1, zero);
      InsertAllWellFormed(Insert(node, ps[0].0, ps[0].1, zero).node, ps[1..], zero);
    }
  }

  /** After a run of deletes every deleted key reads `zero` and every other
      key reads what it read before. */
  lemma {:induction false} DeleteAllMatch<V>(node: Node<V>, keys: seq<Key>, key: Key, zero: V)
    ensures Match(DeleteAll(node, keys, zero), key, zero) ==
      if key in keys then zero else Match(node, key, zero)
    decreases |keys|
  {
    if |keys| > 0 {
      var next := Delete(node, keys[0], zero).node;
      if keys[0] == key {
        DeleteMatchSame(node, key, zero);
      } else {
        DeleteMatchOther(node, keys[0], key, zero);
      }
      DeleteAllMatch(next, keys[1..], key, zero);
      assert key in keys <==> key == keys[0] || key in keys[1..];
    }
  }

  /** Inserting `ps` and then `qs` is inserting their concatenation. */
  lemma {:induction false} InsertAllAppend<V>(node: Node<V>, ps: seq<(Key, V)>, qs: seq<(Key, V)>, zero: V)
    ensures InsertAll(node, ps + qs, zero) == InsertAll(InsertAll(node, ps, zero), qs, zero)
    decreases |ps|
  {
    if |ps| > 0 {
      assert (ps + qs)[0] == ps[0] && (ps + qs)[1..] == ps[1..] + qs;
      InsertAllAppend(Insert(node, ps[0].0, ps[0].1, zero).node, ps[1..], qs, zero);
    } else {
      assert ps + qs == qs;
    }
  }

  /** The last value in a concatenation comes from the second part when it
      carries the key, and from the first part otherwise. */
  lemma {:induction false} LastValueAppend<V>(ps: seq<(Key, V)>, qs: seq<(Key, V)>, key: Key, d: V)
    ensures LastValue(ps + qs, key, d) == LastValue(qs, key, LastValue(ps, key, d))
    decreases |ps|
  {
    if |ps| > 0 {
      assert (ps + qs)[0] == ps[0] && (ps + qs)[1..] == ps[1..] + qs;
      LastValueAppend(ps[1..], qs, key, if ps[0].0 == key then ps[0].1 else d);
    } else {
      assert ps + qs == qs;
    }
  }

  /** A key no pair carries keeps the default. */
  lemma {:induction false} LastValueUnlisted<V>(ps: seq<(Key, V)>, key: Key, d: V)
    requires forall i :: 0 <= i < |ps| ==> ps[i].0 != key
    ensures LastValue(ps, key, d) == d
    decreases |ps|
  {
    if |ps| > 0 {
      LastValueUnlisted(ps[1..], key, d);
    }
  }

  /** No two pairs share a key. */
  ghost predicate DistinctKeys<V>(ps: seq<(Key, V)>)
  {
    forall i, j :: 0 <= i < j < |ps| ==> ps[i].0 != ps[j].0
  }

  /** With distinct keys, a key reads the value paired with it, wherever the
      pair sits in the sequence. */
  lemma {:induction false} LastValueDistinct<V>(ps: seq<(Key, V)>, key: Key, v: V, d: V)
    requires DistinctKeys(ps) && (key, v) in ps
    ensures LastValue(ps, key, d) == v
    decreases |ps|
  {
    if ps[0] == (key, v) {
      forall i | 0 <= i < |ps[1..]|
        ensures ps[1..][i].0 != key
      {
        assert ps[1..][i] == ps[i + 1];
      }
      LastValueUnlisted(ps[1..], key, v);
    } else {
      var k :| 0 <= k < |ps| && ps[k] == (key, v);
      assert ps[0].0 != key;
      assert ps[1..][k - 1] == (key, v);
      LastValueDistinct(ps[1..], key, v, d);
    }
  }

  /** Inserting the same pairs with distinct keys in any order leaves every
      key reading the same value. */
  lemma InsertOrderIrrelevant<V>(node: Node<V>, ps: seq<(Key, V)>, qs: seq<(Key, V)>, key: Key, zero: V)
    requires DistinctKeys(ps) && DistinctKeys(qs) && multiset(ps) == multiset(qs)
    ensures Match(InsertAll(node, ps, zero), key, zero) == Match(InsertAll(node, qs, zero), key, zero)
  {
    InsertAllMatch(node, ps, key, zero);
    InsertAllMatch(node, qs, key, zero);
    var d := Match(node, key, zero);
    if i :| 0 <= i < |ps| && ps[i].0 == key {
      assert ps[i] in multiset(qs);
      LastValueDistinct(ps, key, ps[i].1, d);
      LastValueDistinct(qs, key, ps[i].1, d);
    } else {
      forall j | 0 <= j < |qs|
        ensures qs[j].0 != key
      {
        assert qs[j] in multiset(ps);
      }
      LastValueUnlisted(ps, key, d);
      LastValueUnlisted(qs, key, d);
    }
  }

  /** The keys of a sequence of pairs, in order. */
  function KeysOf<V>(ps: seq<(Key, V)>): (keys: seq<Key>)
    ensures |keys| == |ps|
    ensures forall i :: 0 <= i < |ps| ==> keys[i] == ps[i].0
  {
    seq(|ps|, i requires 0 <= i < |ps| => ps[i].0)
  }

  /** Inserting into a fresh tree and then deleting every inserted key leaves
      a tree in which every key reads `zero`. */
  lemma DeleteEveryInserted<V>(ps: seq<(Key, V)>, zero: V)
    ensures forall key :: Match(DeleteAll(InsertAll(NewRadixTree(zero), ps, zero), KeysOf(ps), zero), key, zero) == zero
  {
    var root := NewRadixTree(zero);
    var keys := KeysOf(ps);
    forall key
      ensures Match(DeleteAll(InsertAll(root, ps, zero), keys, zero), key, zero) == zero
    {
      DeleteAllMatch(InsertAll(root, ps, zero), keys, key, zero);
      InsertAllMatch(root, ps, key, zero);
      if key !in keys {
        forall i | 0 <= i < |ps|
          ensures ps[i].0 != key
        {
          assert keys[i] == ps[i].0;
        }
        LastValueUnlisted(ps, key, zero);
      }
    }
  }
}
