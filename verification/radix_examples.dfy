/** The expectations of structures/radix_test.go, derived from the general
    lemmas about runs of inserts and deletes. Each test's insert history is
    written in three parts so that each lookup is computed part by part. */
module RadixExamples {
  import opened Radix
  import opened RadixHistory
  import opened RadixLongest
  import opened RadixLemmas

  /** The first six inserts of each test. */
  const Early: seq<(Key, int)> :=
    [("foo", 1), ("foobar", 2), ("bar", 3), ("barbaz", 4), ("barfoo", 5), ("barfoobaz", 6)]

  const Middle: seq<(Key, int)> :=
    [("barbar", 7), ("barbarbaz", 8), ("barbarfoo", 9), ("barbarfoobaz", 10), ("barbarbar", 11), ("barbarbarbaz", 12)]

  /** The last six inserts of the exact-match and delete tests. */
  const Late: seq<(Key, int)> :=
    [("barbarbarfoo", 13), ("barbarbarfoobaz", 14), ("barbarbarbar", 15), ("barbarbarbarbaz", 16),
     ("barbarbarbarfoo", 17), ("barbarbarbarfoobaz", 18)]

  /** The last seven inserts of the longest-match test, which overwrites
      "barbarbarbarfoo" with 20. */
  const LateOverwrite: seq<(Key, int)> :=
    [("barbarbarfoo", 13), ("barbarbarfoobaz", 14), ("barbarbarbar", 15), ("barbarbarbarbaz", 16),
     ("barbarbarbarfoo", 17), ("barbarbarbarfoo", 20), ("barbarbarbarfoobaz", 18)]

  /** The tree of a test after its inserts, starting from NewRadixTree. */
  function TestTree(late: seq<(Key, int)>): Node<int>
  {
    InsertAll(NewRadixTree(0), Early + Middle + late, 0)
  }

  /** The value the test history leaves under `key`, part by part. */
  function Reads(late: seq<(Key, int)>, key: Key): int
  {
    LastValue(late, key, LastValue(Middle, key, LastValue(Early, key, 0)))
  }

  /** What a key reads in a test tree. */
  lemma TestTreeReads(late: seq<(Key, int)>, key: Key)
    ensures Match(TestTree(late), key, 0) == Reads(late, key)
  {
    InsertAllMatch(NewRadixTree(0), Early + Middle + late, key, 0);
    LastValueAppend(Early + Middle, late, key, 0);
    LastValueAppend(Early, Middle, key, 0);
  }

  lemma MatchExamples1()
    ensures Match(TestTree(Late), "foo", 0) == 1
    ensures Match(TestTree(Late), "foobar", 0) == 2
    ensures Match(TestTree(Late), "bar", 0) == 3
    ensures Match(TestTree(Late), "barbaz", 0) == 4
    ensures Match(TestTree(Late), "barfoo", 0) == 5
    ensures Match(TestTree(Late), "barfoobaz", 0) == 6
  {
    TestTreeReads(Late, "foo");
    TestTreeReads(Late, "foobar");
    TestTreeReads(Late, "bar");
    TestTreeReads(Late, "barbaz");
    TestTreeReads(Late, "barfoo");
    TestTreeReads(Late, "barfoobaz");
  }

  lemma MatchExamples2()
    ensures Match(TestTree(Late), "barbar", 0) == 7
    ensures Match(TestTree(Late), "barbarbaz", 0) == 8
    ensures Match(TestTree(Late), "barbarfoo", 0) == 9
    ensures Match(TestTree(Late), "barbarfoobaz", 0) == 10
    ensures Match(TestTree(Late), "barbarbar", 0) == 11
    ensures Match(TestTree(Late), "barbarbarbaz", 0) == 12
  {
    TestTreeReads(Late, "barbar");
    TestTreeReads(Late, "barbarbaz");
    TestTreeReads(Late, "barbarfoo");
    TestTreeReads(Late, "barbarfoobaz");
    TestTreeReads(Late, "barbarbar");
    TestTreeReads(Late, "barbarbarbaz");
  }

  lemma MatchExamples3()
    ensures Match(TestTree(Late), "barbarbarfoo", 0) == 13
    ensures Match(TestTree(Late), "barbarbarfoobaz", 0) == 14
    ensures Match(TestTree(Late), "barbarbarbar", 0) == 15
    ensures Match(TestTree(Late), "barbarbarbarbaz", 0) == 16
    ensures Match(TestTree(Late), "barbarbarbarfoo", 0) == 17
    ensures Match(TestTree(Late), "barbarbarbarfoobaz", 0) == 18
    ensures Match(TestTree(Late), "xaxaxaxaxa", 0) == 0
  {
    TestTreeReads(Late, "barbarbarfoo");
    TestTreeReads(Late, "barbarbarfoobaz");
    TestTreeReads(Late, "barbarbarbar");
    TestTreeReads(Late, "barbarbarbarbaz");
    TestTreeReads(Late, "barbarbarbarfoo");
    TestTreeReads(Late, "barbarbarbarfoobaz");
    TestTreeReads(Late, "xaxaxaxaxa");
  }

  /** `p` agrees with `key` from index `i` to its end. */
  predicate AlongFrom(p: Key, key: Key, i: nat)
    decreases |p| - i
  {
    i >= |p| || (i < |key| && p[i] == key[i] && AlongFrom(p, key, i + 1))
  }

  /** A prefix of `key` agrees with it from every index on. */
  lemma {:induction false} AlongFromPrefix(p: Key, key: Key, i: nat)
    requires |p| <= |key| && key[..|p|] == p
    ensures AlongFrom(p, key, i)
    decreases |p| - i
  {
    if i < |p| {
      assert key[..|p|][i] == key[i];
      AlongFromPrefix(p, key, i + 1);
    }
  }

  /** No key of `ps` from index `i` on that is longer than `m` is a prefix
      of `key`. */
  predicate NoneLongerFrom(ps: seq<(Key, int)>, key: Key, m: nat, i: nat)
    requires i <= |ps|
    decreases |ps| - i
  {
    i == |ps| ||
    ((|ps[i].0| <= m || !AlongFrom(ps[i].0, key, m)) && NoneLongerFrom(ps, key, m, i + 1))
  }

  /** No key of `ps` longer than `m` is a prefix of `key`. */
  predicate NoneLonger(ps: seq<(Key, int)>, key: Key, m: nat)
  {
    NoneLongerFrom(ps, key, m, 0)
  }

  lemma {:induction false} NoneLongerFromUnlisted(ps: seq<(Key, int)>, key: Key, m: nat, i: nat, j: nat)
    requires i <= |ps| && NoneLongerFrom(ps, key, m, i) && m < j <= |key|
    ensures forall k :: i <= k < |ps| ==> ps[k].0 != key[..j]
    decreases |ps| - i
  {
    if i < |ps| {
      if |ps[i].0| == j {
        AlongFromPrefix(key[..j], key, m);
      }
      NoneLongerFromUnlisted(ps, key, m, i + 1, j);
    }
  }

  /** Then the prefixes of `key` longer than `m` are not keys of `ps`. */
  lemma NoneLongerUnlisted(ps: seq<(Key, int)>, key: Key, m: nat, j: nat, d: int)
    requires NoneLonger(ps, key, m) && m < j <= |key|
    ensures LastValue(ps, key[..j], d) == d
  {
    NoneLongerFromUnlisted(ps, key, m, 0, j);
    LastValueUnlisted(ps, key[..j], d);
  }

  /** In the longest-match test tree, MatchLongest returns the value of the
      longest inserted key `p` that is a prefix of the probe; with no inserted
      key along the probe (`p` empty) it returns 0. */
  lemma LongestProbe(t: Node<int>, key: Key, p: Key)
    requires t == TestTree(LateOverwrite)
    requires |p| <= |key| && key[..|p|] == p
    requires NoneLonger(Early, key, |p|) && NoneLonger(Middle, key, |p|) && NoneLonger(LateOverwrite, key, |p|)
    requires |p| > 0 ==> Reads(LateOverwrite, p) != 0
    ensures MatchLongest(t, key, 0) == if |p| == 0 then 0 else Reads(LateOverwrite, p)
  {
    TestTreeReads(LateOverwrite, []);
    MatchLongestZeroRoot(t, key, 0);
    forall j | |p| < j <= |key|
      ensures Match(t, key[..j], 0) == 0
    {
      TestTreeReads(LateOverwrite, key[..j]);
      NoneLongerUnlisted(Early, key, |p|, j, 0);
      NoneLongerUnlisted(Middle, key, |p|, j, 0);
      NoneLongerUnlisted(LateOverwrite, key, |p|, j, 0);
    }
    if |p| == 0 {
      DeepestNone(t, key, |key|, 0);
    } else {
      TestTreeReads(LateOverwrite, p);
      DeepestFallsBack(t, key, |p|, |key|, 0);
    }
  }

  /** What those prefixes hold in the longest-match history. */
  lemma ProbeValues1()
    ensures Reads(LateOverwrite, "foo") == 1
    ensures Reads(LateOverwrite, "foobar") == 2
    ensures Reads(LateOverwrite, "bar") == 3
  {
  }

  lemma ProbeValues2()
    ensures Reads(LateOverwrite, "barbaz") == 4
    ensures Reads(LateOverwrite, "barfoo") == 5
    ensures Reads(LateOverwrite, "barfoobaz") == 6
  {
  }

  lemma ProbeValues3()
    ensures Reads(LateOverwrite, "barbar") == 7
    ensures Reads(LateOverwrite, "barbarbarbar") == 15
    ensures Reads(LateOverwrite, "barbarbarbarfoo") == 20
  {
  }

  lemma ProbeBeyondEarly1a()
    ensures NoneLonger(Early, "fooo", 3)
    ensures NoneLonger(Early, "foo", 3)
    ensures NoneLonger(Early, "foobar", 6)
    ensures NoneLonger(Early, "foobaar", 3)
    ensures NoneLonger(Early, "bar", 3)
  {
  }

  lemma ProbeBeyondEarly1b()
    ensures NoneLonger(Early, "bararar", 3)
    ensures NoneLonger(Early, "barbaz", 6)
    ensures NoneLonger(Early, "barbbbbbaz", 3)
    ensures NoneLonger(Early, "barfoo", 6)
  {
  }

  lemma ProbeBeyondEarly2a()
    ensures NoneLonger(Early, "barfoooo", 6)
    ensures NoneLonger(Early, "barfoobaz", 9)
    ensures NoneLonger(Early, "barfobaobaz", 3)
    ensures NoneLonger(Early, "barbar", 6)
    ensures NoneLonger(Early, "brrrrarbar", 0)
  {
  }

  lemma ProbeBeyondEarly2b()
    ensures NoneLonger(Early, "baaarbarbaz", 0)
    ensures NoneLonger(Early, "barbarbbbfoo", 6)
    ensures NoneLonger(Early, "barbarfvvoobaz", 6)
    ensures NoneLonger(Early, "barbbarbar", 3)
  {
  }

  lemma ProbeBeyondEarly3a()
    ensures NoneLonger(Early, "barrbarbarbaz", 3)
    ensures NoneLonger(Early, "barbaarbarfoox", 3)
    ensures NoneLonger(Early, "barbaaaaaarbarfoobaz", 3)
    ensures NoneLonger(Early, "bnarbarbarbar", 0)
    ensures NoneLonger(Early, "barbarbarbarbaaaaaz", 12)
  {
  }

  lemma ProbeBeyondEarly3b()
    ensures NoneLonger(Early, "barbarbarbarfoooooo", 15)
    ensures NoneLonger(Early, "barbarbarbarfffffoobaz", 12)
    ensures NoneLonger(Early, "xaxaxaxaxa", 0)
    ensures NoneLonger(Early, "fo", 0)
  {
  }

  lemma ProbeBeyondMiddle1a()
    ensures NoneLonger(Middle, "fooo", 3)
    ensures NoneLonger(Middle, "foo", 3)
    ensures NoneLonger(Middle, "foobar", 6)
    ensures NoneLonger(Middle, "foobaar", 3)
    ensures NoneLonger(Middle, "bar", 3)
  {
  }

  lemma ProbeBeyondMiddle1b()
    ensures NoneLonger(Middle, "bararar", 3)
    ensures NoneLonger(Middle, "barbaz", 6)
    ensures NoneLonger(Middle, "barbbbbbaz", 3)
    ensures NoneLonger(Middle, "barfoo", 6)
  {
  }

  lemma ProbeBeyondMiddle2a()
    ensures NoneLonger(Middle, "barfoooo", 6)
    ensures NoneLonger(Middle, "barfoobaz", 9)
    ensures NoneLonger(Middle, "barfobaobaz", 3)
    ensures NoneLonger(Middle, "barbar", 6)
    ensures NoneLonger(Middle, "brrrrarbar", 0)
  {
  }

  lemma ProbeBeyondMiddle2b()
    ensures NoneLonger(Middle, "baaarbarbaz", 0)
    ensures NoneLonger(Middle, "barbarbbbfoo", 6)
    ensures NoneLonger(Middle, "barbarfvvoobaz", 6)
    ensures NoneLonger(Middle, "barbbarbar", 3)
  {
  }

  lemma ProbeBeyondMiddle3a()
    ensures NoneLonger(Middle, "barrbarbarbaz", 3)
    ensures NoneLonger(Middle, "barbaarbarfoox", 3)
    ensures NoneLonger(Middle, "barbaaaaaarbarfoobaz", 3)
    ensures NoneLonger(Middle, "bnarbarbarbar", 0)
    ensures NoneLonger(Middle, "barbarbarbarbaaaaaz", 12)
  {
  }

  lemma ProbeBeyondMiddle3b()
    ensures NoneLonger(Middle, "barbarbarbarfoooooo", 15)
    ensures NoneLonger(Middle, "barbarbarbarfffffoobaz", 12)
    ensures NoneLonger(Middle, "xaxaxaxaxa", 0)
    ensures NoneLonger(Middle, "fo", 0)
  {
  }

  lemma ProbeBeyondLateOverwrite1a()
    ensures NoneLonger(LateOverwrite, "fooo", 3)
    ensures NoneLonger(LateOverwrite, "foo", 3)
    ensures NoneLonger(LateOverwrite, "foobar", 6)
    ensures NoneLonger(LateOverwrite, "foobaar", 3)
    ensures NoneLonger(LateOverwrite, "bar", 3)
  {
  }

  lemma ProbeBeyondLateOverwrite1b()
    ensures NoneLonger(LateOverwrite, "bararar", 3)
    ensures NoneLonger(LateOverwrite, "barbaz", 6)
    ensures NoneLonger(LateOverwrite, "barbbbbbaz", 3)
    ensures NoneLonger(LateOverwrite, "barfoo", 6)
  {
  }

  lemma ProbeBeyondLateOverwrite2a()
    ensures NoneLonger(LateOverwrite, "barfoooo", 6)
    ensures NoneLonger(LateOverwrite, "barfoobaz", 9)
    ensures NoneLonger(LateOverwrite, "barfobaobaz", 3)
    ensures NoneLonger(LateOverwrite, "barbar", 6)
    ensures NoneLonger(LateOverwrite, "brrrrarbar", 0)
  {
  }

  lemma ProbeBeyondLateOverwrite2b()
    ensures NoneLonger(LateOverwrite, "baaarbarbaz", 0)
    ensures NoneLonger(LateOverwrite, "barbarbbbfoo", 6)
    ensures NoneLonger(LateOverwrite, "barbarfvvoobaz", 6)
    ensures NoneLonger(LateOverwrite, "barbbarbar", 3)
  {
  }

  lemma ProbeBeyondLateOverwrite3a()
    ensures NoneLonger(LateOverwrite, "barrbarbarbaz", 3)
    ensures NoneLonger(LateOverwrite, "barbaarbarfoox", 3)
  {
  }

  lemma ProbeBeyondLateOverwrite3b()
    ensures NoneLonger(LateOverwrite, "barbaaaaaarbarfoobaz", 3)
    ensures NoneLonger(LateOverwrite, "bnarbarbarbar", 0)
  {
  }

  lemma ProbeBeyondLateOverwrite4()
    ensures NoneLonger(LateOverwrite, "barbarbarbarbaaaaaz", 12)
    ensures NoneLonger(LateOverwrite, "barbarbarbarfoooooo", 15)
    ensures NoneLonger(LateOverwrite, "barbarbarbarfffffoobaz", 12)
    ensures NoneLonger(LateOverwrite, "xaxaxaxaxa", 0)
    ensures NoneLonger(LateOverwrite, "fo", 0)
  {
  }

  lemma MatchLongestExamples1(t: Node<int>)
    requires t == TestTree(LateOverwrite)
    ensures MatchLongest(t, "fooo", 0) == 1
    ensures MatchLongest(t, "foo", 0) == 1
    ensures MatchLongest(t, "foobar", 0) == 2
    ensures MatchLongest(t, "foobaar", 0) == 1
    ensures MatchLongest(t, "bar", 0) == 3
    ensures MatchLongest(t, "bararar", 0) == 3
    ensures MatchLongest(t, "barbaz", 0) == 4
    ensures MatchLongest(t, "barbbbbbaz", 0) == 3
    ensures MatchLongest(t, "barfoo", 0) == 5
  {
    assert "fooo"[..3] == "foo";
    assert "foo"[..3] == "foo";
    assert "foobar"[..6] == "foobar";
    assert "foobaar"[..3] == "foo";
    assert "bar"[..3] == "bar";
    assert "bararar"[..3] == "bar";
    assert "barbaz"[..6] == "barbaz";
    assert "barbbbbbaz"[..3] == "bar";
    assert "barfoo"[..6] == "barfoo";
    ProbeValues1();
    ProbeValues2();
    ProbeValues3();
    ProbeBeyondEarly1a();
    ProbeBeyondEarly1b();
    ProbeBeyondMiddle1a();
    ProbeBeyondMiddle1b();
    ProbeBeyondLateOverwrite1a();
    ProbeBeyondLateOverwrite1b();
    LongestProbe(t, "fooo", "foo");
    LongestProbe(t, "foo", "foo");
    LongestProbe(t, "foobar", "foobar");
    LongestProbe(t, "foobaar", "foo");
    LongestProbe(t, "bar", "bar");
    LongestProbe(t, "bararar", "bar");
    LongestProbe(t, "barbaz", "barbaz");
    LongestProbe(t, "barbbbbbaz", "bar");
    LongestProbe(t, "barfoo", "barfoo");
  }

  lemma MatchLongestExamples2(t: Node<int>)
    requires t == TestTree(LateOverwrite)
    ensures MatchLongest(t, "barfoooo", 0) == 5
    ensures MatchLongest(t, "barfoobaz", 0) == 6
    ensures MatchLongest(t, "barfobaobaz", 0) == 3
    ensures MatchLongest(t, "barbar", 0) == 7
    ensures MatchLongest(t, "brrrrarbar", 0) == 0
    ensures MatchLongest(t, "baaarbarbaz", 0) == 0
    ensures MatchLongest(t, "barbarbbbfoo", 0) == 7
    ensures MatchLongest(t, "barbarfvvoobaz", 0) == 7
    ensures MatchLongest(t, "barbbarbar", 0) == 3
  {
    assert "barfoooo"[..6] == "barfoo";
    assert "barfoobaz"[..9] == "barfoobaz";
    assert "barfobaobaz"[..3] == "bar";
    assert "barbar"[..6] == "barbar";
    assert "brrrrarbar"[..0] == "";
    assert "baaarbarbaz"[..0] == "";
    assert "barbarbbbfoo"[..6] == "barbar";
    assert "barbarfvvoobaz"[..6] == "barbar";
    assert "barbbarbar"[..3] == "bar";
    ProbeValues1();
    ProbeValues2();
    ProbeValues3();
    ProbeBeyondEarly2a();
    ProbeBeyondEarly2b();
    ProbeBeyondMiddle2a();
    ProbeBeyondMiddle2b();
    ProbeBeyondLateOverwrite2a();
    ProbeBeyondLateOverwrite2b();
    LongestProbe(t, "barfoooo", "barfoo");
    LongestProbe(t, "barfoobaz", "barfoobaz");
    LongestProbe(t, "barfobaobaz", "bar");
    LongestProbe(t, "barbar", "barbar");
    LongestProbe(t, "brrrrarbar", "");
    LongestProbe(t, "baaarbarbaz", "");
    LongestProbe(t, "barbarbbbfoo", "barbar");
    LongestProbe(t, "barbarfvvoobaz", "barbar");
    LongestProbe(t, "barbbarbar", "bar");
  }

  lemma MatchLongestExamples3(t: Node<int>)
    requires t == TestTree(LateOverwrite)
    ensures MatchLongest(t, "barrbarbarbaz", 0) == 3
    ensures MatchLongest(t, "barbaarbarfoox", 0) == 3
    ensures MatchLongest(t, "barbaaaaaarbarfoobaz", 0) == 3
    ensures MatchLongest(t, "bnarbarbarbar", 0) == 0
    ensures MatchLongest(t, "barbarbarbarbaaaaaz", 0) == 15
    ensures MatchLongest(t, "barbarbarbarfoooooo", 0) == 20
    ensures MatchLongest(t, "barbarbarbarfffffoobaz", 0) == 15
    ensures MatchLongest(t, "xaxaxaxaxa", 0) == 0
    ensures MatchLongest(t, "fo", 0) == 0
  {
    assert "barrbarbarbaz"[..3] == "bar";
    assert "barbaarbarfoox"[..3] == "bar";
    assert "barbaaaaaarbarfoobaz"[..3] == "bar";
    assert "bnarbarbarbar"[..0] == "";
    assert "barbarbarbarbaaaaaz"[..12] == "barbarbarbar";
    assert "barbarbarbarfoooooo"[..15] == "barbarbarbarfoo";
    assert "barbarbarbarfffffoobaz"[..12] == "barbarbarbar";
    assert "xaxaxaxaxa"[..0] == "";
    assert "fo"[..0] == "";
    ProbeValues1();
    ProbeValues2();
    ProbeValues3();
    ProbeBeyondEarly3a();
    ProbeBeyondEarly3b();
    ProbeBeyondMiddle3a();
    ProbeBeyondMiddle3b();
    ProbeBeyondLateOverwrite3a();
    ProbeBeyondLateOverwrite3b();
    ProbeBeyondLateOverwrite4();
    LongestProbe(t, "barrbarbarbaz", "bar");
    LongestProbe(t, "barbaarbarfoox", "bar");
    LongestProbe(t, "barbaaaaaarbarfoobaz", "bar");
    LongestProbe(t, "bnarbarbarbar", "");
    LongestProbe(t, "barbarbarbarbaaaaaz", "barbarbarbar");
    LongestProbe(t, "barbarbarbarfoooooo", "barbarbarbarfoo");
    LongestProbe(t, "barbarbarbarfffffoobaz", "barbarbarbar");
    LongestProbe(t, "xaxaxaxaxa", "");
    LongestProbe(t, "fo", "");
  }

  /** The delete test: deleting every inserted key, in insertion order,
      leaves every exact and every longest-prefix lookup at 0. */
  lemma DeleteExamples()
    ensures forall key :: Match(DeleteAll(TestTree(Late), KeysOf(Early + Middle + Late), 0), key, 0) == 0
    ensures forall key :: MatchLongest(DeleteAll(TestTree(Late), KeysOf(Early + Middle + Late), 0), key, 0) == 0
  {
    DeleteEveryInserted(Early + Middle + Late, 0);
    MatchLongestAllZero(DeleteAll(TestTree(Late), KeysOf(Early + Middle + Late), 0), 0);
  }
}
