/**
 The two scenarios of test/csplib/interval_set_test.cpp, followed through
 the contracts of IntervalSet: after each step the store is pinned down
 exactly, and every CHECK of the test is an assertion on it.
 */
module Scenarios {
  import opened Intervals
  import opened IntervalSets

  /** "interval_set<int> : adding values", test/csplib/interval_set_test.cpp:13-48. */
  method AddingValues() returns (final: seq<Interval>)
    ensures final == [Interval(-40, -30), Interval(-10, 11)]
  {
    var ints := new IntervalSet();
    AddingCheck1(ints);

    ints.AddRange(-10, 10);
    assert ints.intervals == [Interval(-10, 10)] by {
      SameStore1(ints.intervals, Interval(-10, 10));
    }
    AddingCheck2(ints);

    // 10 touches [-10, 10): the two coalesce.
    ints.AddValue(10);
    assert ints.intervals == [Interval(-10, 11)] by {
      CoveredSingleton(Interval(-10, 10));
      RangeMerge(-10, 10, 10, 11);
      assert Range(10, 11) == {10};
      SameStore1(ints.intervals, Interval(-10, 11));
    }
    AddingCheck3(ints);

    ints.AddRange(-40, -30);
    assert ints.intervals == [Interval(-40, -30), Interval(-10, 11)] by {
      CoveredSingleton(Interval(-10, 11));
      SameStore2(ints.intervals, Interval(-40, -30), Interval(-10, 11));
    }
    AddingCheck4(ints);

    // 5 is inside [-10, 11): nothing changes.
    ints.AddValue(5);
    assert ints.intervals == [Interval(-40, -30), Interval(-10, 11)] by {
      CoveredPair(Interval(-40, -30), Interval(-10, 11));
      assert Range(-10, 11) + {5} == Range(-10, 11);
      SameStore2(ints.intervals, Interval(-40, -30), Interval(-10, 11));
    }
    AddingCheck5(ints);
    final := ints.intervals;
  }

  /** "interval_set<int> : removing values", test/csplib/interval_set_test.cpp:50-95. */
  method RemovingValues() returns (final: seq<Interval>)
    ensures final == [Interval(10, 100), Interval(200, 980)]
  {
    var ints := new IntervalSet();
    ints.AddRange(0, 1000);
    assert ints.intervals == [Interval(0, 1000)] by {
      SameStore1(ints.intervals, Interval(0, 1000));
    }
    RemovingCheck1(ints);

    // [-10, 0) only touches the store: nothing changes.
    ints.RemoveRange(-10, 0);
    assert ints.intervals == [Interval(0, 1000)] by {
      CoveredSingleton(Interval(0, 1000));
      assert Range(0, 1000) - Range(-10, 0) == Range(0, 1000);
      SameStore1(ints.intervals, Interval(0, 1000));
    }
    RemovingCheck2(ints);

    ints.RemoveValue(0);
    assert ints.intervals == [Interval(1, 1000)] by {
      CoveredSingleton(Interval(0, 1000));
      assert Range(0, 1000) - {0} == Range(1, 1000);
      SameStore1(ints.intervals, Interval(1, 1000));
    }
    RemovingCheck3(ints);

    ints.RemoveRange(0, 10);
    assert ints.intervals == [Interval(10, 1000)] by {
      CoveredSingleton(Interval(1, 1000));
      RangeCutHead(1, 1000, 0, 10);
      SameStore1(ints.intervals, Interval(10, 1000));
    }
    RemovingCheck4(ints);

    // A hole strictly inside [10, 1000): the two pieces take its place.
    ints.RemoveRange(100, 200);
    assert ints.intervals == [Interval(10, 100), Interval(200, 1000)] by {
      assert [Interval(10, 1000)][..0] == [] && [Interval(10, 1000)][1..] == [];
    }
    RemovingCheck5(ints);

    ints.RemoveRange(980, 1000);
    assert ints.intervals == [Interval(10, 100), Interval(200, 980)] by {
      CoveredPair(Interval(10, 100), Interval(200, 1000));
      assert Range(10, 100) - Range(980, 1000) == Range(10, 100);
      RangeCut(200, 1000, 980, 1000);
      assert Range(1000, 1000) == {};
      SameStore2(ints.intervals, Interval(10, 100), Interval(200, 980));
    }
    RemovingCheck6(ints);
    final := ints.intervals;
  }

  /** The CHECKs at test/csplib/interval_set_test.cpp:17-18. */
  method AddingCheck1(ints: IntervalSet)
    requires ints.Valid() && ints.intervals == []
  {
    assert !ints.Contains(0);
    assert ints.Empty();
  }

  /** The CHECKs at test/csplib/interval_set_test.cpp:23-26. */
  method AddingCheck2(ints: IntervalSet)
    requires ints.Valid() && ints.intervals == [Interval(-10, 10)]
  {
    assert ints.Contains(0);
    assert !ints.Contains(10);
    assert ints.Contains(-10);
    assert !ints.Contains(-11);
  }

  /** The CHECKs at test/csplib/interval_set_test.cpp:30-31. */
  method AddingCheck3(ints: IntervalSet)
    requires ints.Valid() && ints.intervals == [Interval(-10, 11)]
  {
    assert ints.Contains(10);
    assert !ints.Contains(11);
  }

  /** The CHECKs at test/csplib/interval_set_test.cpp:36-40. */
  method AddingCheck4(ints: IntervalSet)
    requires ints.Valid() && ints.intervals == [Interval(-40, -30), Interval(-10, 11)]
  {
    assert ints.Contains(-40);
    assert ints.Contains(-35);
    assert !ints.Contains(-30);
    assert ints.Contains(-10);
    assert !ints.Contains(-11);
  }

  /** The CHECKs at test/csplib/interval_set_test.cpp:44-46. */
  method AddingCheck5(ints: IntervalSet)
    requires ints.Valid() && ints.intervals == [Interval(-40, -30), Interval(-10, 11)]
  {
    assert ints.Contains(5);
    assert ints.Contains(0);
    assert ints.Contains(10);
  }

  /** The CHECKs at test/csplib/interval_set_test.cpp:54-57. */
  method RemovingCheck1(ints: IntervalSet)
    requires ints.Valid() && ints.intervals == [Interval(0, 1000)]
  {
    assert ints.Contains(0);
    assert !ints.Contains(-1);
    assert ints.Contains(999);
    assert !ints.Contains(1000);
  }

  /** The CHECKs at test/csplib/interval_set_test.cpp:61-64. */
  method RemovingCheck2(ints: IntervalSet)
    requires ints.Valid() && ints.intervals == [Interval(0, 1000)]
  {
    assert ints.Contains(0);
    assert !ints.Contains(-1);
    assert ints.Contains(999);
    assert !ints.Contains(1000);
  }

  /** The CHECKs at test/csplib/interval_set_test.cpp:68-69. */
  method RemovingCheck3(ints: IntervalSet)
    requires ints.Valid() && ints.intervals == [Interval(1, 1000)]
  {
    assert !ints.Contains(0);
    assert ints.Contains(1);
  }

  /** The CHECKs at test/csplib/interval_set_test.cpp:73-77. */
  method RemovingCheck4(ints: IntervalSet)
    requires ints.Valid() && ints.intervals == [Interval(10, 1000)]
  {
    assert !ints.Contains(0);
    assert !ints.Contains(9);
    assert ints.Contains(10);
    assert ints.Contains(999);
    assert !ints.Contains(1000);
  }

  /** The CHECKs at test/csplib/interval_set_test.cpp:81-86. */
  method RemovingCheck5(ints: IntervalSet)
    requires ints.Valid() && ints.intervals == [Interval(10, 100), Interval(200, 1000)]
  {
    assert ints.Contains(99);
    assert ints.Contains(200);
    assert ints.Contains(999);
    assert !ints.Contains(100);
    assert !ints.Contains(199);
    assert !ints.Contains(150);
  }

  /** The CHECKs at test/csplib/interval_set_test.cpp:90-93. */
  method RemovingCheck6(ints: IntervalSet)
    requires ints.Valid() && ints.intervals == [Interval(10, 100), Interval(200, 980)]
  {
    assert !ints.Contains(980);
    assert !ints.Contains(999);
    assert !ints.Contains(1000);
    assert ints.Contains(979);
  }

  /** What a store of two intervals covers. */
  lemma CoveredPair(a: Interval, b: Interval)
    ensures Covered([a, b]) == Span(a) + Span(b)
  {
    assert [a, b][1..] == [b];
    CoveredSingleton(b);
  }

  /** A well-formed store that covers just what iv spans is [iv]. */
  lemma SameStore1(t: seq<Interval>, iv: Interval)
    requires WellFormed(t) && iv.lower < iv.upper && Covered(t) == Span(iv)
    ensures t == [iv]
  {
    CoveredSingleton(iv);
    assert WellFormed([iv]) by {
      assert [iv][1..] == [];
    }
    WellFormedIffSeparated(t);
    WellFormedIffSeparated([iv]);
    CanonicalUnique(t, [iv]);
  }

  /** A well-formed store that covers just what a and b span, a well before b, is [a, b]. */
  lemma SameStore2(t: seq<Interval>, a: Interval, b: Interval)
    requires WellFormed(t) && a.lower < a.upper < b.lower < b.upper
    requires Covered(t) == Span(a) + Span(b)
    ensures t == [a, b]
  {
    CoveredPair(a, b);
    assert WellFormed([a, b]) by {
      assert [a, b][1..] == [b] && [b][1..] == [];
    }
    WellFormedIffSeparated(t);
    WellFormedIffSeparated([a, b]);
    CanonicalUnique(t, [a, b]);
  }
}
