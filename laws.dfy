/**
 Laws relating several calls of interval_set, each following from the
 contracts of the single operations and from the fact that a valid store
 is determined by the integers it represents.
 */
module Laws {
  import opened Intervals
  import opened IntervalSets

  /** Two well-formed stores that represent the same integers are the same store. */
  lemma SameElems(s: seq<Interval>, t: seq<Interval>)
    requires WellFormed(s) && WellFormed(t) && Covered(s) == Covered(t)
    ensures s == t
  {
    WellFormedIffSeparated(s);
    WellFormedIffSeparated(t);
    CanonicalUnique(s, t);
  }

  /**
   add_range is idempotent: once is the store a single add_range(lo, hi)
   leaves, and a second add_range(lo, hi) leaves it as it is.
   */
  method AddRangeTwice(ints: IntervalSet, lo: Value, hi: Value) returns (once: seq<Interval>)
    requires ints.Valid()
    modifies ints
    ensures WellFormed(once) && Covered(once) == old(ints.Elems()) + Range(lo, hi)
    ensures ints.Valid() && ints.intervals == once
  {
    ints.AddRange(lo, hi);
    once := ints.intervals;
    ints.AddRange(lo, hi);
    SameElems(ints.intervals, once);
  }

  /**
   remove_range is idempotent: once is the store a single remove_range(lo, hi)
   leaves, and a second remove_range(lo, hi) leaves it as it is.
   */
  method RemoveRangeTwice(ints: IntervalSet, lo: Value, hi: Value) returns (once: seq<Interval>)
    requires ints.Valid()
    modifies ints
    ensures WellFormed(once) && Covered(once) == old(ints.Elems()) - Range(lo, hi)
    ensures ints.Valid() && ints.intervals == once
  {
    ints.RemoveRange(lo, hi);
    once := ints.intervals;
    ints.RemoveRange(lo, hi);
    SameElems(ints.intervals, once);
  }

  /** Adding a range the set does not meet and removing it again gives back the very same store. */
  method AddThenRemove(ints: IntervalSet, lo: Value, hi: Value)
    requires ints.Valid() && ints.Elems() !! Range(lo, hi)
    modifies ints
    ensures ints.Valid() && ints.intervals == old(ints.intervals)
  {
    ghost var s := ints.intervals;
    ints.AddRange(lo, hi);
    ints.RemoveRange(lo, hi);
    assert ints.Elems() == Covered(s);
    SameElems(ints.intervals, s);
  }

  /** Removing a range the set holds and adding it back again gives back the very same store. */
  method RemoveThenAdd(ints: IntervalSet, lo: Value, hi: Value)
    requires ints.Valid() && Range(lo, hi) <= ints.Elems()
    modifies ints
    ensures ints.Valid() && ints.intervals == old(ints.intervals)
  {
    ghost var s := ints.intervals;
    ints.RemoveRange(lo, hi);
    ints.AddRange(lo, hi);
    assert ints.Elems() == Covered(s);
    SameElems(ints.intervals, s);
  }

  /** A new set, add_range(lo, hi), remove_range(lo, hi): the set is empty again. */
  method EmptyAgain(lo: Value, hi: Value) returns (empty: bool)
    ensures empty
  {
    var ints := new IntervalSet();
    AddThenRemove(ints, lo, hi);
    empty := ints.Empty();
  }

  /** add_value(v) leaves the same store as add_range(v, v + 1). */
  method AddValueIsAddRange(a: IntervalSet, b: IntervalSet, v: Value)
    requires a != b && a.Valid() && b.Valid() && a.intervals == b.intervals && v < MAX
    modifies a, b
    ensures a.Valid() && a.intervals == b.intervals
  {
    a.AddValue(v);
    b.AddRange(v, v + 1);
    assert Range(v, v + 1) == {v};
    SameElems(a.intervals, b.intervals);
  }

  /** remove_value(v) leaves the same store as remove_range(v, v + 1). */
  method RemoveValueIsRemoveRange(a: IntervalSet, b: IntervalSet, v: Value)
    requires a != b && a.Valid() && b.Valid() && a.intervals == b.intervals && v < MAX
    modifies a, b
    ensures a.Valid() && a.intervals == b.intervals
  {
    a.RemoveValue(v);
    b.RemoveRange(v, v + 1);
    assert Range(v, v + 1) == {v};
    SameElems(a.intervals, b.intervals);
  }

  /**
   Adding the values of [lo, hi) one at a time with add_value, in any order
   and with repeats, leaves the same store as a single add_range(lo, hi).
   */
  method AddValuesIsAddRange(a: IntervalSet, b: IntervalSet, lo: Value, hi: Value, xs: seq<Value>)
    requires a != b && a.Valid() && b.Valid() && a.intervals == b.intervals
    requires forall k :: 0 <= k < |xs| ==> xs[k] < MAX
    requires (set k | 0 <= k < |xs| :: xs[k] as int) == Range(lo, hi)
    modifies a, b
    ensures a.Valid() && a.intervals == b.intervals
  {
    ghost var s := a.Elems();
    var k := 0;
    while k < |xs|
      invariant 0 <= k <= |xs|
      invariant a.Valid() && a.Elems() == s + (set j | 0 <= j < k :: xs[j] as int)
      invariant b.Valid() && b.intervals == old(b.intervals) && b.Elems() == s
    {
      a.AddValue(xs[k]);
      assert (set j | 0 <= j < k + 1 :: xs[j] as int) == (set j | 0 <= j < k :: xs[j] as int) + {xs[k] as int};
      k := k + 1;
    }
    b.AddRange(lo, hi);
    SameElems(a.intervals, b.intervals);
  }
}
