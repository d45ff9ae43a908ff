/**
 csplib::interval_set: a set of integers kept as an ordered store of
 disjoint, non-adjacent half-open intervals. The ordered std::set of the
 container is the sequence `intervals`; a cursor into it is an index.
 */
module IntervalSets {
  import opened Intervals
  import opened Sweeps

  class IntervalSet {
    /** m_intervals, in the order of interval::operator<. */
    var intervals: seq<Interval>

    /** The representation invariant every operation keeps. */
    ghost predicate Valid()
      reads this
    {
      WellFormed(intervals)
    }

    /** The set of integers the store represents. */
    ghost function Elems(): set<int>
      reads this
    {
      Covered(intervals)
    }

    /** A new set is empty. */
    constructor ()
      ensures Valid() && intervals == [] && Elems() == {}
    {
      intervals := [];
    }

    /** empty(): no stored interval, which on a valid store means no element. */
    function Empty(): (r: bool)
      reads this
      ensures r <==> |intervals| == 0
      ensures Valid() ==> (r <==> Elems() == {})
    {
      if intervals != [] then
        InCovered(intervals, intervals[0].lower);
        false
      else
        true
    }

    /**
     contains(v): the last interval that is not above the probe (v, MAX) is
     the only one that can hold v.
     */
    function Contains(v: Value): (r: bool)
      reads this
      requires Valid()
      ensures r <==> exists i :: 0 <= i < |intervals| && intervals[i].lower <= v < intervals[i].upper
      ensures r <==> v in Elems()
    {
      var probe := Interval(v, MAX);
      InCovered(intervals, v);
      WellFormedIffSeparated(intervals);
      SeparatedIsSorted(intervals);
      UpperBoundSplits(intervals, probe);
      if Empty() then false
      else
        var it := UpperBound(intervals, probe);
        if it == 0 then false
        else
          var it := it - 1;
          intervals[it].lower <= v && intervals[it].upper > v
    }

    /**
     emplace_hint: inserts iv at the place lower_bound finds for it unless it
     is stored there already; on a well-formed store an exact hint is where
     it lands.
     */
    method EmplaceHint(hint: nat, iv: Interval)
      requires hint <= |intervals|
      modifies this
      ensures var p := LowerBound(old(intervals), iv);
        if p < |old(intervals)| && old(intervals)[p] == iv then intervals == old(intervals)
        else intervals == old(intervals)[..p] + [iv] + old(intervals)[p..]
      ensures WellFormed(old(intervals)) && HintExact(old(intervals), hint, iv) ==>
        intervals == old(intervals)[..hint] + [iv] + old(intervals)[hint..]
    {
      var p := LowerBound(intervals, iv);
      if WellFormed(intervals) && HintExact(intervals, hint, iv) {
        WellFormedIffSeparated(intervals);
        SeparatedIsSorted(intervals);
        HintIsLowerBound(intervals, hint, iv);
      }
      if p < |intervals| && intervals[p] == iv {
        return;
      }
      intervals := intervals[..p] + [iv] + intervals[p..];
    }

    /** add_value(v) is add_range(v, v + 1); v + 1 must not overflow. */
    method AddValue(v: Value)
      requires Valid() && v < MAX
      modifies this
      ensures Valid()
      ensures Elems() == old(Elems()) + {v}
    {
      AddRange(v, v + 1);
      assert Range(v, v + 1) == {v};
    }

    /**
     add_range(lo, hi): absorbs every stored interval that overlaps or
     touches [lo, hi) into one interval.
     */
    method AddRange(lo: Value, hi: Value)
      requires Valid()
      modifies this
      ensures Valid()
      ensures lo >= hi ==> intervals == old(intervals)
      ensures Elems() == old(Elems()) + Range(lo, hi)
      ensures lo < hi ==> !Empty()
    {
      if lo >= hi {
        return;
      }
      if Empty() {
        EmplaceHint(|intervals|, Interval(lo, hi));
        CoveredSingleton(Interval(lo, hi));
        return;
      }
      ghost var s := intervals;
      ghost var goal := Covered(s) + Range(lo, hi);
      var valLo: Value, valHi: Value := lo, hi;
      var it := LowerBound(intervals, Interval(valLo, valLo));
      LowerBoundAtPoint(intervals, valLo, it);
      while it < |intervals| && intervals[it].lower <= valHi
        invariant WellFormed(intervals) && AtPoint(intervals, it, valLo)
        invariant valLo == lo && hi <= valHi
        invariant Covered(intervals) + Range(lo, valHi) == goal
        decreases |intervals|
      {
        AbsorbNext(intervals, it, valLo, valHi, goal);
        valHi := Max(valHi, intervals[it].upper);
        intervals := intervals[..it] + intervals[it + 1..];
      }
      it, valLo, valHi := MergePrevious(it, valLo, valHi, goal);
      EmplaceHint(it, Interval(valLo, valHi));
    }

    /**
     add_range, lines 57-68: the interval before the cursor, when it
     overlaps or touches [valLo, valHi), is erased and joins the new
     interval; the cursor then points where the new interval belongs.
     */
    method MergePrevious(it: nat, valLo: Value, valHi: Value, ghost goal: set<int>)
      returns (at: nat, newLo: Value, newHi: Value)
      requires WellFormed(intervals) && AtPoint(intervals, it, valLo) && valLo < valHi
      requires !(it < |intervals| && intervals[it].lower <= valHi)
      requires Covered(intervals) + Range(valLo, valHi) == goal
      modifies this
      ensures if 0 < it && old(intervals)[it - 1].upper >= valLo then
          && at == it - 1 && intervals == old(intervals)[..it - 1] + old(intervals)[it..]
          && newLo == old(intervals)[it - 1].lower && newHi == Max(old(intervals)[it - 1].upper, valHi)
        else
          at == it && intervals == old(intervals) && newLo == valLo && newHi == valHi
      ensures WellFormed(intervals) && Settles(intervals, at, Interval(newLo, newHi), goal)
    {
      at, newLo, newHi := it, valLo, valHi;
      if at > 0 {
        at := at - 1;
        if intervals[at].upper >= valLo {
          AddRangeMerged(intervals, at, valLo, valHi, goal);
          newLo := intervals[at].lower;
          newHi := Max(intervals[at].upper, valHi);
          intervals := intervals[..at] + intervals[at + 1..];
        } else {
          at := at + 1;
          AddRangeApart(intervals, at, valLo, valHi, goal);
        }
      } else {
        AddRangeApart(intervals, at, valLo, valHi, goal);
      }
    }

    /** remove_value(v) is remove_range(v, v + 1); v + 1 must not overflow. */
    method RemoveValue(v: Value)
      requires Valid() && v < MAX
      modifies this
      ensures Valid()
      ensures Elems() == old(Elems()) - {v}
    {
      RemoveRange(v, v + 1);
      assert Range(v, v + 1) == {v};
    }

    /**
     remove_range(lo, hi): erases every stored interval that meets [lo, hi)
     and puts back the parts of them left and right of it.
     */
    method RemoveRange(lo: Value, hi: Value)
      requires Valid()
      modifies this
      ensures Valid()
      ensures lo >= hi || old(intervals) == [] ==> intervals == old(intervals)
      ensures Elems() == old(Elems()) - Range(lo, hi)
      ensures forall k :: lo < hi && 0 <= k < |old(intervals)| && old(intervals)[k].lower < lo && hi < old(intervals)[k].upper ==>
        intervals == old(intervals)[..k] + [Interval(old(intervals)[k].lower, lo), Interval(hi, old(intervals)[k].upper)] + old(intervals)[k + 1..]
    {
      if lo >= hi {
        return;
      }
      if Empty() {
        return;
      }
      ghost var s := intervals;
      ghost var goal := Covered(s) - Range(lo, hi);
      var it := LowerBound(intervals, Interval(lo, lo));
      LowerBoundAtPoint(intervals, lo, it);
      var sliceHi: Value := hi;
      var sliceLo: Value := lo;
      while it < |intervals| && hi > intervals[it].lower
        invariant WellFormed(intervals) && AtPoint(intervals, it, lo)
        invariant hi < sliceHi ==> it == |intervals| || sliceHi < intervals[it].lower
        invariant (Covered(intervals) - Range(lo, hi)) + Range(hi, sliceHi) == goal
        decreases |intervals|
      {
        SliceNext(intervals, it, lo, hi, sliceHi, goal);
        sliceHi := intervals[it].upper;
        intervals := intervals[..it] + intervals[it + 1..];
      }
      it, sliceLo, sliceHi := CutPrevious(it, lo, hi, sliceHi, goal);
      it := PutBackLeft(it, sliceLo, lo, hi, sliceHi, goal);
      PutBackRight(it, lo, hi, sliceHi, goal);
      HoleCuts(s, intervals, lo, hi);
    }

    /**
     remove_range, lines 99-109: the interval before the cursor, when it
     reaches past lo, is erased as well, and its ends become the extremes
     slice_lo and slice_hi of what is cut.
     */
    method CutPrevious(it: nat, lo: Value, hi: Value, sliceHi: Value, ghost goal: set<int>)
      returns (at: nat, newLo: Value, newHi: Value)
      requires WellFormed(intervals) && AtPoint(intervals, it, lo) && lo < hi
      requires !(it < |intervals| && hi > intervals[it].lower)
      requires hi < sliceHi ==> it == |intervals| || sliceHi < intervals[it].lower
      requires (Covered(intervals) - Range(lo, hi)) + Range(hi, sliceHi) == goal
      modifies this
      ensures if 0 < it && lo < old(intervals)[it - 1].upper then
          && at == it - 1 && intervals == old(intervals)[..it - 1] + old(intervals)[it..]
          && newLo == old(intervals)[it - 1].lower && newHi == Max(old(intervals)[it - 1].upper, sliceHi)
        else
          at == it && intervals == old(intervals) && newLo == lo && newHi == sliceHi
      ensures RoomFor(intervals, at, newLo, lo, hi, newHi)
      ensures Covered(intervals[..at]) + Range(newLo, lo) + Range(hi, newHi) + Covered(intervals[at..]) == goal
    {
      at, newLo, newHi := it, lo, sliceHi;
      if at > 0 {
        at := at - 1;
        if lo < intervals[at].upper {
          RemoveRangeStraddling(intervals, at, lo, hi, sliceHi, goal);
          newLo := intervals[at].lower;
          newHi := Max(intervals[at].upper, sliceHi);
          intervals := intervals[..at] + intervals[at + 1..];
        } else {
          at := at + 1;
          RemoveRangeApart(intervals, at, lo, hi, sliceHi, goal);
        }
      } else {
        RemoveRangeApart(intervals, at, lo, hi, sliceHi, goal);
      }
    }

    /**
     remove_range, line 116: the piece [sliceLo, lo) of the erased intervals
     goes back at the cursor when it is not empty. The cursor still
     designates the same interval, which then stands one place further.
     */
    method PutBackLeft(it: nat, sliceLo: Value, lo: Value, hi: Value, sliceHi: Value, ghost goal: set<int>)
      returns (next: nat)
      requires RoomFor(intervals, it, sliceLo, lo, hi, sliceHi)
      requires Covered(intervals[..it]) + Range(sliceLo, lo) + Range(hi, sliceHi) + Covered(intervals[it..]) == goal
      modifies this
      ensures next == if sliceLo < lo then it + 1 else it
      ensures intervals == old(intervals)[..it] + (if sliceLo < lo then [Interval(sliceLo, lo)] else []) + old(intervals)[it..]
      ensures RoomFor(intervals, next, lo, lo, hi, sliceHi)
      ensures Covered(intervals[..next]) + Range(lo, lo) + Range(hi, sliceHi) + Covered(intervals[next..]) == goal
    {
      next := it;
      if sliceLo < lo {
        PutLeft(intervals, it, sliceLo, lo, hi, sliceHi, goal);
        EmplaceHint(it, Interval(sliceLo, lo));
        next := it + 1;
      } else {
        assert intervals[..it] + [] == intervals[..it];
      }
    }

    /**
     remove_range, line 117: the piece [hi, sliceHi) of the erased intervals
     goes back at the cursor when it is not empty.
     */
    method PutBackRight(it: nat, lo: Value, hi: Value, sliceHi: Value, ghost goal: set<int>)
      requires RoomFor(intervals, it, lo, lo, hi, sliceHi)
      requires Covered(intervals[..it]) + Range(lo, lo) + Range(hi, sliceHi) + Covered(intervals[it..]) == goal
      modifies this
      ensures intervals == old(intervals)[..it] + (if sliceHi > hi then [Interval(hi, sliceHi)] else []) + old(intervals)[it..]
      ensures WellFormed(intervals) && Covered(intervals) == goal
    {
      if sliceHi > hi {
        PutRight(intervals, it, lo, hi, sliceHi, goal);
        EmplaceHint(it, Interval(hi, sliceHi));
      } else {
        NoRight(intervals, it, lo, hi, sliceHi, goal);
        assert intervals[..it] + [] + intervals[it..] == intervals;
      }
    }
  }
}
