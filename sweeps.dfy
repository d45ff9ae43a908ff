/**
 The steps of add_range and remove_range, each stated on the store t as it
 stands when the step is taken and on the cursor i into it.
 */
module Sweeps {
  import opened Intervals

  /**
   The cursor i stands where lower_bound finds the probe [x, x): the
   interval before it (if any) starts below x, the one under it (if any)
   at or after x.
   */
  predicate AtPoint(t: seq<Interval>, i: nat, x: int)
  {
    i <= |t| && (i == 0 || t[i - 1].lower < x) && (i == |t| || x <= t[i].lower)
  }

  /** lower_bound with the probe (lo, lo) finds the first interval starting at or after lo. */
  lemma LowerBoundOfPoint(s: seq<Interval>, lo: Value)
    requires Separated(s)
    ensures Sorted(s)
    ensures var p := LowerBound(s, Interval(lo, lo));
      && (forall j :: 0 <= j < p ==> s[j].lower < lo)
      && (forall j :: p <= j < |s| ==> lo <= s[j].lower)
  {
    SeparatedIsSorted(s);
    LowerBoundSplits(s, Interval(lo, lo));
  }

  /** On a well-formed store, AtPoint singles out the position lower_bound returns. */
  lemma LowerBoundAtPoint(t: seq<Interval>, x: Value, i: nat)
    requires WellFormed(t)
    ensures AtPoint(t, LowerBound(t, Interval(x, x)), x)
    ensures AtPoint(t, i, x) <==> i == LowerBound(t, Interval(x, x))
  {
    WellFormedIffSeparated(t);
    LowerBoundOfPoint(t, x);
  }

  /** The neighbours of the interval at i in a well-formed store. */
  lemma Neighbours(t: seq<Interval>, i: nat)
    requires WellFormed(t) && i < |t|
    ensures t[i].lower < t[i].upper
    ensures 0 < i ==> t[i - 1].upper < t[i].lower
    ensures i + 1 < |t| ==> t[i].upper < t[i + 1].lower
  {
    WellFormedIffSeparated(t);
  }

  /** The runs left standing before position m and from position q on. */
  lemma Runs(s: seq<Interval>, m: nat, q: nat)
    requires Separated(s) && m <= q <= |s|
    ensures Separated(s[..m]) && Separated(s[q..])
  {
    SeparatedErase(s, m, |s|);
    assert s[..m] + s[|s|..] == s[..m];
    SeparatedErase(s, 0, q);
    assert s[..0] + s[q..] == s[q..];
  }

  /** Every prefix of a well-formed store is well formed. */
  lemma {:induction false} WellFormedPrefix(t: seq<Interval>, m: nat)
    requires WellFormed(t) && m <= |t|
    ensures WellFormed(t[..m])
    decreases m
  {
    if m > 0 {
      WellFormedPrefix(t[1..], m - 1);
      assert t[..m][1..] == t[1..][..m - 1];
    }
  }

  /** Every suffix of a well-formed store is well formed. */
  lemma {:induction false} WellFormedSuffix(t: seq<Interval>, m: nat)
    requires WellFormed(t) && m <= |t|
    ensures WellFormed(t[m..])
    decreases m
  {
    if m > 0 {
      WellFormedSuffix(t[1..], m - 1);
      assert t[1..][m - 1..] == t[m..];
    }
  }

  /** A well-formed store cut in two at m: two well-formed runs that cover what it covers. */
  lemma SplitRuns(t: seq<Interval>, m: nat)
    requires WellFormed(t) && m <= |t|
    ensures t[..m] + t[m..] == t
    ensures WellFormed(t[..m]) && WellFormed(t[m..])
    ensures Covered(t) == Covered(t[..m]) + Covered(t[m..])
    ensures 0 < m ==> t[..m][m - 1] == t[m - 1]
    ensures m < |t| ==> t[m..][0] == t[m]
  {
    WellFormedPrefix(t, m);
    WellFormedSuffix(t, m);
    CoveredSplit(t, m);
  }

  /** In a separated run every interval ends no later than the last one. */
  lemma LastUpperBelow(a: seq<Interval>, bound: int)
    requires Separated(a)
    requires |a| == 0 || a[|a| - 1].upper < bound
    ensures forall i :: 0 <= i < |a| ==> a[i].upper < bound
  {
  }

  /** In a separated run every interval starts no earlier than the first one. */
  lemma FirstLowerAbove(b: seq<Interval>, bound: int)
    requires Separated(b)
    requires |b| == 0 || bound < b[0].lower
    ensures forall i :: 0 <= i < |b| ==> bound < b[i].lower
  {
  }

  /** Two runs put side by side when no piece goes between them. */
  lemma NoFragment(a: seq<Interval>, b: seq<Interval>, x: int)
    requires WellFormed(a) && WellFormed(b)
    requires |a| == 0 || a[|a| - 1].upper < x
    requires |b| == 0 || x <= b[0].lower
    ensures WellFormed(a + b) && Covered(a + b) == Covered(a) + Covered(b)
  {
    WellFormedIffSeparated(a);
    WellFormedIffSeparated(b);
    LastUpperBelow(a, x);
    FirstLowerAbove(b, x - 1);
    SeparatedJoin(a, b, x);
    WellFormedIffSeparated(a + b);
    CoveredConcat(a, b);
  }

  /** One piece put back between two runs, exactly where the hint points. */
  lemma FragmentPlaced(a: seq<Interval>, iv: Interval, b: seq<Interval>)
    requires WellFormed(a) && WellFormed(b) && iv.lower < iv.upper
    requires |a| == 0 || a[|a| - 1].upper < iv.lower
    requires |b| == 0 || iv.upper < b[0].lower
    ensures WellFormed(a + b) && HintExact(a + b, |a|, iv)
    ensures (a + b)[..|a|] + [iv] + (a + b)[|a|..] == a + [iv] + b
    ensures WellFormed(a + [iv]) && (a + [iv])[|a + [iv]| - 1].upper == iv.upper
    ensures WellFormed(a + [iv] + b)
    ensures Covered(a + [iv]) == Covered(a) + Span(iv)
    ensures Covered(a + [iv] + b) == Covered(a) + Span(iv) + Covered(b)
  {
    var t := a + [iv];
    assert WellFormed(a + b) && (a + b)[..|a|] == a && (a + b)[|a|..] == b by {
      NoFragment(a, b, iv.lower);
    }
    assert HintExact(a + b, |a|, iv) by {
      if 0 < |a| {
        Neighbours(a, |a| - 1);
      }
    }
    assert WellFormed(t) && Covered(t) == Covered(a) + Span(iv) by {
      assert WellFormed([iv]) by {
        assert [iv][1..] == [];
      }
      NoFragment(a, [iv], iv.lower);
      CoveredSingleton(iv);
    }
    assert WellFormed(t + b) && Covered(t + b) == Covered(t) + Covered(b) by {
      NoFragment(t, b, iv.upper + 1);
    }
  }

  /** Erasing the interval at i keeps the store well formed and removes just its span. */
  lemma EraseAt(t: seq<Interval>, i: nat)
    requires WellFormed(t) && i < |t|
    ensures var e := t[..i] + t[i + 1..];
      && WellFormed(e) && |e| == |t| - 1
      && (0 < i ==> e[i - 1] == t[i - 1])
      && (i < |e| ==> e[i] == t[i + 1])
      && Covered(t) == Covered(e) + Span(t[i])
  {
    var e := t[..i] + t[i + 1..];
    WellFormedIffSeparated(t);
    SeparatedErase(t, i, i + 1);
    WellFormedIffSeparated(e);
    CoveredErase(t, i);
  }

  /** iv put in at m, between the intervals on either side of the gap it fits. */
  lemma Place(t: seq<Interval>, m: nat, iv: Interval)
    requires WellFormed(t) && m <= |t| && iv.lower < iv.upper
    requires m == 0 || t[m - 1].upper < iv.lower
    requires m == |t| || iv.upper < t[m].lower
    ensures HintExact(t, m, iv)
    ensures WellFormed(t[..m] + [iv] + t[m..])
    ensures Covered(t[..m] + [iv] + t[m..]) == Covered(t) + Span(iv)
  {
    SplitRuns(t, m);
    FragmentPlaced(t[..m], iv, t[m..]);
  }

  /** Putting y just after an x put in between a and b puts the two in together. */
  lemma InsertAfterInsert(a: seq<Interval>, x: Interval, y: Interval, b: seq<Interval>)
    ensures (a + [x] + b)[..|a| + 1] + [y] + (a + [x] + b)[|a| + 1..] == a + [x, y] + b
  {
    var t := a + [x] + b;
    assert t[..|a| + 1] == a + [x] && t[|a| + 1..] == b;
  }

  /** A set lying below lo does not meet [lo, hi). */
  lemma BelowIsApart(A: set<int>, lo: int, hi: int)
    requires forall x :: x in A ==> x < lo
    ensures A !! Range(lo, hi)
  {
  }

  /** A set lying at or above hi does not meet [lo, hi). */
  lemma AboveIsApart(A: set<int>, lo: int, hi: int)
    requires forall x :: x in A ==> hi <= x
    ensures A !! Range(lo, hi)
  {
  }

  /** Nothing on either side of the gap at m meets [lo, hi). */
  lemma Apart(t: seq<Interval>, m: nat, lo: int, hi: int)
    requires WellFormed(t) && m <= |t|
    requires m == 0 || t[m - 1].upper <= lo
    requires m == |t| || hi <= t[m].lower
    ensures Covered(t) - Range(lo, hi) == Covered(t[..m]) + Covered(t[m..])
  {
    var a, b := t[..m], t[m..];
    assert t == a + b;
    assert Covered(a) !! Range(lo, hi) && Covered(b) !! Range(lo, hi) by {
      WellFormedIffSeparated(t);
      Runs(t, m, m);
      LastUpperBelow(a, lo + 1);
      CoveredBelow(a, lo);
      FirstLowerAbove(b, hi - 1);
      CoveredAtLeast(b, hi);
      BelowIsApart(Covered(a), lo, hi);
      AboveIsApart(Covered(b), lo, hi);
    }
    CoveredConcat(a, b);
  }

  /**
   One turn of the sweep of add_range, lines 52-55: the interval under the
   cursor starts no later than valHi, so its span joins [lo, valHi) and it
   is erased; the cursor then stands at the same place for lo.
   */
  lemma AbsorbNext(t: seq<Interval>, i: nat, lo: Value, valHi: Value, goal: set<int>)
    requires WellFormed(t) && AtPoint(t, i, lo) && lo <= valHi
    requires i < |t| && t[i].lower <= valHi
    requires Covered(t) + Range(lo, valHi) == goal
    ensures var e := t[..i] + t[i + 1..];
      && WellFormed(e) && AtPoint(e, i, lo)
      && Covered(e) + Range(lo, Max(valHi, t[i].upper)) == goal
  {
    EraseAt(t, i);
    Neighbours(t, i);
    RangeMerge(lo, valHi, t[i].lower, t[i].upper);
  }

  /**
   The end of add_range: iv belongs exactly at the hint m of t, and with it
   put there the store is well formed and covers goal.
   */
  predicate Settles(t: seq<Interval>, m: nat, iv: Interval, goal: set<int>)
  {
    && HintExact(t, m, iv)
    && WellFormed(t[..m] + [iv] + t[m..])
    && Covered(t[..m] + [iv] + t[m..]) == goal
  }

  /**
   The end of add_range, lines 57-70, when the interval before the cursor
   (at m) overlaps or touches [lo, valHi): it is erased too and the merged
   interval goes exactly where the hint m then points.
   */
  lemma AddRangeMerged(t: seq<Interval>, m: nat, lo: Value, valHi: Value, goal: set<int>)
    requires WellFormed(t) && m < |t| && AtPoint(t, m + 1, lo) && lo <= valHi
    requires !(m + 1 < |t| && t[m + 1].lower <= valHi)
    requires t[m].upper >= lo
    requires Covered(t) + Range(lo, valHi) == goal
    ensures var e, iv := t[..m] + t[m + 1..], Interval(t[m].lower, Max(t[m].upper, valHi));
      WellFormed(e) && Settles(e, m, iv, goal)
  {
    var e, iv := t[..m] + t[m + 1..], Interval(t[m].lower, Max(t[m].upper, valHi));
    EraseAt(t, m);
    Neighbours(t, m);
    if 0 < m {
      Neighbours(t, m - 1);
    }
    Place(e, m, iv);
    RangeMerge(t[m].lower, t[m].upper, lo, valHi);
  }

  /**
   The end of add_range, lines 57-70, when the interval before the cursor
   (if any) ends before lo: [lo, valHi) goes exactly where the hint m points.
   */
  lemma AddRangeApart(t: seq<Interval>, m: nat, lo: Value, valHi: Value, goal: set<int>)
    requires WellFormed(t) && AtPoint(t, m, lo) && lo < valHi
    requires !(m < |t| && t[m].lower <= valHi)
    requires m == 0 || t[m - 1].upper < lo
    requires Covered(t) + Range(lo, valHi) == goal
    ensures var iv := Interval(lo, valHi);
      Settles(t, m, iv, goal)
  {
    Place(t, m, Interval(lo, valHi));
  }

  /**
   One turn of the sweep of remove_range, lines 94-97: the interval under
   the cursor starts below hi, so what it holds outside [lo, hi) is
   [hi, upper), the new slice_hi, and it is erased.
   */
  lemma SliceNext(t: seq<Interval>, i: nat, lo: Value, hi: Value, sliceHi: Value, goal: set<int>)
    requires WellFormed(t) && AtPoint(t, i, lo) && lo <= hi
    requires i < |t| && hi > t[i].lower
    requires hi < sliceHi ==> sliceHi < t[i].lower
    requires (Covered(t) - Range(lo, hi)) + Range(hi, sliceHi) == goal
    ensures var e := t[..i] + t[i + 1..];
      && WellFormed(e) && AtPoint(e, i, lo)
      && (hi < t[i].upper ==> i == |e| || t[i].upper < e[i].lower)
      && (Covered(e) - Range(lo, hi)) + Range(hi, t[i].upper) == goal
  {
    EraseAt(t, i);
    Neighbours(t, i);
    RangeCutHead(t[i].lower, t[i].upper, lo, hi);
    assert Range(hi, sliceHi) == {};
  }

  /**
   remove_range, line 95, keeps the upper bound of the last interval it
   erases rather than a maximum: in a well-formed store that one has the
   greatest upper bound of every interval of the run erased.
   */
  lemma LastUpperIsGreatest(s: seq<Interval>, p: nat, q: nat)
    requires WellFormed(s) && p < q <= |s|
    ensures forall j :: p <= j < q ==> s[j].upper <= s[q - 1].upper
  {
    WellFormedIffSeparated(s);
  }

  /**
   The pieces of remove_range, lines 111-117, fit the gap at m of t: [l, lo)
   after the interval before it and [hi, u) before the interval after it.
   */
  predicate RoomFor(t: seq<Interval>, m: nat, l: int, lo: int, hi: int, u: int)
  {
    && WellFormed(t) && m <= |t| && l <= lo < hi
    && (m == 0 || (t[m - 1].upper <= lo && (l < lo ==> t[m - 1].upper < l)))
    && (m == |t| || (hi <= t[m].lower && (hi < u ==> u < t[m].lower)))
  }

  /**
   The end of remove_range, lines 99-109, when the interval before the
   cursor (at m) reaches past lo: it is erased as well, and what is left of
   the erased intervals outside [lo, hi) is [l, lo) and [hi, u).
   */
  lemma RemoveRangeStraddling(t: seq<Interval>, m: nat, lo: Value, hi: Value, sliceHi: Value, goal: set<int>)
    requires WellFormed(t) && m < |t| && AtPoint(t, m + 1, lo) && lo < hi
    requires !(m + 1 < |t| && hi > t[m + 1].lower)
    requires hi < sliceHi ==> m + 1 == |t| || sliceHi < t[m + 1].lower
    requires lo < t[m].upper
    requires (Covered(t) - Range(lo, hi)) + Range(hi, sliceHi) == goal
    ensures var e, l, u := t[..m] + t[m + 1..], t[m].lower, Max(t[m].upper, sliceHi);
      && RoomFor(e, m, l, lo, hi, u)
      && Covered(e[..m]) + Range(l, lo) + Range(hi, u) + Covered(e[m..]) == goal
  {
    var e, l, u := t[..m] + t[m + 1..], t[m].lower, Max(t[m].upper, sliceHi);
    EraseAt(t, m);
    assert RoomFor(e, m, l, lo, hi, u) by {
      Neighbours(t, m);
      if 0 < m {
        Neighbours(t, m - 1);
      }
    }
    assert Covered(e) - Range(lo, hi) == Covered(e[..m]) + Covered(e[m..]) by {
      Apart(e, m, lo, hi);
    }
    assert Span(t[m]) - Range(lo, hi) + Range(hi, sliceHi) == Range(l, lo) + Range(hi, u) by {
      Neighbours(t, m);
      StraddledSpan(l, t[m].upper, lo, hi, sliceHi);
    }
    StraddleUnion(goal, Covered(t), Range(lo, hi), Range(hi, sliceHi), Covered(e), Span(t[m]),
      Covered(e[..m]), Covered(e[m..]), Range(l, lo), Range(hi, u));
  }

  /** What is left of [l, v) and [hi, w) outside [lo, hi) when [l, v) straddles lo. */
  lemma StraddledSpan(l: int, v: int, lo: int, hi: int, w: int)
    requires l <= lo < v && lo < hi
    ensures Range(l, v) - Range(lo, hi) + Range(hi, w) == Range(l, lo) + Range(hi, if v < w then w else v)
  {
    RangeCut(l, v, lo, hi);
    if v < w {
      RangeGrow(hi, v, w);
    } else {
      RangeGrow(hi, w, v);
    }
  }

  /** The set algebra that puts the pieces of a straddling cut together. */
  lemma StraddleUnion(goal: set<int>, c: set<int>, r: set<int>, h: set<int>, e: set<int>, sp: set<int>,
                      a: set<int>, b: set<int>, left: set<int>, right: set<int>)
    requires goal == (c - r) + h && c == e + sp
    requires e - r == a + b && sp - r + h == left + right
    ensures a + left + right + b == goal
  {
    assert c - r == (e - r) + (sp - r);
  }

  /**
   The end of remove_range, lines 99-109, when the interval before the
   cursor (if any) ends by lo: what is left outside [lo, hi) is [hi, sliceHi).
   */
  lemma RemoveRangeApart(t: seq<Interval>, m: nat, lo: Value, hi: Value, sliceHi: Value, goal: set<int>)
    requires WellFormed(t) && AtPoint(t, m, lo) && lo < hi
    requires !(m < |t| && hi > t[m].lower)
    requires hi < sliceHi ==> m == |t| || sliceHi < t[m].lower
    requires m == 0 || t[m - 1].upper <= lo
    requires (Covered(t) - Range(lo, hi)) + Range(hi, sliceHi) == goal
    ensures RoomFor(t, m, lo, lo, hi, sliceHi)
    ensures Covered(t[..m]) + Range(lo, lo) + Range(hi, sliceHi) + Covered(t[m..]) == goal
  {
    Apart(t, m, lo, hi);
    assert Range(lo, lo) == {};
  }

  /**
   remove_range, line 116: the piece [l, lo) goes back exactly where the
   hint m points, and the cursor past it leaves room for [hi, u) alone.
   */
  lemma PutLeft(t: seq<Interval>, m: nat, l: Value, lo: Value, hi: Value, u: Value, goal: set<int>)
    requires RoomFor(t, m, l, lo, hi, u) && l < lo
    requires Covered(t[..m]) + Range(l, lo) + Range(hi, u) + Covered(t[m..]) == goal
    ensures HintExact(t, m, Interval(l, lo))
    ensures var t1 := t[..m] + [Interval(l, lo)] + t[m..];
      && t1[..m + 1] == t[..m] + [Interval(l, lo)] && t1[m + 1..] == t[m..]
      && RoomFor(t1, m + 1, lo, lo, hi, u)
      && Covered(t1[..m + 1]) + Range(lo, lo) + Range(hi, u) + Covered(t1[m + 1..]) == goal
  {
    var a, b, left := t[..m], t[m..], Interval(l, lo);
    var t1 := a + [left] + b;
    SplitRuns(t, m);
    assert && WellFormed(a + [left] + b) && HintExact(a + b, |a|, left)
           && Covered(a + [left]) == Covered(a) + Span(left) by {
      FragmentPlaced(a, left, b);
    }
    assert t1[..m + 1] == a + [left] && t1[m + 1..] == b;
    assert Range(lo, lo) == {};
  }

  /**
   remove_range, line 117: the piece [hi, u) goes back exactly where the
   hint m points, and the store then covers what it should.
   */
  lemma PutRight(t: seq<Interval>, m: nat, lo: Value, hi: Value, u: Value, goal: set<int>)
    requires RoomFor(t, m, lo, lo, hi, u) && hi < u
    requires Covered(t[..m]) + Range(lo, lo) + Range(hi, u) + Covered(t[m..]) == goal
    ensures HintExact(t, m, Interval(hi, u))
    ensures WellFormed(t[..m] + [Interval(hi, u)] + t[m..])
    ensures Covered(t[..m] + [Interval(hi, u)] + t[m..]) == goal
  {
    var a, b, right := t[..m], t[m..], Interval(hi, u);
    SplitRuns(t, m);
    assert && WellFormed(a + [right] + b) && HintExact(a + b, |a|, right)
           && Covered(a + [right] + b) == Covered(a) + Span(right) + Covered(b) by {
      FragmentPlaced(a, right, b);
    }
    assert Range(lo, lo) == {};
  }

  /** remove_range, line 117, when [hi, u) is empty: nothing goes back. */
  lemma NoRight(t: seq<Interval>, m: nat, lo: Value, hi: Value, u: Value, goal: set<int>)
    requires RoomFor(t, m, lo, lo, hi, u) && u <= hi
    requires Covered(t[..m]) + Range(lo, lo) + Range(hi, u) + Covered(t[m..]) == goal
    ensures Covered(t) == goal
  {
    CoveredSplit(t, m);
    assert Range(lo, lo) == {} && Range(hi, u) == {};
  }

  /**
   Cutting [lo, hi) strictly inside the interval at k leaves the two pieces
   [lower, lo) and [hi, upper) in its place.
   */
  lemma HoleCut(s: seq<Interval>, k: nat, lo: Value, hi: Value)
    requires WellFormed(s) && k < |s|
    requires s[k].lower < lo < hi < s[k].upper
    ensures var r := s[..k] + [Interval(s[k].lower, lo), Interval(hi, s[k].upper)] + s[k + 1..];
      WellFormed(r) && Covered(r) == Covered(s) - Range(lo, hi)
  {
    var left, right := Interval(s[k].lower, lo), Interval(hi, s[k].upper);
    var e := s[..k] + s[k + 1..];
    var t1 := e[..k] + [left] + e[k..];
    var r := s[..k] + [left, right] + s[k + 1..];
    assert WellFormed(e) && |e| == |s| - 1 && Covered(s) == Covered(e) + Span(s[k])
        && (0 < k ==> e[k - 1].upper < s[k].lower)
        && (k < |e| ==> s[k].upper < e[k].lower) by {
      EraseAt(s, k);
      Neighbours(s, k);
    }
    assert e[..k] == s[..k] && e[k..] == s[k + 1..];
    assert WellFormed(t1) && Covered(t1) == Covered(e) + Span(left) by {
      Place(e, k, left);
    }
    assert WellFormed(r) && Covered(r) == Covered(t1) + Span(right) by {
      assert t1[k] == left && (k + 1 < |t1| ==> t1[k + 1] == e[k]);
      Place(t1, k + 1, right);
      InsertAfterInsert(s[..k], left, right, s[k + 1..]);
    }
    assert Covered(e) !! Range(lo, hi) by {
      Apart(e, k, lo, hi);
      CoveredSplit(e, k);
    }
    RangeCut(s[k].lower, s[k].upper, lo, hi);
    HoleUnion(Covered(r), Covered(t1), Covered(e), Span(left), Span(right), Covered(s), Span(s[k]), Range(lo, hi));
  }

  /** The set algebra of a hole cut: the pieces make up the interval less the hole. */
  lemma HoleUnion(r: set<int>, t1: set<int>, e: set<int>, left: set<int>, right: set<int>,
                  c: set<int>, sp: set<int>, hole: set<int>)
    requires r == t1 + right && t1 == e + left && c == e + sp
    requires e !! hole && sp - hole == left + right
    ensures r == c - hole
  {
    assert c - hole == (e - hole) + (sp - hole);
  }

  /**
   remove_range on [lo, hi) strictly inside one stored interval leaves
   exactly the two pieces of it in its place: the only well-formed store
   that covers what is left.
   */
  lemma HoleCuts(s: seq<Interval>, r: seq<Interval>, lo: Value, hi: Value)
    requires lo < hi && WellFormed(s) && WellFormed(r) && Covered(r) == Covered(s) - Range(lo, hi)
    ensures forall k :: 0 <= k < |s| && s[k].lower < lo && hi < s[k].upper ==>
      r == s[..k] + [Interval(s[k].lower, lo), Interval(hi, s[k].upper)] + s[k + 1..]
  {
    forall k | 0 <= k < |s| && s[k].lower < lo && hi < s[k].upper
      ensures r == s[..k] + [Interval(s[k].lower, lo), Interval(hi, s[k].upper)] + s[k + 1..]
    {
      var cut := s[..k] + [Interval(s[k].lower, lo), Interval(hi, s[k].upper)] + s[k + 1..];
      HoleCut(s, k, lo, hi);
      WellFormedIffSeparated(r);
      WellFormedIffSeparated(cut);
      CanonicalUnique(r, cut);
    }
  }
}
