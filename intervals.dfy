/**
 The interval record of interval_set and what the container needs to know
 about ordered sequences of intervals: the ordering, the represented set of
 integers, the representation invariant, and the ordered searches of the
 store (lower_bound, upper_bound).
 */
module Intervals {

  /** The element type, fixed to the 32-bit int of interval_set<int>. */
  const MIN: int := -0x8000_0000
  const MAX: int := 0x7fff_ffff
  type Value = x: int | MIN <= x <= MAX

  /** The half-open range [lower, upper). */
  datatype Interval = Interval(lower: Value, upper: Value)

  /** interval::operator<: by lower bound first, then by upper bound. */
  predicate Less(a: Interval, b: Interval)
  {
    if a.lower != b.lower then a.lower < b.lower else a.upper < b.upper
  }

  /** std::max on the element type. */
  function Max(a: Value, b: Value): (m: Value)
    ensures a <= m && b <= m
    ensures m == a || m == b
  {
    if a < b then b else a
  }

  predicate Between(lo: int, x: int, hi: int)
  {
    lo <= x < hi
  }

  /**
   The integers lo, lo + 1, ..., hi - 1 (empty when lo >= hi). The bounds
   are written out for finiteness, Between gives the quantifier its trigger.
   */
  function Range(lo: int, hi: int): set<int>
  {
    set x: int | lo <= x < hi && Between(lo, x, hi)
  }

  /** The integers one interval stands for. */
  function Span(iv: Interval): set<int>
  {
    Range(iv.lower, iv.upper)
  }

  /** The set of integers a sequence of intervals stands for. */
  function Covered(s: seq<Interval>): set<int>
  {
    if s == [] then {} else Span(s[0]) + Covered(s[1..])
  }

  /** Strictly increasing under the container's ordering (what std::set keeps). */
  predicate Sorted(s: seq<Interval>)
  {
    forall i, j :: 0 <= i < j < |s| ==> Less(s[i], s[j])
  }

  /**
   The representation invariant of the store, neighbour by neighbour: every
   stored interval is non-empty and ends strictly before the next one begins
   (no overlap and no touching).
   */
  predicate WellFormed(s: seq<Interval>)
    decreases |s|
  {
    s == [] ||
      (&& s[0].lower < s[0].upper
       && (|s| == 1 || s[0].upper < s[1].lower)
       && WellFormed(s[1..]))
  }

  /** The same invariant stated for any two stored intervals, the form the proofs work with. */
  predicate Separated(s: seq<Interval>)
  {
    && (forall i :: 0 <= i < |s| ==> s[i].lower < s[i].upper)
    && (forall i, j :: 0 <= i < j < |s| ==> s[i].upper < s[j].lower)
  }

  /** A hint position at which iv belongs in the ordered sequence s. */
  predicate HintExact(s: seq<Interval>, hint: nat, iv: Interval)
  {
    && hint <= |s|
    && (hint == 0 || Less(s[hint - 1], iv))
    && (hint == |s| || Less(iv, s[hint]))
  }

  /** operator< is a strict total order, as std::set demands of its comparator. */
  lemma LessIsStrictTotalOrder(a: Interval, b: Interval, c: Interval)
    ensures !Less(a, a)
    ensures Less(a, b) ==> !Less(b, a)
    ensures Less(a, b) && Less(b, c) ==> Less(a, c)
    ensures a != b ==> Less(a, b) || Less(b, a)
  {
  }

  /** The invariant stated for neighbours is the invariant stated pairwise. */
  lemma {:induction false} WellFormedIffSeparated(s: seq<Interval>)
    ensures WellFormed(s) <==> Separated(s)
    decreases |s|
  {
    if s != [] {
      var t := s[1..];
      WellFormedIffSeparated(t);
      assert forall i :: 0 <= i < |t| ==> t[i] == s[i + 1];
      if WellFormed(s) {
        forall i, j | 0 <= i < j < |s| ensures s[i].upper < s[j].lower {
          if 0 < i {
            assert t[i - 1].upper < t[j - 1].lower;
          } else if 1 < j {
            assert t[0].upper < t[j - 1].lower;
          }
        }
      }
    }
  }

  /** A separated store is sorted under the container's ordering. */
  lemma SeparatedIsSorted(s: seq<Interval>)
    requires Separated(s)
    ensures Sorted(s)
  {
  }

  /** Erasing the intervals at positions i .. j - 1 keeps the invariant. */
  lemma SeparatedErase(s: seq<Interval>, i: nat, j: nat)
    requires Separated(s) && i <= j <= |s|
    ensures Separated(s[..i] + s[j..])
  {
    var t := s[..i] + s[j..];
    assert forall k :: 0 <= k < |t| ==> t[k] == if k < i then s[k] else s[k - i + j];
  }

  /** Two well-formed runs separated by a bound x make a well-formed run. */
  lemma SeparatedJoin(a: seq<Interval>, b: seq<Interval>, x: int)
    requires Separated(a) && Separated(b)
    requires forall i :: 0 <= i < |a| ==> a[i].upper < x
    requires forall i :: 0 <= i < |b| ==> x <= b[i].lower
    ensures Separated(a + b)
  {
    var t := a + b;
    assert forall k :: 0 <= k < |t| ==> t[k] == if k < |a| then a[k] else b[k - |a|];
  }

  /** Lemmas about Covered. */

  lemma {:induction false} InCovered(s: seq<Interval>, x: int)
    ensures x in Covered(s) <==> exists i :: 0 <= i < |s| && s[i].lower <= x < s[i].upper
  {
    if s != [] {
      InCovered(s[1..], x);
      if x in Covered(s[1..]) {
        var i :| 0 <= i < |s[1..]| && s[1..][i].lower <= x < s[1..][i].upper;
        assert s[i + 1] == s[1..][i];
      }
      if exists i :: 0 <= i < |s| && s[i].lower <= x < s[i].upper {
        var i :| 0 <= i < |s| && s[i].lower <= x < s[i].upper;
        if i > 0 {
          assert s[1..][i - 1] == s[i];
        }
      }
    }
  }

  lemma {:induction false} CoveredConcat(a: seq<Interval>, b: seq<Interval>)
    ensures Covered(a + b) == Covered(a) + Covered(b)
  {
    if a == [] {
      assert a + b == b;
    } else {
      assert (a + b)[0] == a[0] && (a + b)[1..] == a[1..] + b;
      CoveredConcat(a[1..], b);
    }
  }

  lemma CoveredSingleton(iv: Interval)
    ensures Covered([iv]) == Span(iv)
  {
    assert [iv][1..] == [];
  }

  /** Erasing the interval at i takes just its span out of what is covered. */
  lemma CoveredErase(s: seq<Interval>, i: nat)
    requires i < |s|
    ensures Covered(s) == Covered(s[..i] + s[i + 1..]) + Span(s[i])
  {
    CoveredSplit(s, i);
    CoveredDrop(s, i);
    CoveredConcat(s[..i], s[i + 1..]);
  }

  /** Covered of a sequence cut in two at i. */
  lemma CoveredSplit(s: seq<Interval>, i: nat)
    requires i <= |s|
    ensures Covered(s) == Covered(s[..i]) + Covered(s[i..])
  {
    assert s[..i] + s[i..] == s;
    CoveredConcat(s[..i], s[i..]);
  }

  /** Covered of the suffix from i is the span at i and what follows it. */
  lemma CoveredDrop(s: seq<Interval>, i: nat)
    requires i < |s|
    ensures Covered(s[i..]) == Span(s[i]) + Covered(s[i + 1..])
  {
    assert s[i..][1..] == s[i + 1..];
  }

  /** Everything covered lies below b when every interval ends by b. */
  lemma CoveredBelow(s: seq<Interval>, b: int)
    requires forall i :: 0 <= i < |s| ==> s[i].upper <= b
    ensures forall x :: x in Covered(s) ==> x < b
  {
    forall x | x in Covered(s) ensures x < b {
      InCovered(s, x);
    }
  }

  /** Everything covered lies at or above b when every interval starts at or after b. */
  lemma CoveredAtLeast(s: seq<Interval>, b: int)
    requires forall i :: 0 <= i < |s| ==> b <= s[i].lower
    ensures forall x :: x in Covered(s) ==> b <= x
  {
    forall x | x in Covered(s) ensures b <= x {
      InCovered(s, x);
    }
  }

  lemma RangeMerge(a: int, b: int, c: int, d: int)
    requires a <= c <= b
    ensures Range(a, b) + Range(c, d) == Range(a, if b < d then d else b)
  {
  }

  lemma RangeGrow(a: int, b: int, c: int)
    requires b <= c
    ensures Range(a, b) + Range(a, c) == Range(a, c)
  {
  }

  /** Removing [lo, hi) from [l, u) when [l, u) reaches lo and starts by it. */
  lemma RangeCut(l: int, u: int, lo: int, hi: int)
    requires l <= lo <= u && lo <= hi
    ensures Range(l, u) - Range(lo, hi) == Range(l, lo) + Range(hi, u)
  {
  }

  /** Removing [lo, hi) from [l, u) when [l, u) starts inside [lo, hi]. */
  lemma RangeCutHead(l: int, u: int, lo: int, hi: int)
    requires lo <= l <= hi
    ensures Range(l, u) - Range(lo, hi) == Range(hi, u)
  {
  }

  /**
   The store is determined by the set it represents: two well-formed
   sequences that cover the same integers are the same sequence.
   */
  lemma {:induction false} CanonicalUnique(s: seq<Interval>, t: seq<Interval>)
    requires Separated(s) && Separated(t)
    requires Covered(s) == Covered(t)
    ensures s == t
  {
    if s != [] && t != [] {
      FirstAgrees(s, t);
      assert Separated(s[1..]) && Separated(t[1..]) && Covered(s[1..]) == Covered(t[1..]) by {
        CoveredTail(s);
        CoveredTail(t);
      }
      CanonicalUnique(s[1..], t[1..]);
      assert s == [s[0]] + s[1..] && t == [t[0]] + t[1..];
    } else if s != [] {
      InCovered(s, s[0].lower);
    } else if t != [] {
      InCovered(t, t[0].lower);
    }
  }

  /** Two separated sequences covering the same integers start with the same interval. */
  lemma FirstAgrees(s: seq<Interval>, t: seq<Interval>)
    requires Separated(s) && Separated(t) && s != [] && t != []
    requires Covered(s) == Covered(t)
    ensures s[0] == t[0]
  {
    var a, b := s[0], t[0];
    assert a.lower == b.lower by {
      CoveredFirst(s, a.lower);
      CoveredFirst(t, b.lower);
      CoveredFrom(s, b.lower);
      CoveredFrom(t, a.lower);
    }
    if a.upper < b.upper {
      CoveredFirst(t, a.upper);
      GapAfterFirst(s);
    } else if b.upper < a.upper {
      CoveredFirst(s, b.upper);
      GapAfterFirst(t);
    }
  }

  /** What the first interval spans is covered. */
  lemma CoveredFirst(s: seq<Interval>, x: int)
    requires s != [] && s[0].lower <= x < s[0].upper
    ensures x in Covered(s)
  {
    assert Between(s[0].lower, x, s[0].upper);
  }

  /** Nothing covered by a separated sequence lies below its first interval. */
  lemma CoveredFrom(s: seq<Interval>, x: int)
    requires Separated(s) && s != [] && x in Covered(s)
    ensures s[0].lower <= x
  {
    InCovered(s, x);
  }

  /** A separated sequence does not cover the end of its first interval. */
  lemma GapAfterFirst(s: seq<Interval>)
    requires Separated(s) && s != []
    ensures s[0].upper !in Covered(s)
  {
    InCovered(s, s[0].upper);
  }

  /** Dropping the first interval of a separated sequence removes just its span. */
  lemma CoveredTail(s: seq<Interval>)
    requires Separated(s) && s != []
    ensures Separated(s[1..]) && Covered(s[1..]) == Covered(s) - Span(s[0])
  {
    var t := s[1..];
    assert forall i :: 0 <= i < |t| ==> t[i] == s[i + 1];
    CoveredAtLeast(t, s[0].upper + 1);
    assert Covered(t) !! Span(s[0]);
  }

  /** The ordered searches of std::set, as binary searches over the sequence. */

  /** lower_bound: the first position whose interval is not below key. */
  function LowerBound(s: seq<Interval>, key: Interval): (i: nat)
    ensures i <= |s|
  {
    LowerBoundIn(s, key, 0, |s|)
  }

  function LowerBoundIn(s: seq<Interval>, key: Interval, lo: nat, hi: nat): (i: nat)
    requires lo <= hi <= |s|
    ensures lo <= i <= hi
    decreases hi - lo
  {
    if lo == hi then lo
    else
      var mid := (lo + hi) / 2;
      if Less(s[mid], key) then LowerBoundIn(s, key, mid + 1, hi)
      else LowerBoundIn(s, key, lo, mid)
  }

  /** On a sorted sequence lower_bound splits it into the intervals below key and the rest. */
  lemma LowerBoundSplits(s: seq<Interval>, key: Interval)
    requires Sorted(s)
    ensures var i := LowerBound(s, key);
      && (forall j :: 0 <= j < i ==> Less(s[j], key))
      && (forall j :: i <= j < |s| ==> !Less(s[j], key))
  {
    LowerBoundInSplits(s, key, 0, |s|);
  }

  lemma {:induction false} LowerBoundInSplits(s: seq<Interval>, key: Interval, lo: nat, hi: nat)
    requires Sorted(s) && lo <= hi <= |s|
    requires forall j :: 0 <= j < lo ==> Less(s[j], key)
    requires forall j :: hi <= j < |s| ==> !Less(s[j], key)
    ensures var i := LowerBoundIn(s, key, lo, hi);
      && (forall j :: 0 <= j < i ==> Less(s[j], key))
      && (forall j :: i <= j < |s| ==> !Less(s[j], key))
    decreases hi - lo
  {
    if lo < hi {
      var mid := (lo + hi) / 2;
      if Less(s[mid], key) {
        forall j | 0 <= j <= mid ensures Less(s[j], key) {
          if j < mid {
            LessIsStrictTotalOrder(s[j], s[mid], key);
          }
        }
        LowerBoundInSplits(s, key, mid + 1, hi);
      } else {
        forall j | mid <= j < |s| ensures !Less(s[j], key) {
          if mid < j {
            LessIsStrictTotalOrder(s[mid], s[j], key);
          }
        }
        LowerBoundInSplits(s, key, lo, mid);
      }
    }
  }

  /** upper_bound: the first position whose interval is above key. */
  function UpperBound(s: seq<Interval>, key: Interval): (i: nat)
    ensures i <= |s|
  {
    UpperBoundIn(s, key, 0, |s|)
  }

  function UpperBoundIn(s: seq<Interval>, key: Interval, lo: nat, hi: nat): (i: nat)
    requires lo <= hi <= |s|
    ensures lo <= i <= hi
    decreases hi - lo
  {
    if lo == hi then lo
    else
      var mid := (lo + hi) / 2;
      if Less(key, s[mid]) then UpperBoundIn(s, key, lo, mid)
      else UpperBoundIn(s, key, mid + 1, hi)
  }

  /** On a sorted sequence upper_bound splits it into the intervals not above key and the rest. */
  lemma UpperBoundSplits(s: seq<Interval>, key: Interval)
    requires Sorted(s)
    ensures var i := UpperBound(s, key);
      && (forall j :: 0 <= j < i ==> !Less(key, s[j]))
      && (forall j :: i <= j < |s| ==> Less(key, s[j]))
  {
    UpperBoundInSplits(s, key, 0, |s|);
  }

  lemma {:induction false} UpperBoundInSplits(s: seq<Interval>, key: Interval, lo: nat, hi: nat)
    requires Sorted(s) && lo <= hi <= |s|
    requires forall j :: 0 <= j < lo ==> !Less(key, s[j])
    requires forall j :: hi <= j < |s| ==> Less(key, s[j])
    ensures var i := UpperBoundIn(s, key, lo, hi);
      && (forall j :: 0 <= j < i ==> !Less(key, s[j]))
      && (forall j :: i <= j < |s| ==> Less(key, s[j]))
    decreases hi - lo
  {
    if lo < hi {
      var mid := (lo + hi) / 2;
      if Less(key, s[mid]) {
        forall j | mid <= j < |s| ensures Less(key, s[j]) {
          if mid < j {
            LessIsStrictTotalOrder(key, s[mid], s[j]);
          }
        }
        UpperBoundInSplits(s, key, lo, mid);
      } else {
        forall j | 0 <= j <= mid ensures !Less(key, s[j]) {
          if j < mid {
            LessIsStrictTotalOrder(key, s[j], s[mid]);
          }
        }
        UpperBoundInSplits(s, key, mid + 1, hi);
      }
    }
  }

  /** On a sorted sequence iv is stored exactly when lower_bound lands on it. */
  lemma StoredAtLowerBound(s: seq<Interval>, iv: Interval)
    requires Sorted(s)
    ensures iv in s <==> LowerBound(s, iv) < |s| && s[LowerBound(s, iv)] == iv
  {
    LowerBoundSplits(s, iv);
    if iv in s {
      var j :| 0 <= j < |s| && s[j] == iv;
      LessIsStrictTotalOrder(iv, iv, iv);
      var p := LowerBound(s, iv);
      assert p <= j;
      LessIsStrictTotalOrder(s[p], iv, s[p]);
    }
  }

  /** An exact hint is the position lower_bound finds, and iv is not yet stored. */
  lemma HintIsLowerBound(s: seq<Interval>, hint: nat, iv: Interval)
    requires Sorted(s) && HintExact(s, hint, iv)
    ensures LowerBound(s, iv) == hint
    ensures iv !in s
  {
    LowerBoundSplits(s, iv);
    StoredAtLowerBound(s, iv);
  }
}
