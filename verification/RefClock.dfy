/** The reference clock's sample ring and its trimmed median filter. Doubles are reals here. */
module RefClock {
  import opened Sorting

  const MAXSTAGE := 60

  // ----- the ring -----

  /** The samples between the two marks, oldest first. */
  function Ring(filter: seq<real>, from: nat, to: nat): (r: seq<real>)
    requires |filter| == MAXSTAGE && from < MAXSTAGE && to < MAXSTAGE
    ensures |r| == (to - from) % MAXSTAGE
    decreases (to - from) % MAXSTAGE
  {
    if from == to then []
    else [filter[(from + 1) % MAXSTAGE]] + Ring(filter, (from + 1) % MAXSTAGE, to)
  }

  lemma RingStep(filter: seq<real>, from: nat, to: nat)
    requires |filter| == MAXSTAGE && from < MAXSTAGE && to < MAXSTAGE
    ensures Ring(filter, from, to)
         == if from == to then [] else [filter[(from + 1) % MAXSTAGE]] + Ring(filter, (from + 1) % MAXSTAGE, to)
  {
  }

  lemma Distances(from: nat, to: nat)
    requires from < MAXSTAGE && to < MAXSTAGE
    ensures var next, first := (to + 1) % MAXSTAGE, (from + 1) % MAXSTAGE;
      && (next == from <==> (to - from) % MAXSTAGE == MAXSTAGE - 1)
      && (from != to ==> (to - first) % MAXSTAGE == (to - from) % MAXSTAGE - 1)
      && (from == to ==> first == next)
  {
    Turn(to - from);
    Turn(to - (from + 1) % MAXSTAGE);
  }

  lemma Turn(x: int)
    requires -MAXSTAGE <= x < MAXSTAGE
    ensures x % MAXSTAGE == if x < 0 then x + MAXSTAGE else x
  {
  }

  /** Storing behind the newest sample appends it, unless the ring was full: then all are lost. */
  lemma {:induction false} RingAppends(filter: seq<real>, from: nat, to: nat, off: real)
    requires |filter| == MAXSTAGE && from < MAXSTAGE && to < MAXSTAGE
    ensures var next := (to + 1) % MAXSTAGE;
            Ring(filter[next := off], from, next)
            == if (to - from) % MAXSTAGE < MAXSTAGE - 1 then Ring(filter, from, to) + [off] else []
    decreases (to - from) % MAXSTAGE
  {
    hide Ring;
    var next, first := (to + 1) % MAXSTAGE, (from + 1) % MAXSTAGE;
    Distances(from, to);
    RingStep(filter, from, to);
    RingStep(filter[next := off], from, next);
    if from == to {
      RingStep(filter[next := off], first, next);
    } else if next != from {
      RingAppends(filter, first, to, off);
      assert filter[next := off][first] == filter[first];
    }
  }

  // ----- sorting -----

  function CmpFp(a: real, b: real): int {
    if a < b then -1 else if a > b then 1 else 0
  }

  predicate LeFp(a: real, b: real) {
    CmpFp(a, b) <= 0
  }

  /** The offsets in the order `qsort` leaves them. */
  function Sorted(s: seq<real>): (r: seq<real>)
    ensures |r| == |s|
  {
    Sort(LeFp, s)
  }

  lemma {:induction false} SortedIsSorted(s: seq<real>)
    ensures multiset(Sorted(s)) == multiset(s)
    ensures forall i, j :: 0 <= i <= j < |s| ==> Sorted(s)[i] <= Sorted(s)[j]
  {
    SortPermutes(LeFp, s);
    SortSorts(LeFp, s);
    forall i, j | 0 <= i < j < |s|
      ensures Sorted(s)[i] <= Sorted(s)[j]
    {
      assert LeFp(Sorted(s)[i], Sorted(s)[j]);
    }
  }

  lemma SortedMember(s: seq<real>, i: nat)
    requires i < |s|
    ensures Sorted(s)[i] in s
  {
    SortedIsSorted(s);
    assert Sorted(s)[i] in multiset(Sorted(s));
  }

  // ----- the filter -----

  ghost predicate Ascending(off: seq<real>) {
    forall i, j :: 0 <= i <= j < |off| ==> off[i] <= off[j]
  }

  function Abs(x: real): real {
    if x < 0.0 then -x else x
  }

  /** How many of `n` samples are to remain. */
  function Quota(n: nat): (m: nat)
    ensures 0 < n ==> 0 < m <= n
    ensures 2 <= n ==> 2 <= m
    ensures 5 * m >= 3 * n > 5 * (m - 1)
  {
    n - n * 4 / 10
  }

  datatype Window = Window(lo: nat, hi: nat)

  /** One pass of the rejecting loop. */
  function Reject(off: seq<real>, disp: real, w: Window): (r: Window)
    requires w.lo + 2 < w.hi <= |off|
    ensures w.lo <= r.lo < r.hi <= w.hi && w.hi - 2 <= r.hi - r.lo + w.lo <= w.hi - 1
  {
    var offset := off[(w.hi + w.lo) / 2];
    var hi := if offset > disp then w.hi - 1 else w.hi;
    if off[hi - 1] - offset < offset - off[w.lo] then Window(w.lo + 1, hi) else Window(w.lo, hi - 1)
  }

  function Trim(off: seq<real>, disp: real, m: nat, w: Window): (r: Window)
    requires 2 <= m || w.hi <= w.lo + m
    requires w.lo < w.hi <= |off|
    ensures w.lo <= r.lo < r.hi <= w.hi
    decreases w.hi - w.lo
  {
    if w.hi - w.lo <= m then w else Trim(off, disp, m, Reject(off, disp, w))
  }

  /** No sample of the window is farther from sample `p` than sample `k` is. */
  ghost predicate FartherThanKept(off: seq<real>, k: nat, p: nat, w: Window)
    requires k < |off| && p < |off| && w.hi <= |off|
  {
    forall q :: w.lo <= q < w.hi ==> Abs(off[q] - off[p]) <= Abs(off[k] - off[p])
  }

  /**
   * The pass over window `v` drops sample `k`: the highest one where the median lies above the
   * ceiling, and otherwise one at least as far from the median as every sample it keeps.
   */
  ghost predicate DroppedBy(off: seq<real>, disp: real, v: Window, k: nat) {
    && v.lo + 2 < v.hi <= |off| && v.lo <= k < v.hi
    && var r, median := Reject(off, disp, v), (v.hi + v.lo) / 2;
       && !(r.lo <= k < r.hi)
       && if k == v.hi - 1 && off[median] > disp then off[median] <= off[k] else FartherThanKept(off, k, median, r)
  }

  lemma {:induction false} RejectDropsFarthest(off: seq<real>, disp: real, w: Window, k: nat)
    requires Ascending(off) && w.lo + 2 < w.hi <= |off|
    requires w.lo <= k < w.hi
    ensures var r := Reject(off, disp, w); !(r.lo <= k < r.hi) ==> DroppedBy(off, disp, w, k)
  {
    var r := Reject(off, disp, w);
    var p := (w.hi + w.lo) / 2;
    if !(r.lo <= k < r.hi) && !(k == w.hi - 1 && off[p] > disp) {
      forall q | r.lo <= q < r.hi
        ensures Abs(off[q] - off[p]) <= Abs(off[k] - off[p])
      {
        assert off[r.lo] <= off[q] <= off[r.hi - 1];
      }
    }
  }

  lemma TrimStep(off: seq<real>, disp: real, m: nat, w: Window)
    requires 2 <= m || w.hi <= w.lo + m
    requires w.lo < w.hi <= |off|
    ensures Trim(off, disp, m, w) == if w.hi - w.lo <= m then w else Trim(off, disp, m, Reject(off, disp, w))
  {
  }

  /** The loop, started on `w`, comes to window `v`. */
  ghost predicate Reached(off: seq<real>, disp: real, m: nat, w: Window, v: Window)
    requires 2 <= m || w.hi <= w.lo + m
    requires w.lo < w.hi <= |off|
    decreases w.hi - w.lo
  {
    v == w || (w.hi - w.lo > m && Reached(off, disp, m, Reject(off, disp, w), v))
  }

  /** A window the loop comes to lies between its first and its last. */
  lemma {:induction false} ReachedBetween(off: seq<real>, disp: real, m: nat, w: Window, v: Window)
    requires 2 <= m || w.hi <= w.lo + m
    requires w.lo < w.hi <= |off| && Reached(off, disp, m, w, v)
    ensures w.lo <= v.lo < v.hi <= w.hi
    ensures Trim(off, disp, m, v) == Trim(off, disp, m, w)
    decreases w.hi - w.lo
  {
    TrimStep(off, disp, m, w);
    hide Trim, Reject;
    if v != w {
      ReachedBetween(off, disp, m, Reject(off, disp, w), v);
    }
  }

  /** Over the whole loop, every sample that is not left at the end was dropped by one of its passes. */
  lemma {:induction false} TrimDropsFarthest(off: seq<real>, disp: real, m: nat, w: Window, k: nat)
    requires Ascending(off) && (2 <= m || w.hi <= w.lo + m)
    requires w.lo < w.hi <= |off| && w.lo <= k < w.hi
    ensures var r := Trim(off, disp, m, w);
            !(r.lo <= k < r.hi) ==> exists v :: Reached(off, disp, m, w, v) && DroppedBy(off, disp, v, k)
    decreases w.hi - w.lo
  {
    TrimStep(off, disp, m, w);
    hide Trim, Reject, DroppedBy, Ascending;
    var r := Trim(off, disp, m, w);
    if w.hi - w.lo > m && !(r.lo <= k < r.hi) {
      var next := Reject(off, disp, w);
      if next.lo <= k < next.hi {
        TrimDropsFarthest(off, disp, m, next, k);
        var v :| Reached(off, disp, m, next, v) && DroppedBy(off, disp, v, k);
        assert Reached(off, disp, m, w, v);
      } else {
        RejectDropsFarthest(off, disp, w, k);
        assert Reached(off, disp, m, w, w);
      }
    }
  }

  /** The loop comes to a window of one sample above the quota, with its median above the ceiling. */
  ghost predicate CeilingMet(off: seq<real>, disp: real, m: nat, w: Window)
    requires 2 <= m || w.hi <= w.lo + m
    requires w.lo < w.hi <= |off|
    decreases w.hi - w.lo
  {
    w.hi - w.lo > m &&
    if w.hi - w.lo == m + 1 then off[(w.hi + w.lo) / 2] > disp
    else CeilingMet(off, disp, m, Reject(off, disp, w))
  }

  /**
   * How many remain: the quota, or one less exactly when the loop comes to one sample above the
   * quota with a median above the ceiling, because that pass drops two.
   */
  lemma {:induction false} TrimLeaves(off: seq<real>, disp: real, m: nat, w: Window)
    requires 2 <= m || w.hi <= w.lo + m
    requires w.lo < w.hi <= |off| && w.hi - w.lo >= m
    ensures var r := Trim(off, disp, m, w);
            r.hi - r.lo == if CeilingMet(off, disp, m, w) then m - 1 else m
    decreases w.hi - w.lo
  {
    if w.hi - w.lo > m {
      var next := Reject(off, disp, w);
      if w.hi - w.lo > m + 1 {
        TrimLeaves(off, disp, m, next);
      }
    }
  }

  /**
   * The highest sample that can be the median of a window one above the quota. Unless it lies
   * above the ceiling, no sample too many is dropped.
   */
  lemma {:induction false} LowMediansSuffice(off: seq<real>, disp: real, m: nat, w: Window)
    requires Ascending(off) && 2 <= m && w.lo + m < w.hi <= |off|
    requires off[w.hi - m - 1 + (m + 1) / 2] <= disp
    ensures !CeilingMet(off, disp, m, w)
    decreases w.hi - w.lo
  {
    if w.hi - w.lo == m + 1 {
      assert (w.hi + w.lo) / 2 == w.hi - m - 1 + (m + 1) / 2;
    } else {
      var next := Reject(off, disp, w);
      if next.hi - next.lo > m {
        assert off[next.hi - m - 1 + (m + 1) / 2] <= off[w.hi - m - 1 + (m + 1) / 2];
        LowMediansSuffice(off, disp, m, next);
      }
    }
  }

  lemma HighMedianDropsTwo(off: seq<real>, disp: real, w: Window)
    requires w.lo + 2 < w.hi <= |off| && off[(w.hi + w.lo) / 2] > disp
    ensures var r := Reject(off, disp, w); r.hi - r.lo == w.hi - w.lo - 2 && w.lo <= r.lo
  {
  }

  lemma CeilingStep(off: seq<real>, disp: real, m: nat, w: Window)
    requires 2 <= m && w.lo < w.hi <= |off|
    ensures w.hi - w.lo <= m ==> !CeilingMet(off, disp, m, w)
    ensures w.hi - w.lo == m + 1 ==> (CeilingMet(off, disp, m, w) <==> off[(w.hi + w.lo) / 2] > disp)
    ensures w.hi - w.lo > m + 1 ==> (CeilingMet(off, disp, m, w) <==> CeilingMet(off, disp, m, Reject(off, disp, w)))
  {
  }

  /** The lowest such sample. If it lies above the ceiling, every pass drops two. */
  lemma {:induction false} HighMediansAlternate(off: seq<real>, disp: real, m: nat, w: Window)
    requires Ascending(off) && 2 <= m && w.lo + m <= w.hi <= |off|
    requires off[w.lo + (m + 1) / 2] > disp
    ensures CeilingMet(off, disp, m, w) <==> (w.hi - w.lo - m) % 2 == 1
    decreases w.hi - w.lo
  {
    hide CeilingMet, Reject;
    CeilingStep(off, disp, m, w);
    if w.hi - w.lo > m {
      assert off[(w.hi + w.lo) / 2] >= off[w.lo + (m + 1) / 2];
      HighMedianDropsTwo(off, disp, w);
      var next := Reject(off, disp, w);
      if w.hi - w.lo > m + 1 {
        assert off[next.lo + (m + 1) / 2] >= off[w.lo + (m + 1) / 2];
        HighMediansAlternate(off, disp, m, next);
      }
    }
  }

  // ----- the statistics -----

  function Sum(s: seq<real>): real {
    if s == [] then 0.0 else Sum(s[..|s| - 1]) + s[|s| - 1]
  }

  /** The sum of the squared steps from one sample to the next. */
  function Steps(s: seq<real>): real {
    if |s| < 2 then 0.0
    else Steps(s[..|s| - 1]) + Square(s[|s| - 1] - s[|s| - 2])
  }

  function Product(x: real, y: real): (r: real)
    ensures (x > 0.0 && y > 0.0) || (x < 0.0 && y < 0.0) ==> r > 0.0
    ensures x == 0.0 || y == 0.0 ==> r == 0.0
  {
    x * y
  }

  function Square(x: real): real {
    Product(x, x)
  }

  lemma SumSnoc(s: seq<real>, x: real)
    ensures Sum(s + [x]) == Sum(s) + x && Sum([x]) == x && Sum([]) == 0.0
  {
    assert (s + [x])[..|s|] == s;
    assert [x][..0] == [];
  }

  /** The sum is the additive one: this and its value on one sample determine it. */
  lemma {:induction false} SumConcat(a: seq<real>, b: seq<real>)
    ensures Sum(a + b) == Sum(a) + Sum(b)
    decreases |b|
  {
    hide Sum;
    SumSnoc([], 0.0);
    if b == [] {
      assert a + b == a;
    } else {
      var front, last := b[..|b| - 1], b[|b| - 1];
      SumConcat(a, front);
      SumSnoc(a + front, last);
      SumSnoc(front, last);
      assert a + b == (a + front) + [last] && b == front + [last];
    }
  }

  lemma StepsSnoc(s: seq<real>, x: real)
    ensures Steps(s + [x]) == if s == [] then 0.0 else Steps(s) + Square(x - s[|s| - 1])
  {
    hide Square;
    assert (s + [x])[..|s|] == s;
  }

  /** So are the squared steps, up to the step in between. */
  lemma {:induction false} StepsConcat(a: seq<real>, b: seq<real>)
    requires a != [] && b != []
    ensures Steps(a + b) == Steps(a) + Square(b[0] - a[|a| - 1]) + Steps(b)
    decreases |b|
  {
    hide Steps, Square;
    var front, last := b[..|b| - 1], b[|b| - 1];
    assert b == front + [last];
    StepsSnoc(front, last);
    StepsSnoc(a + front, last);
    assert a + b == (a + front) + [last];
    if front == [] {
      assert a + front == a;
    } else {
      StepsConcat(a, front);
    }
  }

  lemma {:induction false} StepsSign(s: seq<real>)
    ensures Steps(s) >= 0.0
    ensures Steps(s) == 0.0 <==> forall i :: 0 < i < |s| ==> s[i - 1] == s[i]
    decreases |s|
  {
    if |s| >= 2 {
      var front := s[..|s| - 1];
      StepsSign(front);
      SquareSign(s[|s| - 1] - s[|s| - 2]);
      assert forall i :: 0 <= i < |s| - 1 ==> front[i] == s[i];
    }
  }

  lemma SquareSign(x: real)
    ensures Square(x) >= 0.0 && (Square(x) == 0.0 <==> x == 0.0)
  {
    hide Product;
  }

  function Deviations(s: seq<real>, from: real): (r: seq<real>)
    ensures |r| == |s|
  {
    seq(|s|, i requires 0 <= i < |s| => s[i] - from)
  }

  lemma {:induction false} DeviationsSum(s: seq<real>, from: real)
    ensures Sum(Deviations(s, from)) == Sum(s) - |s| as real * from
    decreases |s|
  {
    if s != [] {
      var front := s[..|s| - 1];
      DeviationsSum(front, from);
      assert Deviations(s, from)[..|s| - 1] == Deviations(front, from);
      assert (|s| as real) * from == (|front| as real) * from + from;
    }
  }

  lemma {:induction false} SumBetween(s: seq<real>, lo: real, hi: real)
    requires forall i :: 0 <= i < |s| ==> lo <= s[i] <= hi
    ensures |s| as real * lo <= Sum(s) <= |s| as real * hi
    decreases |s|
  {
    if s != [] {
      SumBetween(s[..|s| - 1], lo, hi);
      assert |s| as real * lo == (|s| - 1) as real * lo + lo && |s| as real * hi == (|s| - 1) as real * hi + hi;
    }
  }

  lemma QuotientBetween(x: real, n: nat, lo: real, hi: real)
    requires n > 0 && n as real * lo <= x <= n as real * hi
    ensures lo <= x / n as real <= hi
  {
    var q := x / n as real;
    assert q * n as real == x;
    assert q < lo ==> (lo - q) * n as real > 0.0;
    assert q > hi ==> (q - hi) * n as real > 0.0;
  }

  /** From the mean of ascending samples the deviations cancel, and it lies among the samples. */
  lemma {:induction false} MeanCentres(s: seq<real>)
    requires s != [] && Ascending(s)
    ensures var mean := Sum(s) / |s| as real;
      Sum(Deviations(s, mean)) == 0.0 && s[0] <= mean <= s[|s| - 1]
  {
    hide Sum;
    var mean := Sum(s) / |s| as real;
    DeviationsSum(s, mean);
    assert mean * |s| as real == Sum(s);
    SumBetween(s, s[0], s[|s| - 1]);
    QuotientBetween(Sum(s), |s|, s[0], s[|s| - 1]);
  }

  // ----- what a sample reports -----

  /** The samples that remain of those pending. */
  function Remaining(s: seq<real>, disp: real): (w: Window)
    requires s != []
    ensures w.lo < w.hi <= |s|
  {
    Trim(Sorted(s), disp, Quota(|s|), Window(0, |s|))
  }

  function KeptSamples(s: seq<real>, disp: real): (r: seq<real>)
    requires s != []
  {
    var w := Remaining(s, disp);
    Sorted(s)[w.lo..w.hi]
  }

  lemma {:induction false} ScaledMean(x: real, m: nat)
    requires 2 <= m
    ensures x / m as real == x / (m - 1) as real <==> x == 0.0
  {
    var a, b := x / m as real, x / (m - 1) as real;
    assert a * m as real == x && b * (m - 1) as real == x;
    if a == b {
      assert a * m as real - a * (m - 1) as real == a * (m as real - (m - 1) as real) == a;
    }
  }

  /** Every sample not kept was dropped by a pass that the loop makes. */
  lemma {:induction false} DroppedSamples(s: seq<real>, disp: real, k: nat)
    requires k < |s|
    ensures var w := Remaining(s, disp);
            w.lo <= k < w.hi
            || exists v :: Reached(Sorted(s), disp, Quota(|s|), Window(0, |s|), v) && DroppedBy(Sorted(s), disp, v, k)
  {
    SortedIsSorted(s);
    hide Sorted, Trim, Reached, DroppedBy;
    TrimDropsFarthest(Sorted(s), disp, Quota(|s|), Window(0, |s|), k);
  }

  /** The indices of the lowest and the highest sample that can be the last median. */
  function LowMedian(n: nat): (i: nat)
    requires 3 <= n
    ensures i < n
  {
    (Quota(n) + 1) / 2
  }

  function HighMedian(n: nat): (i: nat)
    requires 3 <= n
    ensures LowMedian(n) <= i < n
  {
    n - Quota(n) - 1 + (Quota(n) + 1) / 2
  }

  /**
   * How many remain, from the samples: the quota, if the high median is not above the ceiling; if
   * even the low median is, one less than the quota exactly when an odd number is to be dropped.
   * Between the two it depends on the distances, that is, on whether the loop meets the ceiling.
   */
  lemma {:induction false} RemainingCount(s: seq<real>, disp: real)
    requires s != []
    ensures |KeptSamples(s, disp)|
         == if CeilingMet(Sorted(s), disp, Quota(|s|), Window(0, |s|)) then Quota(|s|) - 1 else Quota(|s|)
    ensures |s| < 3 || Sorted(s)[HighMedian(|s|)] <= disp ==> |KeptSamples(s, disp)| == Quota(|s|)
    ensures |s| >= 3 && Sorted(s)[LowMedian(|s|)] > disp ==>
      |KeptSamples(s, disp)| == if (|s| - Quota(|s|)) % 2 == 1 then Quota(|s|) - 1 else Quota(|s|)
    ensures (forall x :: x in s ==> x <= disp) ==> |KeptSamples(s, disp)| == Quota(|s|)
  {
    var off, m, w := Sorted(s), Quota(|s|), Window(0, |s|);
    SortedIsSorted(s);
    hide Sorted, Reject, Trim, CeilingMet, LowMedian, HighMedian, Quota;
    TrimLeaves(off, disp, m, w);
    MetFromMedians(off, disp);
    hide Ascending;
    AllLow(s, disp);
  }

  lemma AllLow(s: seq<real>, disp: real)
    ensures (forall x :: x in s ==> x <= disp) && |s| >= 3 ==> Sorted(s)[HighMedian(|s|)] <= disp
  {
    hide Sorted, HighMedian;
    if |s| >= 3 {
      SortedMember(s, HighMedian(|s|));
    }
  }

  lemma MetFromMedians(off: seq<real>, disp: real)
    requires Ascending(off) && off != []
    ensures var n, m := |off|, Quota(|off|); var met := CeilingMet(off, disp, m, Window(0, n));
      && (n < 3 || off[HighMedian(n)] <= disp ==> !met)
      && (n >= 3 && off[LowMedian(n)] > disp ==> (met <==> (n - m) % 2 == 1))
  {
    hide CeilingMet, Ascending;
    var m, w := Quota(|off|), Window(0, |off|);
    if |off| < 3 {
      NothingToDrop(off, disp, m, w);
    } else {
      if off[HighMedian(|off|)] <= disp {
        LowMediansSuffice(off, disp, m, w);
      }
      if off[LowMedian(|off|)] > disp {
        HighMediansAlternate(off, disp, m, w);
      }
    }
  }

  lemma NothingToDrop(off: seq<real>, disp: real, m: nat, w: Window)
    requires w.lo < w.hi <= |off| && w.hi - w.lo == m
    ensures !CeilingMet(off, disp, m, w)
  {
  }

  /**
   * The offset reported is the mean of what remains unless a sample too many was dropped. It is
   * one if the high median is not above the ceiling; if even the low median is, the parity decides.
   */
  lemma {:induction false} OffsetIsMean(s: seq<real>, disp: real)
    requires s != []
    ensures var kept := KeptSamples(s, disp);
            Sum(kept) / Quota(|s|) as real == Sum(kept) / |kept| as real
            <==> |kept| == Quota(|s|) || Sum(kept) == 0.0
    ensures |s| < 3 || Sorted(s)[HighMedian(|s|)] <= disp ==>
      var kept := KeptSamples(s, disp); Sum(kept) / Quota(|s|) as real == Sum(kept) / |kept| as real
    ensures |s| >= 3 && Sorted(s)[LowMedian(|s|)] > disp ==>
      var kept := KeptSamples(s, disp);
      (Sum(kept) / Quota(|s|) as real == Sum(kept) / |kept| as real
       <==> (|s| - Quota(|s|)) % 2 == 0 || Sum(kept) == 0.0)
  {
    RemainingCount(s, disp);
    var kept, m := KeptSamples(s, disp), Quota(|s|);
    hide KeptSamples, Quota, Sum, CeilingMet, Sorted;
    if |kept| != m {
      ScaledMean(Sum(kept), m);
    }
  }

  /** The samples kept deviate from the offset by nothing in all, and it lies among them. */
  predicate Centred(kept: seq<real>, offset: real)
    requires kept != []
  {
    Sum(Deviations(kept, offset)) == 0.0 && kept[0] <= offset <= kept[|kept| - 1]
  }

  /** Where the quota remains, the offset reported is centred. */
  lemma {:induction false} OffsetCentres(s: seq<real>, disp: real)
    requires s != []
    ensures var kept := KeptSamples(s, disp);
      |kept| == Quota(|s|) ==> Centred(kept, Sum(kept) / Quota(|s|) as real)
  {
    SortedIsSorted(s);
    hide Sum, Quota, Sorted;
    var kept := KeptSamples(s, disp);
    assert Ascending(kept);
    MeanCentres(kept);
  }

  /** For example, of two samples that are not above the ceiling. */
  lemma {:induction false} OffsetOfTwo(a: real, b: real, disp: real)
    requires a <= b <= disp
    ensures var kept := KeptSamples([b, a], disp);
      kept == [a, b] && Sum(kept) / Quota(2) as real == (a + b) / 2.0 && Steps(kept) == (b - a) * (b - a)
  {
    hide *;
    TwoKept(a, b, disp);
    SumAndStepsOfTwo(a, b);
  }

  lemma TwoKept(a: real, b: real, disp: real)
    requires a <= b
    ensures KeptSamples([b, a], disp) == [a, b] && Quota(2) == 2
  {
    hide Sorted, KeptSamples;
    var s := [b, a];
    SortedIsSorted(s);
    SortedPair(a, b, Sorted(s));
    AllKept(s, disp);
  }

  lemma SumAndStepsOfTwo(a: real, b: real)
    ensures Sum([a, b]) == a + b && Steps([a, b]) == (b - a) * (b - a)
  {
    hide Steps, Sum;
    SumSnoc([a], b);
    SumSnoc([], a);
    StepsSnoc([a], b);
    StepsSnoc([], a);
    assert [a] + [b] == [a, b] && [] + [a] == [a];
  }

  lemma AllKept(s: seq<real>, disp: real)
    requires |s| == Quota(|s|) != 0
    ensures KeptSamples(s, disp) == Sorted(s)
  {
    hide Sorted;
    assert Sorted(s)[0..|s|] == Sorted(s);
  }

  lemma SortedPair(a: real, b: real, r: seq<real>)
    requires a <= b && |r| == 2 && r[0] <= r[1] && multiset(r) == multiset([b, a])
    ensures r == [a, b]
  {
    assert r == [r[0], r[1]];
    assert r[0] in multiset([b, a]) && r[1] in multiset([b, a]);
    assert a in multiset(r) && b in multiset(r);
  }

  /** Three equal samples above the ceiling: one remains, and it is divided by two. */
  lemma {:induction false} CeilingHalvesOffset()
    ensures Remaining([5.0, 5.0, 5.0], 1.0) == Window(0, 1)
    ensures Sum(KeptSamples([5.0, 5.0, 5.0], 1.0)) / Quota(3) as real == 2.5
  {
    var s := [5.0, 5.0, 5.0];
    var off := Sorted(s);
    SortedIsSorted(s);
    hide Sorted;
    forall k | 0 <= k < 3
      ensures off[k] == 5.0
    {
      assert off[k] in multiset(s);
    }
    assert Reject(off, 1.0, Window(0, 3)) == Window(0, 1);
    var kept := KeptSamples(s, 1.0);
    assert kept == [5.0];
    assert kept[..0] == [];
  }

  // ----- the clock -----

  function Max(a: real, b: real): (r: real)
    ensures a <= r && b <= r && (r == a || r == b)
  {
    if a > b then a else b
  }

  /** The contract of `qsort` on the first `n` offsets. */
  method Qsort(off: array<real>, n: nat)
    requires n <= off.Length
    modifies off
    ensures off[..n] == Sorted(old(off[..n]))
  {
    var s := Sorted(off[..n]);
    for k := 0 to n
      invariant off[..k] == s[..k]
    {
      off[k] := s[k];
    }
  }

  lemma KeptIs(s: seq<real>, disp: real, i: nat, j: nat)
    requires s != [] && Window(i, j) == Trim(Sorted(s), disp, Quota(|s|), Window(0, |s|))
    ensures KeptSamples(s, disp) == Sorted(s)[i..j]
  {
  }

  lemma SingletonSorted(s: seq<real>)
    requires |s| == 1
    ensures Sorted(s) == s
  {
  }

  class RefClockProc {
    const filter: array<real>
    var codeproc: nat
    var coderecv: nat
    var disp: real
    var offset: real
    var jitter: real

    constructor (disp: real)
      ensures Valid() && fresh(filter) && Pending() == [] && this.disp == disp
    {
      filter := new real[MAXSTAGE](_ => 0.0);
      codeproc, coderecv, offset, jitter := 0, 0, 0.0, 0.0;
      this.disp := disp;
    }

    predicate Valid()
      reads this
    {
      filter.Length == MAXSTAGE && codeproc < MAXSTAGE && coderecv < MAXSTAGE
    }

    /** The samples waiting, oldest first. */
    function Pending(): seq<real>
      requires Valid()
      reads this, filter
    {
      Ring(filter[..], codeproc, coderecv)
    }

    /** `refclock_add_offset` appends; only on a ring that holds 59 already does it lose them all. */
    method AddOffset(off: real)
      requires Valid()
      modifies this`coderecv, filter
      ensures Valid()
      ensures Pending() == if |old(Pending())| < MAXSTAGE - 1 then old(Pending()) + [off] else []
    {
      RingAppends(filter[..], codeproc, coderecv, off);
      ghost var before := filter[..];
      coderecv := (coderecv + 1) % MAXSTAGE;
      filter[coderecv] := off;
      assert filter[..] == before[coderecv := off];
    }

    /** The first loop of `refclock_sample`: all pending samples, in order of arrival. */
    method Drain(off: array<real>) returns (n: nat)
      requires Valid() && off != filter && off.Length == MAXSTAGE
      modifies this`codeproc, off
      ensures Valid() && Pending() == []
      ensures n < MAXSTAGE && off[..n] == old(Pending())
    {
      ghost var all := Pending();
      n := 0;
      while codeproc != coderecv
        invariant Valid() && filter[..] == old(filter[..])
        invariant n + |Pending()| == |all| && off[..n] + Pending() == all
        decreases |Pending()|
      {
        codeproc := (codeproc + 1) % MAXSTAGE;
        off[n] := filter[codeproc];
        n := n + 1;
      }
    }

    /**
     * `refclock_sample`. The square root is a parameter, and `precision` the least jitter ever
     * reported. Nothing but the read mark changes where no sample is pending.
     */
    method Sample(sqrt: real -> real, precision: real) returns (n: nat)
      requires Valid()
      modifies this`codeproc, this`offset, this`jitter
      ensures Valid() && Pending() == [] && n == |old(Pending())|
      ensures n == 0 ==> offset == old(offset) && jitter == old(jitter)
      ensures n > 0 ==> var kept := KeptSamples(old(Pending()), disp);
                        && offset == Sum(kept) / Quota(n) as real
                        && jitter == Max(sqrt(Steps(kept) / Quota(n) as real), precision)
                        && (|kept| == Quota(n) ==> Centred(kept, offset))
    {
      hide Ring, Sorted, Trim, Steps, Sum, Quota, KeptSamples, Centred, Max;
      ghost var pending := Pending();
      var off := new real[MAXSTAGE];
      n := Drain(off);
      if n == 0 {
        return;
      }
      if n > 1 {
        Qsort(off, n);
      } else {
        SingletonSorted(off[..n]);
      }
      Report(off, n, pending, sqrt, precision);
      OffsetCentres(pending, disp);
    }

    /** The end of `refclock_sample`, on sorted offsets. */
    method Report(off: array<real>, n: nat, ghost pending: seq<real>, sqrt: real -> real, precision: real)
      requires 0 < n <= off.Length && |pending| == n && off[..n] == Sorted(pending)
      modifies this`offset, this`jitter
      ensures var kept := KeptSamples(pending, disp);
              && offset == Sum(kept) / Quota(n) as real
              && jitter == Max(sqrt(Steps(kept) / Quota(n) as real), precision)
    {
      hide Sorted, Trim, Steps, Sum, Quota, KeptSamples;
      var i, j := RejectLoop(off, n, disp);
      var m := Quota(n);
      KeptIs(pending, disp, i, j);
      assert off[i..j] == off[..n][i..j];
      Accumulate(off, i, j);
      offset := offset / m as real;
      jitter := Max(sqrt(jitter / m as real), precision);
    }

    /** The loop that sums the remaining samples and their squared steps. */
    method Accumulate(off: array<real>, i: nat, j: nat)
      requires i <= j <= off.Length
      modifies this`offset, this`jitter
      ensures offset == Sum(off[i..j]) && jitter == Steps(off[i..j])
    {
      offset, jitter := 0.0, 0.0;
      for k := i to j
        invariant offset == Sum(off[i..k]) && jitter == Steps(off[i..k])
      {
        assert off[i..k + 1][..k - i] == off[i..k];
        offset := offset + off[k];
        if k > i {
          jitter := jitter + (off[k] - off[k - 1]) * (off[k] - off[k - 1]);
        }
      }
    }
  }

  /** One pass of the rejecting loop; every index it forms lies in the window. */
  method RejectPass(off: array<real>, ghost n: nat, disp: real, lo: nat, hi: nat) returns (i: nat, j: nat)
    requires lo + 2 < hi <= n <= off.Length
    ensures Window(i, j) == Reject(off[..n], disp, Window(lo, hi))
  {
    i, j := lo, hi;
    var offset := off[(j + i) / 2];
    if offset > disp {
      j := j - 1;
    }
    if off[j - 1] - offset < offset - off[i] {
      i := i + 1;
    } else {
      j := j - 1;
    }
  }

  method RejectLoop(off: array<real>, n: nat, disp: real) returns (i: nat, j: nat)
    requires 0 < n <= off.Length
    ensures i < j <= n && Window(i, j) == Trim(off[..n], disp, Quota(n), Window(0, n))
  {
    hide Trim, Reject, Quota;
    i, j := 0, n;
    var m := Quota(n);
    TrimStep(off[..n], disp, m, Window(i, j));
    while j - i > m
      invariant i < j <= n
      invariant Trim(off[..n], disp, m, Window(i, j)) == Trim(off[..n], disp, m, Window(0, n))
      invariant j - i <= m ==> Trim(off[..n], disp, m, Window(i, j)) == Window(i, j)
    {
      TrimStep(off[..n], disp, m, Window(i, j));
      i, j := RejectPass(off, n, disp, i, j);
      TrimStep(off[..n], disp, m, Window(i, j));
    }
  }
}
