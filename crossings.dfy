/**
 * Crossing lists shared by both rasterizers: the fill rule, the sort of a
 * row's crossings by x, and the signed count of the crossings at or left
 * of a column.
 *
 * A crossing is a pair of its x-intercept and a tag (`bool` in
 * src/algorithms/scan_line.rs, `i8` in src/algorithms/fill_polygon.rs);
 * the weight function `w` says what the tag adds to the running total.
 */
module Crossings {

  datatype FillRule = NonZero | EvenOdd

  /**
   * `FillRule::check`.  Rust's `%` truncates toward zero and Dafny's is
   * Euclidean, but with divisor 2 both are zero exactly for even `n`.
   */
  predicate Check(rule: FillRule, n: int)
  {
    match rule
    case NonZero => n != 0
    case EvenOdd => n % 2 != 0
  }

  /** Zero is outside under both rules, a single crossing either way is
      inside, and the even-odd rule only looks at parity. */
  lemma CheckFacts(rule: FillRule, n: int)
    ensures !Check(rule, 0)
    ensures Check(rule, 1) && Check(rule, -1)
    ensures Check(EvenOdd, n) <==> n % 2 == 1
  {
  }

  // ---------------------------------------------------------------------
  // Sorting by x

  predicate SortedByX<D>(pts: seq<(real, D)>)
  {
    forall i, j :: 0 <= i < j < |pts| ==> pts[i].0 <= pts[j].0
  }

  /** Insert a crossing in front of the first one with a larger x. */
  function Insert<D>(p: (real, D), s: seq<(real, D)>): (r: seq<(real, D)>)
    ensures |r| == |s| + 1
    ensures multiset(r) == multiset(s) + multiset{p}
  {
    if s == [] || p.0 <= s[0].0 then [p] + s
    else
      assert s == [s[0]] + s[1..];
      [s[0]] + Insert(p, s[1..])
  }

  lemma {:induction false} InsertSorted<D>(p: (real, D), s: seq<(real, D)>)
    requires SortedByX(s)
    ensures SortedByX(Insert(p, s))
  {
    if s != [] && p.0 > s[0].0 {
      var rest := Insert(p, s[1..]);
      InsertSorted(p, s[1..]);
      forall j | 0 <= j < |rest|
        ensures s[0].0 <= rest[j].0
      {
        assert rest[j] in multiset(rest);
        assert rest[j] == p || rest[j] in multiset(s[1..]);
        if rest[j] != p {
          var k :| 0 <= k < |s[1..]| && s[1..][k] == rest[j];
          assert s[k + 1] == rest[j];
        }
      }
      assert Insert(p, s) == [s[0]] + rest;
    }
  }

  /**
   * The crossings ordered by x.  The source sorts with `sort_by`
   * (scan_line.rs) or `sorted_unstable_by` (fill_polygon.rs); ties may come
   * out in any order there.  What is proved about a sorted row holds for
   * every ascending order; the exact painted set assumes this one.
   */
  function SortByX<D>(pts: seq<(real, D)>): (r: seq<(real, D)>)
    ensures SortedByX(r)
    ensures multiset(r) == multiset(pts)
  {
    if pts == [] then []
    else
      assert pts == [pts[0]] + pts[1..];
      InsertSorted(pts[0], SortByX(pts[1..]));
      Insert(pts[0], SortByX(pts[1..]))
  }

  // ---------------------------------------------------------------------
  // Counting crossings at or left of a column

  /** Total weight of all crossings. */
  function SumAll<D>(pts: seq<(real, D)>, w: D -> int): int
  {
    if pts == [] then 0 else w(pts[0].1) + SumAll(pts[1..], w)
  }

  /** Total weight of the crossings whose x is at most `c`. */
  function SumLe<D>(pts: seq<(real, D)>, c: real, w: D -> int): int
  {
    if pts == [] then 0
    else (if pts[0].0 <= c then w(pts[0].1) else 0) + SumLe(pts[1..], c, w)
  }

  /** Number of crossings whose x is at most `c`. */
  function CountLe<D>(pts: seq<(real, D)>, c: real): nat
  {
    if pts == [] then 0
    else (if pts[0].0 <= c then 1 else 0) + CountLe(pts[1..], c)
  }

  lemma {:induction false} SumLeInsert<D>(p: (real, D), s: seq<(real, D)>, c: real, w: D -> int)
    ensures SumLe(Insert(p, s), c, w) == SumLe([p] + s, c, w)
  {
    if s != [] && p.0 > s[0].0 {
      SumLeInsert(p, s[1..], c, w);
      assert ([p] + s)[1..] == s;
      assert ([p] + s[1..])[1..] == s[1..];
    }
  }

  /** The weight at or left of a column does not depend on the order of
      the crossings, so sorting does not change it. */
  lemma {:induction false} SumLeSort<D>(pts: seq<(real, D)>, c: real, w: D -> int)
    ensures SumLe(SortByX(pts), c, w) == SumLe(pts, c, w)
  {
    if pts != [] {
      SumLeSort(pts[1..], c, w);
      SumLeInsert(pts[0], SortByX(pts[1..]), c, w);
      assert ([pts[0]] + SortByX(pts[1..]))[1..] == SortByX(pts[1..]);
    }
  }

  lemma {:induction false} SumAllAppend<D>(pts: seq<(real, D)>, p: (real, D), w: D -> int)
    ensures SumAll(pts + [p], w) == SumAll(pts, w) + w(p.1)
  {
    if pts != [] {
      assert (pts + [p])[1..] == pts[1..] + [p];
      SumAllAppend(pts[1..], p, w);
    }
  }

  /**
   * In a sorted row, the crossings at or left of `c` are a prefix: if the
   * first `idx` are at most `c` and the next one (if any) is beyond it, the
   * weight at or left of `c` is the weight of that prefix.
   */
  lemma {:induction false} SumLeSortedPrefix<D>(pts: seq<(real, D)>, idx: nat, c: real, w: D -> int)
    requires SortedByX(pts) && idx <= |pts|
    requires forall j :: 0 <= j < idx ==> pts[j].0 <= c
    requires idx < |pts| ==> pts[idx].0 > c
    ensures SumLe(pts, c, w) == SumAll(pts[..idx], w)
  {
    if pts != [] {
      if idx == 0 {
        SumLeSortedPrefix(pts[1..], 0, c, w);
      } else {
        SumLeSortedPrefix(pts[1..], idx - 1, c, w);
        assert pts[..idx][1..] == pts[1..][..idx - 1];
      }
    }
  }

  /** When every crossing weighs +1 or -1, the weight at or left of a
      column has the parity of their number. */
  lemma {:induction false} UnitWeightsParity<D>(pts: seq<(real, D)>, c: real, w: D -> int)
    requires forall i :: 0 <= i < |pts| ==> w(pts[i].1) == 1 || w(pts[i].1) == -1
    ensures SumLe(pts, c, w) % 2 == CountLe(pts, c) % 2
  {
    if pts != [] {
      UnitWeightsParity(pts[1..], c, w);
    }
  }

  /** When every crossing weighs +1, the weight at or left of a column is
      their number. */
  lemma {:induction false} PositiveWeightsCount<D>(pts: seq<(real, D)>, c: real, w: D -> int)
    requires forall i :: 0 <= i < |pts| ==> w(pts[i].1) == 1
    ensures SumLe(pts, c, w) == CountLe(pts, c)
  {
    if pts != [] {
      PositiveWeightsCount(pts[1..], c, w);
    }
  }

  lemma {:induction false} CountLePositive<D>(pts: seq<(real, D)>, c: real)
    ensures CountLe(pts, c) > 0 <==> exists i :: 0 <= i < |pts| && pts[i].0 <= c
  {
    if pts != [] {
      CountLePositive(pts[1..], c);
      if exists i :: 0 <= i < |pts| && pts[i].0 <= c {
        var i :| 0 <= i < |pts| && pts[i].0 <= c;
        if i > 0 {
          assert pts[1..][i - 1] == pts[i];
        }
      }
      if exists i :: 0 <= i < |pts[1..]| && pts[1..][i].0 <= c {
        var i :| 0 <= i < |pts[1..]| && pts[1..][i].0 <= c;
        assert pts[i + 1] == pts[1..][i];
      }
    }
  }

  /** With every crossing at or left of `c`, the weight at or left of `c`
      is the total weight. */
  lemma {:induction false} SumLeAll<D>(pts: seq<(real, D)>, c: real, w: D -> int)
    requires forall i :: 0 <= i < |pts| ==> pts[i].0 <= c
    ensures SumLe(pts, c, w) == SumAll(pts, w)
  {
    if pts != [] {
      SumLeAll(pts[1..], c, w);
    }
  }

  lemma {:induction false} SumAllInsert<D>(p: (real, D), s: seq<(real, D)>, w: D -> int)
    ensures SumAll(Insert(p, s), w) == w(p.1) + SumAll(s, w)
  {
    if s != [] && p.0 > s[0].0 {
      SumAllInsert(p, s[1..], w);
      assert ([s[0]] + Insert(p, s[1..]))[1..] == Insert(p, s[1..]);
    }
  }

  /** Sorting does not change the total weight of a row. */
  lemma {:induction false} SumAllSort<D>(pts: seq<(real, D)>, w: D -> int)
    ensures SumAll(SortByX(pts), w) == SumAll(pts, w)
  {
    if pts != [] {
      SumAllSort(pts[1..], w);
      SumAllInsert(pts[0], SortByX(pts[1..]), w);
    }
  }

  /** Sorting only reorders: every crossing of the sorted row is one of
      the row's crossings. */
  lemma SortByXElements<D>(pts: seq<(real, D)>)
    ensures forall i :: 0 <= i < |SortByX(pts)| ==> SortByX(pts)[i] in pts
  {
    forall i | 0 <= i < |SortByX(pts)|
      ensures SortByX(pts)[i] in pts
    {
      assert SortByX(pts)[i] in multiset(SortByX(pts));
    }
  }

  /** When every crossing weighs +1, the total weight is their number. */
  lemma {:induction false} PositiveWeightsTotal<D>(pts: seq<(real, D)>, w: D -> int)
    requires forall i :: 0 <= i < |pts| ==> w(pts[i].1) == 1
    ensures SumAll(pts, w) == |pts|
  {
    if pts != [] {
      PositiveWeightsTotal(pts[1..], w);
    }
  }
}
