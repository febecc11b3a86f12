/** Candidate points of a region: the uniform grid over the 10 x 10 canvas,
    the inside/outside filter with its boundary margin, and the stable sort by
    descending margin (venn_plot_mpl.py:92-131, venn_plot.py:334-378). */
module Candidates {
  import opened Categories
  import opened Geometry
  import opened Layout

  /** A grid point that lies in a region, with its distance to the nearest
      boundary it must respect. */
  datatype Candidate = Candidate(pos: Point, margin: real)

  /** Side of the square canvas; the grid covers `[0, 10] x [0, 10]`. */
  const Extent: real := 10.0

  /** `max(0.01, float(grid_step))` */
  function GridStep(gridStep: real): (step: real)
    ensures step >= 0.01
    ensures gridStep >= 0.01 ==> step == gridStep
  {
    if gridStep > 0.01 then gridStep else 0.01
  }

  /** `int(10.0 / step)`: the index of the last grid line on each axis. */
  function LastIndex(step: real): (n: nat)
    requires step >= 0.01
    ensures n as real * step <= Extent < (n + 1) as real * step
    ensures n <= 1000
  {
    var q := Extent / step;
    assert q <= 1000.0 by { QuotientBound(step); }
    var n := q.Floor;
    FloorTimes(q, step, n);
    n
  }

  lemma QuotientBound(step: real)
    requires step >= 0.01
    ensures Extent / step <= 1000.0
  {
    var q := Extent / step;
    assert q * step == Extent;
    assert q >= 0.0;
    ScaleMonotone(0.01, step, q);
    assert 0.01 * q <= q * step;
  }

  lemma FloorTimes(q: real, step: real, n: int)
    requires step > 0.0 && q * step == Extent && n == q.Floor
    ensures n as real * step <= Extent < (n + 1) as real * step
  {
    ScaleMonotone(n as real, q, step);
    assert q < (n + 1) as real;
    var m := (n + 1) as real;
    assert q * step < m * step by {
      assert (m - q) * step > 0.0;
    }
  }

  /** The coordinates `0.0 + step * i` of the grid lines on one axis. */
  function Axis(step: real): (r: seq<real>)
    requires step >= 0.01
    ensures |r| == LastIndex(step) + 1
    ensures forall i :: 0 <= i < |r| ==> r[i] == step * i as real
    ensures forall i :: 0 <= i < |r| ==> 0.0 <= r[i] <= Extent
  {
    var n := LastIndex(step);
    AxisInRange(step, n);
    seq(n + 1, i requires 0 <= i <= n => Line(step, i))
  }

  /** `0.0 + step * i`: the coordinate of grid line `i`. */
  function Line(step: real, i: nat): real
  {
    step * i as real
  }

  /** Every grid line up to the last lies on the canvas. */
  lemma AxisInRange(step: real, n: nat)
    requires step > 0.0 && n as real * step <= Extent
    ensures forall i: nat :: i <= n ==> 0.0 <= Line(step, i) <= Extent
  {
    forall i: nat | i <= n
      ensures 0.0 <= Line(step, i) <= Extent
    {
      ScaleMonotone(0.0, i as real, step);
      ScaleMonotone(i as real, n as real, step);
    }
  }

  /** The grid points, x-major, as the two nested loops visit them. */
  function Grid(step: real): (r: seq<Point>)
    requires step >= 0.01
    ensures forall p :: p in r <==> p.x in Axis(step) && p.y in Axis(step)
    ensures forall i, j :: 0 <= i < |Axis(step)| && 0 <= j < |Axis(step)| ==>
              Cell(i, j, |Axis(step)|) < |r| && r[Cell(i, j, |Axis(step)|)] == Point(Axis(step)[i], Axis(step)[j])
  {
    Pairs(Axis(step), Axis(step))
  }

  /** `for px in xs: for py in ys: (px, py)` */
  function Pairs(xs: seq<real>, ys: seq<real>): (r: seq<Point>)
    ensures forall p :: p in r <==> p.x in xs && p.y in ys
    ensures |r| == |xs| * |ys|
    ensures forall i, j :: 0 <= i < |xs| && 0 <= j < |ys| ==>
              Cell(i, j, |ys|) < |r| && r[Cell(i, j, |ys|)] == Point(xs[i], ys[j])
  {
    if |xs| == 0 then []
    else
      var column := seq(|ys|, j requires 0 <= j < |ys| => Point(xs[0], ys[j]));
      var rest := Pairs(xs[1..], ys);
      assert |column + rest| == |xs| * |ys|;
      RowsInOrder(xs, ys, column, rest);
      assert forall p :: p in column <==> p.x == xs[0] && p.y in ys by {
        forall p ensures p in column <==> p.x == xs[0] && p.y in ys {
          if p.x == xs[0] && p.y in ys {
            var j :| 0 <= j < |ys| && ys[j] == p.y;
            assert column[j] == p;
          }
        }
      }
      assert forall x :: x in xs <==> x == xs[0] || x in xs[1..] by {
        assert xs == [xs[0]] + xs[1..];
      }
      column + rest
  }

  /** Where row `i` of a grid with rows of `w` points starts. */
  function RowStart(i: nat, w: nat): nat
  {
    if i == 0 then 0 else w + RowStart(i - 1, w)
  }

  /** The position of point `j` of row `i` in a grid listed row by row. */
  function Cell(i: nat, j: nat, w: nat): nat
  {
    RowStart(i, w) + j
  }

  /** Row `i` starts after `i` full rows, so point `j` of it is at `i * w + j`. */
  lemma {:induction false} CellIsProduct(i: nat, j: nat, w: nat)
    ensures Cell(i, j, w) == i * w + j
  {
    if i > 0 {
      CellIsProduct(i - 1, j, w);
      assert i * w == w + (i - 1) * w;
    }
  }

  /** The first row followed by the remaining rows puts point `(xs[i], ys[j])`
      at position `j` of row `i`. */
  lemma RowsInOrder(xs: seq<real>, ys: seq<real>, column: seq<Point>, rest: seq<Point>)
    requires |xs| > 0
    requires |column| == |ys| && forall j :: 0 <= j < |ys| ==> column[j] == Point(xs[0], ys[j])
    requires forall i, j :: 0 <= i < |xs[1..]| && 0 <= j < |ys| ==>
               Cell(i, j, |ys|) < |rest| && rest[Cell(i, j, |ys|)] == Point(xs[1..][i], ys[j])
    ensures forall i, j :: 0 <= i < |xs| && 0 <= j < |ys| ==>
              Cell(i, j, |ys|) < |column + rest| && (column + rest)[Cell(i, j, |ys|)] == Point(xs[i], ys[j])
  {
    forall i, j | 0 <= i < |xs| && 0 <= j < |ys|
      ensures Cell(i, j, |ys|) < |column + rest| && (column + rest)[Cell(i, j, |ys|)] == Point(xs[i], ys[j])
    {
      if i > 0 {
        var k := Cell(i - 1, j, |ys|);
        assert Cell(i, j, |ys|) == |column| + k;
        assert xs[1..][i - 1] == xs[i];
        assert (column + rest)[|column| + k] == rest[k];
      } else {
        assert (column + rest)[j] == column[j];
      }
    }
  }
  /** Every grid point lies on the canvas. */
  lemma GridOnCanvas(step: real, p: Point)
    requires step >= 0.01
    requires p in Grid(step)
    ensures 0.0 <= p.x <= Extent && 0.0 <= p.y <= Extent
  {
  }

  /** How far `p` is from the boundary of circle `c`, on the side where the
      region says it must be: `radius - d` inside an included circle,
      `d - radius` outside an excluded one. Negative means on the wrong side. */
  function Slack(sqrt: real -> real, cs: Circles, radius: real, key: Key, p: Point, c: Category): real
  {
    var d := Dist(sqrt, p, cs.Center(c));
    if key.Has(c) then radius - d else d - radius
  }

  /** `p` is inside every included circle and outside every excluded one
      (points on a circle count as both). */
  predicate InRegion(sqrt: real -> real, cs: Circles, radius: real, key: Key, p: Point)
  {
    forall c :: (key.Has(c) ==> Dist(sqrt, p, cs.Center(c)) <= radius)
             && (!key.Has(c) ==> Dist(sqrt, p, cs.Center(c)) >= radius)
  }

  function Min(a: real, b: real): real
  {
    if a <= b then a else b
  }

  /** `min(min_in_margin, min_out_margin)`: the smallest slack over all four
      circles. */
  function Margin(sqrt: real -> real, cs: Circles, radius: real, key: Key, p: Point): (m: real)
    ensures forall c :: m <= Slack(sqrt, cs, radius, key, p, c)
    ensures exists c :: m == Slack(sqrt, cs, radius, key, p, c)
  {
    var m := Min(Min(Slack(sqrt, cs, radius, key, p, Numeric), Slack(sqrt, cs, radius, key, p, Sequence)),
                 Min(Slack(sqrt, cs, radius, key, p, Categorical), Slack(sqrt, cs, radius, key, p, Date)));
    SlackLowerBound(sqrt, cs, radius, key, p, m);
    m
  }

  lemma SlackLowerBound(sqrt: real -> real, cs: Circles, radius: real, key: Key, p: Point, m: real)
    requires m <= Slack(sqrt, cs, radius, key, p, Numeric) && m <= Slack(sqrt, cs, radius, key, p, Sequence)
    requires m <= Slack(sqrt, cs, radius, key, p, Categorical) && m <= Slack(sqrt, cs, radius, key, p, Date)
    ensures forall c :: m <= Slack(sqrt, cs, radius, key, p, c)
  {
    forall c ensures m <= Slack(sqrt, cs, radius, key, p, c) {
      match c
      case Numeric =>
      case Sequence =>
      case Categorical =>
      case Date =>
    }
  }

  /** A point is in the region exactly when its margin is non-negative. */
  lemma MarginSignIsMembership(sqrt: real -> real, cs: Circles, radius: real, key: Key, p: Point)
    ensures InRegion(sqrt, cs, radius, key, p) <==> Margin(sqrt, cs, radius, key, p) >= 0.0
  {
    var m := Margin(sqrt, cs, radius, key, p);
    if InRegion(sqrt, cs, radius, key, p) {
      var c :| m == Slack(sqrt, cs, radius, key, p, c);
    } else {
      var c :| !((key.Has(c) ==> Dist(sqrt, p, cs.Center(c)) <= radius)
                && (!key.Has(c) ==> Dist(sqrt, p, cs.Center(c)) >= radius));
      assert m <= Slack(sqrt, cs, radius, key, p, c);
    }
  }

  /** The candidate for a point of the region, as a one-element list, and
      nothing for a point outside it. */
  function KeepOne(sqrt: real -> real, cs: Circles, radius: real, key: Key, p: Point): seq<Candidate>
  {
    if InRegion(sqrt, cs, radius, key, p) then [Candidate(p, Margin(sqrt, cs, radius, key, p))] else []
  }

  /** The loop over the grid that collects the region's points. */
  function Keep(sqrt: real -> real, cs: Circles, radius: real, key: Key, pts: seq<Point>): seq<Candidate>
  {
    if |pts| == 0 then [] else KeepOne(sqrt, cs, radius, key, pts[0]) + Keep(sqrt, cs, radius, key, pts[1..])
  }

  lemma {:induction false} KeepFacts(sqrt: real -> real, cs: Circles, radius: real, key: Key, pts: seq<Point>)
    ensures forall i :: 0 <= i < |Keep(sqrt, cs, radius, key, pts)| ==>
              && Keep(sqrt, cs, radius, key, pts)[i].pos in pts
              && InRegion(sqrt, cs, radius, key, Keep(sqrt, cs, radius, key, pts)[i].pos)
              && Keep(sqrt, cs, radius, key, pts)[i].margin == Margin(sqrt, cs, radius, key, Keep(sqrt, cs, radius, key, pts)[i].pos)
    ensures forall p :: p in pts && InRegion(sqrt, cs, radius, key, p) ==>
              Candidate(p, Margin(sqrt, cs, radius, key, p)) in Keep(sqrt, cs, radius, key, pts)
  {
    if |pts| > 0 {
      KeepFacts(sqrt, cs, radius, key, pts[1..]);
      assert forall p :: p in pts[1..] ==> p in pts;
      assert forall p :: p in pts ==> p == pts[0] || p in pts[1..];
    }
  }

  lemma {:induction false} KeepAppend(sqrt: real -> real, cs: Circles, radius: real, key: Key, a: seq<Point>, b: seq<Point>)
    ensures Keep(sqrt, cs, radius, key, a + b) == Keep(sqrt, cs, radius, key, a) + Keep(sqrt, cs, radius, key, b)
  {
    if |a| == 0 {
      assert a + b == b;
    } else {
      assert (a + b)[0] == a[0] && (a + b)[1..] == a[1..] + b;
      KeepAppend(sqrt, cs, radius, key, a[1..], b);
    }
  }

  /** The grid points lying in the region, in grid order, with their margins. */
  function FilterRegion(sqrt: real -> real, cs: Circles, radius: real, key: Key, pts: seq<Point>): (r: seq<Candidate>)
    ensures forall i :: 0 <= i < |r| ==>
              && r[i].pos in pts
              && InRegion(sqrt, cs, radius, key, r[i].pos)
              && r[i].margin == Margin(sqrt, cs, radius, key, r[i].pos)
    ensures forall p :: p in pts && InRegion(sqrt, cs, radius, key, p) ==>
              Candidate(p, Margin(sqrt, cs, radius, key, p)) in r
  {
    KeepFacts(sqrt, cs, radius, key, pts);
    Keep(sqrt, cs, radius, key, pts)
  }

  /** The filter distributes over concatenation: the region points of
      `a + b` are those of `a` followed by those of `b`, so the filter keeps
      the grid order. */
  lemma FilterRegionAppend(sqrt: real -> real, cs: Circles, radius: real, key: Key, a: seq<Point>, b: seq<Point>)
    ensures FilterRegion(sqrt, cs, radius, key, a + b)
         == FilterRegion(sqrt, cs, radius, key, a) + FilterRegion(sqrt, cs, radius, key, b)
  {
    KeepAppend(sqrt, cs, radius, key, a, b);
  }

  /** A single point is kept, with its margin, exactly when it lies in the
      region. */
  lemma FilterRegionOne(sqrt: real -> real, cs: Circles, radius: real, key: Key, p: Point)
    ensures InRegion(sqrt, cs, radius, key, p) ==>
              FilterRegion(sqrt, cs, radius, key, [p]) == [Candidate(p, Margin(sqrt, cs, radius, key, p))]
    ensures !InRegion(sqrt, cs, radius, key, p) ==> FilterRegion(sqrt, cs, radius, key, [p]) == []
  {
    assert [p][1..] == [];
    assert Keep(sqrt, cs, radius, key, [p]) == KeepOne(sqrt, cs, radius, key, p) + Keep(sqrt, cs, radius, key, []);
  }

  /** Two region points keep their relative order: if `pts[a]` comes before
      `pts[b]`, the candidate for `pts[a]` comes before the one for `pts[b]`. */
  lemma FilterKeepsOrder(sqrt: real -> real, cs: Circles, radius: real, key: Key, pts: seq<Point>, a: int, b: int)
    requires 0 <= a < b < |pts|
    requires InRegion(sqrt, cs, radius, key, pts[a]) && InRegion(sqrt, cs, radius, key, pts[b])
    ensures var r := FilterRegion(sqrt, cs, radius, key, pts);
            exists i, j :: 0 <= i < j < |r| && r[i].pos == pts[a] && r[j].pos == pts[b]
  {
    var front, back := pts[..b], pts[b..];
    assert pts == front + back;
    FilterRegionAppend(sqrt, cs, radius, key, front, back);
    var f := FilterRegion(sqrt, cs, radius, key, front);
    var g := FilterRegion(sqrt, cs, radius, key, back);
    assert front[a] == pts[a];
    var c := Candidate(pts[a], Margin(sqrt, cs, radius, key, pts[a]));
    assert c in f;
    var i :| 0 <= i < |f| && f[i] == c;
    assert back[0] == pts[b];
    assert g[0].pos == pts[b];
    var r := FilterRegion(sqrt, cs, radius, key, pts);
    assert r == f + g;
    assert r[i] == f[i] && r[|f|] == g[0];
  }

  predicate SortedByMargin(s: seq<Candidate>)
  {
    forall i, j :: 0 <= i < j < |s| ==> s[i].margin >= s[j].margin
  }

  /** The candidates whose margin is exactly `m`, in their order in `s`. */
  function WithMargin(s: seq<Candidate>, m: real): seq<Candidate>
  {
    if |s| == 0 then []
    else (if s[0].margin == m then [s[0]] else []) + WithMargin(s[1..], m)
  }

  /** Inserts `c` before the first element with a smaller margin and after
      every element with a larger one. */
  function InsertByMargin(c: Candidate, s: seq<Candidate>): (r: seq<Candidate>)
    requires SortedByMargin(s)
    ensures SortedByMargin(r)
    ensures multiset(r) == multiset(s) + multiset{c}
  {
    if |s| == 0 || c.margin >= s[0].margin then [c] + s
    else
      var rest := InsertByMargin(c, s[1..]);
      HeadDominates(c, s, rest);
      [s[0]] + rest
  }

  lemma HeadDominates(c: Candidate, s: seq<Candidate>, rest: seq<Candidate>)
    requires SortedByMargin(s) && |s| > 0 && c.margin < s[0].margin
    requires SortedByMargin(rest) && multiset(rest) == multiset(s[1..]) + multiset{c}
    ensures SortedByMargin([s[0]] + rest)
    ensures multiset([s[0]] + rest) == multiset(s) + multiset{c}
  {
    assert s == [s[0]] + s[1..];
    forall x | x in rest ensures x.margin <= s[0].margin {
      assert x in multiset(rest);
      if x != c {
        assert x in multiset(s[1..]);
        assert x in s[1..];
      }
    }
  }

  lemma {:induction false} InsertKeepsTies(c: Candidate, s: seq<Candidate>, m: real)
    requires SortedByMargin(s)
    ensures WithMargin(InsertByMargin(c, s), m)
         == (if c.margin == m then [c] else []) + WithMargin(s, m)
  {
    if |s| == 0 || c.margin >= s[0].margin {
      var r := [c] + s;
      assert r[1..] == s;
      if c.margin == m && |s| > 0 && s[0].margin != m {
        assert c.margin >= s[0].margin;
      }
    } else {
      var t := InsertByMargin(c, s[1..]);
      InsertKeepsTies(c, s[1..], m);
      var r := [s[0]] + t;
      assert InsertByMargin(c, s) == r;
      assert r[0] == s[0] && r[1..] == t;
      var head := if s[0].margin == m then [s[0]] else [];
      assert WithMargin(r, m) == head + WithMargin(t, m);
      assert WithMargin(s, m) == head + WithMargin(s[1..], m);
      if c.margin == m {
        assert head == [];
      }
    }
  }

  /** `candidates.sort(key=lambda p: p[2], reverse=True)`: Python's sort is
      stable, so candidates of equal margin keep their grid order. */
  function SortByMargin(s: seq<Candidate>): (r: seq<Candidate>)
    ensures SortedByMargin(r)
    ensures multiset(r) == multiset(s)
    ensures |r| == |s|
  {
    if |s| == 0 then []
    else
      assert s == [s[0]] + s[1..];
      InsertByMargin(s[0], SortByMargin(s[1..]))
  }

  lemma SortKeepsMembers(s: seq<Candidate>, x: Candidate)
    ensures x in SortByMargin(s) <==> x in s
  {
    var r := SortByMargin(s);
    assert x in r <==> x in multiset(r);
    assert x in s <==> x in multiset(s);
  }

  /** Stability: among candidates of any one margin, the sorted list keeps the
      order of the input. */
  lemma {:induction false} SortIsStable(s: seq<Candidate>, m: real)
    ensures WithMargin(SortByMargin(s), m) == WithMargin(s, m)
  {
    if |s| > 0 {
      SortIsStable(s[1..], m);
      InsertKeepsTies(s[0], SortByMargin(s[1..]), m);
    }
  }

  /** `region_to_points[key]`: every grid point of the region, sorted by
      descending margin with ties in grid order. */
  function RegionCandidates(sqrt: real -> real, cs: Circles, radius: real, key: Key, step: real): (r: seq<Candidate>)
    requires step >= 0.01
    ensures SortedByMargin(r)
    ensures forall i :: 0 <= i < |r| ==>
              && r[i].pos in Grid(step)
              && InRegion(sqrt, cs, radius, key, r[i].pos)
              && r[i].margin == Margin(sqrt, cs, radius, key, r[i].pos)
              && r[i].margin >= 0.0
    ensures forall p :: p in Grid(step) && InRegion(sqrt, cs, radius, key, p) ==>
              Candidate(p, Margin(sqrt, cs, radius, key, p)) in r
    ensures forall m :: WithMargin(r, m) == WithMargin(FilterRegion(sqrt, cs, radius, key, Grid(step)), m)
  {
    var found := FilterRegion(sqrt, cs, radius, key, Grid(step));
    var r := SortByMargin(found);
    CandidatesFacts(sqrt, cs, radius, key, step, found, r);
    forall m ensures WithMargin(r, m) == WithMargin(found, m) {
      SortIsStable(found, m);
    }
    r
  }

  lemma CandidatesFacts(sqrt: real -> real, cs: Circles, radius: real, key: Key, step: real,
                        found: seq<Candidate>, r: seq<Candidate>)
    requires step >= 0.01
    requires found == FilterRegion(sqrt, cs, radius, key, Grid(step))
    requires r == SortByMargin(found)
    ensures forall i :: 0 <= i < |r| ==>
              && r[i].pos in Grid(step)
              && InRegion(sqrt, cs, radius, key, r[i].pos)
              && r[i].margin == Margin(sqrt, cs, radius, key, r[i].pos)
              && r[i].margin >= 0.0
    ensures forall p :: p in Grid(step) && InRegion(sqrt, cs, radius, key, p) ==>
              Candidate(p, Margin(sqrt, cs, radius, key, p)) in r
  {
    forall i | 0 <= i < |r|
      ensures && r[i].pos in Grid(step)
              && InRegion(sqrt, cs, radius, key, r[i].pos)
              && r[i].margin == Margin(sqrt, cs, radius, key, r[i].pos)
              && r[i].margin >= 0.0
    {
      SortKeepsMembers(found, r[i]);
      var j :| 0 <= j < |found| && found[j] == r[i];
      MarginSignIsMembership(sqrt, cs, radius, key, r[i].pos);
    }
    forall p | p in Grid(step) && InRegion(sqrt, cs, radius, key, p)
      ensures Candidate(p, Margin(sqrt, cs, radius, key, p)) in r
    {
      SortKeepsMembers(found, Candidate(p, Margin(sqrt, cs, radius, key, p)));
    }
  }
}
