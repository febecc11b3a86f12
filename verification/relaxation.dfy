/** The force-based label relaxation `_avoid_label_overlap` of the Plotly
    figure (venn_plot.py:122-183): labels that sit closer than the sum of
    their disk radii are pushed apart pairwise, then every label is pulled
    toward its anchor and clamped to the drawing bounds, for a number of
    rounds. The square root is a parameter; a division by a zero distance,
    which a faithful square root never produces, is an error like the
    source's `ZeroDivisionError`. */
module Relaxation {
  import opened Wrappers
  import opened Geometry
  import Layout

  /** A label as the source passes it: `(text, x, y)`. */
  datatype Placed = Placed(text: string, x: real, y: real)

  /** The keyword parameters of `_avoid_label_overlap`. */
  datatype Params = Params(
    iterations: int,
    step: real,
    xLo: real, xHi: real,
    yLo: real, yHi: real,
    clusters: Option<seq<set<string>>>,
    clusterPenalty: real,
    anchorStrength: real)

  /** The defaults of the signature: 220 rounds, step 0.07, bounds
      `(0.4, 9.6)` on both axes, no clusters, penalty 2.0, anchor strength 0.04. */
  const Defaults := Params(220, 0.07, 0.4, 9.6, 0.4, 9.6, None, 2.0, 0.04)

  /** The working coordinates, `xs` and `ys`. */
  datatype Coords = Coords(xs: seq<real>, ys: seq<real>)

  predicate Wf(c: Coords)
  {
    |c.xs| == |c.ys|
  }

  function MaxReal(a: real, b: real): real
  {
    if b > a then b else a
  }

  /** `max(lo, min(hi, v))`; when `lo > hi` the result is `lo`. */
  function Bound(v: real, lo: real, hi: real): (r: real)
    ensures lo <= r
    ensures lo <= hi ==> r <= hi
    ensures lo <= v <= hi ==> r == v
    ensures hi < lo ==> r == lo
  {
    var m := if hi < v then hi else v;
    MaxReal(lo, m)
  }

  /** `0.12 * scale + 0.006 * len(t) * scale`: the disk a label occupies
      during relaxation. */
  function Radius(fontSize: int, text: string): (r: real)
    ensures r >= 0.06
  {
    var scale := Layout.FontScale(fontSize);
    0.12 * scale + 0.006 * |text| as real * scale
  }

  /** Whether labels `i` and `j` belong to different clusters. */
  predicate Differ(cl: Option<seq<set<string>>>, i: nat, j: nat)
    requires cl.Some? ==> i < |cl.value| && j < |cl.value|
  {
    cl.Some? && cl.value[i] != cl.value[j]
  }

  /** The cluster list, if given, covers every pair the repulsion visits. */
  predicate ClustersCover(cl: Option<seq<set<string>>>, n: nat)
  {
    cl.None? || n < 2 || |cl.value| >= n
  }

  /** The separation labels `i` and `j` need: the sum of their radii,
      inflated by `1 + 0.08 * max(0, penalty)` across clusters. */
  function MinDist(ri: real, rj: real, differ: bool, penalty: real): real
  {
    if differ then (ri + rj) * (1.0 + 0.08 * MaxReal(0.0, penalty)) else ri + rj
  }

  /** One pair step of the repulsion pass. Coincident labels are separated
      along `x` by treating their offset as `(0.001, 0)`. */
  function PushPair(sqrt: real -> real, c: Coords, radii: seq<real>, p: Params, i: nat, j: nat): (r: Option<Coords>)
    requires Wf(c) && |radii| == |c.xs| && i < j < |c.xs| && ClustersCover(p.clusters, |c.xs|)
    ensures r.Some? ==> Wf(r.value) && |r.value.xs| == |c.xs|
    ensures r.Some? ==> forall k :: 0 <= k < |c.xs| && k != i && k != j ==>
                          r.value.xs[k] == c.xs[k] && r.value.ys[k] == c.ys[k]
    ensures r.Some? ==> r.value.xs[i] + r.value.xs[j] == c.xs[i] + c.xs[j]
    ensures r.Some? ==> r.value.ys[i] + r.value.ys[j] == c.ys[i] + c.ys[j]
    ensures IsSqrt(sqrt) ==> r.Some?
  {
    var differ := Differ(p.clusters, i, j);
    var minD := MinDist(radii[i], radii[j], differ, p.clusterPenalty);
    var dx0 := c.xs[i] - c.xs[j];
    var dy0 := c.ys[i] - c.ys[j];
    var d2 := dx0 * dx0 + dy0 * dy0;
    var dx := if d2 == 0.0 then 0.001 else dx0;
    var dy := if d2 == 0.0 then 0.0 else dy0;
    var dist2 := if d2 == 0.0 then 0.001 * 0.001 else d2;
    var dist := sqrt(dist2);
    if !(dist < minD) then Some(c)
    else if dist == 0.0 then
      RootOfPositive(sqrt, dist2, dx0, dy0);
      None
    else
      var push0 := (minD - dist) / MaxReal(minD, 0.000001);
      var push := if differ then push0 * MaxReal(1.0, p.clusterPenalty) else push0;
      var mx := dx / dist * p.step * push;
      var my := dy / dist * p.step * push;
      Some(Coords(c.xs[i := c.xs[i] + mx][j := c.xs[j] - mx], c.ys[i := c.ys[i] + my][j := c.ys[j] - my]))
  }

  /** The squared offset used for the distance is positive, so a faithful
      square root of it is not zero. */
  lemma RootOfPositive(sqrt: real -> real, dist2: real, dx0: real, dy0: real)
    requires dist2 == (if dx0 * dx0 + dy0 * dy0 == 0.0 then 0.001 * 0.001 else dx0 * dx0 + dy0 * dy0)
    ensures IsSqrt(sqrt) ==> sqrt(dist2) != 0.0
  {
    if IsSqrt(sqrt) {
      assert dx0 * dx0 + dy0 * dy0 >= 0.0 by {
        SqDistNonNegative(Point(dx0, dy0), Point(0.0, 0.0));
      }
      assert dist2 > 0.0;
      var s := sqrt(dist2);
      assert s * s == dist2;
    }
  }

  function Sum(xs: seq<real>): real
  {
    if |xs| == 0 then 0.0 else Sum(xs[..|xs| - 1]) + xs[|xs| - 1]
  }

  /** Changing two entries changes the sum by exactly their change. */
  lemma {:induction false} SumOfTwoUpdates(xs: seq<real>, ys: seq<real>, i: nat, j: nat)
    requires |xs| == |ys| && i < |xs| && j < |xs| && i != j
    requires forall k :: 0 <= k < |xs| && k != i && k != j ==> xs[k] == ys[k]
    ensures Sum(ys) - Sum(xs) == (ys[i] - xs[i]) + (ys[j] - xs[j])
  {
    var n := |xs| - 1;
    if n == i || n == j {
      var o := if n == i then j else i;
      SumOfOneUpdate(xs[..n], ys[..n], o);
    } else {
      SumOfTwoUpdates(xs[..n], ys[..n], i, j);
    }
  }

  lemma {:induction false} SumOfOneUpdate(xs: seq<real>, ys: seq<real>, i: nat)
    requires |xs| == |ys| && i < |xs|
    requires forall k :: 0 <= k < |xs| && k != i ==> xs[k] == ys[k]
    ensures Sum(ys) - Sum(xs) == ys[i] - xs[i]
  {
    var n := |xs| - 1;
    if n == i {
      assert xs[..n] == ys[..n];
    } else {
      SumOfOneUpdate(xs[..n], ys[..n], i);
    }
  }

  /** A pair step conserves the sum of each coordinate: what one label gains
      the other loses. */
  lemma PushPairConservesSums(sqrt: real -> real, c: Coords, radii: seq<real>, p: Params, i: nat, j: nat)
    requires Wf(c) && |radii| == |c.xs| && i < j < |c.xs| && ClustersCover(p.clusters, |c.xs|)
    ensures var r := PushPair(sqrt, c, radii, p, i, j);
            r.Some? ==> Sum(r.value.xs) == Sum(c.xs) && Sum(r.value.ys) == Sum(c.ys)
  {
    var r := PushPair(sqrt, c, radii, p, i, j);
    if r.Some? {
      SumOfTwoUpdates(c.xs, r.value.xs, i, j);
      SumOfTwoUpdates(c.ys, r.value.ys, i, j);
    }
  }

  /** `for j in range(start, n)` for a fixed `i`. */
  function RepelRow(sqrt: real -> real, c: Coords, radii: seq<real>, p: Params, i: nat, j: nat): (r: Option<Coords>)
    requires Wf(c) && |radii| == |c.xs| && i < j <= |c.xs| && ClustersCover(p.clusters, |c.xs|)
    ensures r.Some? ==> Wf(r.value) && |r.value.xs| == |c.xs|
    ensures r.Some? ==> Sum(r.value.xs) == Sum(c.xs) && Sum(r.value.ys) == Sum(c.ys)
    ensures IsSqrt(sqrt) ==> r.Some?
    decreases |c.xs| - j
  {
    if j == |c.xs| then Some(c)
    else
      PushPairConservesSums(sqrt, c, radii, p, i, j);
      match PushPair(sqrt, c, radii, p, i, j)
      case None => None
      case Some(c1) => RepelRow(sqrt, c1, radii, p, i, j + 1)
  }

  /** The pairwise repulsion pass: `for i in range(start, n)`, each row in turn. */
  function RepelAll(sqrt: real -> real, c: Coords, radii: seq<real>, p: Params, i: nat): (r: Option<Coords>)
    requires Wf(c) && |radii| == |c.xs| && i <= |c.xs| && ClustersCover(p.clusters, |c.xs|)
    ensures r.Some? ==> Wf(r.value) && |r.value.xs| == |c.xs|
    ensures r.Some? ==> Sum(r.value.xs) == Sum(c.xs) && Sum(r.value.ys) == Sum(c.ys)
    ensures IsSqrt(sqrt) ==> r.Some?
    decreases |c.xs| - i
  {
    if i == |c.xs| then Some(c)
    else
      match RepelRow(sqrt, c, radii, p, i, i + 1)
      case None => None
      case Some(c1) => RepelAll(sqrt, c1, radii, p, i + 1)
  }

  /** `v + (a - v) * strength`: one pull toward the anchor `a`. */
  function Toward(v: real, a: real, strength: real): real
  {
    v + (a - v) * strength
  }

  /** `v + (a - v) * strength`, clamped to `[lo, hi]`. */
  function PullOne(v: real, a: real, strength: real, lo: real, hi: real): real
  {
    Bound(Toward(v, a, strength), lo, hi)
  }

  /** The anchor pass: every label pulled toward its anchor, then clamped. */
  function PullAll(c: Coords, anchors: seq<Point>, p: Params): (r: Coords)
    requires Wf(c) && |anchors| >= |c.xs|
    ensures Wf(r) && |r.xs| == |c.xs|
    ensures forall k :: 0 <= k < |r.xs| ==> p.xLo <= r.xs[k] && p.yLo <= r.ys[k]
    ensures p.xLo <= p.xHi ==> forall k :: 0 <= k < |r.xs| ==> r.xs[k] <= p.xHi
    ensures p.yLo <= p.yHi ==> forall k :: 0 <= k < |r.ys| ==> r.ys[k] <= p.yHi
  {
    Coords(seq(|c.xs|, k requires 0 <= k < |c.xs| => PullOne(c.xs[k], anchors[k].x, p.anchorStrength, p.xLo, p.xHi)),
           seq(|c.ys|, k requires 0 <= k < |c.ys| => PullOne(c.ys[k], anchors[k].y, p.anchorStrength, p.yLo, p.yHi)))
  }

  function Abs(v: real): real
  {
    if v < 0.0 then -v else v
  }

  /** With a strength in `[0, 1]` and an anchor inside the bounds, a pull never
      takes a coordinate farther from its anchor. */
  lemma PullApproachesAnchor(v: real, a: real, strength: real, lo: real, hi: real)
    requires 0.0 <= strength <= 1.0 && lo <= a <= hi
    ensures Abs(PullOne(v, a, strength, lo, hi) - a) <= Abs(v - a)
  {
    TowardBetween(v, a, strength);
    ClampedStep(v, a, Toward(v, a, strength), lo, hi);
  }

  /** A pull with strength in `[0, 1]` lands between the value and the anchor. */
  lemma TowardBetween(v: real, a: real, strength: real)
    requires 0.0 <= strength <= 1.0
    ensures v <= a ==> v <= Toward(v, a, strength) <= a
    ensures a <= v ==> a <= Toward(v, a, strength) <= v
  {
    var d := a - v;
    var m := d * strength;
    assert Toward(v, a, strength) == v + m;
    if v <= a {
      FractionBetween(d, strength);
    } else {
      FractionBetween(d, strength);
    }
  }

  /** A point `w` between `v` and `a`, clamped to bounds that contain `a`, is
      no farther from `a` than `v`. */
  lemma ClampedStep(v: real, a: real, w: real, lo: real, hi: real)
    requires lo <= a <= hi
    requires v <= a ==> v <= w <= a
    requires a <= v ==> a <= w <= v
    ensures Abs(Bound(w, lo, hi) - a) <= Abs(v - a)
  {
    BoundTowardInside(w, a, lo, hi);
  }

  /** Clamping to bounds that contain `a` never moves a value away from `a`. */
  lemma BoundTowardInside(w: real, a: real, lo: real, hi: real)
    requires lo <= a <= hi
    ensures Abs(Bound(w, lo, hi) - a) <= Abs(w - a)
  {
  }

  /** The anchor pass as a whole: every label ends inside the bounds and no
      farther from its anchor along either axis, when the anchors are inside
      the bounds and the strength is in `[0, 1]`. */
  lemma PullAllApproachesAnchors(c: Coords, anchors: seq<Point>, p: Params)
    requires Wf(c) && |anchors| >= |c.xs|
    requires 0.0 <= p.anchorStrength <= 1.0
    requires forall k :: 0 <= k < |c.xs| ==> p.xLo <= anchors[k].x <= p.xHi && p.yLo <= anchors[k].y <= p.yHi
    ensures var r := PullAll(c, anchors, p);
            forall k :: 0 <= k < |c.xs| ==>
              Abs(r.xs[k] - anchors[k].x) <= Abs(c.xs[k] - anchors[k].x) &&
              Abs(r.ys[k] - anchors[k].y) <= Abs(c.ys[k] - anchors[k].y)
  {
    var r := PullAll(c, anchors, p);
    forall k | 0 <= k < |c.xs|
      ensures Abs(r.xs[k] - anchors[k].x) <= Abs(c.xs[k] - anchors[k].x)
      ensures Abs(r.ys[k] - anchors[k].y) <= Abs(c.ys[k] - anchors[k].y)
    {
      PullApproachesAnchor(c.xs[k], anchors[k].x, p.anchorStrength, p.xLo, p.xHi);
      PullApproachesAnchor(c.ys[k], anchors[k].y, p.anchorStrength, p.yLo, p.yHi);
    }
  }

  /** Every label inside the bounds, as far as the bounds allow: above the
      lower bound always, and below the upper one when it is not smaller. */
  predicate InBounds(c: Coords, p: Params)
    requires Wf(c)
  {
    forall k :: 0 <= k < |c.xs| ==>
      p.xLo <= c.xs[k] && (p.xLo <= p.xHi ==> c.xs[k] <= p.xHi) &&
      p.yLo <= c.ys[k] && (p.yLo <= p.yHi ==> c.ys[k] <= p.yHi)
  }

  /** `k` rounds of repulsion followed by the anchor pass. */
  function Rounds(sqrt: real -> real, c: Coords, anchors: seq<Point>, radii: seq<real>, p: Params, k: nat): (r: Option<Coords>)
    requires Wf(c) && |radii| == |c.xs|
    requires k > 0 ==> |anchors| >= |c.xs| && ClustersCover(p.clusters, |c.xs|)
    ensures r.Some? ==> Wf(r.value) && |r.value.xs| == |c.xs|
    ensures k > 0 && r.Some? ==> InBounds(r.value, p)
    ensures IsSqrt(sqrt) ==> r.Some?
    decreases k
  {
    if k == 0 then Some(c)
    else
      match RepelAll(sqrt, c, radii, p, 0)
      case None => None
      case Some(c1) => Rounds(sqrt, PullAll(c1, anchors, p), anchors, radii, p, k - 1)
  }

  /** The inputs the source indexes out of range once a round runs: fewer
      anchors than labels, or a cluster list shorter than the labels when
      there is a pair to compare. */
  predicate IndexError(labels: seq<Placed>, anchors: seq<Point>, p: Params)
  {
    p.iterations >= 1 && |labels| >= 1 &&
    (|anchors| < |labels| || (p.clusters.Some? && |labels| >= 2 && |p.clusters.value| < |labels|))
  }

  /** `_avoid_label_overlap(labels, anchors, font_size, ...)`: the texts and
      their order are kept; no rounds leave the labels as given; after at
      least one round every label lies inside the bounds; and with a faithful
      square root the only failures are the index errors. */
  function AvoidOverlap(sqrt: real -> real, labels: seq<Placed>, anchors: seq<Point>, fontSize: int, p: Params): (r: Option<seq<Placed>>)
    ensures IndexError(labels, anchors, p) ==> r.None?
    ensures IsSqrt(sqrt) && !IndexError(labels, anchors, p) ==> r.Some?
    ensures r.Some? ==> |r.value| == |labels| && forall k :: 0 <= k < |labels| ==> r.value[k].text == labels[k].text
    ensures p.iterations <= 0 ==> r == Some(labels)
    ensures r.Some? && p.iterations >= 1 ==>
              forall k :: 0 <= k < |labels| ==>
                p.xLo <= r.value[k].x && (p.xLo <= p.xHi ==> r.value[k].x <= p.xHi) &&
                p.yLo <= r.value[k].y && (p.yLo <= p.yHi ==> r.value[k].y <= p.yHi)
  {
    if IndexError(labels, anchors, p) then None
    else
      var c := Split(labels);
      var radii := seq(|labels|, k requires 0 <= k < |labels| => Radius(fontSize, labels[k].text));
      var rounds := if p.iterations > 0 then p.iterations else 0;
      match Rounds(sqrt, c, anchors, radii, p, rounds)
      case None => None
      case Some(c1) =>
        JoinSplit(labels);
        Some(Join(labels, c1))
  }

  /** The coordinate lists `xs`, `ys` of the labels. */
  function Split(labels: seq<Placed>): (c: Coords)
    ensures Wf(c) && |c.xs| == |labels|
  {
    Coords(seq(|labels|, k requires 0 <= k < |labels| => labels[k].x),
           seq(|labels|, k requires 0 <= k < |labels| => labels[k].y))
  }

  /** `[(texts[i], xs[i], ys[i]) for i in range(len(xs))]`. */
  function Join(labels: seq<Placed>, c: Coords): (r: seq<Placed>)
    requires Wf(c) && |c.xs| == |labels|
    ensures |r| == |labels|
  {
    seq(|labels|, k requires 0 <= k < |labels| => Placed(labels[k].text, c.xs[k], c.ys[k]))
  }

  /** Splitting the labels into coordinates and joining them back gives the
      labels unchanged. */
  lemma JoinSplit(labels: seq<Placed>)
    ensures Join(labels, Split(labels)) == labels
  {
  }
}
