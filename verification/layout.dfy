/** The fixed circle layout, the `shared_region` interpolation of circle
    centres and label anchors toward the centroid, the label disk radius and
    the same-region spacing rule (venn_plot_mpl.py:70-89, 136-138, 159-171;
    duplicated in venn_plot.py:246-330, 384-386, 410-424). */
module Layout {
  import opened Categories
  import opened Geometry

  /** The centre of each category's circle. */
  datatype Circles = Circles(numeric: Point, sequence: Point, categorical: Point, date: Point)
  {
    function Center(c: Category): Point
    {
      match c
      case Numeric => numeric
      case Sequence => sequence
      case Categorical => categorical
      case Date => date
    }
  }

  /** A label: its text, its placement anchor and its owning region. */
  datatype LabelSpec = LabelSpec(text: string, anchor: Point, key: Key)

  function Clamp(v: real, lo: real, hi: real): (r: real)
    requires lo <= hi
    ensures lo <= r <= hi
    ensures lo <= v <= hi ==> r == v
    ensures v <= lo ==> r == lo
    ensures hi <= v ==> r == hi
  {
    if v < lo then lo else if hi < v then hi else v
  }

  /** `max(0.0, min(1.0, shared_region))` */
  function ClampShared(shared: real): (s: real)
    ensures 0.0 <= s <= 1.0
  {
    Clamp(shared, 0.0, 1.0)
  }

  /** The mean of the four centres (the source sums them and divides by 4). */
  function Centroid(cs: Circles): Point
  {
    Point((cs.numeric.x + cs.sequence.x + cs.categorical.x + cs.date.x) / 4.0,
          (cs.numeric.y + cs.sequence.y + cs.categorical.y + cs.date.y) / 4.0)
  }

  /** The centroid balances the centres: their offsets from it cancel. */
  lemma CentroidBalances(cs: Circles)
    ensures var g := Centroid(cs);
            && (cs.numeric.x - g.x) + (cs.sequence.x - g.x) + (cs.categorical.x - g.x) + (cs.date.x - g.x) == 0.0
            && (cs.numeric.y - g.y) + (cs.sequence.y - g.y) + (cs.categorical.y - g.y) + (cs.date.y - g.y) == 0.0
  {
  }

  /** Every circle centre moved toward the centroid, keeping the fraction
      `1 - s` of its offset, where `s` is the clamped `shared_region`. */
  function InterpolateCenters(base: Circles, shared: real): (r: Circles)
    ensures forall c :: r.Center(c) == Lerp(base.Center(c), Centroid(base), 1.0 - ClampShared(shared))
    ensures shared <= 0.0 ==> r == base
    ensures shared >= 1.0 ==> forall c :: r.Center(c) == Centroid(base)
  {
    var s := ClampShared(shared);
    var g := Centroid(base);
    Circles(Lerp(base.numeric, g, 1.0 - s), Lerp(base.sequence, g, 1.0 - s),
            Lerp(base.categorical, g, 1.0 - s), Lerp(base.date, g, 1.0 - s))
  }

  /** Pulling the centres in does not move their centroid, so the anchors,
      which are pulled toward the centroid of the base centres, are pulled
      toward the centroid of the circles actually drawn. */
  lemma InterpolationKeepsCentroid(base: Circles, shared: real)
    ensures Centroid(InterpolateCenters(base, shared)) == Centroid(base)
  {
    var t := 1.0 - ClampShared(shared);
    var r := InterpolateCenters(base, shared);
    LerpKeepsMean(base.numeric.x, base.sequence.x, base.categorical.x, base.date.x, t);
    LerpKeepsMean(base.numeric.y, base.sequence.y, base.categorical.y, base.date.y, t);
  }

  lemma LerpKeepsMean(a: real, b: real, c: real, d: real, t: real)
    ensures var g := (a + b + c + d) / 4.0;
            ((g + (a - g) * t) + (g + (b - g) * t) + (g + (c - g) * t) + (g + (d - g) * t)) / 4.0 == g
  {
    var g := (a + b + c + d) / 4.0;
    assert (a - g) * t + (b - g) * t + (c - g) * t + (d - g) * t == (a + b + c + d - 4.0 * g) * t;
    assert a + b + c + d - 4.0 * g == 0.0;
  }

  /** `min_factor_by_size.get(region_size, 0.6)`: the smallest fraction of its
      offset from the centroid that a label of this region size keeps. */
  function MinFactor(size: nat): (f: real)
    ensures 0.0 < f < 1.0
  {
    if size == 1 then 0.90
    else if size == 2 then 0.70
    else if size == 3 then 0.55
    else if size == 4 then 0.35
    else 0.6
  }

  /** `max(min_factor, 1.0 - shared_region)` for a clamped `s`. */
  function PullFactor(size: nat, s: real): (f: real)
    requires 0.0 <= s <= 1.0
    ensures MinFactor(size) <= f <= 1.0
    ensures 1.0 - s <= f
    ensures f == MinFactor(size) || f == 1.0 - s
    ensures s == 0.0 ==> f == 1.0
  {
    if MinFactor(size) < 1.0 - s then 1.0 - s else MinFactor(size)
  }

  /** The labels with their anchors pulled toward `centroid` (the label list
      keeps its length, order, texts and regions). */
  function PullAnchors(labels: seq<LabelSpec>, centroid: Point, shared: real): (r: seq<LabelSpec>)
    ensures |r| == |labels|
    ensures forall i :: 0 <= i < |r| ==>
              && r[i].text == labels[i].text
              && r[i].key == labels[i].key
              && r[i].anchor == Lerp(labels[i].anchor, centroid, PullFactor(labels[i].key.Size(), ClampShared(shared)))
    ensures shared <= 0.0 ==> r == labels
  {
    var s := ClampShared(shared);
    seq(|labels|, i requires 0 <= i < |labels| =>
      LabelSpec(labels[i].text, Lerp(labels[i].anchor, centroid, PullFactor(labels[i].key.Size(), s)), labels[i].key))
  }

  /** The pulled anchor is never farther from the centroid than the base
      anchor, and never closer than the region size's minimum factor allows. */
  lemma PullStaysBetween(lab: LabelSpec, centroid: Point, shared: real)
    ensures var m := MinFactor(lab.key.Size());
            var d := SqDist(lab.anchor, centroid);
            var q := SqDist(Lerp(lab.anchor, centroid, PullFactor(lab.key.Size(), ClampShared(shared))), centroid);
            q <= d
    ensures var m := MinFactor(lab.key.Size());
            var d := SqDist(lab.anchor, centroid);
            var q := SqDist(Lerp(lab.anchor, centroid, PullFactor(lab.key.Size(), ClampShared(shared))), centroid);
            (m * m) * d <= q
  {
    var f := PullFactor(lab.key.Size(), ClampShared(shared));
    SqDistNonNegative(lab.anchor, centroid);
    LerpScalesDistance(lab.anchor, centroid, f);
    ScaledBetween(f, MinFactor(lab.key.Size()), SqDist(lab.anchor, centroid),
                  SqDist(Lerp(lab.anchor, centroid, f), centroid));
  }

  lemma ScaledBetween(f: real, m: real, d: real, q: real)
    requires 0.0 <= m <= f <= 1.0 && 0.0 <= d
    requires q == (f * f) * d
    ensures q <= d && (m * m) * d <= q
  {
    var ff := f * f;
    var mm := m * m;
    SquareMonotone(f, 1.0);
    SquareMonotone(m, f);
    ScaleMonotone(ff, 1.0, d);
    ScaleMonotone(mm, ff, d);
  }

  /** `max(0.5, min(2.0, font_size / 26.0))` */
  function FontScale(fontSize: int): (scale: real)
    ensures 0.5 <= scale <= 2.0
  {
    Clamp(fontSize as real / 26.0, 0.5, 2.0)
  }

  /** `label_radius(text)`: the radius of the disk a label occupies. */
  function LabelRadius(fontSize: int, text: string): (r: real)
    ensures r >= 0.06
  {
    var scale := FontScale(fontSize);
    0.12 * scale + 0.007 * |text| as real * scale
  }

  /** A longer text never gets a smaller disk. */
  lemma LabelRadiusMonotone(fontSize: int, a: string, b: string)
    requires |a| <= |b|
    ensures LabelRadius(fontSize, a) <= LabelRadius(fontSize, b)
  {
    var scale := FontScale(fontSize);
    var la, lb := 0.007 * |a| as real, 0.007 * |b| as real;
    assert la * scale <= lb * scale;
  }

  /** The spacing parameters: `region_spacing` and the per-size overrides
      `spacing_1way` ... `spacing_4way` (negative means "not given"). */
  datatype Spacing = Spacing(regionSpacing: real, oneWay: real, twoWay: real, threeWay: real, fourWay: real)
  {
    function Override(size: nat): real
      requires 1 <= size <= 4
    {
      if size == 1 then oneWay else if size == 2 then twoWay else if size == 3 then threeWay else fourWay
    }
  }

  /** The share of `region_spacing` used when no override is given. */
  function SpacingShare(size: nat): real
    requires 1 <= size <= 4
  {
    if size == 1 then 0.40 else if size == 2 then 0.60 else if size == 3 then 0.75 else 1.00
  }

  /** `same_region_extra`: the extra clearance two labels of the same region
      must keep, for a region with `size` circles. */
  function SameRegionExtra(sp: Spacing, size: nat): (extra: real)
    ensures extra >= 0.0
    ensures 1 <= size <= 4 && sp.Override(size) >= 0.0 ==> extra == sp.Override(size)
    ensures 1 <= size <= 4 && sp.Override(size) < 0.0 ==>
              extra == SpacingShare(size) * (if sp.regionSpacing > 0.0 then sp.regionSpacing else 0.0)
    ensures !(1 <= size <= 4) ==>
              extra == SpacingShare(2) * (if sp.regionSpacing > 0.0 then sp.regionSpacing else 0.0)
  {
    var base := if sp.regionSpacing > 0.0 then sp.regionSpacing else 0.0;
    if 1 <= size <= 4 then
      if sp.Override(size) >= 0.0 then sp.Override(size) else SpacingShare(size) * base
    else SpacingShare(2) * base
  }

  /** The spacing table as the source writes it: a dictionary from region
      size to gap, read with `.get(size, <two-way gap>)`. */
  function SpacingTable(sp: Spacing): map<nat, real>
  {
    var base := if sp.regionSpacing > 0.0 then sp.regionSpacing else 0.0;
    map size | 1 <= size <= 4 :: if sp.Override(size) >= 0.0 then sp.Override(size) else SpacingShare(size) * base
  }

  /** `same_region_extra` is the table lookup with the default two-way share,
      and with no overrides the gap never shrinks as the region gains circles. */
  lemma SameRegionExtraIsLookup(sp: Spacing, size: nat)
    ensures size in SpacingTable(sp) ==> SameRegionExtra(sp, size) == SpacingTable(sp)[size]
    ensures size !in SpacingTable(sp) ==>
              SameRegionExtra(sp, size) == SpacingShare(2) * (if sp.regionSpacing > 0.0 then sp.regionSpacing else 0.0)
  {
  }

  lemma SameRegionExtraGrows(sp: Spacing, a: nat, b: nat)
    requires 1 <= a <= b <= 4
    requires sp.Override(a) < 0.0 && sp.Override(b) < 0.0
    ensures SameRegionExtra(sp, a) <= SameRegionExtra(sp, b)
  {
  }
}
