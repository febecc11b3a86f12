/** Greedy, region-constrained label placement (venn_plot_mpl.py:134-199).
    Regions are visited largest first; each label takes the feasible grid
    point of its region with the best score `margin + 0.5 * min_dist`, falls
    back to the region's deepest point when nothing fits, and stays at its
    anchor when the region has no grid point at all. */
module Placement {
  import opened Wrappers
  import opened Geometry
  import opened Categories
  import opened Layout
  import opened Candidates
  import opened KeyOrder

  /** One entry of `placed`: a label disc already on the canvas and its region. */
  datatype Disc = Disc(pos: Point, radius: real, key: Key)

  /** The reals extended with +inf: `min_dist` starts at `float("inf")` and
      stays there while nothing has been placed, and so does the score. */
  datatype Score = Finite(v: real) | PosInf

  /** `a > b` on the extended reals. */
  predicate Beats(a: Score, b: Score)
  {
    match a
    case PosInf => b.Finite?
    case Finite(x) => b.Finite? && x > b.v
  }

  /** `best_score = -1e9`: a candidate must beat this to be chosen. */
  const Floor: Score := Finite(-1000000000.0)

  lemma BeatsIrreflexive(a: Score)
    ensures !Beats(a, a)
  {
  }

  lemma BeatsAsymmetric(a: Score, b: Score)
    requires Beats(a, b)
    ensures !Beats(b, a)
  {
  }

  /** Beating `b` means beating everything `b` is not beaten by. */
  lemma BeatsAbove(a: Score, b: Score, c: Score)
    requires Beats(a, b) && !Beats(c, b)
    ensures Beats(a, c)
  {
  }

  /** What the label being placed must keep: its own radius `r_need`, its
      region, the extra gap to labels of the same region, and the depth
      `region_padding` it must sit inside the region beyond its radius. */
  datatype Need = Need(radius: real, key: Key, extra: real, padding: real)

  /** The layout parameters the placement reads. */
  datatype Params = Params(fontSize: int, regionPadding: real, spacing: Spacing, radius: real, gridStep: real)

  function NeedOf(p: Params, lab: LabelSpec): (n: Need)
    ensures n.radius >= 0.06 && n.extra >= 0.0
    ensures n.key == lab.key && n.padding == p.regionPadding
  {
    Need(LabelRadius(p.fontSize, lab.text), lab.key, SameRegionExtra(p.spacing, lab.key.Size()), p.regionPadding)
  }

  /** `req`: the centre distance a new label needs from placed disc `q`. */
  function Required(q: Disc, need: Need): real
  {
    q.radius + need.radius + (if q.key == need.key then need.extra else 0.0)
  }

  /** `d - req`: how much room is left between `p` and `q`. */
  function Gap(sqrt: real -> real, p: Point, q: Disc, need: Need): real
  {
    Dist(sqrt, p, q.pos) - Required(q, need)
  }

  /** `d < req`: the candidate at `p` would overlap `q`. */
  predicate Blocks(sqrt: real -> real, p: Point, q: Disc, need: Need)
  {
    Dist(sqrt, p, q.pos) < Required(q, need)
  }

  /** The scan over `placed` for one candidate: `None` when some placed disc
      blocks it (the loop breaks with `ok = False`), otherwise the smallest
      gap `min_dist`, which is +inf when nothing is placed. */
  function Clearance(sqrt: real -> real, p: Point, placed: seq<Disc>, need: Need): (r: Option<Score>)
    ensures r.None? <==> exists j :: 0 <= j < |placed| && Blocks(sqrt, p, placed[j], need)
    ensures r == Some(PosInf) <==> |placed| == 0
    ensures r.Some? && r.value.Finite? ==>
              && 0.0 <= r.value.v
              && (forall j :: 0 <= j < |placed| ==> r.value.v <= Gap(sqrt, p, placed[j], need))
              && (exists j :: 0 <= j < |placed| && r.value.v == Gap(sqrt, p, placed[j], need))
  {
    if |placed| == 0 then Some(PosInf)
    else if Blocks(sqrt, p, placed[0], need) then None
    else
      var g := Gap(sqrt, p, placed[0], need);
      var rest := Clearance(sqrt, p, placed[1..], need);
      assert forall j :: 0 < j < |placed| ==> placed[j] == placed[1..][j - 1];
      assert forall j :: 0 <= j < |placed| - 1 ==> placed[1..][j] == placed[j + 1];
      match rest
      case None => None
      case Some(PosInf) => Some(Finite(g))
      case Some(Finite(m)) => Some(Finite(if g <= m then g else m))
  }

  /** The candidate clears every placed disc and is deep enough inside its
      region: `ok` stayed true and `margin >= r_need + region_padding`. */
  predicate Feasible(sqrt: real -> real, c: Candidate, placed: seq<Disc>, need: Need)
  {
    Clearance(sqrt, c.pos, placed, need).Some? && !(c.margin < need.radius + need.padding)
  }

  /** `score = margin + 0.5 * min_dist`. */
  function ScoreOf(sqrt: real -> real, c: Candidate, placed: seq<Disc>, need: Need): Score
    requires Feasible(sqrt, c, placed, need)
  {
    match Clearance(sqrt, c.pos, placed, need).value
    case PosInf => PosInf
    case Finite(m) => Finite(c.margin + 0.5 * m)
  }

  /** Candidate `j` is feasible and its score beats the initial `best_score`. */
  predicate Eligible(sqrt: real -> real, cands: seq<Candidate>, placed: seq<Disc>, need: Need, j: int)
  {
    0 <= j < |cands| && Feasible(sqrt, cands[j], placed, need)
    && Beats(ScoreOf(sqrt, cands[j], placed, need), Floor)
  }

  /** Candidate `b` has the highest score among the eligible ones and is the
      first in candidate order to reach it (a later tie does not replace it,
      since the loop only takes `score > best_score`). */
  predicate FirstBest(sqrt: real -> real, cands: seq<Candidate>, placed: seq<Disc>, need: Need, b: int)
  {
    && Eligible(sqrt, cands, placed, need, b)
    && (forall j :: 0 <= j < |cands| && Eligible(sqrt, cands, placed, need, j) ==>
          !Beats(ScoreOf(sqrt, cands[j], placed, need), ScoreOf(sqrt, cands[b], placed, need)))
    && (forall j :: 0 <= j < b && Eligible(sqrt, cands, placed, need, j) ==>
          Beats(ScoreOf(sqrt, cands[b], placed, need), ScoreOf(sqrt, cands[j], placed, need)))
  }

  /** At most one candidate is the first best. */
  lemma FirstBestUnique(sqrt: real -> real, cands: seq<Candidate>, placed: seq<Disc>, need: Need, a: int, b: int)
    requires FirstBest(sqrt, cands, placed, need, a) && FirstBest(sqrt, cands, placed, need, b)
    ensures a == b
  {
  }

  /** What `(best_score, chosen)` says after the first `i` candidates. */
  predicate ScanInvariant(sqrt: real -> real, cands: seq<Candidate>, placed: seq<Disc>, need: Need, i: int, best: Option<nat>)
  {
    match best
    case None => forall j :: 0 <= j < i ==> !Eligible(sqrt, cands, placed, need, j)
    case Some(b) =>
      && b < i
      && Eligible(sqrt, cands, placed, need, b)
      && (forall j :: 0 <= j < i && Eligible(sqrt, cands, placed, need, j) ==>
            !Beats(ScoreOf(sqrt, cands[j], placed, need), ScoreOf(sqrt, cands[b], placed, need)))
      && (forall j :: 0 <= j < b && Eligible(sqrt, cands, placed, need, j) ==>
            Beats(ScoreOf(sqrt, cands[b], placed, need), ScoreOf(sqrt, cands[j], placed, need)))
  }

  /** The loop over `candidates` from position `i` on, with the best so far. */
  function Scan(sqrt: real -> real, cands: seq<Candidate>, placed: seq<Disc>, need: Need, i: nat, best: Option<nat>): (r: Option<nat>)
    requires i <= |cands|
    requires ScanInvariant(sqrt, cands, placed, need, i, best)
    ensures ScanInvariant(sqrt, cands, placed, need, |cands|, r)
    decreases |cands| - i
  {
    if i == |cands| then best
    else Scan(sqrt, cands, placed, need, i + 1, Step(sqrt, cands, placed, need, i, best))
  }

  /** One iteration of the candidate loop: candidate `i` replaces the best so
      far when it is feasible and its score is strictly higher. */
  function Step(sqrt: real -> real, cands: seq<Candidate>, placed: seq<Disc>, need: Need, i: nat, best: Option<nat>): (r: Option<nat>)
    requires i < |cands|
    requires ScanInvariant(sqrt, cands, placed, need, i, best)
    ensures ScanInvariant(sqrt, cands, placed, need, i + 1, r)
  {
    var bestScore := if best.None? then Floor else ScoreOf(sqrt, cands[best.value], placed, need);
    if Feasible(sqrt, cands[i], placed, need) && Beats(ScoreOf(sqrt, cands[i], placed, need), bestScore) then
      ScanTakes(sqrt, cands, placed, need, i, best);
      Some(i)
    else
      ScanSkips(sqrt, cands, placed, need, i, best);
      best
  }

  /** Passing over candidate `i` keeps the invariant. */
  lemma ScanSkips(sqrt: real -> real, cands: seq<Candidate>, placed: seq<Disc>, need: Need, i: nat, best: Option<nat>)
    requires i < |cands|
    requires ScanInvariant(sqrt, cands, placed, need, i, best)
    requires !(Feasible(sqrt, cands[i], placed, need) &&
               Beats(ScoreOf(sqrt, cands[i], placed, need),
                     if best.None? then Floor else ScoreOf(sqrt, cands[best.value], placed, need)))
    ensures ScanInvariant(sqrt, cands, placed, need, i + 1, best)
  {
    if best.Some? {
      var b := best.value;
      if Eligible(sqrt, cands, placed, need, i) {
        assert !Beats(ScoreOf(sqrt, cands[i], placed, need), ScoreOf(sqrt, cands[b], placed, need));
      }
      SkipKeepsBest(sqrt, cands, placed, need, i, b);
    } else {
      assert !Eligible(sqrt, cands, placed, need, i);
    }
  }

  /** Passing over a candidate that does not beat `b` keeps `b` the best. */
  lemma SkipKeepsBest(sqrt: real -> real, cands: seq<Candidate>, placed: seq<Disc>, need: Need, i: nat, b: nat)
    requires i < |cands|
    requires ScanInvariant(sqrt, cands, placed, need, i, Some(b))
    requires Eligible(sqrt, cands, placed, need, i) ==>
               !Beats(ScoreOf(sqrt, cands[i], placed, need), ScoreOf(sqrt, cands[b], placed, need))
    ensures ScanInvariant(sqrt, cands, placed, need, i + 1, Some(b))
  {
    var sb := ScoreOf(sqrt, cands[b], placed, need);
    forall j | 0 <= j < i + 1 && Eligible(sqrt, cands, placed, need, j)
      ensures !Beats(ScoreOf(sqrt, cands[j], placed, need), sb)
    {
    }
  }

  /** Taking candidate `i` because it beats the best so far keeps the invariant. */
  lemma ScanTakes(sqrt: real -> real, cands: seq<Candidate>, placed: seq<Disc>, need: Need, i: nat, best: Option<nat>)
    requires i < |cands|
    requires ScanInvariant(sqrt, cands, placed, need, i, best)
    requires Feasible(sqrt, cands[i], placed, need)
    requires Beats(ScoreOf(sqrt, cands[i], placed, need),
                   if best.None? then Floor else ScoreOf(sqrt, cands[best.value], placed, need))
    ensures ScanInvariant(sqrt, cands, placed, need, i + 1, Some(i))
  {
    var si := ScoreOf(sqrt, cands[i], placed, need);
    BeatsIrreflexive(si);
    if best.Some? {
      var sb := ScoreOf(sqrt, cands[best.value], placed, need);
      assert Beats(sb, Floor);
      BeatsAbove(si, sb, Floor);
      forall j | 0 <= j < i && Eligible(sqrt, cands, placed, need, j)
        ensures Beats(si, ScoreOf(sqrt, cands[j], placed, need))
      {
        BeatsAbove(si, sb, ScoreOf(sqrt, cands[j], placed, need));
      }
      forall j | 0 <= j < i && Eligible(sqrt, cands, placed, need, j)
        ensures !Beats(ScoreOf(sqrt, cands[j], placed, need), si)
      {
        BeatsAsymmetric(si, ScoreOf(sqrt, cands[j], placed, need));
      }
    }
  }

  /** `chosen`: the index of the candidate the loop settles on, if any. */
  function Choose(sqrt: real -> real, cands: seq<Candidate>, placed: seq<Disc>, need: Need): (r: Option<nat>)
    ensures r.Some? ==> r.value < |cands| && FirstBest(sqrt, cands, placed, need, r.value)
    ensures r.None? <==> forall j :: 0 <= j < |cands| ==> !Eligible(sqrt, cands, placed, need, j)
  {
    Scan(sqrt, cands, placed, need, 0, None)
  }

  /** The choice is the first best candidate, and a first best candidate is
      always the one chosen. */
  lemma ChooseIsFirstBest(sqrt: real -> real, cands: seq<Candidate>, placed: seq<Disc>, need: Need, b: int)
    ensures Choose(sqrt, cands, placed, need) == Some(b) <==> 0 <= b && FirstBest(sqrt, cands, placed, need, b)
  {
    var r := Choose(sqrt, cands, placed, need);
    if 0 <= b && FirstBest(sqrt, cands, placed, need, b) {
      FirstBestUnique(sqrt, cands, placed, need, r.value, b);
    }
  }

  /** A clear candidate's score is at least its margin. */
  lemma ScoreAtLeastMargin(sqrt: real -> real, c: Candidate, placed: seq<Disc>, need: Need)
    requires Feasible(sqrt, c, placed, need)
    ensures !Beats(Finite(c.margin), ScoreOf(sqrt, c, placed, need))
  {
  }

  /** With non-negative margins (every grid point of a region has one), the
      `-1e9` floor never rejects a feasible candidate: a choice is made
      exactly when some candidate is feasible. */
  lemma ChooseNoneIffNothingFits(sqrt: real -> real, cands: seq<Candidate>, placed: seq<Disc>, need: Need)
    requires forall j :: 0 <= j < |cands| ==> cands[j].margin >= 0.0
    ensures Choose(sqrt, cands, placed, need).None? <==>
            forall j :: 0 <= j < |cands| ==> !Feasible(sqrt, cands[j], placed, need)
  {
    forall j | 0 <= j < |cands| && Feasible(sqrt, cands[j], placed, need)
      ensures Eligible(sqrt, cands, placed, need, j)
    {
      ScoreAtLeastMargin(sqrt, cands[j], placed, need);
    }
  }

  /** How a label got its position. */
  datatype How = Chosen | TopMargin | AtAnchor

  /** One step of the placement: label `index` was put down as `disc`. */
  datatype Entry = Entry(index: nat, disc: Disc, how: How)

  /** The `placed` list a trace has built. */
  function Discs(t: seq<Entry>): (r: seq<Disc>)
    ensures |r| == |t|
    ensures forall j :: 0 <= j < |t| ==> r[j] == t[j].disc
  {
    seq(|t|, j requires 0 <= j < |t| => t[j].disc)
  }

  /** Why entry `e` is the right placement of label `lab` (index `i`) among
      the candidates `cands` of its region, given the discs placed before it:
      its disc has the label's radius and region; with no candidates the label
      stays at its anchor; otherwise it sits on the first best candidate, or
      on the deepest one (`candidates[0]`) when no candidate is eligible. */
  predicate Justified(sqrt: real -> real, p: Params, cands: seq<Candidate>, placed: seq<Disc>, lab: LabelSpec, i: nat, e: Entry)
  {
    var need := NeedOf(p, lab);
    && e.index == i
    && e.disc.radius == need.radius
    && e.disc.key == lab.key
    && match e.how
       case AtAnchor => |cands| == 0 && e.disc.pos == lab.anchor
       case TopMargin =>
         && |cands| > 0
         && (forall j :: 0 <= j < |cands| ==> !Eligible(sqrt, cands, placed, need, j))
         && e.disc.pos == cands[0].pos
       case Chosen =>
         exists k :: 0 <= k < |cands| && FirstBest(sqrt, cands, placed, need, k) && e.disc.pos == cands[k].pos
  }

  /** The placement of one label (the body of `for i in idxs`). */
  function PlaceLabel(sqrt: real -> real, p: Params, cands: seq<Candidate>, placed: seq<Disc>, lab: LabelSpec, i: nat): (e: Entry)
    ensures e.index == i && e.disc.key == lab.key && e.disc.radius >= 0.06
    ensures e.how == AtAnchor <==> |cands| == 0
    ensures e.how == AtAnchor ==> e.disc.pos == lab.anchor
    ensures e.how != AtAnchor ==> exists k :: 0 <= k < |cands| && e.disc.pos == cands[k].pos
  {
    var need := NeedOf(p, lab);
    if |cands| == 0 then Entry(i, Disc(lab.anchor, need.radius, lab.key), AtAnchor)
    else
      match Choose(sqrt, cands, placed, need)
      case Some(k) => Entry(i, Disc(cands[k].pos, need.radius, lab.key), Chosen)
      case None => Entry(i, Disc(cands[0].pos, need.radius, lab.key), TopMargin)
  }

  /** The entry `PlaceLabel` produces is justified. */
  lemma PlaceLabelJustified(sqrt: real -> real, p: Params, cands: seq<Candidate>, placed: seq<Disc>, lab: LabelSpec, i: nat)
    ensures Justified(sqrt, p, cands, placed, lab, i, PlaceLabel(sqrt, p, cands, placed, lab, i))
  {
  }

  /** A justified entry is the one `PlaceLabel` produces: the justification
      determines the placement. */
  lemma JustifiedIsUnique(sqrt: real -> real, p: Params, cands: seq<Candidate>, placed: seq<Disc>, lab: LabelSpec, i: nat, e: Entry)
    requires Justified(sqrt, p, cands, placed, lab, i, e)
    ensures e == PlaceLabel(sqrt, p, cands, placed, lab, i)
  {
    var need := NeedOf(p, lab);
    var f := PlaceLabel(sqrt, p, cands, placed, lab, i);
    match e.how
    case AtAnchor =>
    case TopMargin =>
      assert Choose(sqrt, cands, placed, need).None?;
    case Chosen =>
      var k :| 0 <= k < |cands| && FirstBest(sqrt, cands, placed, need, k) && e.disc.pos == cands[k].pos;
      ChooseIsFirstBest(sqrt, cands, placed, need, k);
  }

  /** `region_to_points`: the candidate points of each region. */
  type RegionPoints = map<Key, seq<Candidate>>

  /** `region_to_points.get(key, [])`. */
  function PointsOf(m: RegionPoints, key: Key): seq<Candidate>
  {
    if key in m then m[key] else []
  }

  /** `region_to_points` as the figure computes it: for every region some
      label belongs to, its grid points sorted by margin. */
  function RegionTable(sqrt: real -> real, p: Params, cs: Circles, labels: seq<LabelSpec>): (m: RegionPoints)
    ensures forall i :: 0 <= i < |labels| ==>
              PointsOf(m, labels[i].key) == RegionCandidates(sqrt, cs, p.radius, labels[i].key, GridStep(p.gridStep))
  {
    map k | k in (set i | 0 <= i < |labels| :: labels[i].key) :: RegionCandidates(sqrt, cs, p.radius, k, GridStep(p.gridStep))
  }

  /** The labels of one region, in order (`for i in idxs`), appended to `t`. */
  function PlaceRegion(sqrt: real -> real, p: Params, cands: seq<Candidate>, labels: seq<LabelSpec>, idxs: seq<nat>, t: seq<Entry>): seq<Entry>
    requires forall a :: 0 <= a < |idxs| ==> idxs[a] < |labels|
    decreases |idxs|
  {
    if |idxs| == 0 then t
    else
      var e := PlaceLabel(sqrt, p, cands, Discs(t), labels[idxs[0]], idxs[0]);
      PlaceRegion(sqrt, p, cands, labels, idxs[1..], t + [e])
  }

  /** Placing a region extends the trace by one entry per label of `idxs`,
      each the placement of that label against everything before it. */
  lemma {:induction false} PlaceRegionFacts(sqrt: real -> real, p: Params, cands: seq<Candidate>, labels: seq<LabelSpec>, idxs: seq<nat>, t: seq<Entry>)
    requires forall a :: 0 <= a < |idxs| ==> idxs[a] < |labels|
    ensures var r := PlaceRegion(sqrt, p, cands, labels, idxs, t);
            && |r| == |t| + |idxs|
            && r[..|t|] == t
            && forall a :: 0 <= a < |idxs| ==>
                 r[|t| + a] == PlaceLabel(sqrt, p, cands, Discs(r[..|t| + a]), labels[idxs[a]], idxs[a])
    decreases |idxs|
  {
    if |idxs| > 0 {
      var e := PlaceLabel(sqrt, p, cands, Discs(t), labels[idxs[0]], idxs[0]);
      PlaceRegionFacts(sqrt, p, cands, labels, idxs[1..], t + [e]);
      var r := PlaceRegion(sqrt, p, cands, labels, idxs[1..], t + [e]);
      assert r == PlaceRegion(sqrt, p, cands, labels, idxs, t);
      assert r[..|t| + 1] == t + [e] by {
        assert r[..|t| + 1] == r[..|t + [e]|];
      }
      assert r[..|t|] == t by {
        assert r[..|t|] == (r[..|t| + 1])[..|t|];
      }
      forall a | 0 <= a < |idxs|
        ensures r[|t| + a] == PlaceLabel(sqrt, p, cands, Discs(r[..|t| + a]), labels[idxs[a]], idxs[a])
      {
        if a == 0 {
          assert r[|t|] == (t + [e])[|t|] == e;
        } else {
          var b := a - 1;
          assert idxs[1..][b] == idxs[a] && |t + [e]| + b == |t| + a;
        }
      }
    }
  }

  /** Entry `j` of trace `t` is justified against the discs placed before it,
      with the candidates of its label's region. */
  predicate EntryOk(sqrt: real -> real, p: Params, m: RegionPoints, labels: seq<LabelSpec>, t: seq<Entry>, j: int)
  {
    && 0 <= j < |t|
    && t[j].index < |labels|
    && var lab := labels[t[j].index];
       t[j] == PlaceLabel(sqrt, p, PointsOf(m, lab.key), Discs(t[..j]), lab, t[j].index)
  }

  /** The regions `keys`, one after the other (`for key in ordered_keys`). */
  function PlaceKeys(sqrt: real -> real, p: Params, m: RegionPoints, labels: seq<LabelSpec>, keys: seq<Key>, t: seq<Entry>): seq<Entry>
    decreases |keys|
  {
    if |keys| == 0 then t
    else
      var key := keys[0];
      IndicesOfFacts(labels, key);
      var t1 := PlaceRegion(sqrt, p, PointsOf(m, key), labels, IndicesOf(labels, key), t);
      PlaceKeys(sqrt, p, m, labels, keys[1..], t1)
  }

  /** Placing regions `keys` after trace `t` extends `t` by their labels, in
      the order `Flatten` lists them, each entry justified. */
  lemma {:induction false} PlaceKeysFacts(sqrt: real -> real, p: Params, m: RegionPoints, labels: seq<LabelSpec>, keys: seq<Key>, t: seq<Entry>)
    ensures var r := PlaceKeys(sqrt, p, m, labels, keys, t);
            && |r| == |t| + |Flatten(labels, keys)|
            && r[..|t|] == t
            && (forall a :: 0 <= a < |Flatten(labels, keys)| ==> r[|t| + a].index == Flatten(labels, keys)[a])
            && (forall j :: |t| <= j < |r| ==> EntryOk(sqrt, p, m, labels, r, j))
    decreases |keys|
  {
    if |keys| > 0 {
      var key := keys[0];
      IndicesOfFacts(labels, key);
      var t1 := PlaceRegion(sqrt, p, PointsOf(m, key), labels, IndicesOf(labels, key), t);
      PlaceRegionFacts(sqrt, p, PointsOf(m, key), labels, IndicesOf(labels, key), t);
      PlaceKeysFacts(sqrt, p, m, labels, keys[1..], t1);
      var r := PlaceKeys(sqrt, p, m, labels, keys[1..], t1);
      assert r == PlaceKeys(sqrt, p, m, labels, keys, t);
      PlaceKeysStep(sqrt, p, m, labels, keys, t, t1, r);
    }
  }

  lemma PlaceKeysStep(sqrt: real -> real, p: Params, m: RegionPoints, labels: seq<LabelSpec>, keys: seq<Key>,
                      t: seq<Entry>, t1: seq<Entry>, r: seq<Entry>)
    requires |keys| > 0
    requires var idxs := IndicesOf(labels, keys[0]);
             && (forall a :: 0 <= a < |idxs| ==> idxs[a] < |labels| && labels[idxs[a]].key == keys[0])
             && |t1| == |t| + |idxs| && t1[..|t|] == t
             && (forall a :: 0 <= a < |idxs| ==>
                   t1[|t| + a] == PlaceLabel(sqrt, p, PointsOf(m, keys[0]), Discs(t1[..|t| + a]), labels[idxs[a]], idxs[a]))
    requires |r| == |t1| + |Flatten(labels, keys[1..])| && r[..|t1|] == t1
    requires forall a :: 0 <= a < |Flatten(labels, keys[1..])| ==> r[|t1| + a].index == Flatten(labels, keys[1..])[a]
    requires forall j :: |t1| <= j < |r| ==> EntryOk(sqrt, p, m, labels, r, j)
    ensures |r| == |t| + |Flatten(labels, keys)|
    ensures r[..|t|] == t
    ensures forall a :: 0 <= a < |Flatten(labels, keys)| ==> r[|t| + a].index == Flatten(labels, keys)[a]
    ensures forall j :: |t| <= j < |r| ==> EntryOk(sqrt, p, m, labels, r, j)
  {
    var idxs := IndicesOf(labels, keys[0]);
    var rest := Flatten(labels, keys[1..]);
    assert Flatten(labels, keys) == idxs + rest;
    RegionEntriesOk(sqrt, p, m, labels, keys[0], idxs, t, t1);
    TraceIndicesStep(t, t1, r, idxs, rest);
    forall j | |t| <= j < |r| ensures EntryOk(sqrt, p, m, labels, r, j) {
      if j < |t1| {
        EntryOkPrefix(sqrt, p, m, labels, r, t1, j);
      }
    }
  }

  /** A trace `t` extended by entries for `idxs` and then for `rest` lists
      `idxs + rest` after `t`. */
  lemma TraceIndicesStep(t: seq<Entry>, t1: seq<Entry>, r: seq<Entry>, idxs: seq<nat>, rest: seq<nat>)
    requires |t1| == |t| + |idxs| && t1[..|t|] == t
    requires forall a :: 0 <= a < |idxs| ==> t1[|t| + a].index == idxs[a]
    requires |r| == |t1| + |rest| && r[..|t1|] == t1
    requires forall a :: 0 <= a < |rest| ==> r[|t1| + a].index == rest[a]
    ensures r[..|t|] == t
    ensures forall a :: 0 <= a < |idxs + rest| ==> r[|t| + a].index == (idxs + rest)[a]
  {
    assert r[..|t|] == (r[..|t1|])[..|t|];
    forall a | 0 <= a < |idxs + rest| ensures r[|t| + a].index == (idxs + rest)[a] {
      if a < |idxs| {
        assert r[|t| + a] == t1[|t| + a];
      } else {
        assert r[|t1| + (a - |idxs|)].index == rest[a - |idxs|];
      }
    }
  }

  /** The entries a region appends are each the greedy placement of their
      label, and carry the region's label indices in order. */
  lemma RegionEntriesOk(sqrt: real -> real, p: Params, m: RegionPoints, labels: seq<LabelSpec>, key: Key,
                        idxs: seq<nat>, t: seq<Entry>, t1: seq<Entry>)
    requires forall a :: 0 <= a < |idxs| ==> idxs[a] < |labels| && labels[idxs[a]].key == key
    requires |t1| == |t| + |idxs|
    requires forall a :: 0 <= a < |idxs| ==>
               t1[|t| + a] == PlaceLabel(sqrt, p, PointsOf(m, key), Discs(t1[..|t| + a]), labels[idxs[a]], idxs[a])
    ensures forall j :: |t| <= j < |t1| ==> EntryOk(sqrt, p, m, labels, t1, j)
    ensures forall a :: 0 <= a < |idxs| ==> t1[|t| + a].index == idxs[a]
  {
    forall j | |t| <= j < |t1|
      ensures EntryOk(sqrt, p, m, labels, t1, j)
    {
      var a := j - |t|;
      assert t1[|t| + a] == PlaceLabel(sqrt, p, PointsOf(m, key), Discs(t1[..|t| + a]), labels[idxs[a]], idxs[a]);
    }
  }

  /** An entry that is the greedy choice stays so when the trace grows. */
  lemma EntryOkPrefix(sqrt: real -> real, p: Params, m: RegionPoints, labels: seq<LabelSpec>, r: seq<Entry>, s: seq<Entry>, j: int)
    requires |s| <= |r| && r[..|s|] == s
    requires EntryOk(sqrt, p, m, labels, s, j)
    ensures EntryOk(sqrt, p, m, labels, r, j)
  {
    assert r[j] == s[j];
    assert r[..j] == s[..j] by {
      assert r[..j] == (r[..|s|])[..j];
    }
  }

  /** The whole greedy loop: every label, in processing order. */
  function Place(sqrt: real -> real, p: Params, m: RegionPoints, labels: seq<LabelSpec>): (r: seq<Entry>)
    ensures |r| == |labels|
    ensures forall a :: 0 <= a < |r| ==> r[a].index < |labels|
  {
    ProcessingOrderIsPermutation(labels);
    PlaceKeysFacts(sqrt, p, m, labels, OrderedKeys(labels), []);
    var po, r := ProcessingOrder(labels), PlaceKeys(sqrt, p, m, labels, OrderedKeys(labels), []);
    assert forall a :: 0 <= a < |r| ==> r[a].index < |labels| by {
      forall a | 0 <= a < |r| ensures r[a].index < |labels| {
        assert r[0 + a].index == po[a] && po[a] in po;
      }
    }
    r
  }

  /** The placement trace visits the labels in processing order. */
  lemma PlaceFollowsProcessingOrder(sqrt: real -> real, p: Params, m: RegionPoints, labels: seq<LabelSpec>)
    ensures var t := Place(sqrt, p, m, labels);
            && |t| == |labels| == |ProcessingOrder(labels)|
            && (forall a :: 0 <= a < |t| ==> t[a].index == ProcessingOrder(labels)[a])
  {
    ProcessingOrderIsPermutation(labels);
    PlaceKeysFacts(sqrt, p, m, labels, OrderedKeys(labels), []);
  }

  /** Every entry of the trace is the greedy placement of its label against
      the entries before it. */
  lemma PlaceIsGreedy(sqrt: real -> real, p: Params, m: RegionPoints, labels: seq<LabelSpec>)
    ensures var t := Place(sqrt, p, m, labels);
            forall j :: 0 <= j < |t| ==> EntryOk(sqrt, p, m, labels, t, j)
  {
    PlaceKeysFacts(sqrt, p, m, labels, OrderedKeys(labels), []);
  }

  /** Some entry of `t` places label `i`. */
  predicate Visited(t: seq<Entry>, i: int)
  {
    exists j :: 0 <= j < |t| && t[j].index == i
  }

  /** A trace that follows a permutation of `0 .. n - 1` visits each index once. */
  lemma TraceVisitsEachOnce(t: seq<Entry>, po: seq<nat>, n: nat)
    requires |t| == |po| == n
    requires forall a :: 0 <= a < |t| ==> t[a].index == po[a]
    requires forall i :: 0 <= i < n ==> multiset(po)[i] == 1
    requires forall x :: x in po ==> x < n
    ensures forall k :: 0 <= k < |t| ==> t[k].index < n
    ensures forall j, k :: 0 <= j < k < |t| ==> t[j].index != t[k].index
    ensures forall i :: 0 <= i < n ==> Visited(t, i)
  {
    forall k | 0 <= k < |t| ensures t[k].index < n {
      assert po[k] in po;
    }
    forall j, k | 0 <= j < k < |t| ensures t[j].index != t[k].index {
      if t[j].index == t[k].index {
        OnceMeansOnePosition(po, j, k);
      }
    }
    forall i | 0 <= i < n ensures Visited(t, i) {
      assert i in multiset(po);
      var j :| 0 <= j < |po| && po[j] == i;
      assert t[j].index == i;
    }
  }

  /** Each label index occurs exactly once in the trace. */
  lemma PlaceVisitsEachOnce(sqrt: real -> real, p: Params, m: RegionPoints, labels: seq<LabelSpec>)
    ensures var t := Place(sqrt, p, m, labels);
            && (forall k :: 0 <= k < |t| ==> t[k].index < |labels|)
            && (forall j, k :: 0 <= j < k < |t| ==> t[j].index != t[k].index)
            && (forall i :: 0 <= i < |labels| ==> Visited(t, i))
  {
    PlaceFollowsProcessingOrder(sqrt, p, m, labels);
    ProcessingOrderIsPermutation(labels);
    TraceVisitsEachOnce(Place(sqrt, p, m, labels), ProcessingOrder(labels), |labels|);
  }

  /** A label placed on a chosen candidate overlaps none of the labels placed
      before it (same-region neighbours keep the extra spacing too), and its
      disc plus the padding lies inside its region. */
  lemma ChosenIsClear(sqrt: real -> real, p: Params, cs: Circles, labels: seq<LabelSpec>, t: seq<Entry>, j: int)
    requires EntryOk(sqrt, p, RegionTable(sqrt, p, cs, labels), labels, t, j) && t[j].how == Chosen
    ensures forall k :: 0 <= k < j ==> Dist(sqrt, t[j].disc.pos, t[k].disc.pos) >= Required(t[k].disc, NeedOf(p, labels[t[j].index]))
    ensures InRegion(sqrt, cs, p.radius, labels[t[j].index].key, t[j].disc.pos)
    ensures Margin(sqrt, cs, p.radius, labels[t[j].index].key, t[j].disc.pos) >= t[j].disc.radius + p.regionPadding
  {
    var lab := labels[t[j].index];
    var need := NeedOf(p, lab);
    var cands := PointsOf(RegionTable(sqrt, p, cs, labels), lab.key);
    assert cands == RegionCandidates(sqrt, cs, p.radius, lab.key, GridStep(p.gridStep));
    var placed := Discs(t[..j]);
    assert t[j] == PlaceLabel(sqrt, p, cands, placed, lab, t[j].index);
    var ch := Choose(sqrt, cands, placed, need);
    assert |cands| > 0 && ch.Some?;
    var k := ch.value;
    assert t[j].disc.pos == cands[k].pos && t[j].disc.radius == need.radius;
    assert Feasible(sqrt, cands[k], placed, need);
    FeasibleClears(sqrt, cands[k], placed, need);
    forall i | 0 <= i < j ensures Dist(sqrt, t[j].disc.pos, t[i].disc.pos) >= Required(t[i].disc, need) {
      assert placed[i] == t[i].disc;
    }
  }

  /** A feasible candidate keeps the required distance from every placed
      disc and is deep enough in its region. */
  lemma FeasibleClears(sqrt: real -> real, c: Candidate, placed: seq<Disc>, need: Need)
    requires Feasible(sqrt, c, placed, need)
    ensures forall i :: 0 <= i < |placed| ==> Dist(sqrt, c.pos, placed[i].pos) >= Required(placed[i], need)
    ensures c.margin >= need.radius + need.padding
  {
    forall i | 0 <= i < |placed| ensures Dist(sqrt, c.pos, placed[i].pos) >= Required(placed[i], need) {
      assert !Blocks(sqrt, c.pos, placed[i], need);
    }
  }

  /** A label text with its final position (`new_labels`). */
  datatype PlacedLabel = PlacedLabel(text: string, pos: Point)

  /** `new_labels = [(t, 0.0, 0.0) ...]`, then each entry of the trace writes
      its label's position. */
  function Positions(labels: seq<LabelSpec>, t: seq<Entry>): (r: seq<PlacedLabel>)
    requires forall j :: 0 <= j < |t| ==> t[j].index < |labels|
    ensures |r| == |labels|
    ensures forall i :: 0 <= i < |labels| ==> r[i].text == labels[i].text
    decreases |t|
  {
    if |t| == 0 then seq(|labels|, i requires 0 <= i < |labels| => PlacedLabel(labels[i].text, Point(0.0, 0.0)))
    else
      var last := t[|t| - 1];
      var r := Positions(labels, t[..|t| - 1]);
      r[last.index := PlacedLabel(labels[last.index].text, last.disc.pos)]
  }

  /** A label keeps the position of the last entry that wrote it. */
  lemma {:induction false} PositionOfLastWrite(labels: seq<LabelSpec>, t: seq<Entry>, j: int)
    requires forall k :: 0 <= k < |t| ==> t[k].index < |labels|
    requires 0 <= j < |t|
    requires forall k :: j < k < |t| ==> t[k].index != t[j].index
    ensures Positions(labels, t)[t[j].index].pos == t[j].disc.pos
    decreases |t|
  {
    if j < |t| - 1 {
      var s := t[..|t| - 1];
      assert s[j] == t[j];
      PositionOfLastWrite(labels, s, j);
    }
  }

  /** After the greedy loop every label sits where its one trace entry put it. */
  lemma EveryLabelPlaced(sqrt: real -> real, p: Params, m: RegionPoints, labels: seq<LabelSpec>, i: int)
    requires 0 <= i < |labels|
    ensures var t := Place(sqrt, p, m, labels);
            && (forall k :: 0 <= k < |t| ==> t[k].index < |labels|)
            && exists j :: 0 <= j < |t| && t[j].index == i && Positions(labels, t)[i].pos == t[j].disc.pos
  {
    var t := Place(sqrt, p, m, labels);
    PlaceVisitsEachOnce(sqrt, p, m, labels);
    assert Visited(t, i);
    var j :| 0 <= j < |t| && t[j].index == i;
    PositionOfLastWrite(labels, t, j);
  }

  /** The labels as the figure places them: each base anchor pulled toward
      the centroid of the base centres by `shared_region`. */
  function StaticLabels(base: Circles, baseLabels: seq<LabelSpec>, shared: real): seq<LabelSpec>
  {
    PullAnchors(baseLabels, Centroid(base), shared)
  }

  /** The placement trace of the figure: the circles pulled in by
      `shared_region`, the region table built on the pulled circles, and the
      greedy loop run over the pulled labels. */
  function StaticTrace(sqrt: real -> real, p: Params, base: Circles, baseLabels: seq<LabelSpec>, shared: real): seq<Entry>
  {
    var labels := StaticLabels(base, baseLabels, shared);
    Place(sqrt, p, RegionTable(sqrt, p, InterpolateCenters(base, shared), labels), labels)
  }

  /** `labels = new_labels`: the final label positions of the figure. */
  function StaticPlacement(sqrt: real -> real, p: Params, base: Circles, baseLabels: seq<LabelSpec>, shared: real): (r: seq<PlacedLabel>)
    ensures |r| == |baseLabels|
    ensures forall i :: 0 <= i < |r| ==> r[i].text == baseLabels[i].text
  {
    Positions(StaticLabels(base, baseLabels, shared), StaticTrace(sqrt, p, base, baseLabels, shared))
  }

  /** With `shared_region <= 0` nothing is pulled in: the figure places the
      base labels against the regions of the base circles. */
  lemma StaticAtNoSharing(sqrt: real -> real, p: Params, base: Circles, baseLabels: seq<LabelSpec>, shared: real)
    requires shared <= 0.0
    ensures StaticTrace(sqrt, p, base, baseLabels, shared)
         == Place(sqrt, p, RegionTable(sqrt, p, base, baseLabels), baseLabels)
  {
    assert StaticLabels(base, baseLabels, shared) == baseLabels;
    assert InterpolateCenters(base, shared) == base;
  }

  /** Entry `j` of the figure's trace places label `i` as the figure
      promises: at its pulled anchor exactly when its region, on the pulled
      circles, has no grid point; otherwise on a grid point of that region
      (the deepest one when nothing fits), and a chosen point keeps clear of
      every label placed before it and sits deep enough inside the region. */
  predicate StaticEntry(sqrt: real -> real, p: Params, base: Circles, baseLabels: seq<LabelSpec>, shared: real,
                        t: seq<Entry>, j: int, i: int)
  {
    && StaticSpot(sqrt, p, base, baseLabels, shared, t, j, i)
    && StaticClear(sqrt, p, base, baseLabels, shared, t, j, i)
  }

  /** Where entry `j` sits: the pulled anchor exactly when the region has no
      grid point, otherwise a point of the region, the deepest one when
      nothing fits. */
  predicate StaticSpot(sqrt: real -> real, p: Params, base: Circles, baseLabels: seq<LabelSpec>, shared: real,
                       t: seq<Entry>, j: int, i: int)
  {
    && 0 <= i < |baseLabels|
    && 0 <= j < |t|
    && t[j].index == i
    && var cs := InterpolateCenters(base, shared);
       var lab := baseLabels[i];
       var cands := RegionCandidates(sqrt, cs, p.radius, lab.key, GridStep(p.gridStep));
       var pos := t[j].disc.pos;
       && (t[j].how == AtAnchor <==> |cands| == 0)
       && (t[j].how == AtAnchor ==>
             pos == Lerp(lab.anchor, Centroid(base), PullFactor(lab.key.Size(), ClampShared(shared))))
       && (t[j].how == TopMargin ==> pos == cands[0].pos)
       && (t[j].how != AtAnchor ==> InRegion(sqrt, cs, p.radius, lab.key, pos))
  }

  /** A chosen point sits deep enough inside the region and keeps clear of
      every label placed before it. */
  predicate StaticClear(sqrt: real -> real, p: Params, base: Circles, baseLabels: seq<LabelSpec>, shared: real,
                        t: seq<Entry>, j: int, i: int)
    requires 0 <= i < |baseLabels| && 0 <= j < |t|
  {
    var cs := InterpolateCenters(base, shared);
    var lab := baseLabels[i];
    var pos := t[j].disc.pos;
    t[j].how == Chosen ==>
      && Margin(sqrt, cs, p.radius, lab.key, pos) >= LabelRadius(p.fontSize, lab.text) + p.regionPadding
      && forall k :: 0 <= k < j ==> Dist(sqrt, pos, t[k].disc.pos) >= Required(t[k].disc, NeedOf(p, lab))
  }

  /** Every label of the figure ends where its one trace entry put it, and
      that entry is placed as `StaticEntry` says. */
  lemma StaticPlacementFacts(sqrt: real -> real, p: Params, base: Circles, baseLabels: seq<LabelSpec>, shared: real, i: int)
    requires 0 <= i < |baseLabels|
    ensures var t := StaticTrace(sqrt, p, base, baseLabels, shared);
            exists j :: && StaticEntry(sqrt, p, base, baseLabels, shared, t, j, i)
                        && StaticPlacement(sqrt, p, base, baseLabels, shared)[i].pos == t[j].disc.pos
                        && (forall k :: 0 <= k < |t| && k != j ==> t[k].index != i)
  {
    var labels := StaticLabels(base, baseLabels, shared);
    var m := RegionTable(sqrt, p, InterpolateCenters(base, shared), labels);
    var t := StaticTrace(sqrt, p, base, baseLabels, shared);
    var j := EntryOfLabel(sqrt, p, m, labels, i);
    StaticEntryFacts(sqrt, p, base, baseLabels, shared, t, j, i);
    assert StaticPlacement(sqrt, p, base, baseLabels, shared)[i].pos == t[j].disc.pos;
  }

  /** The one entry of the trace that places label `i`: it is the greedy
      placement of that label, and the label's final position is its. */
  lemma EntryOfLabel(sqrt: real -> real, p: Params, m: RegionPoints, labels: seq<LabelSpec>, i: int) returns (j: int)
    requires 0 <= i < |labels|
    ensures var t := Place(sqrt, p, m, labels);
            && (forall k :: 0 <= k < |t| ==> t[k].index < |labels|)
            && 0 <= j < |t| && t[j].index == i
            && (forall k :: 0 <= k < |t| && k != j ==> t[k].index != i)
            && EntryOk(sqrt, p, m, labels, t, j)
            && Positions(labels, t)[i].pos == t[j].disc.pos
  {
    var t := Place(sqrt, p, m, labels);
    PlaceVisitsEachOnce(sqrt, p, m, labels);
    PlaceIsGreedy(sqrt, p, m, labels);
    assert Visited(t, i);
    j :| 0 <= j < |t| && t[j].index == i;
    PositionOfLastWrite(labels, t, j);
  }

  /** What entry `j` of the figure's trace, placing label `i`, satisfies. */
  lemma StaticEntryFacts(sqrt: real -> real, p: Params, base: Circles, baseLabels: seq<LabelSpec>, shared: real,
                         t: seq<Entry>, j: int, i: int)
    requires 0 <= i < |baseLabels|
    requires var labels := StaticLabels(base, baseLabels, shared);
             EntryOk(sqrt, p, RegionTable(sqrt, p, InterpolateCenters(base, shared), labels), labels, t, j)
    requires t[j].index == i
    ensures StaticEntry(sqrt, p, base, baseLabels, shared, t, j, i)
  {
    StaticSpotFacts(sqrt, p, base, baseLabels, shared, t, j, i);
    StaticClearFacts(sqrt, p, base, baseLabels, shared, t, j, i);
  }

  lemma StaticSpotFacts(sqrt: real -> real, p: Params, base: Circles, baseLabels: seq<LabelSpec>, shared: real,
                        t: seq<Entry>, j: int, i: int)
    requires 0 <= i < |baseLabels|
    requires var labels := StaticLabels(base, baseLabels, shared);
             EntryOk(sqrt, p, RegionTable(sqrt, p, InterpolateCenters(base, shared), labels), labels, t, j)
    requires t[j].index == i
    ensures StaticSpot(sqrt, p, base, baseLabels, shared, t, j, i)
  {
    var labels := StaticLabels(base, baseLabels, shared);
    var cs := InterpolateCenters(base, shared);
    var m := RegionTable(sqrt, p, cs, labels);
    var lab := labels[i];
    assert lab.key == baseLabels[i].key;
    var cands := PointsOf(m, lab.key);
    assert cands == RegionCandidates(sqrt, cs, p.radius, lab.key, GridStep(p.gridStep));
    assert t[j] == PlaceLabel(sqrt, p, cands, Discs(t[..j]), lab, i);
    if t[j].how == Chosen {
      ChosenIsClear(sqrt, p, cs, labels, t, j);
    } else if t[j].how == TopMargin {
      assert |cands| > 0 && t[j].disc.pos == cands[0].pos;
    }
  }

  lemma StaticClearFacts(sqrt: real -> real, p: Params, base: Circles, baseLabels: seq<LabelSpec>, shared: real,
                         t: seq<Entry>, j: int, i: int)
    requires 0 <= i < |baseLabels|
    requires var labels := StaticLabels(base, baseLabels, shared);
             EntryOk(sqrt, p, RegionTable(sqrt, p, InterpolateCenters(base, shared), labels), labels, t, j)
    requires t[j].index == i
    ensures StaticClear(sqrt, p, base, baseLabels, shared, t, j, i)
  {
    if t[j].how == Chosen {
      var labels := StaticLabels(base, baseLabels, shared);
      var lab := labels[i];
      assert lab.key == baseLabels[i].key && lab.text == baseLabels[i].text;
      assert NeedOf(p, lab) == NeedOf(p, baseLabels[i]);
      ChosenIsClear(sqrt, p, InterpolateCenters(base, shared), labels, t, j);
    }
  }
}
