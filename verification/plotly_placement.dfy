/** The Plotly copy of the greedy placement (venn_plot.py:378-456). It runs
    the same loop as the matplotlib copy, except that a label of a region
    with no grid point is recorded in `placed` as the 3-tuple `(x, y, r)`
    (venn_plot.py:402), while the candidate scan unpacks every entry as
    `(qx, qy, qr, qkey)` (venn_plot.py:430). Reaching such an entry raises. */
module PlotlyPlacement {
  import opened Wrappers
  import opened Geometry
  import opened Categories
  import opened Layout
  import opened Candidates
  import opened KeyOrder
  import opened Placement

  /** A `placed` entry: the 4-tuple `(x, y, r, key)` or the 3-tuple `(x, y, r)`. */
  datatype Slot = Full(disc: Disc) | Short(pos: Point, radius: real)

  /** A computation that raises (unpacking a 3-tuple into four names is a
      `ValueError`) or returns a value. */
  datatype Run<T> = Raises | Returns(value: T)

  /** The Plotly `placed` list matches the matplotlib one entry by entry,
      with the region key missing from some entries. */
  predicate Matches(slots: seq<Slot>, discs: seq<Disc>)
  {
    && |slots| == |discs|
    && forall j :: 0 <= j < |slots| ==>
         slots[j] == Full(discs[j]) || slots[j] == Short(discs[j].pos, discs[j].radius)
  }

  /** The `placed` list the Plotly loop has built for a trace: labels left at
      their anchor went in without their key. */
  function Slots(t: seq<Entry>): (r: seq<Slot>)
    ensures Matches(r, Discs(t))
    ensures forall j :: 0 <= j < |t| ==> (r[j].Short? <==> t[j].how == AtAnchor)
  {
    seq(|t|, j requires 0 <= j < |t| =>
      if t[j].how == AtAnchor then Short(t[j].disc.pos, t[j].disc.radius) else Full(t[j].disc))
  }

  /** The scan of `placed` for one candidate: raises on reaching a 3-tuple,
      otherwise as in the matplotlib copy. */
  function PClearance(sqrt: real -> real, p: Point, slots: seq<Slot>, need: Need): Run<Option<Score>>
  {
    if |slots| == 0 then Returns(Some(PosInf))
    else
      match slots[0]
      case Short(_, _) => Raises
      case Full(q) =>
        if Blocks(sqrt, p, q, need) then Returns(None)
        else
          match PClearance(sqrt, p, slots[1..], need)
          case Raises => Raises
          case Returns(None) => Returns(None)
          case Returns(Some(PosInf)) => Returns(Some(Finite(Gap(sqrt, p, q, need))))
          case Returns(Some(Finite(m))) =>
            var g := Gap(sqrt, p, q, need);
            Returns(Some(Finite(if g <= m then g else m)))
  }

  /** The scan reaches entry `j`: every entry before it is a 4-tuple that
      does not block the candidate. */
  predicate Reaches(sqrt: real -> real, p: Point, slots: seq<Slot>, need: Need, j: int)
  {
    0 <= j < |slots| &&
    forall k :: 0 <= k < j ==> slots[k].Full? && !Blocks(sqrt, p, slots[k].disc, need)
  }

  /** The scan raises exactly when it reaches a 3-tuple, and when it returns
      it returns what the matplotlib scan computes on the full entries. */
  lemma {:induction false} PClearanceFacts(sqrt: real -> real, p: Point, slots: seq<Slot>, discs: seq<Disc>, need: Need)
    requires Matches(slots, discs)
    ensures PClearance(sqrt, p, slots, need).Raises? <==>
            exists j :: Reaches(sqrt, p, slots, need, j) && slots[j].Short?
    ensures PClearance(sqrt, p, slots, need).Returns? ==>
            PClearance(sqrt, p, slots, need).value == Clearance(sqrt, p, discs, need)
  {
    if |slots| > 0 {
      var rest := slots[1..];
      assert Matches(rest, discs[1..]) by {
        forall j | 0 <= j < |rest|
          ensures rest[j] == Full(discs[1..][j]) || rest[j] == Short(discs[1..][j].pos, discs[1..][j].radius)
        {
          assert rest[j] == slots[j + 1] && discs[1..][j] == discs[j + 1];
        }
      }
      PClearanceFacts(sqrt, p, rest, discs[1..], need);
      assert Reaches(sqrt, p, slots, need, 0);
      if slots[0].Full? && !Blocks(sqrt, p, slots[0].disc, need) {
        assert slots[0].disc == discs[0];
        forall j | Reaches(sqrt, p, slots, need, j) && j > 0 ensures Reaches(sqrt, p, rest, need, j - 1) {
          forall k | 0 <= k < j - 1 ensures rest[k].Full? && !Blocks(sqrt, p, rest[k].disc, need) {
            assert rest[k] == slots[k + 1];
          }
        }
        forall j | Reaches(sqrt, p, rest, need, j) ensures Reaches(sqrt, p, slots, need, j + 1) {
          forall k | 0 <= k < j + 1 ensures slots[k].Full? && !Blocks(sqrt, p, slots[k].disc, need) {
            if k > 0 {
              assert slots[k] == rest[k - 1];
            }
          }
        }
        if PClearance(sqrt, p, rest, need).Raises? {
          var j :| Reaches(sqrt, p, rest, need, j) && rest[j].Short?;
          assert Reaches(sqrt, p, slots, need, j + 1) && slots[j + 1] == rest[j];
        }
      } else {
        forall j | Reaches(sqrt, p, slots, need, j) ensures j == 0 {
        }
        if slots[0].Full? {
          assert slots[0].disc == discs[0];
        }
      }
    }
  }

  /** Scanning `placed` for candidate `c` raises. */
  predicate CandidateRaises(sqrt: real -> real, c: Candidate, slots: seq<Slot>, need: Need)
  {
    PClearance(sqrt, c.pos, slots, need).Raises?
  }

  /** The candidate loop: raises as soon as one candidate's scan of `placed`
      raises; otherwise each step is the matplotlib step. */
  function PScan(sqrt: real -> real, cands: seq<Candidate>, slots: seq<Slot>, discs: seq<Disc>, need: Need, i: nat, best: Option<nat>): Run<Option<nat>>
    requires Matches(slots, discs)
    requires i <= |cands|
    requires ScanInvariant(sqrt, cands, discs, need, i, best)
    decreases |cands| - i
  {
    if i == |cands| then Returns(best)
    else if CandidateRaises(sqrt, cands[i], slots, need) then Raises
    else PScan(sqrt, cands, slots, discs, need, i + 1, Step(sqrt, cands, discs, need, i, best))
  }

  /** The Plotly candidate loop raises exactly when some remaining candidate's
      scan raises. */
  lemma {:induction false} PScanRaises(sqrt: real -> real, cands: seq<Candidate>, slots: seq<Slot>, discs: seq<Disc>, need: Need, i: nat, best: Option<nat>)
    requires Matches(slots, discs)
    requires i <= |cands|
    requires ScanInvariant(sqrt, cands, discs, need, i, best)
    ensures PScan(sqrt, cands, slots, discs, need, i, best).Raises? <==>
            exists j :: i <= j < |cands| && CandidateRaises(sqrt, cands[j], slots, need)
    decreases |cands| - i
  {
    if i < |cands| && !CandidateRaises(sqrt, cands[i], slots, need) {
      PScanRaises(sqrt, cands, slots, discs, need, i + 1, Step(sqrt, cands, discs, need, i, best));
    }
  }

  /** When the Plotly candidate loop returns, it returns the matplotlib choice. */
  lemma {:induction false} PScanAgrees(sqrt: real -> real, cands: seq<Candidate>, slots: seq<Slot>, discs: seq<Disc>, need: Need, i: nat, best: Option<nat>)
    requires Matches(slots, discs)
    requires i <= |cands|
    requires ScanInvariant(sqrt, cands, discs, need, i, best)
    ensures PScan(sqrt, cands, slots, discs, need, i, best) in {Raises, Returns(Scan(sqrt, cands, discs, need, i, best))}
    decreases |cands| - i
  {
    if i < |cands| && !CandidateRaises(sqrt, cands[i], slots, need) {
      PScanAgrees(sqrt, cands, slots, discs, need, i + 1, Step(sqrt, cands, discs, need, i, best));
    }
  }

  /** One label, Plotly copy. */
  function PPlaceLabel(sqrt: real -> real, p: Params, cands: seq<Candidate>, slots: seq<Slot>, discs: seq<Disc>, lab: LabelSpec, i: nat): Run<Entry>
    requires Matches(slots, discs)
  {
    var need := NeedOf(p, lab);
    if |cands| == 0 then Returns(Entry(i, Disc(lab.anchor, need.radius, lab.key), AtAnchor))
    else
      PScanAgrees(sqrt, cands, slots, discs, need, 0, None);
      match PScan(sqrt, cands, slots, discs, need, 0, None)
      case Raises => Raises
      case Returns(Some(k)) => Returns(Entry(i, Disc(cands[k].pos, need.radius, lab.key), Chosen))
      case Returns(None) => Returns(Entry(i, Disc(cands[0].pos, need.radius, lab.key), TopMargin))
  }

  /** A label raises exactly when its region has candidates and one of them
      reaches a 3-tuple; otherwise it lands where the matplotlib copy puts it. */
  lemma PPlaceLabelFacts(sqrt: real -> real, p: Params, cands: seq<Candidate>, slots: seq<Slot>, discs: seq<Disc>, lab: LabelSpec, i: nat)
    requires Matches(slots, discs)
    ensures PPlaceLabel(sqrt, p, cands, slots, discs, lab, i).Raises? <==>
            exists j :: 0 <= j < |cands| && CandidateRaises(sqrt, cands[j], slots, NeedOf(p, lab))
    ensures PPlaceLabel(sqrt, p, cands, slots, discs, lab, i).Returns? ==>
            PPlaceLabel(sqrt, p, cands, slots, discs, lab, i).value == PlaceLabel(sqrt, p, cands, discs, lab, i)
  {
    PScanRaises(sqrt, cands, slots, discs, NeedOf(p, lab), 0, None);
    PScanAgrees(sqrt, cands, slots, discs, NeedOf(p, lab), 0, None);
  }

  /** The labels of one region, Plotly copy. */
  function PPlaceRegion(sqrt: real -> real, p: Params, cands: seq<Candidate>, labels: seq<LabelSpec>, idxs: seq<nat>, t: seq<Entry>): Run<seq<Entry>>
    requires forall a :: 0 <= a < |idxs| ==> idxs[a] < |labels|
    decreases |idxs|
  {
    if |idxs| == 0 then Returns(t)
    else
      match PPlaceLabel(sqrt, p, cands, Slots(t), Discs(t), labels[idxs[0]], idxs[0])
      case Raises => Raises
      case Returns(e) => PPlaceRegion(sqrt, p, cands, labels, idxs[1..], t + [e])
  }

  /** The regions `keys`, Plotly copy. */
  function PPlaceKeys(sqrt: real -> real, p: Params, m: RegionPoints, labels: seq<LabelSpec>, keys: seq<Key>, t: seq<Entry>): Run<seq<Entry>>
    decreases |keys|
  {
    if |keys| == 0 then Returns(t)
    else
      IndicesOfFacts(labels, keys[0]);
      match PPlaceRegion(sqrt, p, PointsOf(m, keys[0]), labels, IndicesOf(labels, keys[0]), t)
      case Raises => Raises
      case Returns(t1) => PPlaceKeys(sqrt, p, m, labels, keys[1..], t1)
  }

  /** The whole Plotly greedy loop. */
  function PPlace(sqrt: real -> real, p: Params, m: RegionPoints, labels: seq<LabelSpec>): (r: Run<seq<Entry>>)
    ensures r.Returns? ==> |r.value| == |labels|
    ensures r.Returns? ==> forall a :: 0 <= a < |r.value| ==> r.value[a].index < |labels|
  {
    PPlaceKeysFacts(sqrt, p, m, labels, OrderedKeys(labels), []);
    assert PlaceKeys(sqrt, p, m, labels, OrderedKeys(labels), []) == Place(sqrt, p, m, labels);
    PPlaceKeys(sqrt, p, m, labels, OrderedKeys(labels), [])
  }

  /** No entry of the trace was left at its anchor. */
  predicate NoAnchored(t: seq<Entry>)
  {
    forall j :: 0 <= j < |t| ==> t[j].how != AtAnchor
  }

  /** Every region in `keys` has at least one candidate point. */
  predicate AllRegionsHavePoints(m: RegionPoints, keys: seq<Key>)
  {
    forall k :: 0 <= k < |keys| ==> |PointsOf(m, keys[k])| > 0
  }

  /** A scan of `placed` that holds only 4-tuples never raises. */
  lemma FullSlotsNeverRaise(sqrt: real -> real, p: Point, t: seq<Entry>, need: Need)
    requires NoAnchored(t)
    ensures PClearance(sqrt, p, Slots(t), need).Returns?
  {
    PClearanceFacts(sqrt, p, Slots(t), Discs(t), need);
  }

  /** A region with candidates, placed after a trace with no 3-tuple, places
      every label without raising and leaves no 3-tuple; whenever the Plotly
      copy returns, it agrees with the matplotlib copy. */
  lemma {:induction false} PPlaceRegionFacts(sqrt: real -> real, p: Params, cands: seq<Candidate>, labels: seq<LabelSpec>, idxs: seq<nat>, t: seq<Entry>)
    requires forall a :: 0 <= a < |idxs| ==> idxs[a] < |labels|
    ensures var r := PPlaceRegion(sqrt, p, cands, labels, idxs, t);
            r.Returns? ==> r.value == PlaceRegion(sqrt, p, cands, labels, idxs, t)
    ensures |cands| > 0 && NoAnchored(t) ==> PPlaceRegion(sqrt, p, cands, labels, idxs, t).Returns?
    ensures |cands| > 0 && NoAnchored(t) ==> NoAnchored(PlaceRegion(sqrt, p, cands, labels, idxs, t))
    decreases |idxs|
  {
    if |idxs| > 0 {
      var lab := labels[idxs[0]];
      PPlaceLabelFacts(sqrt, p, cands, Slots(t), Discs(t), lab, idxs[0]);
      var e := PlaceLabel(sqrt, p, cands, Discs(t), lab, idxs[0]);
      PPlaceRegionFacts(sqrt, p, cands, labels, idxs[1..], t + [e]);
      if |cands| > 0 && NoAnchored(t) {
        forall j | 0 <= j < |cands| ensures !CandidateRaises(sqrt, cands[j], Slots(t), NeedOf(p, lab)) {
          FullSlotsNeverRaise(sqrt, cands[j].pos, t, NeedOf(p, lab));
        }
        assert e.how != AtAnchor;
        assert NoAnchored(t + [e]);
      }
    }
  }

  lemma {:induction false} PPlaceKeysFacts(sqrt: real -> real, p: Params, m: RegionPoints, labels: seq<LabelSpec>, keys: seq<Key>, t: seq<Entry>)
    ensures var r := PPlaceKeys(sqrt, p, m, labels, keys, t);
            r.Returns? ==> r.value == PlaceKeys(sqrt, p, m, labels, keys, t)
    ensures AllRegionsHavePoints(m, keys) && NoAnchored(t) ==> PPlaceKeys(sqrt, p, m, labels, keys, t).Returns?
    decreases |keys|
  {
    if |keys| > 0 {
      IndicesOfFacts(labels, keys[0]);
      var cands := PointsOf(m, keys[0]);
      var idxs := IndicesOf(labels, keys[0]);
      PPlaceRegionFacts(sqrt, p, cands, labels, idxs, t);
      var t1 := PlaceRegion(sqrt, p, cands, labels, idxs, t);
      PPlaceKeysFacts(sqrt, p, m, labels, keys[1..], t1);
      if AllRegionsHavePoints(m, keys) {
        assert |PointsOf(m, keys[0])| > 0;
        assert AllRegionsHavePoints(m, keys[1..]) by {
          forall k | 0 <= k < |keys[1..]| ensures |PointsOf(m, keys[1..][k])| > 0 {
            assert keys[1..][k] == keys[k + 1];
          }
        }
      }
    }
  }

  /** Whenever the Plotly copy finishes, it places every label exactly where
      the matplotlib copy does. */
  lemma PlotlyAgreesWhenItReturns(sqrt: real -> real, p: Params, m: RegionPoints, labels: seq<LabelSpec>)
    ensures PPlace(sqrt, p, m, labels).Returns? ==> PPlace(sqrt, p, m, labels).value == Place(sqrt, p, m, labels)
  {
    PPlaceKeysFacts(sqrt, p, m, labels, OrderedKeys(labels), []);
  }

  /** When every region with labels has a candidate point, no 3-tuple is ever
      recorded and the Plotly copy computes the matplotlib placement. */
  lemma PlotlyMatchesWithoutEmptyRegions(sqrt: real -> real, p: Params, m: RegionPoints, labels: seq<LabelSpec>)
    requires forall i :: 0 <= i < |labels| ==> |PointsOf(m, labels[i].key)| > 0
    ensures PPlace(sqrt, p, m, labels) == Returns(Place(sqrt, p, m, labels))
  {
    var keys := OrderedKeys(labels);
    forall k | 0 <= k < |keys| ensures |PointsOf(m, keys[k])| > 0 {
      assert keys[k] in keys;
    }
    PPlaceKeysFacts(sqrt, p, m, labels, keys, []);
  }

  /** A four-way label whose region has no grid point, followed by a
      numeric-only label whose region has one: the four-way label goes into
      `placed` as a 3-tuple, and scanning it for the numeric label raises,
      while the matplotlib copy places both labels. */
  lemma ShortEntryRaises(sqrt: real -> real, p: Params)
    ensures var all := Key(true, true, true, true);
            var numeric := Key(true, false, false, false);
            var labels := [LabelSpec("Cardinality", Point(6.1, 4.2), all),
                           LabelSpec("Quantiles", Point(3.8, 8.1), numeric)];
            var m := map[all := [], numeric := [Candidate(Point(2.0, 7.0), 1.0)]];
            && PPlace(sqrt, p, m, labels) == Raises
            && |Place(sqrt, p, m, labels)| == 2
  {
    var all := Key(true, true, true, true);
    var numeric := Key(true, false, false, false);
    var labels := [LabelSpec("Cardinality", Point(6.1, 4.2), all),
                   LabelSpec("Quantiles", Point(3.8, 8.1), numeric)];
    var m := map[all := [], numeric := [Candidate(Point(2.0, 7.0), 1.0)]];
    assert all.Size() == 4 && numeric.Size() == 1;
    assert KeysOfPrefix(labels, 1) == [all];
    assert !KeyBefore(numeric, all);
    assert [all][1..] == [];
    assert InsertKey(numeric, [all]) == [all, numeric];
    assert OrderedKeys(labels) == [all, numeric];
    assert Select(labels, {all}, 1) == [0];
    assert IndicesOf(labels, all) == [0];
    assert Select(labels, {numeric}, 1) == [];
    assert IndicesOf(labels, numeric) == [1];
    var e0 := Entry(0, Disc(Point(6.1, 4.2), NeedOf(p, labels[0]).radius, all), AtAnchor);
    assert PointsOf(m, all) == [];
    assert PPlaceLabel(sqrt, p, [], Slots([]), Discs([]), labels[0], 0) == Returns(e0);
    assert [0][1..] == [] && [] + [e0] == [e0];
    assert PPlaceRegion(sqrt, p, [], labels, [0], []) == Returns([e0]);
    var cands := PointsOf(m, numeric);
    var slots := Slots([e0]);
    assert slots[0].Short?;
    assert CandidateRaises(sqrt, cands[0], slots, NeedOf(p, labels[1]));
    PPlaceLabelFacts(sqrt, p, cands, slots, Discs([e0]), labels[1], 1);
    assert PPlaceRegion(sqrt, p, cands, labels, [1], [e0]) == Raises;
    PlaceFollowsProcessingOrder(sqrt, p, m, labels);
  }
}
