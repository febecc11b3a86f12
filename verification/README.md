# Region-constrained Venn label placement, modelled in Dafny

The figure scripts draw four overlapping circles, one each for the
Numeric, Sequence, Categorical and Date data types. They place one text
label per metric inside the overlap region of the types the metric applies
to. This project models that placement logic and proves properties of it.

- **Layout.** The shared-region interpolation moves the circle centres and
  label anchors toward their centroid. Labels pull in by a region-size
  dependent factor.
- **Candidates.** A uniform grid covers the 10 x 10 canvas. Each grid point
  of a region is scored by its margin, the distance to the nearest boundary
  the region must respect. The candidates are stably sorted by descending
  margin.
- **Placement.** The greedy loop visits regions largest first, in name order
  within one size, and each region's labels in their original order. Each
  label takes the highest-scoring candidate that clears every earlier label
  and is deep enough in the region (score = margin + 0.5 x clearance). It
  falls back to the deepest candidate, or stays at its anchor when the region
  has no grid point.
- **Plotly copy.** The same loop exists a second time in the Plotly figure.
  It is modelled as written: the anchor fallback stores its entry without a
  region key (see Findings).
- **Colour helpers:** hex parsing and printing, blending, darkening.
- **Relaxation.** `_avoid_label_overlap` repels labels pairwise, pulls them
  back toward their anchors and clamps them to the bounds.
- **Brier scores.** The per-draw Brier score of a two-draw language model,
  its two long-run expectations, and the BrierLM rescaling to 0-100.
- **Quantisation.** The `quantize` helper snaps values to evenly spaced bins.

Modules:

| module | what it holds |
|---|---|
| `Wrappers` | the `Option` type |
| `Categories` | categories and region keys, with the key order |
| `Geometry` | points and distances |
| `Layout` | the layout step |
| `Candidates` | the candidate step |
| `KeyOrder` | the processing order |
| `Placement` | the matplotlib placement |
| `PlotlyPlacement` | the Plotly placement |
| `Colors` | the colour helpers |
| `Relaxation` | the relaxation |
| `Brier` | the Brier scores |
| `Quantize` | the quantisation |

Conventions:

- **Square root.** Distances use a square root passed in as a parameter
  `sqrt: real -> real`. Properties that need a faithful square root assume
  the ghost predicate `Geometry.IsSqrt(sqrt)`.
- **Errors.** A Python exception that ends the computation is `None` or
  `Raises`.
- **Integers and reals.** Python integers are unbounded `int`s. Floats are
  exact `real`s.

## Model

| member | source | states |
|---|---|---|
| Categories.KeyOf | scripts/Concurrent_circles/venn_plot_mpl.py:102 | a region key holds exactly the categories of the label's set, like `frozenset(region)` |
| Categories.SizeCountsMembers | scripts/Concurrent_circles/venn_plot_mpl.py:83 | the size of a key is the number of categories in the set (`len(region)`) |
| Categories.RankAgreesWithName | scripts/Concurrent_circles/venn_plot_mpl.py:144 | comparing category ranks is the same as comparing category names as strings, which `tuple(sorted(k))` does |
| Categories.SortedRanks | scripts/Concurrent_circles/venn_plot_mpl.py:144 | `tuple(sorted(k))`: strictly increasing ranks of exactly the key's members, one per member |
| Categories.SortedRanksInjective | scripts/Concurrent_circles/venn_plot_mpl.py:144 | two keys with the same sorted name tuple are the same key, so the sort key never ties distinct regions |
| Categories.KeyBeforeIrreflexive | scripts/Concurrent_circles/venn_plot_mpl.py:144 | no region sorts before itself under `(-len(k), tuple(sorted(k)))` |
| Categories.KeyBeforeTransitive | scripts/Concurrent_circles/venn_plot_mpl.py:144 | the region sort order is transitive |
| Categories.KeyBeforeTotal | scripts/Concurrent_circles/venn_plot_mpl.py:144 | any two distinct regions are ordered one way or the other |
| Categories.KeyBeforeAsymmetric | scripts/Concurrent_circles/venn_plot_mpl.py:144 | two regions are never each before the other |
| Geometry.WithinIffSquared | scripts/Concurrent_circles/venn_plot_mpl.py:92-95 | with a faithful square root, comparing a distance to a non-negative bound is the same as comparing squared distance to the squared bound |
| Geometry.LerpScalesDistance | scripts/Concurrent_circles/venn_plot_mpl.py:76-77 | moving a point toward a target by factor `t` scales its squared distance to the target by `t*t` |
| Layout.Clamp | scripts/Concurrent_circles/venn_plot_mpl.py:71 | the clamp lands in the interval, is the identity inside it and hits the nearer end outside it |
| Layout.ClampShared | scripts/Concurrent_circles/venn_plot_mpl.py:71 | `shared_region` is clamped into [0, 1] |
| Layout.CentroidBalances | scripts/Concurrent_circles/venn_plot_mpl.py:72-73 | the centroid is the mean of the four centres: their offsets from it cancel on each axis |
| Layout.InterpolateCenters | scripts/Concurrent_circles/venn_plot_mpl.py:71-78 | each centre moves toward the centroid by `1 - shared`, with `shared` clamped to [0, 1]; `shared <= 0` keeps the centres and `shared >= 1` collapses them onto the centroid |
| Layout.InterpolationKeepsCentroid | scripts/Concurrent_circles/venn_plot_mpl.py:72-78 | moving the centres does not move their centroid |
| Layout.MinFactor | scripts/Concurrent_circles/venn_plot_mpl.py:81-84 | the minimum pull factor lies strictly between 0 and 1 for every region size, including the `.get(..., 0.6)` default |
| Layout.PullFactor | scripts/Concurrent_circles/venn_plot_mpl.py:85 | the factor is `max(min_factor, 1 - shared)`: at least both, equal to one of them, and 1 when nothing is shared |
| Layout.PullAnchors | scripts/Concurrent_circles/venn_plot_mpl.py:82-89 | the labels keep their order, texts and regions; each anchor moves toward the centroid by its pull factor; `shared <= 0` leaves all anchors in place |
| Layout.PullStaysBetween | scripts/Concurrent_circles/venn_plot_mpl.py:84-87 | a pulled anchor is no farther from the centroid than before and keeps at least `min_factor` of its distance |
| Layout.FontScale | scripts/Concurrent_circles/venn_plot_mpl.py:137 | the font scale lies in [0.5, 2] |
| Layout.LabelRadius | scripts/Concurrent_circles/venn_plot_mpl.py:136-138 | a label's disk radius is at least 0.06, the value for empty text at the smallest scale |
| Layout.LabelRadiusMonotone | scripts/Concurrent_circles/venn_plot_mpl.py:136-138 | a longer text never gets a smaller disk |
| Layout.SameRegionExtra | scripts/Concurrent_circles/venn_plot_mpl.py:159-171 | the same-region gap is never negative; a given per-size override (`>= 0`) wins; otherwise it is the size's share (0.40, 0.60, 0.75, 1.00) of `max(0, region_spacing)`, and a size outside 1..4 gets the two-way share |
| Layout.SameRegionExtraIsLookup | scripts/Concurrent_circles/venn_plot_mpl.py:159-171 | the gap is the region size looked up in the spacing table, with the two-way default for any other size |
| Layout.SameRegionExtraGrows | scripts/Concurrent_circles/venn_plot_mpl.py:159-164 | without overrides, a region with more circles never gets a smaller gap |
| Candidates.GridStep | scripts/Concurrent_circles/venn_plot_mpl.py:97 | the step is at least 0.01 and is the given step when that is at least 0.01 |
| Candidates.LastIndex | scripts/Concurrent_circles/venn_plot_mpl.py:98 | `int(10.0 / step)` is the last grid index: it lies within the canvas and the next one would not |
| Candidates.Axis | scripts/Concurrent_circles/venn_plot_mpl.py:98-99 | the axis samples are `step * i` for `i = 0 .. int(10 / step)`, all in [0, 10] |
| Candidates.Grid | scripts/Concurrent_circles/venn_plot_mpl.py:106-107 | the grid holds exactly the points whose coordinates are both axis samples, row by row: the point for `xs[i], ys[j]` is at position `i * |ys| + j` |
| Candidates.Pairs | scripts/Concurrent_circles/venn_plot_mpl.py:106-107 | the nested loops visit every pair of coordinates, as many points as the product of the axis lengths, in row-major order: `(xs[i], ys[j])` is at position `i * |ys| + j` |
| Candidates.CellIsProduct | scripts/Concurrent_circles/venn_plot_mpl.py:106-107 | the position of row `i`, column `j` in rows of width `w` is `i * w + j` |
| Candidates.GridOnCanvas | scripts/Concurrent_circles/venn_plot_mpl.py:97-99 | every grid point lies on the 10 x 10 canvas |
| Candidates.Margin | scripts/Concurrent_circles/venn_plot_mpl.py:108-128 | the margin is the smallest boundary slack over all four circles, and some circle attains it |
| Candidates.MarginSignIsMembership | scripts/Concurrent_circles/venn_plot_mpl.py:108-127 | a point passes the inside and outside tests exactly when its margin is non-negative |
| Candidates.FilterRegion | scripts/Concurrent_circles/venn_plot_mpl.py:105-129 | the kept points are exactly the grid points in the region, each with its margin |
| Candidates.FilterRegionAppend | scripts/Concurrent_circles/venn_plot_mpl.py:105-129 | filtering a concatenation is the concatenation of the filtered parts, so the filter keeps the grid order |
| Candidates.FilterRegionOne | scripts/Concurrent_circles/venn_plot_mpl.py:108-129 | a single point is kept, with its margin, exactly when it lies in the region |
| Candidates.FilterKeepsOrder | scripts/Concurrent_circles/venn_plot_mpl.py:105-129 | of two region points, the one earlier in the grid comes earlier among the kept candidates |
| Candidates.InsertByMargin | scripts/Concurrent_circles/venn_plot_mpl.py:130 | inserting keeps the list sorted by descending margin and adds exactly one element |
| Candidates.InsertKeepsTies | scripts/Concurrent_circles/venn_plot_mpl.py:130 | an inserted candidate goes before the existing candidates of equal margin |
| Candidates.SortByMargin | scripts/Concurrent_circles/venn_plot_mpl.py:130 | the sort returns a permutation of its input, ordered by descending margin |
| Candidates.SortKeepsMembers | scripts/Concurrent_circles/venn_plot_mpl.py:130 | sorting neither adds nor drops a candidate |
| Candidates.SortIsStable | scripts/Concurrent_circles/venn_plot_mpl.py:130 | candidates of equal margin keep their grid order, as in Python's stable sort |
| Candidates.RegionCandidates | scripts/Concurrent_circles/venn_plot_mpl.py:102-131 | a region's candidate list is sorted by descending margin, holds only in-region grid points with their non-negative margins, and holds every such point; the candidates of any one margin appear in grid order |
| KeyOrder.InsertKey | scripts/Concurrent_circles/venn_plot_mpl.py:144 | inserting a key into a sorted key list keeps it sorted and adds exactly that key |
| KeyOrder.OrderedKeys | scripts/Concurrent_circles/venn_plot_mpl.py:140-144 | `ordered_keys` lists each region that has a label exactly once, in sort order |
| KeyOrder.SelectFacts | scripts/Concurrent_circles/venn_plot_mpl.py:141-143 | selecting labels by region returns, in increasing order, exactly the indices whose region is selected |
| KeyOrder.IndicesOfFacts | scripts/Concurrent_circles/venn_plot_mpl.py:140-143 | `indices_by_key[key]` lists, in increasing order, exactly the labels of that region |
| KeyOrder.ProcessingOrder | scripts/Concurrent_circles/venn_plot_mpl.py:140-154 | the order the loop visits labels in is a permutation of the label indices |
| KeyOrder.ProcessingOrderIsPermutation | scripts/Concurrent_circles/venn_plot_mpl.py:145-154 | the loop over `ordered_keys` and `idxs` visits every label index exactly once |
| KeyOrder.ProcessingOrderRespectsKeys | scripts/Concurrent_circles/venn_plot_mpl.py:144-154 | labels are visited larger regions first, then by region name, then in original order |
| Placement.BeatsAsymmetric | scripts/Concurrent_circles/venn_plot_mpl.py:189 | `score > best_score` never holds both ways, including against +inf |
| Placement.NeedOf | scripts/Concurrent_circles/venn_plot_mpl.py:156-171 | what a label must keep: a radius of at least 0.06, a non-negative same-region gap, its own region and the region padding |
| Placement.Clearance | scripts/Concurrent_circles/venn_plot_mpl.py:172-183 | a candidate is rejected exactly when some placed label blocks it; otherwise `min_dist` is +inf when nothing is placed, else the smallest non-negative gap |
| Placement.Choose | scripts/Concurrent_circles/venn_plot_mpl.py:172-191 | the chosen candidate is the first that reaches the highest score; nothing is chosen exactly when no candidate is eligible |
| Placement.ChooseIsFirstBest | scripts/Concurrent_circles/venn_plot_mpl.py:188-191 | the scan picks candidate `b` exactly when `b` is the first best one |
| Placement.FirstBestUnique | scripts/Concurrent_circles/venn_plot_mpl.py:189-191 | at most one candidate is first best |
| Placement.ScoreAtLeastMargin | scripts/Concurrent_circles/venn_plot_mpl.py:188 | a feasible candidate's score is at least its margin |
| Placement.ChooseNoneIffNothingFits | scripts/Concurrent_circles/venn_plot_mpl.py:172-192 | with non-negative margins, the fallback is taken exactly when no candidate clears the placed labels and the padding |
| Placement.PlaceLabel | scripts/Concurrent_circles/venn_plot_mpl.py:147-199 | an entry records the label's index, region and a radius of at least 0.06; it stays at the anchor exactly when the region has no candidate, and otherwise sits on one of the region's candidates |
| Placement.PlaceLabelJustified | scripts/Concurrent_circles/venn_plot_mpl.py:147-199 | each placement has the label's radius and region; it is at the anchor when the region has no candidate, at the first best candidate, or at the deepest one when none is eligible |
| Placement.JustifiedIsUnique | scripts/Concurrent_circles/venn_plot_mpl.py:147-199 | those conditions determine the placement uniquely |
| Placement.RegionTable | scripts/Concurrent_circles/venn_plot_mpl.py:101-131 | `region_to_points` gives every label's region its candidate list |
| Placement.PlaceRegionFacts | scripts/Concurrent_circles/venn_plot_mpl.py:154-199 | placing a region appends one entry per label, each placed against every label placed before it |
| Placement.PlaceKeysFacts | scripts/Concurrent_circles/venn_plot_mpl.py:145-199 | placing the regions appends entries in processing order, each justified by what precedes it |
| Placement.Place | scripts/Concurrent_circles/venn_plot_mpl.py:145-199 | the trace has one entry per label, each for a valid label index |
| Placement.PlaceFollowsProcessingOrder | scripts/Concurrent_circles/venn_plot_mpl.py:145-199 | the placement trace has one entry per label, in processing order |
| Placement.PlaceIsGreedy | scripts/Concurrent_circles/venn_plot_mpl.py:145-199 | every entry of the trace is the greedy choice given the entries before it |
| Placement.PlaceVisitsEachOnce | scripts/Concurrent_circles/venn_plot_mpl.py:145-199 | every label is placed exactly once |
| Placement.ChosenIsClear | scripts/Concurrent_circles/venn_plot_mpl.py:172-191 | a chosen position keeps the required distance from every earlier label, is inside its region, and is deeper than radius plus padding |
| Placement.Positions | scripts/Concurrent_circles/venn_plot_mpl.py:134 | `new_labels` has one entry per label, with the labels' texts |
| Placement.PositionOfLastWrite | scripts/Concurrent_circles/venn_plot_mpl.py:151-198 | a label ends where the last entry that wrote it put it |
| Placement.EveryLabelPlaced | scripts/Concurrent_circles/venn_plot_mpl.py:145-201 | every label's final position is the one its trace entry chose |
| Placement.EntryOfLabel | scripts/Concurrent_circles/venn_plot_mpl.py:145-201 | each label has exactly one trace entry; that entry is the greedy choice and gives the label its final position |
| Placement.StaticPlacement | scripts/Concurrent_circles/venn_plot_mpl.py:70-201 | the figure's final label list has one entry per base label, with its text |
| Placement.StaticAtNoSharing | scripts/Concurrent_circles/venn_plot_mpl.py:70-201 | with `shared_region <= 0` the figure places the base labels against the regions of the base circles |
| Placement.StaticEntryFacts | scripts/Concurrent_circles/venn_plot_mpl.py:82-199 | the trace entry of a label sits at the pulled anchor exactly when the region on the pulled circles has no grid point, otherwise on a point of that region (the deepest when nothing fits); a chosen point clears every earlier label and is deeper than radius plus padding |
| Placement.StaticPlacementFacts | scripts/Concurrent_circles/venn_plot_mpl.py:70-201 | from the base circles and labels to the final positions: every label ends at the position of its one trace entry, which is placed as above |
| PlotlyPlacement.Slots | scripts/Concurrent_circles/venn_plot.py:381-456 | the Plotly `placed` list matches the matplotlib one, with a 3-tuple exactly for the labels left at their anchor |
| PlotlyPlacement.PClearanceFacts | scripts/Concurrent_circles/venn_plot.py:426-438 | the scan raises exactly when it reaches a 3-tuple before any blocker; otherwise it agrees with the matplotlib scan |
| PlotlyPlacement.PPlaceLabelFacts | scripts/Concurrent_circles/venn_plot.py:405-456 | placing one label raises exactly when some candidate's scan raises; otherwise it agrees with the matplotlib placement |
| PlotlyPlacement.FullSlotsNeverRaise | scripts/Concurrent_circles/venn_plot.py:430 | a `placed` list of 4-tuples never raises |
| PlotlyPlacement.PPlace | scripts/Concurrent_circles/venn_plot.py:380-456 | when the Plotly loop finishes, its trace has one entry per label, each for a valid label index |
| PlotlyPlacement.PlotlyAgreesWhenItReturns | scripts/Concurrent_circles/venn_plot.py:380-456 | whenever the Plotly copy finishes, it places every label where the matplotlib copy does |
| PlotlyPlacement.PlotlyMatchesWithoutEmptyRegions | scripts/Concurrent_circles/venn_plot.py:394-456 | when every labelled region has a candidate, the Plotly copy finishes with the matplotlib placement |
| PlotlyPlacement.ShortEntryRaises | scripts/Concurrent_circles/venn_plot.py:397-403 | a four-way label whose region is empty, followed by a labelled region with a candidate, makes the Plotly copy raise while the matplotlib copy places both |
| Colors.ParseHexSlice | scripts/Concurrent_circles/venn_plot.py:93 | `int(s, 16)` of a slice of at most two characters succeeds exactly for one hex digit, two hex digits, a digit with surrounding ASCII whitespace, or a signed digit, with the matching value in -15..255; anything else (the empty slice, `\x1c`, `#`, two signs) raises |
| Colors.StripHashes | scripts/Concurrent_circles/venn_plot.py:92 | `lstrip('#')` drops exactly the leading hashes |
| Colors.HexToRgb | scripts/Concurrent_circles/venn_plot.py:91-93 | a parsed colour has channels in -15..255, and a colour with at most four characters after its leading hashes fails to parse |
| Colors.HexDigits | scripts/Concurrent_circles/venn_plot.py:97 | the hex digits of a number are lower-case, a single digit exactly below 16 |
| Colors.Hex02 | scripts/Concurrent_circles/venn_plot.py:97 | `'%02x' % n` has at least two characters, each a lower-case hex digit or the minus sign |
| Colors.RgbToHex | scripts/Concurrent_circles/venn_plot.py:96-97 | a printed colour is `#` followed by at least six characters, each a lower-case hex digit or the minus sign |
| Colors.Hex02OfByte | scripts/Concurrent_circles/venn_plot.py:97 | `'%02x'` of a byte is two lower-case digits that read back as the byte |
| Colors.RgbToHexCanonical | scripts/Concurrent_circles/venn_plot.py:96-97 | a colour with byte channels prints as `#` and six lower-case hex digits |
| Colors.HexRoundTrip | scripts/Concurrent_circles/venn_plot.py:91-97 | parsing a printed byte colour gives the colour back |
| Colors.DecodeHexColor | scripts/Concurrent_circles/venn_plot.py:91-93 | a `#rrggbb` string, in either case, parses to its channel values |
| Colors.DecodeEncodeLowers | scripts/Concurrent_circles/venn_plot.py:91-97 | printing a parsed `#rrggbb` string gives the string in lower case |
| Colors.DecodeAll | scripts/Concurrent_circles/venn_plot.py:104-105 | all colours parse, in order, or some colour fails to parse |
| Colors.Blend | scripts/Concurrent_circles/venn_plot.py:100-110 | an empty list blends to `#1f1f1f`; otherwise blending succeeds exactly when every colour parses |
| Colors.MeanChannelIsFloor | scripts/Concurrent_circles/venn_plot.py:109-110 | `int(sum / n)` of channels in 0..255 is in 0..255 and is the floor of the mean |
| Colors.BlendOfHexColors | scripts/Concurrent_circles/venn_plot.py:100-110 | the blend of `#rrggbb` colours prints the channel-wise floor means, each between the smallest and largest input channel |
| Colors.BlendSingleton | scripts/Concurrent_circles/venn_plot.py:100-110 | blending one colour returns it in lower case |
| Colors.ClampFactor | scripts/Concurrent_circles/venn_plot.py:114 | the factor is clamped to [0, 1] |
| Colors.ScaleShrinks | scripts/Concurrent_circles/venn_plot.py:116-118 | `int(v * f)` with `f` in [0, 1] moves `v` toward zero; `f = 0` gives 0 and `f = 1` gives `v` |
| Colors.Darken | scripts/Concurrent_circles/venn_plot.py:113-119 | darkening succeeds exactly when the colour parses |
| Colors.DarkenNeverBrightens | scripts/Concurrent_circles/venn_plot.py:113-119 | no channel of a byte colour gets brighter, and every channel stays a byte |
| Colors.DarkenExtremes | scripts/Concurrent_circles/venn_plot.py:113-119 | a factor `<= 0` gives `#000000`; a factor `>= 1` gives the colour in lower case |
| Relaxation.Bound | scripts/Concurrent_circles/venn_plot.py:180-181 | `max(lo, min(hi, v))` is at least `lo`, at most `hi` when `lo <= hi`, `v` itself inside, and `lo` when the bounds are reversed |
| Relaxation.Radius | scripts/Concurrent_circles/venn_plot.py:145-146 | each relaxation disk radius is at least 0.06 |
| Relaxation.PushPair | scripts/Concurrent_circles/venn_plot.py:152-173 | one pair step moves only the two labels, equally and oppositely; with a faithful square root it never divides by zero |
| Relaxation.PushPairConservesSums | scripts/Concurrent_circles/venn_plot.py:170-173 | a pair step keeps the sums of all x and all y coordinates |
| Relaxation.RepelAll | scripts/Concurrent_circles/venn_plot.py:150-173 | the repulsion pass keeps the number of labels and the coordinate sums, and cannot fail with a faithful square root |
| Relaxation.PullAll | scripts/Concurrent_circles/venn_plot.py:176-181 | after the anchor pass every label is within the bounds |
| Relaxation.PullApproachesAnchor | scripts/Concurrent_circles/venn_plot.py:178-181 | with strength in [0, 1] and the anchor inside the bounds, a coordinate never moves away from its anchor |
| Relaxation.PullAllApproachesAnchors | scripts/Concurrent_circles/venn_plot.py:176-181 | with strength in [0, 1] and anchors inside the bounds, no label ends farther from its anchor than before the pass, on either axis |
| Relaxation.Rounds | scripts/Concurrent_circles/venn_plot.py:148-181 | after at least one round every label is within the bounds |
| Relaxation.AvoidOverlap | scripts/Concurrent_circles/venn_plot.py:122-183 | texts and order are kept; no rounds returns the labels unchanged; after a round every label is within the bounds; the call fails exactly on an index error, given a faithful square root |
| Relaxation.JoinSplit | scripts/Concurrent_circles/venn_plot.py:141-143 | splitting labels into coordinate lists and joining them back gives the labels unchanged |
| Brier.ScenarioTable | scripts/perplexity/brier_score.py:11-16 | the four scenario rows score 1, 1, 0 and -1 |
| Brier.DrawScoreCases | scripts/perplexity/brier_score.py:11-16 | a draw scores in [-1, 1]; it scores 1 exactly when some draw is correct, and -1 exactly when both draws are the same wrong token |
| Brier.FormulasAreExpectations | scripts/perplexity/brier_score.py:27-31 | `2p - p^2` is the expected score when the wrong draws differ; `2p - (p^2 + (1-p)^2)` when they coincide |
| Brier.DiverseRange | scripts/perplexity/brier_score.py:27-28 | the diverse score lies in [0, 1] for `p` in [0, 1] |
| Brier.DiverseMonotone | scripts/perplexity/brier_score.py:27-28 | the diverse score never decreases on [0, 1] |
| Brier.ConcentratedRange | scripts/perplexity/brier_score.py:30-31 | the concentrated score lies in [-1, 1], with -1 at `p = 0` and 1 at `p = 1` |
| Brier.PenaltyIsSquare | scripts/perplexity/brier_score.py:33-45 | the overconfidence penalty (diverse minus concentrated) is `(1-p)^2`: never negative, and zero exactly at `p = 1` |
| Brier.BrierLM | scripts/perplexity/brierlm_score.py:11-16 | a score of -1, 0 or 1 rescales to 0, 50 or 100 |
| Brier.BrierLMRoundTrip | scripts/perplexity/brierlm_score.py:35-38 | the rescaling `(B + 1) * 50` and its inverse undo each other |
| Brier.BrierLMOrder | scripts/perplexity/brierlm_score.py:35-38 | the rescaling is strictly increasing and maps [-1, 1] exactly onto [0, 100] |
| Brier.DiverseBrierLMRange | scripts/perplexity/brierlm_score.py:26-37 | the diverse BrierLM lies in [50, 100] |
| Brier.ConcentratedBrierLMRange | scripts/perplexity/brierlm_score.py:29-38 | the concentrated BrierLM lies in [0, 100], with 0 at `p = 0` |
| Brier.BrierLMGap | scripts/perplexity/brierlm_score.py:26-38 | the BrierLM gap between the curves is `50 (1-p)^2`, so the diverse curve is never below the concentrated one |
| Quantize.Min | scripts/quantisation/precision_difference.py:11 | `arr.min()` is at most every element and is one of them |
| Quantize.Max | scripts/quantisation/precision_difference.py:11 | `arr.max()` is at least every element and is one of them |
| Quantize.Linspace | scripts/quantisation/precision_difference.py:12 | `np.linspace(min, max, levels)` returns `levels` bins |
| Quantize.LinspaceIsEvenlySpaced | scripts/quantisation/precision_difference.py:12 | every bin lies on the evenly spaced grid, with the first bin `min` and the last `max` |
| Quantize.LinspaceOrdered | scripts/quantisation/precision_difference.py:12 | the bins are non-decreasing within [min, max]; for a non-constant array all but the last are below `max` |
| Quantize.Digitize | scripts/quantisation/precision_difference.py:13 | the bin index is at most the number of bins |
| Quantize.DigitizeSplits | scripts/quantisation/precision_difference.py:13 | `digitize(right=True)` counts the bins strictly below the value: those come first, the rest are at least the value |
| Quantize.Clip | scripts/quantisation/precision_difference.py:14 | the clipped index lies in `[0, levels - 1]` and is unchanged when already inside |
| Quantize.Quantize | scripts/quantisation/precision_difference.py:10-15 | quantising fails exactly for an empty array or fewer than one level, and otherwise keeps the array's length |
| Quantize.SnapFacts | scripts/quantisation/precision_difference.py:13-14 | a value snaps to a bin between `min` and itself: `min` maps to itself, any other value to the largest bin strictly below it, and `max` is never picked when `min < max` |
| Quantize.QuantizeFacts | scripts/quantisation/precision_difference.py:10-15 | every output is a bin, between the minimum and its input; the minimum is fixed; every other input maps to the largest bin below it; no output reaches the maximum of a non-constant array |
| Quantize.QuantizeKeepsMinimum | scripts/quantisation/precision_difference.py:10-15 | the minimum is always an output, and the maximum of a non-constant array never is |

## Left out

- **Drawing.** Figure drawing, annotation styling, the legend, HTML/PNG export
  and the command-line entry point (`__main__.py`) are output side effects and
  are not modelled.
- **Unused parameters.** Width, height, dpi, colours and opacities are not
  modelled; the placement result does not depend on them.
- **Fixed tables.** The centre and label tables are inputs: `Circles` and the
  label list.
- **Region checks.** The tables are not checked against their comments. For
  example, "Unique Count" is commented Sequence ∩ Categorical but is listed
  with {Numeric, Sequence}.
- **Floating point.** Reals are exact. Rounding, NaN and infinities are not
  modelled, except the +inf that `min_dist` starts at, which `Placement.Score`
  models.
- Geometry.IsSqrt: the square root is a parameter, not `** 0.5`. Facts that
  need a faithful root assume `IsSqrt`, and the model says nothing about a
  rounded one.
- Candidates.LastIndex: `int(10.0 / step)` is the exact floor of the real
  quotient. The rounding of a float division is not modelled.
- **Plotly grid.** The Plotly copy builds its grid over `x_range` and
  `y_range` (venn_plot.py:335-336). `Candidates` builds only the matplotlib
  grid over the fixed `[0, 10]` canvas. Both placement loops take their
  region table as a parameter, so they are compared on the same table.
- **Relaxation not wired in.** `_avoid_label_overlap` is defined in
  venn_plot.py and modelled on its own. Neither placement copy calls it, so
  the model does not chain it after placement.
- **Other scripts.** `loss_likelihood.py`, the PCA projection and random data
  of `precision_difference.py`, and the other plotting scripts produce
  figures only and are not modelled.
- Colors.ParseHexSlice: Python's `int(s, 16)` also accepts Unicode digits and
  non-ASCII Unicode whitespace such as `\x85` and `\xa0`. The model accepts
  only ASCII hex digits, a sign, and the ASCII whitespace `int` skips (space
  and `\t` to `\r`); it reports the other spellings as failures.
- Colors.Blend: `int(rs / n)` goes through a float division. The model
  truncates the exact quotient; rounding of the float quotient is not
  modelled.
- Colors.Darken: `int(r * factor)` truncates the exact product. Float
  rounding of the product is not modelled.
- **matplotlib colours.** The matplotlib figure's use of `to_rgb` is not
  modelled; it belongs to the drawing library.
- Quantize.Quantize: the array is flattened to one sequence, since numpy works
  element-wise on any shape. NaN inputs are not modelled.
- Quantize.Digitize: counts the bins below the value rather than binary
  searching. The two agree on non-decreasing bins, which `linspace` gives.
- Relaxation.AvoidOverlap: the iteration count is an `int`. A float
  `iterations` would make `range` raise, which is not modelled.

## Findings

| source | as written | input that shows it | evidently intended | confidence | as-written member | corrected member |
|---|---|---|---|---|---|---|
| scripts/Concurrent_circles/venn_plot.py:402 | a label of a region with no grid point is appended to `placed` as `(ax, ay, label_radius(text))` without its key, but line 430 unpacks every entry of `placed` into four names | a four-way label whose region has no grid point, followed by a label of a region that has a candidate: scanning that candidate reaches the 3-tuple and raises `ValueError` | append `(ax, ay, label_radius(text), key)` as the matplotlib copy does (venn_plot_mpl.py:152), so every label is placed | not executed | PlotlyPlacement.ShortEntryRaises | Placement.EveryLabelPlaced |
