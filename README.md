# A verified model of an ARC grid-transformation solver

The solver takes a task of the Abstraction and Reasoning Corpus: a few training
pairs of small integer grids (input, output) and some test inputs. For each
test input it predicts an output grid. The pipeline works as follows:

- It infers the target shape (H, W) by a vote over the training outputs' heights and widths.
- It applies a fixed catalog of 16 grid operators (`BASIC_OPS`) to the input. With compositions enabled, it also applies every ordered pair `f` after `g`. It keeps each result of shape (H, W), labelled `op:<f>` or `op2:<f>+<g>`. Then it removes duplicate grids, keeping the first label that produced each.
- On the training pairs, it searches within a time budget for the labels that reproduce every training output exactly (the *survivors*). When no label survives, it takes the three labels of least total Hamming distance.
- It ranks each test input's candidates by a score that favours survivors, short labels and sparse grids. Past the task's time limit, or when nothing is left, it falls back to the input padded to (H, W).

The model has one Dafny module per part of the source:

- `Grids`, `Components` and `Counting` cover `src/utils.py` and the Python and numpy counting idioms it relies on.
- `ColourMaps` and `Ops` cover `src/ops.py`.
- `Candidates` covers `src/candidate_gen.py`.
- `Ranker` covers `src/ranker.py`.
- `Solver` covers `src/solver.py`.
- `Wrappers` holds `Option`.

How the model represents the source:

- A grid is a rectangular `seq<seq<int>>`.
- `None` stands for an exception (a numpy shape or broadcast error) or a missing value.
- The wall clock is a parameter `now: nat -> real`: `now(n)` is the n-th reading of `time.time()`.
- Scores and times are exact reals.

Each pure function of the source is a Dafny function with its properties proved as lemmas. Each loop that updates state is a method proved equal to its specification function: `connected_components`, `pad_to`, `smallest_tile`, `learn_color_map`, `apply_color_map`, the operators that write into `out`, the generation and deduplication loops, the survivor search, the ranker and the solver's test loop. The module flags of `solve_task` are the fields of the class `Solver.Runtime`.

## Model

| member | source | states |
|---|---|---|
| Counting.Distinct | src/ops.py:10-11 | the keys of a `Counter`: every element once, nothing else |
| Counting.DistinctInFirstSeenOrder | src/ops.py:10-11 | the keys come in the order of their first occurrence |
| Counting.SortBy | src/candidate_gen.py:78 | `sorted`: a permutation, ascending by key, keeping distinctness |
| Counting.SortByStable | src/candidate_gen.py:78 | the sort is stable: the elements sharing a key keep their relative order |
| Counting.MostCommon | src/ops.py:16-17 | `most_common()`: each distinct value once, counts non-increasing, the stable sort of the first-seen keys by count |
| Counting.MostCommonTiesInFirstSeenOrder | src/ops.py:16-17 | equally frequent values stay in first-seen order |
| Counting.FirstLargest | src/ops.py:65 | `max(..., key=...)`: an index of a largest value, and no earlier value is as large |
| Counting.ModeFirst | src/ops.py:14-15 | `max(cin, key=cin.get)` returns an element of the sequence |
| Counting.ModeFirstIsFirstMostFrequent | src/candidate_gen.py:36-37 | no value is more frequent than the mode, and no equally frequent value is seen before it |
| Counting.SmallestMode | src/utils.py:10-12 | `np.unique` then `argmax`: a most frequent value, the smallest among equally frequent ones, 0 for no values |
| Grids.BgColor | src/utils.py:10-12 | the background is a most frequent cell value, the smallest on ties, 0 for an empty grid |
| Grids.MajorityColor | src/utils.py:81-83 | `majority_color` returns the background colour of `bg_color` on every grid |
| Grids.Hamming | src/utils.py:14-17 | 10**9 for different shapes, otherwise at most the cell count; 0 exactly for equal grids |
| Grids.HammingSymmetric | src/utils.py:14-17 | the distance is symmetric |
| Grids.Rot90 | src/utils.py:19-20 | a counter-clockwise quarter turn: shape swapped and `out[i][j] = g[j][W-1-i]` |
| Grids.RotateSwapsShape | src/utils.py:19-20 | `rotate(g, 1)` swaps height and width |
| Grids.RotateHalfTurn | src/utils.py:19-20 | two quarter turns are both mirrors |
| Grids.RotateFourTimes | src/utils.py:19-20 | four quarter turns give the grid back |
| Grids.MirrorH | src/utils.py:22-23 | the columns reversed, shape kept |
| Grids.MirrorHInvolution | src/utils.py:22-23 | `mirror_h` is an involution |
| Grids.MirrorV | src/utils.py:25-26 | the rows reversed, shape kept |
| Grids.MirrorVInvolution | src/utils.py:25-26 | `mirror_v` is an involution |
| Grids.Transpose | src/utils.py:28-29 | `out[i][j] = g[j][i]` with the shape swapped |
| Grids.TransposeInvolution | src/utils.py:28-29 | `transpose` is an involution on grids with non-empty rows |
| Grids.FgCells | src/utils.py:33 | `np.where(arr != bg)` lists only non-`bg` cells of the grid |
| Grids.FgCellsComplete | src/utils.py:33 | every non-`bg` cell is listed |
| Grids.BboxOfPixels | src/utils.py:40-42 | the least box holding every pixel: each bound is attained by some pixel |
| Grids.CropToBbox | src/utils.py:31-38 | a grid with no non-`bg` cell is returned whole; otherwise the result is no larger than the input |
| Grids.CropToBboxWindow | src/utils.py:31-38 | with a non-`bg` cell, the bounding box of the non-`bg` cells lies in the grid and encloses them all, and the crop is exactly the cells of `g` inside that box, row by row |
| Grids.CropToBboxTight | src/utils.py:31-38 | the crop window lies in the grid, holds every non-`bg` cell, and each of its four edges passes through one |
| Grids.PadSpec | src/utils.py:44-55 | `pad_to` gives an H x W grid; top-left mode never fails, centre mode fails exactly when an axis does not fit |
| Grids.PadTo | src/utils.py:44-55 | the fill-then-slice-assign method computes `PadSpec` |
| Grids.PadToOwnShape | src/utils.py:44-55 | padding to the grid's own shape returns the grid in either mode |
| Grids.PadPlacesInput | src/utils.py:47-54 | when the grid fits, it sits at offset ((H-h)//2, (W-w)//2) (or (0, 0)) and every other cell is `bg` |
| Grids.PadTopLeftTruncates | src/utils.py:50-54 | top-left mode keeps the top-left H x W block of a larger grid |
| Grids.PadCentreFailsOnLarger | src/utils.py:48-54 | centre mode fails when a non-empty target axis is shorter than the grid's |
| Grids.RoundHalfEvenNearest | src/utils.py:90-91 | `round(a / b)` is within half of `a / b` and even on a tie |
| Grids.RoundExactMultiple | src/utils.py:90-91 | `round(k*b / b) == k` |
| Grids.RepeatCell | src/utils.py:92 | cell (i, j) of the replication is cell (i // sy, j // sx) of the object |
| Grids.ResizeIntegerScale | src/utils.py:85-99 | an empty object gives an all-`bg` target; any result has the target shape |
| Grids.ResizeCropsReplication | src/utils.py:94-96 | when the replication covers the target, the result has the target shape and each cell `(i, j)` is `obj[(y0 + i) / sy][(x0 + j) / sx]`, with `sy, sx` the scale factors and `y0 = (H * sy - th) // 2`, `x0 = (W * sx - tw) // 2` the centring offsets |
| Grids.ResizeExactMultiple | src/utils.py:85-99 | a target that is a multiple of the object is the plain replication |
| Grids.TileSearch | src/utils.py:103-112 | the first fitting top-left block in (height, width) order, and none earlier fits |
| Grids.SmallestTileExists | src/utils.py:101-113 | a non-empty grid always has a tile |
| Grids.SmallestTile | src/utils.py:101-113 | the nested divisor loops return the specified tile |
| Components.Component | src/utils.py:67-77 | a component holds its cell, lies in the grid and is closed under same-colour 4-neighbour steps |
| Components.ComponentLeast | src/utils.py:67-77 | it is the least such set: the maximal 4-connected same-colour region |
| Components.ComponentColour | src/utils.py:66-77 | every pixel of a component has its colour |
| Components.ComponentSymmetric | src/utils.py:67-77 | two cells in the same component have the same component |
| Components.Starts | src/utils.py:62-65 | the first cells of the components, in row-major order |
| Components.OneStartPerCell | src/utils.py:62-78 | every non-`bg` cell is in the component of exactly one start |
| Components.PushNeighbours | src/utils.py:73-77 | pushes exactly the unseen same-colour neighbours, each once, and marks them |
| Components.Drain | src/utils.py:70-77 | the stack loop ends with the visited pixels forming the component and all of it marked |
| Components.Explore | src/utils.py:66-77 | one search lists the start's component, start first, each pixel once |
| Components.ScanRow | src/utils.py:63-78 | the inner scan loop keeps the scan invariant across a row |
| Components.ConnectedComponents | src/utils.py:57-79 | one report per component, in row-major order of first cells, with its colour and its pixels listed once |
| ColourMaps.RankedColours | src/ops.py:16-17 | the non-background colours of a grid, each once |
| ColourMaps.RankedByCount | src/ops.py:16-17 | the ranked colours are in decreasing order of their count in the grid, so the `i`-th is the `i`-th most frequent |
| ColourMaps.RankedTiesInFirstSeenOrder | src/ops.py:16-17 | colours with equal counts keep the order in which they first appear in the grid (row-major), as `most_common` gives |
| ColourMaps.WithoutKeepsOrder | src/ops.py:16-17 | dropping the background colour (`if c != bg`) keeps a count-ordered sequence ordered |
| ColourMaps.KeyFilterWithout | src/ops.py:16-17 | dropping the background colour does not reorder the colours of any one count |
| ColourMaps.ZipIntoPairs | src/ops.py:18-20 | with distinct colours, the k-th input colour maps to the k-th output colour |
| ColourMaps.LearnStepWrites | src/ops.py:9-21 | one pair maps its input background to its output background and each ranked colour to the output colour of the same rank; all else is kept |
| ColourMaps.LaterPairsOverride | src/ops.py:9-21 | a colour written by a later pair gets that pair's entry, whatever came before |
| ColourMaps.LearnColorMap | src/ops.py:7-22 | the dictionary-filling loop computes the learned map |
| ColourMaps.LearnPair | src/ops.py:10-21 | one iteration: pairs with an empty grid are skipped |
| ColourMaps.PairColours | src/ops.py:18-21 | the rank loop, then the background entry |
| ColourMaps.Recolor | src/ops.py:24-28 | recolouring keeps the shape |
| ColourMaps.RecolorKeepsOthers | src/ops.py:24-28 | a cell whose colour is not a key keeps its colour |
| ColourMaps.ApplyColorMap | src/ops.py:24-28 | the item-by-item writes into a copy, each reading the original, give the simultaneous substitution |
| ColourMaps.RecolorKey | src/ops.py:27 | one item rewrites exactly the cells whose original colour is its key |
| Ops.Position | src/ops.py:147-160 | each operator has a position in `BASIC_OPS` |
| Ops.CatalogComplete | src/ops.py:147-160 | every operator is listed once, at its position |
| Ops.NameRoundTrip | src/ops.py:147-160 | the operator is recovered from its name, so the names are distinct |
| Ops.OpSpec | src/ops.py:31-145 | every operator's result has the requested shape (H, W) |
| Ops.IdentityOnOwnShape | src/ops.py:31-32 | the identity for the grid's own shape returns the grid |
| Ops.QuarterTurnOnSwappedShape | src/ops.py:34-35 | `op_rotate90` for the swapped shape is a plain quarter turn |
| Ops.ApplyOp | src/ops.py:31-145 | every operator, as the source runs it, computes `OpSpec` |
| Ops.RecolorLearnedOp | src/ops.py:56-59 | learn, recolour, then centre-pad with the recoloured grid's background |
| Ops.LargestStartIsFirstLargest | src/ops.py:65 | the chosen component is a largest one, and no earlier one is as large |
| Ops.LargestBox | src/ops.py:65-67 | the window of the largest component lies in the grid and holds all its pixels |
| Ops.LargestWindow | src/ops.py:65-66 | the first longest reported pixel list has the largest component's box |
| Ops.LargestPixels | src/ops.py:62-66 | a component exists exactly when one is found, and its box is the largest component's |
| Ops.LargestCcCenterOp | src/ops.py:61-68 | `op_largest_cc_center` as run computes its specification |
| Ops.MajorityFillIsIdentity | src/ops.py:74-79 | `op_majority_fill` always equals `op_identity` |
| Ops.MajorityFillOp | src/ops.py:74-79 | the in-place fill computes its specification |
| Ops.Paste | src/ops.py:89 | the block overwrites exactly its window of a copy |
| Ops.ReflectionCompletes | src/ops.py:81-102 | at most one half is rewritten, as the mirror of the other, making the grid symmetric; the rest is untouched |
| Ops.ReflectInPlace | src/ops.py:84-102 | the copy-and-slice-assign computes `Reflection` |
| Ops.Columns | src/ops.py:107 | the columns of the padded grid |
| Ops.ProjectionRepeatsMostCommon | src/ops.py:104-120 | a most common row (at least H//2 times) repeated, else a most common column repeated, else the padded grid |
| Ops.ProjectionKeepsUniformRows | src/ops.py:104-115 | a grid of equal rows is a fixed point |
| Ops.CeilDiv | src/ops.py:128 | `math.ceil(n / d)`: the least q with q*d >= n |
| Ops.TileToCells | src/ops.py:126-129 | `out[i][j] = tile[i mod th][j mod tw]` |
| Ops.TileSpec | src/ops.py:122-129 | with a tile the result has shape (H, W) |
| Ops.TileReproduces | src/ops.py:122-129 | for the grid's own shape the tiling returns the grid |
| Ops.Outline | src/ops.py:131-145 | each output cell is `bg` or the padded cell's value, shape kept |
| Ops.OutlineIdempotent | src/ops.py:131-145 | outlining an outline changes nothing |
| Ops.OutlineAt | src/ops.py:138-144 | one cell keeps its value exactly when non-`bg` with an open side |
| Ops.OutlineInPlace | src/ops.py:131-145 | the nested loops compute the outline |
| Candidates.LabelTextInjective | src/candidate_gen.py:12-23 | different labels have different texts |
| Candidates.LabelKindAt2 | src/candidate_gen.py:12-23 | the third character tells single from composed |
| Candidates.Singles | src/candidate_gen.py:8-14 | at most one single candidate per operator, labelled with it |
| Candidates.Composeds | src/candidate_gen.py:15-25 | composed candidates, `f` in the outer loop, labels distinct |
| Candidates.Dedup | src/candidate_gen.py:26-31 | no two kept grids are equal, and every generated grid is kept |
| Candidates.DedupGrids | src/candidate_gen.py:26-31 | the kept grids are the distinct grids in order of first occurrence |
| Candidates.DedupKeepsFirst | src/candidate_gen.py:26-31 | each kept grid carries the label of its first occurrence |
| Candidates.CandidatesAreLabelled | src/candidate_gen.py:6-31 | every candidate has shape (H, W) and is its operator's result (`f` after `g` for `op2:f+g`) |
| Candidates.CandidatesDistinct | src/candidate_gen.py:6-31 | no two candidates share a grid or a label |
| Candidates.WithoutCompositions | src/candidate_gen.py:8-15 | without compositions: at most 16 candidates, all `op:` |
| Candidates.GenerateCandidates | src/candidate_gen.py:6-31 | the loops compute the candidate specification |
| Candidates.CollectSingles | src/candidate_gen.py:8-14 | the first loop |
| Candidates.CollectComposed | src/candidate_gen.py:16-25 | the `itertools.product` loop |
| Candidates.ComposeOne | src/candidate_gen.py:18-23 | `g` first, then `f`, kept when both are (H, W) |
| Candidates.Deduplicate | src/candidate_gen.py:26-31 | the `uniq` dictionary loop computes `Dedup` |
| Candidates.InferTargetShape | src/candidate_gen.py:33-38 | `None` (an `IndexError`) exactly without pairs |
| Candidates.InferTargetShapeVotes | src/candidate_gen.py:33-38 | height and width are independently the most frequent, first seen on ties |
| Candidates.BuildChecks | src/candidate_gen.py:48-52 | each pair's pool is generated without compositions |
| Candidates.BestDistance | src/candidate_gen.py:51-57 | the least distance over entries with the label, 10**9 when there is none |
| Candidates.ZeroIsFinal | src/candidate_gen.py:56-57 | breaking at 0 does not change the result |
| Candidates.BestDistanceOf | src/candidate_gen.py:51-57 | the loop, with or without the break, computes the best distance |
| Candidates.CheckPair | src/candidate_gen.py:48-60 | one pair: clock check, then the exact check |
| Candidates.CheckLabel | src/candidate_gen.py:47-60 | the pair loop for one label |
| Candidates.Scan | src/candidate_gen.py:46-64 | the kept labels are a subsequence of the labels from `i` on (same order), and the poll counter never goes back |
| Candidates.ScanKeepsFromLabels | src/candidate_gen.py:46-64 | no more labels are kept than scanned, each comes from the first pool, and distinct pool labels give distinct kept labels |
| Candidates.ScanLabels | src/candidate_gen.py:46-64 | the label loop with its two deadline checks |
| Candidates.ExactLabelsAre | src/candidate_gen.py:46-62 | the reference keeps exactly the labels exact on every pair |
| Candidates.PairsCheckInTime | src/candidate_gen.py:48-60 | without a deadline a label passes exactly when it is exact on the remaining pairs |
| Candidates.ScanInTime | src/candidate_gen.py:46-64 | without a deadline the label loop keeps exactly the exact labels, in order |
| Candidates.DeadlineKeepsUnchecked | src/candidate_gen.py:48-50 | past the limit, the label being checked is kept unchecked and the search stops |
| Candidates.ExactMeansReproduces | src/candidate_gen.py:46-62 | an exact label is a single operator that maps each training input to its output |
| Candidates.TotalZero | src/candidate_gen.py:68-76 | the total is 0 exactly when the label is exact |
| Candidates.TotalOf | src/candidate_gen.py:68-75 | the `tot` loop computes the total |
| Candidates.Scored | src/candidate_gen.py:66-76 | each label with its own total, in label order |
| Candidates.ScoreLabels | src/candidate_gen.py:67-76 | the loop fills the scores |
| Candidates.Fallback | src/candidate_gen.py:77-78 | `min(3, n)` labels, all from the pool |
| Candidates.FallbackLabels | src/candidate_gen.py:65-78 | the fallback pass computes `Fallback` |
| Candidates.FallbackKeepsLowest | src/candidate_gen.py:78 | no dropped label has a lower total than a kept one |
| Candidates.FallbackAscending | src/candidate_gen.py:78 | the fallback lists labels by ascending total |
| Candidates.FallbackTiesInLabelOrder | src/candidate_gen.py:78 | labels with equal totals stay in pool order |
| Candidates.SurvivorSpec | src/candidate_gen.py:40-79 | survivors are labels of the first pool, and the clock is read at least once |
| Candidates.SelectSurvivorLabels | src/candidate_gen.py:40-79 | the search as run computes `SurvivorSpec` |
| Candidates.SurvivorsInTime | src/candidate_gen.py:40-79 | without a deadline: the exact labels, or the fallback when none is exact |
| Candidates.SurvivorsNonEmpty | src/candidate_gen.py:65-78 | there are survivors exactly when the first input has candidates |
| Ranker.LabelLenIsLength | src/ranker.py:10 | the length used in the score is the label text's length |
| Ranker.BestIndexIsFirstLeast | src/ranker.py:5-13 | the first least score below 1e18, and nothing when no score is below it |
| Ranker.RankCandidatesForTest | src/ranker.py:4-13 | the loop computes `Rank` |
| Ranker.ScoreOf | src/ranker.py:7-11 | the score of one candidate |
| Ranker.LabelLength | src/ranker.py:10 | labels are 14 to 55 characters long |
| Ranker.ScoreBounds | src/ranker.py:7-11 | each score lies between 0.14 and 100.55 plus the foreground term |
| Ranker.SurvivorPreferred | src/ranker.py:8-11 | a survivor beats a non-survivor when its foreground is below 990000 cells |
| Ranker.ShorterLabelPreferred | src/ranker.py:10 | otherwise equal, the shorter label wins |
| Ranker.RankFindsOne | src/ranker.py:5-13 | a non-empty pool yields a grid |
| Ranker.RankFromPool | src/ranker.py:12-13 | the chosen grid is a candidate's |
| Ranker.RankPrefersSurvivors | src/ranker.py:6-13 | with a survivor candidate that has fewer than 990000 non-`bg` cells, the chosen one is a survivor |
| Solver.SurvivorBudget | src/solver.py:24 | `max(0.5, time_limit*0.5)` |
| Solver.Pools | src/solver.py:31 | each test input's pool is its candidate set |
| Solver.BuildPools | src/solver.py:31 | the pools built in order |
| Solver.Outcomes | src/solver.py:26-36 | input k sees clock reading `poll + k` |
| Solver.Collect | src/solver.py:26-37 | one prediction per input, in order, or `None` if one fails |
| Solver.SolveSpec | src/solver.py:16-37 | `None` without training pairs; otherwise one prediction per test input |
| Solver.Runtime.constructor | src/solver.py:6-7 | the flags start at 2.0 and `True` |
| Solver.Runtime.SetRuntimeFlags | src/solver.py:9-14 | only flags given as non-`None` change |
| Solver.Runtime.SolveTask | src/solver.py:16-37 | `solve_task` with `None` as limit meaning `MAX_TIME_PER_TASK` |
| Solver.PredictOne | src/solver.py:27-36 | one test input: late, empty pool or no rank gives the pad |
| Solver.PredictAll | src/solver.py:26-37 | the test loop computes the collected outcomes |
| Solver.PredictShape | src/solver.py:31-36 | a prediction from (H, W) candidates has shape (H, W) |
| Solver.PredictIsPadOrCandidate | src/solver.py:27-36 | a prediction is the centre pad or a candidate, a candidate when in time and ranked |
| Solver.PredictUsesSurvivor | src/solver.py:35-36 | in time, a survivor candidate with fewer than 990000 non-`bg` cells makes the prediction a survivor's grid |
| Solver.OutcomesShape | src/solver.py:26-37 | every collected prediction has the target shape |
| Solver.SolveShapes | src/solver.py:16-37 | a result has one (H, W) prediction per test input |
| Solver.PadAll | src/solver.py:28-30 | all inputs padded, `None` exactly when a pad fails |
| Solver.LateOutcomesPad | src/solver.py:28-30 | once every reading is late, every input is padded |
| Solver.SolveLatePadsAll | src/solver.py:16-37 | past the limit right after `t0`, the result is the padded test inputs |

## Left out

- `load_json`, `to_np`, `to_list` and `solve_many` read files, convert JSON and print progress. Grids are sequences from the start.
- `src/evaluate.py` is not part of this model.
- `time.time()` is a parameter `now`: the model fixes which reading each check uses, but not the time that generation takes.
- Floating-point rounding is not modelled. Scores, limits and clock readings are exact reals, so ties between nearly equal float scores may break differently.
- The pools are generated once, before the loops that use them. The source regenerates the first pair's pool and each pair's pool per label and per fallback label. Generation is a function of its inputs, so the results are the same.
- numpy details (views, dtypes, `tobytes` keys) are left out. Dedup compares grids for equality; every candidate has shape (H, W), so equal bytes means equal grids.
- A grid is a sequence of rows, so a 0 x W array (W > 0) has no representation: a grid with no rows has width 0. `Rot90` and `Transpose` of an H x 0 grid therefore give `[]` where numpy gives a 0 x H array, and a quarter turn or transpose of such a grid loses its height.
- Grids.TransposeInvolution: proved only for grids with non-empty rows (`Proper`), because of the 0 x W case above.
- Grids.RotateHalfTurn: proved only for grids with non-empty rows (`Proper`); on an H x 0 grid the intermediate quarter turn is `[]`.
- Grids.RotateFourTimes: proved only for grids with non-empty rows (`Proper`); on an H x 0 grid the first quarter turn is `[]` and the height is lost.
- Colours are unbounded integers; numpy's int64 overflow is not modelled.
- `set_runtime_flags`: the `float()` and `bool()` conversions are not modelled, because the arguments are already a real and a boolean.
- `solve_task`: the fallback pad uses `pad_to`'s default centre alignment and can raise, as the code does. The result is an `Option`. It is not a top-left pad that never fails.
- Ranker.RankFindsOne: it assumes fewer than 10**12 non-background cells per grid. This is a sufficient bound, not the threshold. A score is at most 100.55 + 0.0001 * F for F non-background cells, so it reaches the 1e18 sentinel only when F is about 10**22. Only then is no grid returned.
- Ranker.SurvivorPreferred: it assumes fewer than 990000 non-background cells, below which the 100-point penalty dominates.
