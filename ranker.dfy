/**
 * `rank_candidates_for_test`: each candidate of a test input gets a score
 * (lower is better) that penalises labels outside the survivors, long labels
 * and grids with many non-background cells; the first candidate of least
 * score wins. Scores are exact reals here (the source uses floats).
 */
module Ranker {
  import opened Wrappers
  import opened Counting
  import opened Grids
  import opened Ops
  import opened Candidates

  /** The initial `best_score`, 1e18. */
  const Sentinel: real := 1000000000000000000.0

  /** The number of entries of `row` from position `j` on that differ from `v`. */
  function RowOther(row: seq<int>, v: int, j: nat): nat
    requires j <= |row|
    decreases |row| - j
  {
    if j == |row| then 0 else (if row[j] != v then 1 else 0) + RowOther(row, v, j + 1)
  }

  /** The number of cells of rows `i..` of `g` that differ from `v`. */
  function GridOther(g: Grid, v: int, i: nat): nat
    requires i <= |g|
    decreases |g| - i
  {
    if i == |g| then 0 else RowOther(g[i], v, 0) + GridOther(g, v, i + 1)
  }

  /** `np.count_nonzero(y != bg_color(y))`. */
  function Foreground(y: Grid): nat {
    GridOther(y, BgColor(y), 0)
  }

  /** The length of each operator's name. */
  function NameLen(op: Op): nat {
    match op
    case Identity => 11
    case Rotate90 => 11
    case Rotate180 => 12
    case Rotate270 => 12
    case MirrorHOp => 11
    case MirrorVOp => 11
    case TransposeOp => 12
    case CropCenterPad => 18
    case RecolorLearned => 18
    case LargestCcCenter => 20
    case IntegerResizeFg => 20
    case MajorityFill => 16
    case CompleteByReflection => 25
    case ProjectRowsOrCols => 23
    case TileSmallestPatch => 22
    case OutlineCc => 13
  }

  /** `len(lbl)`, from the lengths of the names (see `LabelLenIsLength`). */
  function LabelLen(l: Label): nat {
    match l
    case Single(f) => 3 + NameLen(f)
    case Composed(f, g) => 5 + NameLen(f) + NameLen(g)
  }

  /** `NameLen` is the length of the name. */
  lemma NameLenIsLength(op: Op)
    ensures NameLen(op) == |Name(op)|
  {
  }

  /** `LabelLen` is the length of the label's text. */
  lemma LabelLenIsLength(l: Label)
    ensures LabelLen(l) == |LabelText(l)|
  {
    match l
    case Single(f) => NameLenIsLength(f);
    case Composed(f, g) => NameLenIsLength(f); NameLenIsLength(g);
  }

  /** The score of one candidate. */
  function Score(e: Entry, survivors: seq<Label>): real {
    (if |survivors| > 0 && e.0 !in survivors then 100.0 else 0.0)
    + LabelLen(e.0) as real * 0.01
    + Foreground(e.1) as real * 0.0001
  }

  /** The score of each candidate, in pool order. */
  function Scores(pool: seq<Entry>, survivors: seq<Label>): (s: seq<real>)
    ensures |s| == |pool|
  {
    seq(|pool|, k requires 0 <= k < |pool| => Score(pool[k], survivors))
  }

  /**
   * The position the loop holds after the first `n` scores: the first of
   * least score among those below the sentinel (`<` keeps the earlier one).
   */
  function BestIndex(s: seq<real>, n: nat): (r: Option<nat>)
    requires n <= |s|
    ensures r.Some? ==> r.value < n
  {
    if n == 0 then None
    else
      var prev := BestIndex(s, n - 1);
      var bestScore := if prev.None? then Sentinel else s[prev.value];
      if s[n - 1] < bestScore then Some(n - 1) else prev
  }

  /**
   * `BestIndex` finds the first least score below the sentinel, and nothing
   * when every score is at least the sentinel.
   */
  lemma {:induction false} BestIndexIsFirstLeast(s: seq<real>, n: nat)
    requires n <= |s|
    ensures var r := BestIndex(s, n);
      && (r.None? <==> forall j :: 0 <= j < n ==> s[j] >= Sentinel)
      && (r.Some? ==> s[r.value] < Sentinel)
      && (r.Some? ==> forall j :: 0 <= j < n ==> s[r.value] <= s[j])
      && (r.Some? ==> forall j :: 0 <= j < r.value ==> s[r.value] < s[j])
  {
    if n > 0 {
      BestIndexIsFirstLeast(s, n - 1);
    }
  }

  /** The position of the candidate `rank_candidates_for_test` picks. */
  function RankIndex(pool: seq<Entry>, survivors: seq<Label>): (r: Option<nat>)
    ensures r.Some? ==> r.value < |pool|
  {
    BestIndex(Scores(pool, survivors), |pool|)
  }

  /** The grid `rank_candidates_for_test` returns, `None` when no score is below 1e18. */
  function Rank(pool: seq<Entry>, survivors: seq<Label>): Option<Grid> {
    match RankIndex(pool, survivors)
    case None => None
    case Some(k) => Some(pool[k].1)
  }

  /** `rank_candidates_for_test`, as the source runs it. */
  method RankCandidatesForTest(pool: seq<Entry>, survivors: seq<Label>) returns (bestY: Option<Grid>)
    ensures bestY == Rank(pool, survivors)
  {
    ghost var scores := Scores(pool, survivors);
    bestY := None;
    var bestScore := Sentinel;
    for n := 0 to |pool|
      invariant bestY == (match BestIndex(scores, n) case None => None case Some(k) => Some(pool[k].1))
      invariant bestScore == (match BestIndex(scores, n) case None => Sentinel case Some(k) => scores[k])
    {
      var (lbl, y) := pool[n];
      var score := ScoreOf(lbl, y, survivors);
      if score < bestScore {
        bestScore := score;
        bestY := Some(y);
      }
    }
  }

  /** The body of the loop that adds up one candidate's score. */
  method ScoreOf(lbl: Label, y: Grid, survivors: seq<Label>) returns (score: real)
    ensures score == Score((lbl, y), survivors)
  {
    score := 0.0;
    if |survivors| > 0 && lbl !in survivors {
      score := score + 100.0;
    }
    score := score + LabelLen(lbl) as real * 0.01;
    score := score + Foreground(y) as real * 0.0001;
  }

  /** Labels are between 14 and 55 characters long. */
  lemma LabelLength(l: Label)
    ensures 14 <= |LabelText(l)| <= 55
  {
    LabelLenIsLength(l);
  }

  /** Every score lies between 0.14 and 100.55 plus the foreground term. */
  lemma ScoreBounds(e: Entry, survivors: seq<Label>)
    ensures 0.14 <= Score(e, survivors) <= 100.55 + Foreground(e.1) as real * 0.0001
  {
    LabelLength(e.0);
    LabelLenIsLength(e.0);
  }

  /**
   * A survivor outscores every label outside the survivors as long as its
   * grid has fewer than 990000 non-background cells.
   */
  lemma SurvivorPreferred(s: Entry, o: Entry, survivors: seq<Label>)
    requires s.0 in survivors && o.0 !in survivors
    requires Foreground(s.1) < 990000
    ensures Score(s, survivors) < Score(o, survivors)
  {
    ScoreBounds(s, survivors);
    ScoreBounds(o, survivors);
  }

  /** Among equally placed labels, the shorter label wins when the grids have the same foreground. */
  lemma ShorterLabelPreferred(a: Entry, b: Entry, survivors: seq<Label>)
    requires (a.0 in survivors) == (b.0 in survivors) && Foreground(a.1) == Foreground(b.1)
    requires |LabelText(a.0)| < |LabelText(b.0)|
    ensures Score(a, survivors) < Score(b, survivors)
  {
    LabelLenIsLength(a.0);
    LabelLenIsLength(b.0);
  }

  /** With grids of realistic size, a non-empty pool always yields a grid. */
  lemma RankFindsOne(pool: seq<Entry>, survivors: seq<Label>)
    requires |pool| > 0
    requires forall k :: 0 <= k < |pool| ==> Foreground(pool[k].1) < 1000000000000
    ensures Rank(pool, survivors).Some?
  {
    ScoreBounds(pool[0], survivors);
    assert Scores(pool, survivors)[0] < Sentinel;
    BestIndexIsFirstLeast(Scores(pool, survivors), |pool|);
  }

  /** The chosen grid is that of a candidate in the pool. */
  lemma RankFromPool(pool: seq<Entry>, survivors: seq<Label>)
    ensures Rank(pool, survivors).Some? ==> Rank(pool, survivors).value in GridsOf(pool)
  {
    if Rank(pool, survivors).Some? {
      var k := RankIndex(pool, survivors).value;
      assert pool[k].1 == GridsOf(pool)[k];
    }
  }

  /**
   * When some candidate carries a survivor label and a grid of fewer than
   * 990000 non-background cells, the chosen candidate carries a survivor label.
   */
  lemma RankPrefersSurvivors(pool: seq<Entry>, survivors: seq<Label>, k: nat)
    requires k < |pool| && pool[k].0 in survivors && Foreground(pool[k].1) < 990000
    ensures RankIndex(pool, survivors).Some? && pool[RankIndex(pool, survivors).value].0 in survivors
  {
    var s := Scores(pool, survivors);
    ScoreBounds(pool[k], survivors);
    assert s[k] < Sentinel;
    BestIndexIsFirstLeast(s, |pool|);
    var b := RankIndex(pool, survivors).value;
    assert s[b] <= s[k];
    if pool[b].0 !in survivors {
      SurvivorPreferred(pool[k], pool[b], survivors);
    }
  }
}
