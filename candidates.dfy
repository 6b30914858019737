/**
 * Candidate generation (`generate_candidates`), the target-shape vote
 * (`infer_target_shape`) and the survivor search (`select_survivor_labels`).
 *
 * A label is kept as a datatype; its text (`op:<f>` or `op2:<f>+<g>`) is
 * `LabelText`, which is injective, so comparing labels is comparing texts.
 */
module Candidates {
  import opened Wrappers
  import opened Counting
  import opened Grids
  import opened ColourMaps
  import opened Ops

  // ------------------------------------------------------------------ labels

  /** `op:<f>` for one operator, `op2:<f>+<g>` for `f` applied to the output of `g`. */
  datatype Label = Single(f: Op) | Composed(outer: Op, inner: Op)

  function LabelText(l: Label): string {
    match l
    case Single(f) => "op:" + Name(f)
    case Composed(f, g) => "op2:" + Name(f) + "+" + Name(g)
  }

  /** No operator name contains `+`. */
  lemma NamePlusFree(op: Op)
    ensures '+' !in Name(op)
  {
    if op.Identity? || op.Rotate90? || op.Rotate180? || op.Rotate270? {
      TurnNamesPlusFree(op);
    } else if op.MirrorHOp? || op.MirrorVOp? || op.TransposeOp? || op.CropCenterPad? {
      FlipNamesPlusFree(op);
    } else if op.RecolorLearned? || op.LargestCcCenter? || op.IntegerResizeFg? || op.MajorityFill? {
      ColourNamesPlusFree(op);
    } else {
      ShapeNamesPlusFree(op);
    }
  }

  lemma TurnNamesPlusFree(op: Op)
    requires op.Identity? || op.Rotate90? || op.Rotate180? || op.Rotate270?
    ensures '+' !in Name(op)
  {
    match op
    case Identity =>
    case Rotate90 =>
    case Rotate180 =>
    case Rotate270 =>
  }

  lemma FlipNamesPlusFree(op: Op)
    requires op.MirrorHOp? || op.MirrorVOp? || op.TransposeOp? || op.CropCenterPad?
    ensures '+' !in Name(op)
  {
    match op
    case MirrorHOp =>
    case MirrorVOp =>
    case TransposeOp =>
    case CropCenterPad =>
  }

  lemma ColourNamesPlusFree(op: Op)
    requires op.RecolorLearned? || op.LargestCcCenter? || op.IntegerResizeFg? || op.MajorityFill?
    ensures '+' !in Name(op)
  {
    match op
    case RecolorLearned =>
    case LargestCcCenter =>
    case IntegerResizeFg =>
    case MajorityFill =>
  }

  lemma ShapeNamesPlusFree(op: Op)
    requires op.CompleteByReflection? || op.ProjectRowsOrCols? || op.TileSmallestPatch? || op.OutlineCc?
    ensures '+' !in Name(op)
  {
    match op
    case CompleteByReflection =>
    case ProjectRowsOrCols =>
    case TileSmallestPatch =>
    case OutlineCc =>
  }

  /** Two labels with the same text are the same label. */
  lemma LabelTextInjective(a: Label, b: Label)
    ensures LabelText(a) == LabelText(b) ==> a == b
  {
    LabelKindAt2(a);
    LabelKindAt2(b);
    if LabelText(a) == LabelText(b) {
      var s := LabelText(a);
      if a.Single? && b.Single? {
        assert Name(a.f) == s[3..] == Name(b.f);
        NameRoundTrip(a.f);
        NameRoundTrip(b.f);
      } else if a.Composed? && b.Composed? {
        NamePlusFree(a.outer);
        NamePlusFree(b.outer);
        PlusSplits("op2:", Name(a.outer), Name(a.inner), Name(b.outer), Name(b.inner));
        NameRoundTrip(a.outer);
        NameRoundTrip(b.outer);
        NameRoundTrip(a.inner);
        NameRoundTrip(b.inner);
      }
    }
  }

  /** The third character of a label's text tells its kind. */
  lemma LabelKindAt2(l: Label)
    ensures |LabelText(l)| > 2 && LabelText(l)[2] == if l.Single? then ':' else '2'
  {
  }

  /** After a common prefix, a text with one `+` before any other splits there in only one way. */
  lemma PlusSplits(p: string, a1: string, b1: string, a2: string, b2: string)
    requires '+' !in a1 && '+' !in a2 && p + a1 + "+" + b1 == p + a2 + "+" + b2
    ensures a1 == a2 && b1 == b2
  {
    var t := a1 + "+" + b1;
    assert p + a1 + "+" + b1 == p + t;
    assert p + a2 + "+" + b2 == p + (a2 + "+" + b2);
    assert t == (p + t)[|p|..] == a2 + "+" + b2;
    PlusAfter(a1, b1);
    PlusAfter(a2, b2);
    assert |a1| == |a2|;
    assert a1 == t[..|a1|] == a2;
    assert b1 == t[|a1| + 1..] == b2;
  }

  /** In `a + "+" + b` with no `+` in `a`, the first `+` is at `|a|`. */
  lemma PlusAfter(a: string, b: string)
    requires '+' !in a
    ensures (a + "+" + b)[|a|] == '+'
    ensures forall i :: 0 <= i < |a| ==> (a + "+" + b)[i] != '+'
  {
    assert forall i :: 0 <= i < |a| ==> (a + "+" + b)[i] == a[i];
  }

  // ----------------------------------------------------------- candidates

  /** A candidate: its label and its grid. */
  type Entry = (Label, Grid)

  function Firsts<A, B>(s: seq<(A, B)>): (r: seq<A>)
    ensures |r| == |s| && forall k :: 0 <= k < |s| ==> r[k] == s[k].0
  {
    seq(|s|, k requires 0 <= k < |s| => s[k].0)
  }

  function GridsOf(es: seq<Entry>): (r: seq<Grid>)
    ensures |r| == |es| && forall k :: 0 <= k < |es| ==> r[k] == es[k].1
  {
    seq(|es|, k requires 0 <= k < |es| => es[k].1)
  }

  /** `BASIC_OPS` has no repetition. */
  lemma CatalogDistinct()
    ensures NoDups(BasicOps)
  {
    forall i, j | 0 <= i < j < |BasicOps| ensures BasicOps[i] != BasicOps[j] {
      CatalogComplete(BasicOps[i]);
    }
  }

  /** What a candidate's label promises: shape (H, W), and the grid is what the label's operators compute. */
  ghost predicate Faithful(e: Entry, x: Grid, H: nat, W: nat, pairs: seq<Pair>) {
    HasShape(e.1, H, W) &&
    match e.0
    case Single(f) => OpSpec(f, x, H, W, pairs) == Some(e.1)
    case Composed(f, g) => ComposedOutput(f, g, x, H, W, pairs, e.1)
  }

  /** Whether `r` is `f` applied to the output of `g` on `x`. */
  ghost predicate ComposedOutput(f: Op, g: Op, x: Grid, H: nat, W: nat, pairs: seq<Pair>, r: Grid) {
    var y1 := OpSpec(g, x, H, W, pairs);
    y1.Some? && OpSpec(f, y1.value, H, W, pairs) == Some(r)
  }

  /** Appending entries whose labels differ from all earlier ones keeps the labels distinct. */
  lemma LabelsAppend(s: seq<Entry>, t: seq<Entry>)
    requires NoDups(Firsts(s)) && NoDups(Firsts(t))
    requires forall a, b :: 0 <= a < |s| && 0 <= b < |t| ==> s[a].0 != t[b].0
    ensures NoDups(Firsts(s + t))
  {
    assert forall k :: 0 <= k < |s| ==> (s + t)[k] == s[k];
    assert forall k :: 0 <= k < |t| ==> (s + t)[|s| + k] == t[k];
  }

  /** The single candidate of `f`: kept when `f` returns a grid of shape (H, W). */
  ghost function SingleEntry(f: Op, x: Grid, H: nat, W: nat, pairs: seq<Pair>): (r: seq<Entry>)
    ensures |r| <= 1 && forall k :: 0 <= k < |r| ==> r[k].0 == Single(f)
  {
    var y := OpSpec(f, x, H, W, pairs);
    if y.Some? && HasShape(y.value, H, W) then [(Single(f), y.value)] else []
  }

  /** The single candidates of the operators `fs`, in order. */
  ghost function Singles(fs: seq<Op>, x: Grid, H: nat, W: nat, pairs: seq<Pair>): (r: seq<Entry>)
    ensures |r| <= |fs|
    ensures forall k :: 0 <= k < |r| ==> r[k].0.Single? && r[k].0.f in fs
    ensures NoDups(fs) ==> NoDups(Firsts(r))
  {
    if |fs| == 0 then []
    else
      var init := fs[..|fs| - 1];
      var rest := Singles(init, x, H, W, pairs);
      var one := SingleEntry(fs[|fs| - 1], x, H, W, pairs);
      assert forall k :: 0 <= k < |rest| ==> rest[k].0.f in init;
      if NoDups(fs) then
        assert fs[|fs| - 1] !in init;
        LabelsAppend(rest, one);
        rest + one
      else
        rest + one
  }

  /** The composed candidate of `f` after `g`: kept when both return a grid of shape (H, W). */
  ghost function ComposedEntry(f: Op, g: Op, x: Grid, H: nat, W: nat, pairs: seq<Pair>): (r: seq<Entry>)
    ensures |r| <= 1 && forall k :: 0 <= k < |r| ==> r[k].0 == Composed(f, g)
  {
    var y1 := OpSpec(g, x, H, W, pairs);
    if y1.None? || !HasShape(y1.value, H, W) then []
    else
      var y2 := OpSpec(f, y1.value, H, W, pairs);
      if y2.Some? && HasShape(y2.value, H, W) then [(Composed(f, g), y2.value)] else []
  }

  /** The composed candidates of `f` after each of `gs`, in order. */
  ghost function ComposedRow(f: Op, gs: seq<Op>, x: Grid, H: nat, W: nat, pairs: seq<Pair>): (r: seq<Entry>)
    ensures |r| <= |gs|
    ensures forall k :: 0 <= k < |r| ==>
      r[k].0.Composed? && r[k].0.outer == f && r[k].0.inner in gs
    ensures NoDups(gs) ==> NoDups(Firsts(r))
  {
    if |gs| == 0 then []
    else
      var init := gs[..|gs| - 1];
      var rest := ComposedRow(f, init, x, H, W, pairs);
      var one := ComposedEntry(f, gs[|gs| - 1], x, H, W, pairs);
      assert forall k :: 0 <= k < |rest| ==> rest[k].0.inner in init;
      if NoDups(gs) then
        assert gs[|gs| - 1] !in init;
        LabelsAppend(rest, one);
        rest + one
      else
        rest + one
  }

  /** The composed candidates, `f` in the outer loop over `fs` and `g` in the inner loop over `BASIC_OPS`. */
  ghost function Composeds(fs: seq<Op>, x: Grid, H: nat, W: nat, pairs: seq<Pair>): (r: seq<Entry>)
    ensures |r| <= 16 * |fs|
    ensures forall k :: 0 <= k < |r| ==> r[k].0.Composed? && r[k].0.outer in fs
    ensures NoDups(fs) ==> NoDups(Firsts(r))
  {
    if |fs| == 0 then []
    else
      var init := fs[..|fs| - 1];
      var rest := Composeds(init, x, H, W, pairs);
      var row := ComposedRow(fs[|fs| - 1], BasicOps, x, H, W, pairs);
      assert |rest + row| <= 16 * |init| + 16 == 16 * |fs|;
      assert forall k :: 0 <= k < |rest| ==> rest[k].0.outer in init;
      if NoDups(fs) then
        CatalogDistinct();
        assert fs[|fs| - 1] !in init;
        LabelsAppend(rest, row);
        rest + row
      else
        rest + row
  }

  /** The list `cands` before deduplication. */
  ghost function Raw(x: Grid, H: nat, W: nat, pairs: seq<Pair>, useCompositions: bool): (r: seq<Entry>)
    ensures forall k :: 0 <= k < |r| ==> r[k].0.Composed? ==> useCompositions
    ensures NoDups(Firsts(r))
  {
    CatalogDistinct();
    var s := Singles(BasicOps, x, H, W, pairs);
    var c := if useCompositions then Composeds(BasicOps, x, H, W, pairs) else [];
    LabelsAppend(s, c);
    s + c
  }

  lemma {:induction false} SinglesFaithful(fs: seq<Op>, x: Grid, H: nat, W: nat, pairs: seq<Pair>)
    ensures forall k :: 0 <= k < |Singles(fs, x, H, W, pairs)| ==> Faithful(Singles(fs, x, H, W, pairs)[k], x, H, W, pairs)
  {
    if |fs| > 0 {
      SinglesFaithful(fs[..|fs| - 1], x, H, W, pairs);
    }
  }

  lemma {:induction false} ComposedRowFaithful(f: Op, gs: seq<Op>, x: Grid, H: nat, W: nat, pairs: seq<Pair>)
    ensures forall k :: 0 <= k < |ComposedRow(f, gs, x, H, W, pairs)| ==> Faithful(ComposedRow(f, gs, x, H, W, pairs)[k], x, H, W, pairs)
  {
    if |gs| > 0 {
      ComposedRowFaithful(f, gs[..|gs| - 1], x, H, W, pairs);
    }
  }

  lemma {:induction false} ComposedsFaithful(fs: seq<Op>, x: Grid, H: nat, W: nat, pairs: seq<Pair>)
    ensures forall k :: 0 <= k < |Composeds(fs, x, H, W, pairs)| ==> Faithful(Composeds(fs, x, H, W, pairs)[k], x, H, W, pairs)
  {
    if |fs| > 0 {
      ComposedsFaithful(fs[..|fs| - 1], x, H, W, pairs);
      ComposedRowFaithful(fs[|fs| - 1], BasicOps, x, H, W, pairs);
    }
  }

  /** `uniq`: the first entry for each grid, in the order of first occurrence. */
  function Dedup(es: seq<Entry>): (d: seq<Entry>)
    ensures |d| <= |es|
    ensures forall e :: e in d ==> e in es
    ensures forall k :: 0 <= k < |d| ==> d[k].1 in GridsOf(es)
    ensures forall k :: 0 <= k < |es| ==> es[k].1 in GridsOf(d)
    ensures NoDups(GridsOf(d))
  {
    if |es| == 0 then []
    else
      var init := es[..|es| - 1];
      var d := Dedup(init);
      var e := es[|es| - 1];
      assert forall k :: 0 <= k < |es| - 1 ==> es[k] == init[k];
      if e.1 in GridsOf(d) then d
      else
        assert GridsOf(d + [e]) == GridsOf(d) + [e.1];
        d + [e]
  }

  /** The kept grids are the distinct grids, in the order of their first occurrence. */
  lemma {:induction false} DedupGrids(es: seq<Entry>)
    ensures GridsOf(Dedup(es)) == Distinct(GridsOf(es))
  {
    if |es| > 0 {
      var init := es[..|es| - 1];
      var e := es[|es| - 1];
      var d := Dedup(init);
      DedupGrids(init);
      assert GridsOf(init) == GridsOf(es)[..|es| - 1];
      assert GridsOf(es)[|es| - 1] == e.1;
      if e.1 in GridsOf(d) {
        assert Dedup(es) == d;
      } else {
        assert Dedup(es) == d + [e];
        assert GridsOf(d + [e]) == GridsOf(d) + [e.1];
      }
    }
  }

  /** Each kept grid carries the label of the first entry that produced it. */
  lemma {:induction false} DedupKeepsFirst(es: seq<Entry>)
    ensures forall k :: 0 <= k < |Dedup(es)| ==> Dedup(es)[k] == es[FirstIndex(GridsOf(es), Dedup(es)[k].1)]
  {
    if |es| > 0 {
      var init := es[..|es| - 1];
      var e := es[|es| - 1];
      var gs := GridsOf(es);
      DedupKeepsFirst(init);
      assert gs == GridsOf(init) + [e.1];
      var d := Dedup(init);
      forall k | 0 <= k < |d| ensures d[k] == es[FirstIndex(gs, d[k].1)] {
        FirstIndexAppend(GridsOf(init), [e.1], d[k].1);
      }
      if e.1 !in GridsOf(d) {
        assert e.1 !in GridsOf(init);
        assert FirstIndex(gs, e.1) == |es| - 1 by {
          assert gs[..|es| - 1] == GridsOf(init);
        }
        assert Dedup(es) == d + [e];
      }
    }
  }

  /** Deduplication keeps labels distinct when they were distinct. */
  lemma DedupLabels(es: seq<Entry>)
    requires NoDups(Firsts(es))
    ensures NoDups(Firsts(Dedup(es)))
  {
    var d := Dedup(es);
    forall a, b | 0 <= a < b < |d| ensures d[a].0 != d[b].0 {
      assert d[a] in es && d[b] in es;
      var i :| 0 <= i < |es| && es[i] == d[a];
      var j :| 0 <= j < |es| && es[j] == d[b];
      assert GridsOf(d)[a] != GridsOf(d)[b];
      assert i != j;
      assert Firsts(es)[i] != Firsts(es)[j];
    }
  }

  /** `generate_candidates(x, H, W, train_pairs, use_compositions)`. */
  ghost function CandidatesSpec(x: Grid, H: nat, W: nat, pairs: seq<Pair>, useCompositions: bool): seq<Entry> {
    Dedup(Raw(x, H, W, pairs, useCompositions))
  }

  /**
   * Every candidate has shape (H, W) and is what its label says: the
   * operator's result, or for `op2:f+g` the result of `f` on the result of
   * `g`; a composed label appears only when compositions are enabled.
   */
  lemma CandidatesAreLabelled(x: Grid, H: nat, W: nat, pairs: seq<Pair>, useCompositions: bool, k: nat)
    requires k < |CandidatesSpec(x, H, W, pairs, useCompositions)|
    ensures var e := CandidatesSpec(x, H, W, pairs, useCompositions)[k];
      && HasShape(e.1, H, W)
      && (e.0.Single? ==> OpSpec(e.0.f, x, H, W, pairs) == Some(e.1))
      && (e.0.Composed? ==> useCompositions && ComposedOutput(e.0.outer, e.0.inner, x, H, W, pairs, e.1))
  {
    var raw := Raw(x, H, W, pairs, useCompositions);
    var i := DedupFrom(raw, k);
    RawFaithful(x, H, W, pairs, useCompositions, i);
  }

  /** A kept entry is one of the entries deduplicated. */
  lemma DedupFrom(es: seq<Entry>, k: nat) returns (i: nat)
    requires k < |Dedup(es)|
    ensures i < |es| && es[i] == Dedup(es)[k]
  {
    assert Dedup(es)[k] in es;
    i :| 0 <= i < |es| && es[i] == Dedup(es)[k];
  }

  /** Every entry before deduplication is what its label says. */
  lemma RawFaithful(x: Grid, H: nat, W: nat, pairs: seq<Pair>, useCompositions: bool, i: nat)
    requires i < |Raw(x, H, W, pairs, useCompositions)|
    ensures Faithful(Raw(x, H, W, pairs, useCompositions)[i], x, H, W, pairs)
    ensures Raw(x, H, W, pairs, useCompositions)[i].0.Composed? ==> useCompositions
  {
    var singles := Singles(BasicOps, x, H, W, pairs);
    var comps := if useCompositions then Composeds(BasicOps, x, H, W, pairs) else [];
    SinglesFaithful(BasicOps, x, H, W, pairs);
    if useCompositions {
      ComposedsFaithful(BasicOps, x, H, W, pairs);
    }
    AppendFaithful(singles, comps, x, H, W, pairs, i);
  }

  lemma AppendFaithful(s: seq<Entry>, t: seq<Entry>, x: Grid, H: nat, W: nat, pairs: seq<Pair>, i: nat)
    requires i < |s + t|
    requires forall k :: 0 <= k < |s| ==> Faithful(s[k], x, H, W, pairs)
    requires forall k :: 0 <= k < |t| ==> Faithful(t[k], x, H, W, pairs)
    ensures Faithful((s + t)[i], x, H, W, pairs)
  {
    if i < |s| {
      assert (s + t)[i] == s[i];
    } else {
      assert (s + t)[i] == t[i - |s|];
    }
  }

  /** No two candidates have the same grid, and no two the same label. */
  lemma CandidatesDistinct(x: Grid, H: nat, W: nat, pairs: seq<Pair>, useCompositions: bool)
    ensures NoDups(GridsOf(CandidatesSpec(x, H, W, pairs, useCompositions)))
    ensures NoDups(Firsts(CandidatesSpec(x, H, W, pairs, useCompositions)))
  {
    DedupLabels(Raw(x, H, W, pairs, useCompositions));
  }

  /** Without compositions there are at most 16 candidates, all labelled `op:<f>`. */
  lemma WithoutCompositions(x: Grid, H: nat, W: nat, pairs: seq<Pair>)
    ensures |CandidatesSpec(x, H, W, pairs, false)| <= 16
    ensures forall e :: e in CandidatesSpec(x, H, W, pairs, false) ==> e.0.Single?
  {
    var raw := Raw(x, H, W, pairs, false);
    assert raw == Singles(BasicOps, x, H, W, pairs) + [];
    forall e | e in CandidatesSpec(x, H, W, pairs, false) ensures e.0.Single? {
      assert e in raw;
    }
  }

  /** `generate_candidates` as the source runs it. */
  method GenerateCandidates(x: Grid, H: nat, W: nat, pairs: seq<Pair>, useCompositions: bool) returns (pool: seq<Entry>)
    ensures pool == CandidatesSpec(x, H, W, pairs, useCompositions)
  {
    var cands := CollectSingles(BasicOps, x, H, W, pairs);
    if useCompositions {
      var composed := CollectComposed(BasicOps, x, H, W, pairs);
      cands := cands + composed;
    } else {
      assert cands == cands + [];
    }
    assert cands == Raw(x, H, W, pairs, useCompositions);
    pool := Deduplicate(cands);
  }

  lemma SinglesStep(fs: seq<Op>, i: nat, x: Grid, H: nat, W: nat, pairs: seq<Pair>)
    requires i < |fs|
    ensures Singles(fs[..i + 1], x, H, W, pairs) == Singles(fs[..i], x, H, W, pairs) + SingleEntry(fs[i], x, H, W, pairs)
  {
    assert fs[..i + 1][..i] == fs[..i];
  }

  lemma ComposedRowStep(f: Op, gs: seq<Op>, j: nat, x: Grid, H: nat, W: nat, pairs: seq<Pair>)
    requires j < |gs|
    ensures ComposedRow(f, gs[..j + 1], x, H, W, pairs) == ComposedRow(f, gs[..j], x, H, W, pairs) + ComposedEntry(f, gs[j], x, H, W, pairs)
  {
    assert gs[..j + 1][..j] == gs[..j];
  }

  lemma ComposedsStep(fs: seq<Op>, i: nat, x: Grid, H: nat, W: nat, pairs: seq<Pair>)
    requires i < |fs|
    ensures Composeds(fs[..i + 1], x, H, W, pairs) == Composeds(fs[..i], x, H, W, pairs) + ComposedRow(fs[i], BasicOps, x, H, W, pairs)
  {
    assert fs[..i + 1][..i] == fs[..i];
  }

  /** The first loop of `generate_candidates`, over the operators `fs`. */
  method CollectSingles(fs: seq<Op>, x: Grid, H: nat, W: nat, pairs: seq<Pair>) returns (cands: seq<Entry>)
    ensures cands == Singles(fs, x, H, W, pairs)
  {
    cands := [];
    for i := 0 to |fs|
      invariant cands == Singles(fs[..i], x, H, W, pairs)
    {
      var one := SingleOne(fs[i], x, H, W, pairs);
      SinglesStep(fs, i, x, H, W, pairs);
      cands := cands + one;
    }
    assert fs[..|fs|] == fs;
  }

  /** One step of the first loop: `f` applied to the input. */
  method SingleOne(f: Op, x: Grid, H: nat, W: nat, pairs: seq<Pair>) returns (e: seq<Entry>)
    ensures e == SingleEntry(f, x, H, W, pairs)
  {
    var y := ApplyOp(f, x, H, W, pairs);
    e := if y.Some? && HasShape(y.value, H, W) then [(Single(f), y.value)] else [];
  }

  /** The second loop of `generate_candidates`, over `itertools.product(fs, BASIC_OPS)`. */
  method CollectComposed(fs: seq<Op>, x: Grid, H: nat, W: nat, pairs: seq<Pair>) returns (cands: seq<Entry>)
    ensures cands == Composeds(fs, x, H, W, pairs)
  {
    cands := [];
    for i := 0 to |fs|
      invariant cands == Composeds(fs[..i], x, H, W, pairs)
    {
      var row := ComposeRow(fs[i], BasicOps, x, H, W, pairs);
      ComposedsStep(fs, i, x, H, W, pairs);
      cands := cands + row;
    }
    assert fs[..|fs|] == fs;
  }

  /** The inner loop for one outer operator `f`, over the inner operators `gs`. */
  method ComposeRow(f: Op, gs: seq<Op>, x: Grid, H: nat, W: nat, pairs: seq<Pair>) returns (row: seq<Entry>)
    ensures row == ComposedRow(f, gs, x, H, W, pairs)
  {
    row := [];
    for j := 0 to |gs|
      invariant row == ComposedRow(f, gs[..j], x, H, W, pairs)
    {
      var e := ComposeOne(f, gs[j], x, H, W, pairs);
      ComposedRowStep(f, gs, j, x, H, W, pairs);
      row := row + e;
    }
    assert gs[..|gs|] == gs;
  }

  /** One step of the inner loop: `g` first, then `f` on its result. */
  method ComposeOne(f: Op, g: Op, x: Grid, H: nat, W: nat, pairs: seq<Pair>) returns (e: seq<Entry>)
    ensures e == ComposedEntry(f, g, x, H, W, pairs)
  {
    var y1 := ApplyOp(g, x, H, W, pairs);
    if y1.None? || !HasShape(y1.value, H, W) {
      return [];
    }
    e := ComposeOuter(f, g, y1.value, H, W, pairs);
  }

  /** The second half of a composition step: `f` on the inner result `y1`. */
  method ComposeOuter(f: Op, g: Op, y1: Grid, H: nat, W: nat, pairs: seq<Pair>) returns (e: seq<Entry>)
    ensures var y2 := OpSpec(f, y1, H, W, pairs);
      e == if y2.Some? && HasShape(y2.value, H, W) then [(Composed(f, g), y2.value)] else []
  {
    var y2 := ApplyOp(f, y1, H, W, pairs);
    e := if y2.Some? && HasShape(y2.value, H, W) then [(Composed(f, g), y2.value)] else [];
  }

  /** The `uniq` loop: an insertion-ordered dictionary keyed by the grid. */
  method Deduplicate(cands: seq<Entry>) returns (kept: seq<Entry>)
    ensures kept == Dedup(cands)
  {
    kept := [];
    var seen: set<Grid> := {};
    for i := 0 to |cands|
      invariant kept == Dedup(cands[..i])
      invariant forall y :: y in seen <==> y in GridsOf(kept)
    {
      var e := cands[i];
      assert cands[..i + 1][..i] == cands[..i];
      if e.1 !in seen {
        assert GridsOf(kept + [e]) == GridsOf(kept) + [e.1];
        kept := kept + [e];
        seen := seen + {e.1};
      }
    }
    assert cands[..|cands|] == cands;
  }

  // ---------------------------------------------------------- target shape

  function Heights(pairs: seq<Pair>): (hs: seq<int>)
    ensures |hs| == |pairs| && forall k :: 0 <= k < |pairs| ==> hs[k] == |pairs[k].1|
  {
    seq(|pairs|, k requires 0 <= k < |pairs| => |pairs[k].1|)
  }

  function Widths(pairs: seq<Pair>): (ws: seq<int>)
    ensures |ws| == |pairs| && forall k :: 0 <= k < |pairs| ==> ws[k] == Width(pairs[k].1)
  {
    seq(|pairs|, k requires 0 <= k < |pairs| => Width(pairs[k].1))
  }

  /** `infer_target_shape`: the most common output height and width; `None` (an `IndexError`) without pairs. */
  function InferTargetShape(pairs: seq<Pair>): (r: Option<(nat, nat)>)
    ensures r.None? <==> |pairs| == 0
  {
    if |pairs| == 0 then None
    else
      var h, w := ModeFirst(Heights(pairs)), ModeFirst(Widths(pairs));
      assert h in Heights(pairs) && w in Widths(pairs);
      Some((h, w))
  }

  /**
   * The height is an output height, no output height is more frequent, and
   * none as frequent is seen earlier; the same for the width, independently.
   */
  lemma InferTargetShapeVotes(pairs: seq<Pair>, h: int, w: int)
    requires |pairs| > 0
    ensures var (H, W) := InferTargetShape(pairs).value;
      && H in Heights(pairs) && W in Widths(pairs)
      && Count(Heights(pairs), h) <= Count(Heights(pairs), H)
      && Count(Widths(pairs), w) <= Count(Widths(pairs), W)
      && (h in Heights(pairs) && Count(Heights(pairs), h) == Count(Heights(pairs), H) ==>
            FirstIndex(Heights(pairs), H) <= FirstIndex(Heights(pairs), h))
      && (w in Widths(pairs) && Count(Widths(pairs), w) == Count(Widths(pairs), W) ==>
            FirstIndex(Widths(pairs), W) <= FirstIndex(Widths(pairs), w))
  {
    ModeFirstIsFirstMostFrequent(Heights(pairs), h);
    ModeFirstIsFirstMostFrequent(Widths(pairs), w);
  }

  // ------------------------------------------------------------- survivors

  /** What a label is checked against on one pair: the pool of the pair's input (without compositions) and its output. */
  type Check = (seq<Entry>, Grid)

  /** The check of every pair, in order. */
  ghost function Checks(pairs: seq<Pair>, H: nat, W: nat): (c: seq<Check>)
    ensures |c| == |pairs|
  {
    seq(|pairs|, j requires 0 <= j < |pairs| => (CandidatesSpec(pairs[j].0, H, W, pairs, false), pairs[j].1))
  }

  /**
   * The pool of every pair's input without compositions. The source builds
   * these again for every label it checks and for every label it scores;
   * generation is a function of its inputs, so the model builds them once.
   */
  method BuildChecks(pairs: seq<Pair>, H: nat, W: nat) returns (checks: seq<Check>)
    ensures checks == Checks(pairs, H, W)
  {
    ghost var whole := Checks(pairs, H, W);
    checks := [];
    for k := 0 to |pairs|
      invariant checks == whole[..k]
    {
      var pool := GenerateCandidates(pairs[k].0, H, W, pairs, false);
      PrefixStep(whole, k);
      checks := checks + [(pool, pairs[k].1)];
    }
    assert whole[..|pairs|] == whole;
  }

  /**
   * `best` for one label on one pair: the least Hamming distance to `y` among
   * the entries labelled `lbl`, starting from 10**9, so 10**9 when no entry
   * carries the label.
   */
  function BestDistance(pool: seq<Entry>, lbl: Label, y: Grid): (b: int)
    ensures 0 <= b <= Mismatch
    ensures forall k :: 0 <= k < |pool| && pool[k].0 == lbl ==> b <= Hamming(pool[k].1, y)
    ensures b == Mismatch || exists k :: 0 <= k < |pool| && pool[k].0 == lbl && b == Hamming(pool[k].1, y)
  {
    if |pool| == 0 then Mismatch
    else
      var init := pool[..|pool| - 1];
      var e := pool[|pool| - 1];
      var b := BestDistance(init, lbl, y);
      assert forall k :: 0 <= k < |init| ==> init[k] == pool[k];
      if e.0 == lbl && Hamming(e.1, y) < b then Hamming(e.1, y) else b
  }

  /** Once a prefix of the pool reaches distance 0, the whole pool has distance 0. */
  lemma ZeroIsFinal(pool: seq<Entry>, n: nat, lbl: Label, y: Grid)
    requires n <= |pool| && BestDistance(pool[..n], lbl, y) == 0
    ensures BestDistance(pool, lbl, y) == 0
  {
    var k :| 0 <= k < n && pool[..n][k].0 == lbl && 0 == Hamming(pool[..n][k].1, y);
    assert pool[k] == pool[..n][k];
  }

  /**
   * The loop over the candidates of one pair. The survivor check stops at the
   * first exact match (`stopAtZero`); the fallback scoring does not.
   */
  method BestDistanceOf(pool: seq<Entry>, lbl: Label, y: Grid, stopAtZero: bool) returns (best: int)
    ensures best == BestDistance(pool, lbl, y)
  {
    best := Mismatch;
    for i := 0 to |pool|
      invariant best == BestDistance(pool[..i], lbl, y)
    {
      var e := pool[i];
      assert pool[..i + 1][..i] == pool[..i];
      if e.0 != lbl {
        continue;
      }
      var d := Hamming(e.1, y);
      best := if d < best then d else best;
      if stopAtZero && best == 0 {
        ZeroIsFinal(pool, i + 1, lbl, y);
        return;
      }
    }
    assert pool[..|pool|] == pool;
  }

  /**
   * The loop over the pairs for one label, from pair `k`: before each pair the
   * clock is read (reading number `poll`, see `SurvivorSpec`); past the limit
   * the loop ends with `ok` still true. The result is `ok` and the number of
   * the next reading.
   */
  function PairsCheck(lbl: Label, checks: seq<Check>, k: nat,
                      now: nat -> real, t0: real, limit: real, poll: nat): (r: (bool, nat))
    requires k <= |checks|
    ensures poll <= r.1 <= poll + |checks| - k
    decreases |checks| - k
  {
    if k == |checks| then (true, poll)
    else if now(poll) - t0 > limit then (true, poll + 1)
    else if BestDistance(checks[k].0, lbl, checks[k].1) != 0 then (false, poll + 1)
    else PairsCheck(lbl, checks, k + 1, now, t0, limit, poll + 1)
  }

  /** One pass of the pair loop: read the clock, then check pair `k`; `done` when the loop ends here. */
  method CheckPair(lbl: Label, checks: seq<Check>, k: nat,
                   now: nat -> real, t0: real, limit: real, poll: nat) returns (done: bool, ok: bool, next: nat)
    requires k < |checks|
    ensures done ==> PairsCheck(lbl, checks, k, now, t0, limit, poll) == (ok, next)
    ensures !done ==> PairsCheck(lbl, checks, k, now, t0, limit, poll) == PairsCheck(lbl, checks, k + 1, now, t0, limit, next)
  {
    var reading := now(poll);
    next := poll + 1;
    if reading - t0 > limit {
      return true, true, next;
    }
    var (pool, yTrue) := checks[k];
    var best := BestDistanceOf(pool, lbl, yTrue, true);
    if best != 0 {
      return true, false, next;
    }
    return false, true, next;
  }

  /** The check of one label, as the source runs it. */
  method CheckLabel(lbl: Label, checks: seq<Check>,
                    now: nat -> real, t0: real, limit: real, poll: nat) returns (ok: bool, next: nat)
    ensures (ok, next) == PairsCheck(lbl, checks, 0, now, t0, limit, poll)
  {
    next := poll;
    var k := 0;
    while k < |checks|
      invariant k <= |checks|
      invariant PairsCheck(lbl, checks, 0, now, t0, limit, poll) == PairsCheck(lbl, checks, k, now, t0, limit, next)
    {
      var done;
      done, ok, next := CheckPair(lbl, checks, k, now, t0, limit, next);
      if done {
        return;
      }
      k := k + 1;
    }
    ok := true;
  }

  /**
   * The loop over the labels from label `i`: after each label the clock is
   * read again and the loop ends past the limit. The result is the labels
   * kept and the number of the next reading.
   */
  function Scan(labels: seq<Label>, i: nat, checks: seq<Check>,
                now: nat -> real, t0: real, limit: real, poll: nat): (r: (seq<Label>, nat))
    requires i <= |labels|
    ensures poll <= r.1
    ensures Subsequence(r.0, labels[i..])
    decreases |labels| - i
  {
    if i == |labels| then EmptySubsequence(labels[i..]); ([], poll)
    else
      var c := PairsCheck(labels[i], checks, 0, now, t0, limit, poll);
      var here := if c.0 then [labels[i]] else [];
      if now(c.1) - t0 > limit then
        EmptySubsequence(labels[i + 1..]);
        SubsequenceBack(labels, i, c.0, [], here);
        (here, c.1 + 1)
      else
        var rest := Scan(labels, i + 1, checks, now, t0, limit, c.1 + 1);
        SubsequenceBack(labels, i, c.0, rest.0, here + rest.0);
        (here + rest.0, rest.1)
  }

  /**
   * The labels kept are a subsequence of `labels[i..]`: labels from it, in
   * its order, and (as the labels of a pool are distinct) each at most once.
   */
  lemma ScanKeepsFromLabels(labels: seq<Label>, i: nat, checks: seq<Check>,
                            now: nat -> real, t0: real, limit: real, poll: nat)
    requires i <= |labels|
    ensures var r := Scan(labels, i, checks, now, t0, limit, poll);
      && |r.0| <= |labels| - i && (forall l :: l in r.0 ==> l in labels[i..])
      && (NoDups(labels[i..]) ==> NoDups(r.0))
  {
    SubsequenceKeeps(Scan(labels, i, checks, now, t0, limit, poll).0, labels[i..]);
  }

  /**
   * One pass of the label loop, for any check table: with `whole` the scan
   * from the start, `before` the labels kept so far and `(ok, p)` the check
   * of label `i`, what is kept next and where the scan goes on.
   */
  lemma ScanStep(labels: seq<Label>, i: nat, checks: seq<Check>, now: nat -> real, t0: real, limit: real,
                 poll: nat, ok: bool, p: nat, before: seq<Label>, whole: (seq<Label>, nat))
    requires i < |labels| && PairsCheck(labels[i], checks, 0, now, t0, limit, poll) == (ok, p)
    requires whole == (before + Scan(labels, i, checks, now, t0, limit, poll).0, Scan(labels, i, checks, now, t0, limit, poll).1)
    ensures var kept := if ok then before + [labels[i]] else before;
      && (now(p) - t0 > limit ==> whole == (kept, p + 1))
      && (now(p) - t0 <= limit ==>
            whole == (kept + Scan(labels, i + 1, checks, now, t0, limit, p + 1).0, Scan(labels, i + 1, checks, now, t0, limit, p + 1).1))
  {
    ScanUnfold(labels, i, checks, now, t0, limit, poll, ok, p);
    KeptStep(before, ok, labels[i], p, now(p) - t0 > limit, Scan(labels, i, checks, now, t0, limit, poll),
             Scan(labels, i + 1, checks, now, t0, limit, p + 1), whole);
  }

  /** The sequence algebra behind `ScanStep`, on plain values. */
  lemma KeptStep(before: seq<Label>, ok: bool, l: Label, p: nat, late: bool,
                 here: (seq<Label>, nat), rest: (seq<Label>, nat), whole: (seq<Label>, nat))
    requires late ==> here == ((if ok then [l] else []), p + 1)
    requires !late ==> here == ((if ok then [l] else []) + rest.0, rest.1)
    requires whole == (before + here.0, here.1)
    ensures var kept := if ok then before + [l] else before;
      && (late ==> whole == (kept, p + 1))
      && (!late ==> whole == (kept + rest.0, rest.1))
  {
    assert before + [] == before;
    if !late {
      var h := if ok then [l] else [];
      assert before + (h + rest.0) == (before + h) + rest.0;
    }
  }

  /** One unfolding of `Scan` at label `i`, whose check gives `(ok, p)`. */
  lemma ScanUnfold(labels: seq<Label>, i: nat, checks: seq<Check>, now: nat -> real, t0: real, limit: real,
                   poll: nat, ok: bool, p: nat)
    requires i < |labels| && PairsCheck(labels[i], checks, 0, now, t0, limit, poll) == (ok, p)
    ensures var here := if ok then [labels[i]] else [];
      && (now(p) - t0 > limit ==> Scan(labels, i, checks, now, t0, limit, poll) == (here, p + 1))
      && (now(p) - t0 <= limit ==>
            Scan(labels, i, checks, now, t0, limit, poll)
              == (here + Scan(labels, i + 1, checks, now, t0, limit, p + 1).0, Scan(labels, i + 1, checks, now, t0, limit, p + 1).1))
  {
  }

  /** The loop over the labels, as the source runs it. */
  method ScanLabels(labels: seq<Label>, checks: seq<Check>,
                    now: nat -> real, t0: real, limit: real, poll: nat) returns (survivors: seq<Label>, next: nat)
    ensures (survivors, next) == Scan(labels, 0, checks, now, t0, limit, poll)
  {
    ghost var whole := Scan(labels, 0, checks, now, t0, limit, poll);
    survivors := [];
    next := poll;
    var i := 0;
    assert [] + whole.0 == whole.0;
    while i < |labels|
      invariant i <= |labels|
      invariant whole == (survivors + Scan(labels, i, checks, now, t0, limit, next).0,
                          Scan(labels, i, checks, now, t0, limit, next).1)
    {
      var ok, p := CheckLabel(labels[i], checks, now, t0, limit, next);
      ScanStep(labels, i, checks, now, t0, limit, next, ok, p, survivors, whole);
      if ok {
        survivors := survivors + [labels[i]];
      }
      var reading := now(p);
      next := p + 1;
      if reading - t0 > limit {
        break;
      }
      i := i + 1;
    }
    assert survivors + [] == survivors;
  }

  /** The best distance of a label on each check. */
  function Distances(lbl: Label, checks: seq<Check>): (ds: seq<int>)
    ensures |ds| == |checks|
    ensures forall j :: 0 <= j < |checks| ==> ds[j] == BestDistance(checks[j].0, lbl, checks[j].1) && ds[j] >= 0
  {
    seq(|checks|, j requires 0 <= j < |checks| => BestDistance(checks[j].0, lbl, checks[j].1))
  }

  /** The sum of the first `n` entries of `ds`. */
  function SumTo(ds: seq<int>, n: nat): int
    requires n <= |ds|
  {
    if n == 0 then 0 else SumTo(ds, n - 1) + ds[n - 1]
  }

  /** A sum of non-negative entries is zero exactly when each of them is. */
  lemma {:induction false} SumToZero(ds: seq<int>, n: nat)
    requires n <= |ds| && forall j :: 0 <= j < |ds| ==> ds[j] >= 0
    ensures SumTo(ds, n) >= 0
    ensures SumTo(ds, n) == 0 <==> forall j :: 0 <= j < n ==> ds[j] == 0
  {
    if n > 0 {
      SumToZero(ds, n - 1);
    }
  }

  /** `tot` for one label: its best distances over the first `n` checks, summed. */
  function Total(lbl: Label, checks: seq<Check>, n: nat): (t: int)
    requires n <= |checks|
    ensures 0 <= t
  {
    var ds := Distances(lbl, checks);
    SumToZero(ds, n);
    SumTo(ds, n)
  }

  /**
   * A total is zero exactly when the label matches each of the first `n`
   * outputs; over all pairs, exactly when the label is exact.
   */
  lemma TotalZero(lbl: Label, checks: seq<Check>, n: nat)
    requires n <= |checks|
    ensures Total(lbl, checks, n) == 0 <==> forall j :: 0 <= j < n ==> BestDistance(checks[j].0, lbl, checks[j].1) == 0
    ensures n == |checks| ==> (Total(lbl, checks, n) == 0 <==> Exact(lbl, checks))
  {
    SumToZero(Distances(lbl, checks), n);
  }

  /** The fallback loop's `tot` for one label, as the source runs it. */
  method TotalOf(lbl: Label, checks: seq<Check>) returns (tot: int)
    ensures tot == Total(lbl, checks, |checks|)
  {
    tot := 0;
    for k := 0 to |checks|
      invariant tot == Total(lbl, checks, k)
    {
      var (pool, yTrue) := checks[k];
      var best := BestDistanceOf(pool, lbl, yTrue, false);
      tot := tot + best;
    }
  }

  /** The sort key of the fallback: the total. */
  function ByTotal(e: (Label, int)): int {
    e.1
  }

  /** `scores.items()`: each label with its total, in label order. */
  function Scored(labels: seq<Label>, checks: seq<Check>): (s: seq<(Label, int)>)
    ensures |s| == |labels|
    ensures forall i :: 0 <= i < |labels| ==> s[i] == (labels[i], Total(labels[i], checks, |checks|))
  {
    seq(|labels|, i requires 0 <= i < |labels| => (labels[i], Total(labels[i], checks, |checks|)))
  }

  /** The fallback: the (at most) three labels of lowest total, in a stable sort by total. */
  function Fallback(labels: seq<Label>, checks: seq<Check>): (r: seq<Label>)
    ensures |r| == if |labels| < 3 then |labels| else 3
    ensures forall l :: l in r ==> l in labels
  {
    var scored := Scored(labels, checks);
    var sorted := SortBy(scored, ByTotal);
    var top := sorted[..if |sorted| < 3 then |sorted| else 3];
    forall e | e in top ensures e.0 in labels {
      assert e in sorted;
      assert e in scored;
      var i :| 0 <= i < |scored| && scored[i] == e;
      assert e.0 == labels[i];
    }
    Firsts(top)
  }

  /**
   * The fallback as the source runs it. `scores` is a dictionary keyed by
   * label; the labels are distinct, so its items are the labels in order.
   */
  method FallbackLabels(labels: seq<Label>, checks: seq<Check>) returns (r: seq<Label>)
    requires NoDups(labels)
    ensures r == Fallback(labels, checks)
  {
    var scores := ScoreLabels(labels, checks);
    r := [];
    if |scores| > 0 {
      var sorted := SortBy(scores, ByTotal);
      r := Firsts(sorted[..if |sorted| < 3 then |sorted| else 3]);
    }
  }

  /** The loop that fills `scores`, one label after the other. */
  method ScoreLabels(labels: seq<Label>, checks: seq<Check>) returns (scores: seq<(Label, int)>)
    ensures scores == Scored(labels, checks)
  {
    ghost var spec := Scored(labels, checks);
    scores := [];
    for i := 0 to |labels|
      invariant scores == spec[..i]
    {
      var tot := TotalOf(labels[i], checks);
      assert (labels[i], tot) == spec[i];
      PrefixStep(spec, i);
      scores := scores + [(labels[i], tot)];
    }
    assert spec[..|labels|] == spec;
  }

  /**
   * `select_survivor_labels`. The clock is the parameter `now`: `now(n)` is the
   * value of the n-th reading of `time.time()`, the first being `now(poll)`.
   * The labels are those of the candidates of the first pair's input; a label
   * survives when, on every pair, its candidate (without compositions)
   * matches the output exactly. Without survivors the fallback applies.
   * The result is the survivors and the number of the next reading.
   */
  ghost function SurvivorSpec(pairs: seq<Pair>, H: nat, W: nat, useCompositions: bool,
                              limit: real, now: nat -> real, poll: nat): (r: (seq<Label>, nat))
    requires |pairs| > 0
    ensures forall l :: l in r.0 ==> l in Firsts(CandidatesSpec(pairs[0].0, H, W, pairs, useCompositions))
    ensures poll < r.1
  {
    var labels := Firsts(CandidatesSpec(pairs[0].0, H, W, pairs, useCompositions));
    var (found, p) := Scan(labels, 0, Checks(pairs, H, W), now, now(poll), limit, poll + 1);
    ScanKeepsFromLabels(labels, 0, Checks(pairs, H, W), now, now(poll), limit, poll + 1);
    assert labels[0..] == labels;
    if |found| > 0 then (found, p) else (Fallback(labels, Checks(pairs, H, W)), p)
  }

  /** `select_survivor_labels`, as the source runs it. */
  method SelectSurvivorLabels(pairs: seq<Pair>, H: nat, W: nat, useCompositions: bool,
                              limit: real, now: nat -> real, poll: nat) returns (survivors: seq<Label>, next: nat)
    requires |pairs| > 0
    ensures (survivors, next) == SurvivorSpec(pairs, H, W, useCompositions, limit, now, poll)
  {
    var t0 := now(poll);
    var (x0, _) := pairs[0];
    var pool0 := GenerateCandidates(x0, H, W, pairs, useCompositions);
    CandidatesDistinct(x0, H, W, pairs, useCompositions);
    var labels := Firsts(pool0);
    var checks := BuildChecks(pairs, H, W);
    survivors, next := ScanLabels(labels, checks, now, t0, limit, poll + 1);
    if |survivors| == 0 {
      survivors := FallbackLabels(labels, checks);
    }
  }

  /** The clock never passes the limit (readings from `t0` on stay within `limit`). */
  ghost predicate InTime(now: nat -> real, t0: real, limit: real) {
    forall n :: now(n) - t0 <= limit
  }

  /** A label is exact when on every pair some candidate with that label equals the output. */
  predicate Exact(lbl: Label, checks: seq<Check>) {
    ExactFrom(lbl, checks, 0)
  }

  /** The label is exact on the pairs from `k` on. */
  predicate ExactFrom(lbl: Label, checks: seq<Check>, k: nat) {
    forall j :: k <= j < |checks| ==> BestDistance(checks[j].0, lbl, checks[j].1) == 0
  }

  /** The exact labels of `labels`, in order: the reference for the survivor loop. */
  function ExactLabels(labels: seq<Label>, checks: seq<Check>): (r: seq<Label>)
    ensures |r| <= |labels|
  {
    if labels == [] then []
    else (if Exact(labels[0], checks) then [labels[0]] else []) + ExactLabels(labels[1..], checks)
  }

  /** `ExactLabels` keeps a label exactly when it is in `labels` and exact. */
  lemma {:induction false} ExactLabelsAre(labels: seq<Label>, checks: seq<Check>, l: Label)
    ensures l in ExactLabels(labels, checks) <==> l in labels && Exact(l, checks)
  {
    if labels != [] {
      ExactLabelsAre(labels[1..], checks, l);
      assert labels == [labels[0]] + labels[1..];
    }
  }

  /** Without a deadline, the pair loop keeps a label exactly when it is exact on the remaining pairs. */
  lemma {:induction false} PairsCheckInTime(lbl: Label, checks: seq<Check>, k: nat,
                                            now: nat -> real, t0: real, limit: real, poll: nat)
    requires k <= |checks| && InTime(now, t0, limit)
    ensures PairsCheck(lbl, checks, k, now, t0, limit, poll).0 <==> ExactFrom(lbl, checks, k)
    decreases |checks| - k
  {
    if k < |checks| {
      assert now(poll) - t0 <= limit;
      if BestDistance(checks[k].0, lbl, checks[k].1) == 0 {
        PairsCheckInTime(lbl, checks, k + 1, now, t0, limit, poll + 1);
        assert ExactFrom(lbl, checks, k) == ExactFrom(lbl, checks, k + 1);
      }
    }
  }

  /** Without a deadline, the label loop keeps exactly the exact labels, in order. */
  lemma {:induction false} ScanInTime(labels: seq<Label>, i: nat, checks: seq<Check>,
                                      now: nat -> real, t0: real, limit: real, poll: nat)
    requires i <= |labels| && InTime(now, t0, limit)
    ensures Scan(labels, i, checks, now, t0, limit, poll).0 == ExactLabels(labels[i..], checks)
    decreases |labels| - i
  {
    if i < |labels| {
      var p := ScanOneInTime(labels, i, checks, now, t0, limit, poll);
      ScanInTime(labels, i + 1, checks, now, t0, limit, p);
      ExactLabelsStep(labels, i, checks);
    }
  }

  /**
   * One label of the label loop without a deadline: it is kept when it is
   * exact, and the loop goes on from clock reading `p`.
   */
  lemma ScanOneInTime(labels: seq<Label>, i: nat, checks: seq<Check>,
                      now: nat -> real, t0: real, limit: real, poll: nat) returns (p: nat)
    requires i < |labels| && InTime(now, t0, limit)
    ensures Scan(labels, i, checks, now, t0, limit, poll).0
        == (if Exact(labels[i], checks) then [labels[i]] else []) + Scan(labels, i + 1, checks, now, t0, limit, p).0
  {
    var c := PairsCheck(labels[i], checks, 0, now, t0, limit, poll);
    PairsCheckInTime(labels[i], checks, 0, now, t0, limit, poll);
    assert now(c.1) - t0 <= limit;
    p := c.1 + 1;
    assert Scan(labels, i, checks, now, t0, limit, poll).0
        == (if c.0 then [labels[i]] else []) + Scan(labels, i + 1, checks, now, t0, limit, p).0;
    assert c.0 == Exact(labels[i], checks);
  }

  lemma ExactLabelsStep(labels: seq<Label>, i: nat, checks: seq<Check>)
    requires i < |labels|
    ensures ExactLabels(labels[i..], checks)
         == (if Exact(labels[i], checks) then [labels[i]] else []) + ExactLabels(labels[i + 1..], checks)
  {
    assert labels[i..][0] == labels[i] && labels[i..][1..] == labels[i + 1..];
  }

  /**
   * Past the limit, a label whose check starts is kept unchecked: its first
   * clock reading ends the pair loop with `ok` true, the next ends the label loop.
   */
  lemma DeadlineKeepsUnchecked(labels: seq<Label>, i: nat, checks: seq<Check>,
                               now: nat -> real, t0: real, limit: real, poll: nat)
    requires i < |labels| && |checks| > 0
    requires forall m, n :: m <= n ==> now(m) <= now(n)
    requires now(poll) - t0 > limit
    ensures Scan(labels, i, checks, now, t0, limit, poll) == ([labels[i]], poll + 2)
  {
    assert now(poll) <= now(poll + 1);
  }

  /**
   * A label that survives without a deadline reproduces every pair: it names
   * a single operator, and that operator maps each input to its output.
   */
  lemma ExactMeansReproduces(pairs: seq<Pair>, H: nat, W: nat, lbl: Label, j: nat)
    requires j < |pairs| && Exact(lbl, Checks(pairs, H, W))
    requires lbl in Firsts(CandidatesSpec(pairs[j].0, H, W, pairs, false))
    ensures lbl.Single? && OpSpec(lbl.f, pairs[j].0, H, W, pairs) == Some(pairs[j].1)
  {
    var pool := CandidatesSpec(pairs[j].0, H, W, pairs, false);
    var checks := Checks(pairs, H, W);
    assert checks[j] == (pool, pairs[j].1);
    assert BestDistance(pool, lbl, pairs[j].1) == 0;
    var k :| 0 <= k < |pool| && pool[k].0 == lbl && 0 == Hamming(pool[k].1, pairs[j].1);
    WithoutCompositions(pairs[j].0, H, W, pairs);
    assert pool[k] in pool;
    CandidatesAreLabelled(pairs[j].0, H, W, pairs, false, k);
  }

  /** Every entry of the sorted scores is a label with its own total. */
  lemma SortedScoresAreTotals(labels: seq<Label>, checks: seq<Check>, e: (Label, int))
    requires e in SortBy(Scored(labels, checks), ByTotal)
    ensures e.0 in labels && e.1 == Total(e.0, checks, |checks|)
  {
    var i := SortedFrom(Scored(labels, checks), ByTotal, e);
    ScoredIsTotal(labels, checks, i);
  }

  lemma ScoredIsTotal(labels: seq<Label>, checks: seq<Check>, i: nat)
    requires i < |labels|
    ensures Scored(labels, checks)[i].0 in labels
    ensures Scored(labels, checks)[i].1 == Total(Scored(labels, checks)[i].0, checks, |checks|)
  {
  }

  /** An element of a sorted sequence sits somewhere in the original. */
  lemma SortedFrom<T>(s: seq<T>, key: T -> int, e: T) returns (i: nat)
    requires e in SortBy(s, key)
    ensures i < |s| && s[i] == e
  {
    assert e in s;
    i :| 0 <= i < |s| && s[i] == e;
  }

  /** The fallback keeps labels of lowest total: no dropped label has a lower total than a kept one. */
  lemma FallbackKeepsLowest(labels: seq<Label>, checks: seq<Check>, kept: Label, dropped: Label)
    requires kept in Fallback(labels, checks) && dropped in labels && dropped !in Fallback(labels, checks)
    ensures Total(kept, checks, |checks|) <= Total(dropped, checks, |checks|)
  {
    var scored := Scored(labels, checks);
    var sorted := SortBy(scored, ByTotal);
    var n := if |sorted| < 3 then |sorted| else 3;
    assert Fallback(labels, checks) == Firsts(sorted[..n]);
    var i :| 0 <= i < |labels| && labels[i] == dropped;
    SortByKeeps(scored, ByTotal);
    assert scored[i] in sorted;
    var a := TopIsLowest(sorted, n, kept, scored[i]);
    SortedScoresAreTotals(labels, checks, sorted[a]);
  }

  /** In a sequence sorted by total, an entry kept in the first `n` has no larger total than one left out. */
  lemma TopIsLowest(sorted: seq<(Label, int)>, n: nat, kept: Label, e: (Label, int)) returns (a: nat)
    requires n <= |sorted| && SortedBy(sorted, ByTotal)
    requires kept in Firsts(sorted[..n]) && e in sorted && e.0 !in Firsts(sorted[..n])
    ensures a < n && sorted[a].0 == kept && sorted[a].1 <= e.1
  {
    var r := Firsts(sorted[..n]);
    a :| 0 <= a < n && r[a] == kept;
    var b :| 0 <= b < |sorted| && sorted[b] == e;
    assert forall m :: 0 <= m < n ==> r[m] != e.0;
    assert ByTotal(sorted[a]) <= ByTotal(sorted[b]);
  }

  /** The fallback lists its labels by ascending total. */
  lemma FallbackAscending(labels: seq<Label>, checks: seq<Check>, a: nat, b: nat)
    requires a < b < |Fallback(labels, checks)|
    ensures Total(Fallback(labels, checks)[a], checks, |checks|) <= Total(Fallback(labels, checks)[b], checks, |checks|)
  {
    var sorted := SortBy(Scored(labels, checks), ByTotal);
    SortedScoresAreTotals(labels, checks, sorted[a]);
    SortedScoresAreTotals(labels, checks, sorted[b]);
    assert ByTotal(sorted[a]) <= ByTotal(sorted[b]);
  }

  /** Labels with the same total stay in label order (the sort is stable). */
  lemma FallbackTiesInLabelOrder(labels: seq<Label>, checks: seq<Check>, t: int)
    ensures KeyFilter(SortBy(Scored(labels, checks), ByTotal), ByTotal, t) == KeyFilter(Scored(labels, checks), ByTotal, t)
  {
    SortByStable(Scored(labels, checks), ByTotal, t);
  }

  /** Without a deadline, the survivors are the exact labels, or the fallback when there is none. */
  lemma SurvivorsInTime(pairs: seq<Pair>, H: nat, W: nat, useCompositions: bool,
                        limit: real, now: nat -> real, poll: nat)
    requires |pairs| > 0 && InTime(now, now(poll), limit)
    ensures var labels := Firsts(CandidatesSpec(pairs[0].0, H, W, pairs, useCompositions));
      var exact := ExactLabels(labels, Checks(pairs, H, W));
      SurvivorSpec(pairs, H, W, useCompositions, limit, now, poll).0
        == if exact != [] then exact else Fallback(labels, Checks(pairs, H, W))
  {
    var labels := Firsts(CandidatesSpec(pairs[0].0, H, W, pairs, useCompositions));
    ScanInTime(labels, 0, Checks(pairs, H, W), now, now(poll), limit, poll + 1);
    assert labels[0..] == labels;
  }

  /** There are survivors exactly when the first pair's input has candidates. */
  lemma SurvivorsNonEmpty(pairs: seq<Pair>, H: nat, W: nat, useCompositions: bool,
                          limit: real, now: nat -> real, poll: nat)
    requires |pairs| > 0
    ensures SurvivorSpec(pairs, H, W, useCompositions, limit, now, poll).0 != []
        <==> CandidatesSpec(pairs[0].0, H, W, pairs, useCompositions) != []
  {
    var labels := Firsts(CandidatesSpec(pairs[0].0, H, W, pairs, useCompositions));
    if labels == [] {
      ScanKeepsFromLabels(labels, 0, Checks(pairs, H, W), now, now(poll), limit, poll + 1);
    }
  }
}
