/**
 * `solve_task` and the runtime flags it reads. The clock is the parameter
 * `now`: `now(n)` is the value of the n-th reading of `time.time()` during
 * one call, the first (`t0`) being `now(0)`. `None` stands for an exception
 * escaping `solve_task`.
 */
module Solver {
  import opened Wrappers
  import opened Counting
  import opened Grids
  import opened ColourMaps
  import opened Candidates
  import opened Ranker

  /** The default of `MAX_TIME_PER_TASK`, in seconds. */
  const DefaultMaxTime: real := 2.0

  /** The default of `USE_COMPOSITIONS`. */
  const DefaultCompositions: bool := true

  /** A task: its training pairs and its test inputs. */
  datatype Task = Task(train: seq<Pair>, test: seq<Grid>)

  /** `max(0.5, time_limit * 0.5)`: the survivor search gets half the budget, at least half a second. */
  function SurvivorBudget(limit: real): (b: real)
    ensures b >= 0.5 && b >= limit * 0.5
    ensures b == 0.5 || b == limit * 0.5
  {
    if limit * 0.5 > 0.5 then limit * 0.5 else 0.5
  }

  /** `pad_to(x, H, W)`: centred, in the input's background colour. */
  function PadInput(x: Grid, H: nat, W: nat): Option<Grid> {
    PadSpec(x, H, W, BgColor(x), true)
  }

  /**
   * The prediction for one test input from its candidate pool. Past the
   * limit (`late`), or without candidates, or when the ranker returns
   * nothing, it is the padded input.
   */
  function Predict(x: Grid, pool: seq<Entry>, H: nat, W: nat, survivors: seq<Label>, late: bool): Option<Grid> {
    if late || pool == [] then PadInput(x, H, W)
    else
      match Rank(pool, survivors)
      case Some(y) => Some(y)
      case None => PadInput(x, H, W)
  }

  /**
   * The candidate pool of each test input. The source generates a pool
   * inside the test loop, and only for inputs reached in time; generation is
   * a function of its inputs, so the model generates them all beforehand.
   */
  ghost function Pools(tests: seq<Grid>, train: seq<Pair>, H: nat, W: nat, useCompositions: bool): (p: seq<seq<Entry>>)
    ensures |p| == |tests|
    ensures forall k :: 0 <= k < |tests| ==> p[k] == CandidatesSpec(tests[k], H, W, train, useCompositions)
  {
    seq(|tests|, k requires 0 <= k < |tests| => CandidatesSpec(tests[k], H, W, train, useCompositions))
  }

  method BuildPools(tests: seq<Grid>, train: seq<Pair>, H: nat, W: nat, useCompositions: bool) returns (pools: seq<seq<Entry>>)
    ensures pools == Pools(tests, train, H, W, useCompositions)
  {
    ghost var spec := Pools(tests, train, H, W, useCompositions);
    pools := [];
    for k := 0 to |tests|
      invariant pools == spec[..k]
    {
      var pool := GenerateCandidates(tests[k], H, W, train, useCompositions);
      assert pool == spec[k];
      PrefixStep(spec, k);
      pools := pools + [pool];
    }
    assert spec[..|tests|] == spec;
  }

  /**
   * The prediction of each test input. The loop reads the clock once per
   * input, so input `k` sees reading number `poll + k`.
   */
  function Outcomes(tests: seq<Grid>, pools: seq<seq<Entry>>, H: nat, W: nat, survivors: seq<Label>,
                    now: nat -> real, t0: real, limit: real, poll: nat): (o: seq<Option<Grid>>)
    requires |pools| == |tests|
    ensures |o| == |tests|
    ensures forall k :: 0 <= k < |tests| ==> o[k] == Predict(tests[k], pools[k], H, W, survivors, Late(now, t0, limit, poll + k))
  {
    seq(|tests|, k requires 0 <= k < |tests| => Predict(tests[k], pools[k], H, W, survivors, Late(now, t0, limit, poll + k)))
  }

  /** Clock reading `n` is past the limit. */
  predicate Late(now: nat -> real, t0: real, limit: real, n: nat) {
    now(n) - t0 > limit
  }

  /** The list of predictions, or `None` when one of them failed (its `pad_to` raised). */
  function Collect(outs: seq<Option<Grid>>): (r: Option<seq<Grid>>)
    ensures r.None? <==> exists k :: 0 <= k < |outs| && outs[k].None?
    ensures r.Some? ==> |r.value| == |outs| && forall k :: 0 <= k < |outs| ==> outs[k] == Some(r.value[k])
  {
    if forall k :: 0 <= k < |outs| ==> outs[k].Some? then Some(seq(|outs|, k requires 0 <= k < |outs| => outs[k].value))
    else None
  }

  /** `solve_task(task, limit)` with the given `USE_COMPOSITIONS`. */
  ghost function SolveSpec(task: Task, limit: real, useCompositions: bool, now: nat -> real): (r: Option<seq<Grid>>)
    ensures task.train == [] ==> r.None?
    ensures r.Some? ==> |r.value| == |task.test|
  {
    match InferTargetShape(task.train)
    case None => None
    case Some((H, W)) =>
      var (survivors, poll) := SurvivorSpec(task.train, H, W, useCompositions, SurvivorBudget(limit), now, 1);
      var pools := Pools(task.test, task.train, H, W, useCompositions);
      Collect(Outcomes(task.test, pools, H, W, survivors, now, now(0), limit, poll))
  }

  /** The module's global flags. */
  class Runtime {
    var maxTimePerTask: real
    var useCompositions: bool

    constructor()
      ensures maxTimePerTask == DefaultMaxTime && useCompositions == DefaultCompositions
    {
      maxTimePerTask := DefaultMaxTime;
      useCompositions := DefaultCompositions;
    }

    /** `set_runtime_flags`: a flag given as `None` keeps its value. */
    method SetRuntimeFlags(maxTime: Option<real>, compositions: Option<bool>)
      modifies this
      ensures maxTimePerTask == if maxTime.Some? then maxTime.value else old(maxTimePerTask)
      ensures useCompositions == if compositions.Some? then compositions.value else old(useCompositions)
    {
      if maxTime.Some? {
        maxTimePerTask := maxTime.value;
      }
      if compositions.Some? {
        useCompositions := compositions.value;
      }
    }

    /** `solve_task`: without a time limit, `MAX_TIME_PER_TASK` applies. */
    method SolveTask(task: Task, timeLimit: Option<real>, now: nat -> real) returns (preds: Option<seq<Grid>>)
      ensures preds == SolveSpec(task, if timeLimit.Some? then timeLimit.value else maxTimePerTask, useCompositions, now)
    {
      var limit := if timeLimit.Some? then timeLimit.value else maxTimePerTask;
      var t0 := now(0);
      var shape := InferTargetShape(task.train);
      if shape.None? {
        return None;
      }
      var (H, W) := shape.value;
      var survivors, poll := SelectSurvivorLabels(task.train, H, W, useCompositions, SurvivorBudget(limit), now, 1);
      var pools := BuildPools(task.test, task.train, H, W, useCompositions);
      preds := PredictAll(task.test, pools, H, W, survivors, now, t0, limit, poll);
    }
  }

  /** One test input, as the loop body of `solve_task` handles it. */
  method PredictOne(x: Grid, pool: seq<Entry>, H: nat, W: nat, survivors: seq<Label>, late: bool) returns (p: Option<Grid>)
    ensures p == Predict(x, pool, H, W, survivors, late)
  {
    if late || |pool| == 0 {
      p := PadTo(x, H, W, BgColor(x), true);
      return;
    }
    var best := RankCandidatesForTest(pool, survivors);
    if best.Some? {
      p := best;
    } else {
      p := PadTo(x, H, W, BgColor(x), true);
    }
  }

  /** The loop over the test inputs, as the source runs it: a failing prediction ends the call. */
  method PredictAll(tests: seq<Grid>, pools: seq<seq<Entry>>, H: nat, W: nat,
                    survivors: seq<Label>, now: nat -> real, t0: real, limit: real, poll: nat) returns (preds: Option<seq<Grid>>)
    requires |pools| == |tests|
    ensures preds == Collect(Outcomes(tests, pools, H, W, survivors, now, t0, limit, poll))
  {
    ghost var outs := Outcomes(tests, pools, H, W, survivors, now, t0, limit, poll);
    var done: seq<Grid> := [];
    var next := poll;
    for i := 0 to |tests|
      invariant next == poll + i
      invariant |done| == i && forall k :: 0 <= k < i ==> outs[k] == Some(done[k])
    {
      var late := Late(now, t0, limit, next);
      var p := PredictOne(tests[i], pools[i], H, W, survivors, late);
      OutcomeAt(tests, pools, H, W, survivors, now, t0, limit, poll, i, next, late, p);
      if p.None? {
        return None;
      }
      done := done + [p.value];
      next := next + 1;
    }
    preds := Some(done);
    assert Collect(outs).Some?;
    assert Collect(outs).value == done;
  }

  lemma OutcomeAt(tests: seq<Grid>, pools: seq<seq<Entry>>, H: nat, W: nat, survivors: seq<Label>,
                  now: nat -> real, t0: real, limit: real, poll: nat, i: nat, n: nat, late: bool, p: Option<Grid>)
    requires |pools| == |tests| && i < |tests| && n == poll + i && late == Late(now, t0, limit, n)
    requires p == Predict(tests[i], pools[i], H, W, survivors, late)
    ensures Outcomes(tests, pools, H, W, survivors, now, t0, limit, poll)[i] == p
  {
  }

  /** A prediction from a pool of (H, W) candidates has shape (H, W). */
  lemma PredictShape(x: Grid, pool: seq<Entry>, H: nat, W: nat, survivors: seq<Label>, late: bool)
    requires forall k :: 0 <= k < |pool| ==> HasShape(pool[k].1, H, W)
    ensures var p := Predict(x, pool, H, W, survivors, late);
      p.Some? ==> HasShape(p.value, H, W)
  {
  }

  /**
   * A prediction is the centred, padded input or the grid of one of the
   * input's candidates; it is a candidate whenever the input is reached in
   * time, has candidates and the ranker returns one.
   */
  lemma PredictIsPadOrCandidate(x: Grid, pool: seq<Entry>, H: nat, W: nat, survivors: seq<Label>, late: bool)
    ensures var p := Predict(x, pool, H, W, survivors, late);
      && (p == PadInput(x, H, W) || (p.Some? && p.value in GridsOf(pool)))
      && (!late && pool != [] && Rank(pool, survivors).Some? ==> p.Some? && p.value in GridsOf(pool))
  {
    RankFromPool(pool, survivors);
  }

  /**
   * Reached in time, an input whose candidates include one with a survivor
   * label (and a grid of fewer than 990000 non-background cells) gets the
   * grid of a candidate with a survivor label.
   */
  lemma PredictUsesSurvivor(x: Grid, pool: seq<Entry>, H: nat, W: nat, survivors: seq<Label>, k: nat)
    requires k < |pool| && pool[k].0 in survivors && Foreground(pool[k].1) < 990000
    ensures exists j :: 0 <= j < |pool| && pool[j].0 in survivors && Predict(x, pool, H, W, survivors, false) == Some(pool[j].1)
  {
    RankPrefersSurvivors(pool, survivors, k);
    var j := RankIndex(pool, survivors).value;
    assert pool[j].0 in survivors;
  }

  /** Every candidate of every test input has the target shape. */
  lemma PoolsShaped(tests: seq<Grid>, train: seq<Pair>, H: nat, W: nat, useCompositions: bool)
    ensures var pools := Pools(tests, train, H, W, useCompositions);
      forall k, j :: 0 <= k < |pools| && 0 <= j < |pools[k]| ==> HasShape(pools[k][j].1, H, W)
  {
    var pools: seq<seq<Entry>> := Pools(tests, train, H, W, useCompositions);
    forall k: nat, j: nat | k < |pools| && j < |pools[k]| ensures HasShape(pools[k][j].1, H, W) {
      CandidatesAreLabelled(tests[k], H, W, train, useCompositions, j);
    }
  }

  /** Every prediction of the test loop has the target shape when every candidate has it. */
  lemma OutcomesShape(tests: seq<Grid>, pools: seq<seq<Entry>>, H: nat, W: nat, survivors: seq<Label>,
                      now: nat -> real, t0: real, limit: real, poll: nat)
    requires |pools| == |tests|
    requires forall k, j :: 0 <= k < |pools| && 0 <= j < |pools[k]| ==> HasShape(pools[k][j].1, H, W)
    ensures var r := Collect(Outcomes(tests, pools, H, W, survivors, now, t0, limit, poll));
      r.Some? ==> forall k :: 0 <= k < |r.value| ==> HasShape(r.value[k], H, W)
  {
    var outs := Outcomes(tests, pools, H, W, survivors, now, t0, limit, poll);
    forall k | 0 <= k < |tests| && outs[k].Some? ensures HasShape(outs[k].value, H, W) {
      PredictShape(tests[k], pools[k], H, W, survivors, Late(now, t0, limit, poll + k));
    }
  }

  /** A result of `solve_task` has one prediction per test input, each of the inferred shape. */
  lemma SolveShapes(task: Task, limit: real, useCompositions: bool, now: nat -> real)
    requires SolveSpec(task, limit, useCompositions, now).Some?
    ensures task.train != [] && |SolveSpec(task, limit, useCompositions, now).value| == |task.test|
    ensures var (H, W) := InferTargetShape(task.train).value;
      forall k :: 0 <= k < |task.test| ==> HasShape(SolveSpec(task, limit, useCompositions, now).value[k], H, W)
  {
    var (H, W) := InferTargetShape(task.train).value;
    var (survivors, poll) := SurvivorSpec(task.train, H, W, useCompositions, SurvivorBudget(limit), now, 1);
    var pools := Pools(task.test, task.train, H, W, useCompositions);
    PoolsShaped(task.test, task.train, H, W, useCompositions);
    OutcomesShape(task.test, pools, H, W, survivors, now, now(0), limit, poll);
  }

  /** Every input padded, in order; `None` when a pad fails. */
  function PadAll(tests: seq<Grid>, H: nat, W: nat): (r: Option<seq<Grid>>)
    ensures r.Some? <==> forall k :: 0 <= k < |tests| ==> PadInput(tests[k], H, W).Some?
    ensures r.Some? ==> |r.value| == |tests|
    ensures r.Some? ==> forall k :: 0 <= k < |tests| ==> Some(r.value[k]) == PadInput(tests[k], H, W)
  {
    var pads := seq(|tests|, k requires 0 <= k < |tests| => PadInput(tests[k], H, W));
    assert forall k :: 0 <= k < |tests| ==> pads[k] == PadInput(tests[k], H, W);
    Collect(pads)
  }

  /** Once every reading from `poll` on is past the limit, every test input is padded. */
  lemma LateOutcomesPad(tests: seq<Grid>, pools: seq<seq<Entry>>, H: nat, W: nat, survivors: seq<Label>,
                        now: nat -> real, t0: real, limit: real, poll: nat)
    requires |pools| == |tests|
    requires forall n :: poll <= n ==> now(n) - t0 > limit
    ensures Collect(Outcomes(tests, pools, H, W, survivors, now, t0, limit, poll)) == PadAll(tests, H, W)
  {
    var outs := Outcomes(tests, pools, H, W, survivors, now, t0, limit, poll);
    var pads := seq(|tests|, k requires 0 <= k < |tests| => PadInput(tests[k], H, W));
    forall k | 0 <= k < |tests| ensures outs[k] == pads[k] {
      assert Late(now, t0, limit, poll + k);
    }
    assert outs == pads;
  }

  /**
   * When every reading after the first is past the limit, `solve_task`
   * returns the padded test inputs (the survivor search still runs first).
   */
  lemma SolveLatePadsAll(task: Task, limit: real, useCompositions: bool, now: nat -> real)
    requires task.train != []
    requires forall n :: 0 < n ==> now(n) - now(0) > limit
    ensures var (H, W) := InferTargetShape(task.train).value;
      SolveSpec(task, limit, useCompositions, now) == PadAll(task.test, H, W)
  {
    var (H, W) := InferTargetShape(task.train).value;
    var (survivors, poll) := SurvivorSpec(task.train, H, W, useCompositions, SurvivorBudget(limit), now, 1);
    var pools := Pools(task.test, task.train, H, W, useCompositions);
    LateOutcomesPad(task.test, pools, H, W, survivors, now, now(0), limit, poll);
  }
}
