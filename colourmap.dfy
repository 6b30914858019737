/**
 * The learned colour map of the recolouring operator (`learn_color_map`) and
 * its application (`apply_color_map`).
 *
 * A colour map is a finite map from colours to colours; the order in which
 * the source's dictionary was filled does not matter to its application,
 * because every key is substituted from the original grid.
 */
module ColourMaps {
  import opened Counting
  import opened Grids

  /** A training example: (input grid, output grid). */
  type Pair = (Grid, Grid)

  /** `s` without the occurrences of `x`, order kept. */
  function Without(s: seq<int>, x: int): (r: seq<int>)
    ensures forall y :: y in r <==> y in s && y != x
    ensures NoDups(s) ==> NoDups(r)
  {
    if s == [] then []
    else
      var rest := Without(s[1..], x);
      assert forall y :: y in s ==> y == s[0] || y in s[1..];
      assert NoDups(s) ==> s[0] !in s[1..];
      if s[0] == x then rest else [s[0]] + rest
  }

  /**
   * The first `n` steps of the pairing loop: for `i < n`, `ins[i]` is mapped
   * to `outs[i]` when there is an `i`-th output colour, later steps winning.
   */
  function ZipInto(m: map<int, int>, ins: seq<int>, outs: seq<int>, n: nat): (r: map<int, int>)
    requires n <= |ins|
  {
    if n == 0 then m
    else
      var r := ZipInto(m, ins, outs, n - 1);
      if n - 1 < |outs| then r[ins[n - 1] := outs[n - 1]] else r
  }

  /** With distinct input colours, the `k`-th input colour ends up mapped to the `k`-th output colour. */
  lemma {:induction false} ZipIntoPairs(m: map<int, int>, ins: seq<int>, outs: seq<int>, n: nat, k: nat)
    requires n <= |ins| && NoDups(ins) && k < n && k < |outs|
    ensures ins[k] in ZipInto(m, ins, outs, n) && ZipInto(m, ins, outs, n)[ins[k]] == outs[k]
  {
    if k < n - 1 {
      ZipIntoPairs(m, ins, outs, n - 1, k);
    }
  }

  /** The paired entries do not depend on the map they are written into. */
  lemma {:induction false} ZipIntoOverrides(m1: map<int, int>, m2: map<int, int>, ins: seq<int>, outs: seq<int>, n: nat, c: int)
    requires n <= |ins| && exists k :: 0 <= k < n && k < |outs| && ins[k] == c
    ensures c in ZipInto(m1, ins, outs, n) && c in ZipInto(m2, ins, outs, n)
    ensures ZipInto(m1, ins, outs, n)[c] == ZipInto(m2, ins, outs, n)[c]
  {
    var k :| 0 <= k < n && k < |outs| && ins[k] == c;
    if n - 1 < |outs| && ins[n - 1] == c {
    } else {
      assert k < n - 1;
      ZipIntoOverrides(m1, m2, ins, outs, n - 1, c);
    }
  }

  /** `s` is ordered by decreasing weight `w`. */
  predicate Descending(s: seq<int>, w: int -> int) {
    forall i, j :: 0 <= i < j < |s| ==> w(s[i]) >= w(s[j])
  }

  /** Dropping a colour keeps a sequence ordered by decreasing weight `w`. */
  lemma {:induction false} WithoutKeepsOrder(s: seq<int>, x: int, w: int -> int)
    requires Descending(s, w)
    ensures Descending(Without(s, x), w)
  {
    if s != [] {
      var rest := Without(s[1..], x);
      assert Descending(s[1..], w) by {
        forall i, j | 0 <= i < j < |s[1..]| ensures w(s[1..][i]) >= w(s[1..][j]) {
          assert s[1..][i] == s[i + 1] && s[1..][j] == s[j + 1];
        }
      }
      WithoutKeepsOrder(s[1..], x, w);
      if s[0] != x {
        HeadLargest(s, w);
        DescendingCons(s[0], rest, w);
      }
    }
  }

  /** The head of a descending sequence weighs at least as much as the rest. */
  lemma HeadLargest(s: seq<int>, w: int -> int)
    requires Descending(s, w) && s != []
    ensures forall y :: y in s[1..] ==> w(s[0]) >= w(y)
  {
    forall y | y in s[1..] ensures w(s[0]) >= w(y) {
      var k :| 0 <= k < |s[1..]| && s[1..][k] == y;
      assert s[k + 1] == y;
    }
  }

  /** A head weighing at least as much as every element keeps a sequence descending. */
  lemma DescendingCons(a: int, t: seq<int>, w: int -> int)
    requires Descending(t, w) && forall y :: y in t ==> w(a) >= w(y)
    ensures Descending([a] + t, w)
  {
    var r := [a] + t;
    forall i, j | 0 <= i < j < |r| ensures w(r[i]) >= w(r[j]) {
      assert r[j] == t[j - 1];
      if i > 0 {
        assert r[i] == t[i - 1];
      }
    }
  }

  /** Dropping a colour and keeping one key class commute. */
  lemma {:induction false} KeyFilterWithout(s: seq<int>, x: int, key: int -> int, k: int)
    ensures KeyFilter(Without(s, x), key, k) == Without(KeyFilter(s, key, k), x)
  {
    if s != [] {
      KeyFilterWithout(s[1..], x, key, k);
      var rest := Without(s[1..], x);
      if s[0] != x {
        assert ([s[0]] + rest)[1..] == rest;
      }
      if key(s[0]) == k {
        assert ([s[0]] + KeyFilter(s[1..], key, k))[1..] == KeyFilter(s[1..], key, k);
      } else {
        assert [] + KeyFilter(s[1..], key, k) == KeyFilter(s[1..], key, k);
      }
    }
  }

  /** The non-background colours of a grid, most frequent first, ties in first-seen order. */
  function RankedColours(g: Grid, bg: int): (r: seq<int>)
    ensures NoDups(r)
    ensures forall c :: c in r <==> c in Cells(g) && c != bg
  {
    Without(MostCommon(Cells(g)), bg)
  }

  /** The ranked colours are ordered by decreasing count in the grid. */
  lemma RankedByCount(g: Grid, bg: int)
    ensures var r := RankedColours(g, bg);
      forall i, j :: 0 <= i < j < |r| ==> Count(Cells(g), r[i]) >= Count(Cells(g), r[j])
  {
    var t := Cells(g);
    var w := (c: int) => Count(t, c) as int;
    var m := MostCommon(t);
    assert Descending(m, w);
    WithoutKeepsOrder(m, bg, w);
    assert Descending(Without(m, bg), w);
  }

  /**
   * Colours of equal count are ranked in the order they are first seen in
   * the grid (row-major), as the stable sort behind `most_common` gives.
   */
  lemma RankedTiesInFirstSeenOrder(g: Grid, bg: int, c: int)
    ensures KeyFilter(RankedColours(g, bg), CountKey(Cells(g)), c)
         == KeyFilter(Without(Distinct(Cells(g)), bg), CountKey(Cells(g)), c)
  {
    var key := CountKey(Cells(g));
    KeyFilterWithout(MostCommon(Cells(g)), bg, key, c);
    MostCommonTiesInFirstSeenOrder(Cells(g), c);
    KeyFilterWithout(Distinct(Cells(g)), bg, key, c);
  }

  /** `if not cin or not cout: continue`: a pair with an empty grid teaches nothing. */
  predicate Skipped(p: Pair) {
    |Cells(p.0)| == 0 || |Cells(p.1)| == 0
  }

  /**
   * One pass of `learn_color_map`'s loop over a training pair: a pair with an
   * empty grid is skipped; otherwise the `i`-th most frequent non-background
   * input colour is mapped to the `i`-th output colour where one exists, and
   * then the input background to the output background.
   */
  function LearnStep(m: map<int, int>, p: Pair): map<int, int> {
    var xin, xout := p.0, p.1;
    if Skipped(p) then m
    else
      var bgIn, bgOut := ModeFirst(Cells(xin)), ModeFirst(Cells(xout));
      StepWith(m, RankedColours(xin, bgIn), RankedColours(xout, bgOut), bgIn, bgOut)
  }

  /** The pass over one pair once its backgrounds and ranked colours are known. */
  function StepWith(m: map<int, int>, ins: seq<int>, outs: seq<int>, bgIn: int, bgOut: int): map<int, int> {
    ZipInto(m, ins, outs, |ins|)[bgIn := bgOut]
  }

  /** `learn_color_map(train_pairs)`: the passes over the pairs in order, starting from an empty map. */
  function LearnSpec(pairs: seq<Pair>): map<int, int> {
    if pairs == [] then map[]
    else LearnStep(LearnSpec(pairs[..|pairs| - 1]), pairs[|pairs| - 1])
  }

  /**
   * The keys a pair writes: its input background and each ranked input
   * colour that has an output colour of the same rank; none when skipped.
   */
  function Written(p: Pair): (s: set<int>)
    ensures Skipped(p) ==> s == {}
  {
    var xin, xout := p.0, p.1;
    if Skipped(p) then {}
    else
      var bgIn, bgOut := ModeFirst(Cells(xin)), ModeFirst(Cells(xout));
      var ins, outs := RankedColours(xin, bgIn), RankedColours(xout, bgOut);
      {bgIn} + Paired(ins, outs)
  }

  /** The input colours that have an output colour of the same rank. */
  function Paired(ins: seq<int>, outs: seq<int>): set<int> {
    set k | 0 <= k < |ins| && k < |outs| :: ins[k]
  }

  /**
   * What one pair writes: its input background goes to its output
   * background, and the `k`-th ranked input colour to the `k`-th ranked
   * output colour; every colour the pair does not write keeps its entry.
   */
  lemma LearnStepWrites(m: map<int, int>, p: Pair)
    ensures !Skipped(p) ==>
      var bgIn, bgOut := ModeFirst(Cells(p.0)), ModeFirst(Cells(p.1));
      var ins, outs := RankedColours(p.0, bgIn), RankedColours(p.1, bgOut);
      && bgIn in LearnStep(m, p) && LearnStep(m, p)[bgIn] == bgOut
      && forall k :: 0 <= k < |ins| && k < |outs| ==> ins[k] in LearnStep(m, p) && LearnStep(m, p)[ins[k]] == outs[k]
    ensures forall c :: c !in Written(p) ==> (c in LearnStep(m, p) <==> c in m)
    ensures forall c :: c !in Written(p) && c in m ==> LearnStep(m, p)[c] == m[c]
  {
    var xin, xout := p.0, p.1;
    if !Skipped(p) {
      var bgIn, bgOut := ModeFirst(Cells(xin)), ModeFirst(Cells(xout));
      var ins, outs := RankedColours(xin, bgIn), RankedColours(xout, bgOut);
      forall k | 0 <= k < |ins| && k < |outs|
        ensures ins[k] in LearnStep(m, p) && LearnStep(m, p)[ins[k]] == outs[k]
      {
        ZipIntoPairs(m, ins, outs, |ins|, k);
      }
      forall c | c !in Written(p) ensures (c in LearnStep(m, p) <==> c in m) && (c in m ==> LearnStep(m, p)[c] == m[c]) {
        ZipIntoStays(m, ins, outs, |ins|, c);
      }
    }
  }

  /** A colour no step pairs keeps its entry (or its absence). */
  lemma {:induction false} ZipIntoStays(m: map<int, int>, ins: seq<int>, outs: seq<int>, n: nat, c: int)
    requires n <= |ins| && forall k :: 0 <= k < n && k < |outs| ==> ins[k] != c
    ensures c in ZipInto(m, ins, outs, n) <==> c in m
    ensures c in m ==> ZipInto(m, ins, outs, n)[c] == m[c]
  {
    if n > 0 {
      ZipIntoStays(m, ins, outs, n - 1, c);
    }
  }

  /** What a pair writes does not depend on the map it is written into. */
  lemma LearnStepOverrides(m1: map<int, int>, m2: map<int, int>, p: Pair, c: int)
    requires c in Written(p)
    ensures c in LearnStep(m1, p) && c in LearnStep(m2, p)
    ensures LearnStep(m1, p)[c] == LearnStep(m2, p)[c]
  {
    assert !Skipped(p);
    var bgIn, bgOut := ModeFirst(Cells(p.0)), ModeFirst(Cells(p.1));
    var ins, outs := RankedColours(p.0, bgIn), RankedColours(p.1, bgOut);
    WrittenByStep(p, c, bgIn, ins, outs);
    StepWithOverrides(m1, m2, ins, outs, bgIn, bgOut, c);
  }

  lemma WrittenByStep(p: Pair, c: int, bgIn: int, ins: seq<int>, outs: seq<int>)
    requires !Skipped(p) && bgIn == ModeFirst(Cells(p.0))
    requires ins == RankedColours(p.0, bgIn) && outs == RankedColours(p.1, ModeFirst(Cells(p.1)))
    ensures c in Written(p) ==> c == bgIn || c in Paired(ins, outs)
  {
  }

  lemma StepWithOverrides(m1: map<int, int>, m2: map<int, int>, ins: seq<int>, outs: seq<int>, bgIn: int, bgOut: int, c: int)
    requires c == bgIn || c in Paired(ins, outs)
    ensures c in StepWith(m1, ins, outs, bgIn, bgOut) && c in StepWith(m2, ins, outs, bgIn, bgOut)
    ensures StepWith(m1, ins, outs, bgIn, bgOut)[c] == StepWith(m2, ins, outs, bgIn, bgOut)[c]
  {
    if c != bgIn {
      var k :| 0 <= k < |ins| && k < |outs| && ins[k] == c;
      ZipIntoOverrides(m1, m2, ins, outs, |ins|, c);
    }
  }

  /**
   * Later pairs overwrite earlier ones: every colour the last pair writes
   * gets the entry that pair alone would give it, whatever came before.
   */
  lemma LaterPairsOverride(pairs: seq<Pair>, p: Pair, c: int)
    requires c in Written(p)
    ensures c in LearnSpec(pairs + [p]) && c in LearnSpec([p])
    ensures LearnSpec(pairs + [p])[c] == LearnSpec([p])[c]
  {
    assert (pairs + [p])[..|pairs + [p]| - 1] == pairs;
    assert [p][..0] == [];
    LearnStepOverrides(LearnSpec(pairs), map[], p, c);
  }

  /** `apply_color_map(arr, cmap)`: every cell whose colour is a key takes that key's colour, all read from `arr`. */
  function Recolor(g: Grid, cmap: map<int, int>): (r: Grid)
    ensures HasShape(r, |g|, Width(g))
  {
    seq(|g|, i requires 0 <= i < |g| => seq(Width(g), j requires 0 <= j < Width(g) =>
      if g[i][j] in cmap then cmap[g[i][j]] else g[i][j]))
  }

  /** `learn_color_map` as the source runs it: a dictionary filled pair by pair, rank by rank. */
  method LearnColorMap(pairs: seq<Pair>) returns (mapping: map<int, int>)
    ensures mapping == LearnSpec(pairs)
  {
    mapping := map[];
    for p := 0 to |pairs|
      invariant mapping == LearnSpec(pairs[..p])
    {
      assert pairs[..p + 1][..p] == pairs[..p];
      mapping := LearnPair(mapping, pairs[p]);
    }
    assert pairs[..|pairs|] == pairs;
  }

  /** The body of `learn_color_map`'s loop for one training pair. */
  method LearnPair(mapping: map<int, int>, p: Pair) returns (mapping': map<int, int>)
    ensures mapping' == LearnStep(mapping, p)
  {
    var cin, cout := Cells(p.0), Cells(p.1);
    if |cin| == 0 || |cout| == 0 {
      return mapping;
    }
    var bgIn, bgOut := ModeFirst(cin), ModeFirst(cout);
    var ins, outs := RankedColours(p.0, bgIn), RankedColours(p.1, bgOut);
    mapping' := PairColours(mapping, ins, outs, bgIn, bgOut);
  }

  /** Pairs the ranked colours index by index, then the backgrounds. */
  method PairColours(mapping: map<int, int>, ins: seq<int>, outs: seq<int>, bgIn: int, bgOut: int)
    returns (mapping': map<int, int>)
    ensures mapping' == StepWith(mapping, ins, outs, bgIn, bgOut)
  {
    mapping' := mapping;
    for i := 0 to |ins|
      invariant mapping' == ZipInto(mapping, ins, outs, i)
    {
      if i < |outs| {
        mapping' := mapping'[ins[i] := outs[i]];
      }
    }
    mapping' := mapping'[bgIn := bgOut];
  }

  /**
   * `apply_color_map` as the source runs it: a copy of the grid, then, item by
   * item, every cell whose ORIGINAL colour is the key is overwritten.
   */
  method ApplyColorMap(g: Grid, cmap: map<int, int>) returns (r: Grid)
    ensures r == Recolor(g, cmap)
  {
    var h, w := |g|, Width(g);
    var out := new int[h, w]((i, j) => if 0 <= i < |g| && 0 <= j < |g[i]| then g[i][j] else 0);
    var todo := cmap.Items;
    ghost var done: set<int> := {};
    while todo != {}
      invariant todo <= cmap.Items && done <= cmap.Keys
      invariant forall kv :: kv in todo ==> kv.0 !in done
      invariant forall c :: c in cmap ==> c in done || (c, cmap[c]) in todo
      invariant out.Length0 == h && out.Length1 == w
      invariant forall a, b :: 0 <= a < h && 0 <= b < w ==>
        out[a, b] == (if g[a][b] in done then cmap[g[a][b]] else g[a][b])
      decreases |todo|
    {
      var kv :| kv in todo;
      RecolorKey(g, cmap, out, done, kv.0);
      todo, done := todo - {kv}, done + {kv.0};
    }
    assert forall c :: c in cmap ==> c in done;
    r := FromArray(out);
    RecoloredArray(g, cmap, out, r);
  }

  lemma RecoloredArray(g: Grid, cmap: map<int, int>, out: array2<int>, r: Grid)
    requires out.Length0 == |g| && out.Length1 == Width(g) && r == FromArray(out)
    requires forall a, b :: 0 <= a < |g| && 0 <= b < Width(g) ==>
      out[a, b] == (if g[a][b] in cmap then cmap[g[a][b]] else g[a][b])
    ensures r == Recolor(g, cmap)
  {
    GridExt(r, Recolor(g, cmap));
  }

  /** One pass of `apply_color_map`'s loop: the cells whose original colour is `c` take `cmap[c]`. */
  method RecolorKey(g: Grid, cmap: map<int, int>, out: array2<int>, ghost done: set<int>, c: int)
    requires c in cmap && c !in done && done <= cmap.Keys
    requires out.Length0 == |g| && out.Length1 == Width(g)
    requires forall a, b :: 0 <= a < |g| && 0 <= b < Width(g) ==>
      out[a, b] == (if g[a][b] in done then cmap[g[a][b]] else g[a][b])
    modifies out
    ensures forall a, b :: 0 <= a < |g| && 0 <= b < Width(g) ==>
      out[a, b] == (if g[a][b] in done || g[a][b] == c then cmap[g[a][b]] else g[a][b])
  {
    var h, w := |g|, Width(g);
    for i := 0 to h
      invariant forall a, b :: 0 <= a < h && 0 <= b < w ==>
        out[a, b] == (if g[a][b] in done || (a < i && g[a][b] == c) then cmap[g[a][b]] else g[a][b])
    {
      for j := 0 to w
        invariant forall a, b :: 0 <= a < h && 0 <= b < w ==>
          out[a, b] == (if g[a][b] in done || ((a < i || (a == i && b < j)) && g[a][b] == c) then cmap[g[a][b]] else g[a][b])
      {
        if g[i][j] == c {
          out[i, j] := cmap[c];
        }
      }
    }
  }

  /** Recolouring keeps the shape, and a cell whose colour is not a key keeps its colour. */
  lemma RecolorKeepsOthers(g: Grid, cmap: map<int, int>, i: int, j: int)
    requires InGrid(g, i, j) && g[i][j] !in cmap
    ensures Recolor(g, cmap)[i][j] == g[i][j]
  {
  }
}
