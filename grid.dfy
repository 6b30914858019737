/**
 * Grid utilities of the solver: background colour, Hamming distance, the
 * dihedral transforms, bounding-box crop, padding and integer rescaling.
 *
 * A grid is a rectangular sequence of rows of colours. A grid with no rows has
 * shape (0, 0): the width of a 0-row array is not kept.
 */
module Grids {
  import opened Wrappers
  import opened Counting

  predicate Rectangular(g: seq<seq<int>>) {
    forall i :: 0 <= i < |g| ==> |g[i]| == |g[0]|
  }

  type Grid = g: seq<seq<int>> | Rectangular(g)

  type Cell = (int, int)

  function Width(g: Grid): nat {
    if |g| == 0 then 0 else |g[0]|
  }

  /** `arr.shape == (h, w)`. */
  predicate HasShape(g: seq<seq<int>>, h: int, w: int) {
    |g| == h && forall i :: 0 <= i < |g| ==> |g[i]| == w
  }

  predicate InGrid(g: Grid, y: int, x: int) {
    0 <= y < |g| && 0 <= x < Width(g)
  }

  /** The cells in row-major order (`arr.flatten()`). */
  function Cells(g: seq<seq<int>>): (c: seq<int>)
    ensures |g| > 0 && |g[0]| > 0 ==> |c| > 0
  {
    if g == [] then [] else g[0] + Cells(g[1..])
  }

  lemma {:induction false} CellsCount(g: Grid, v: int)
    ensures Count(Cells(g), v) == CountInRows(g, v)
  {
    if g != [] {
      CellsCount(g[1..], v);
    }
  }

  function CountInRows(g: seq<seq<int>>, v: int): nat {
    if g == [] then 0 else Count(g[0], v) + CountInRows(g[1..], v)
  }

  /**
   * `bg_color`: `np.unique` lists the values in ascending order and `argmax`
   * takes the first largest count, so the result is the smallest of the most
   * frequent colours; 0 for an empty grid.
   */
  function BgColor(g: Grid): (bg: int)
    ensures Cells(g) == [] ==> bg == 0
    ensures Cells(g) != [] ==> bg in Cells(g)
    ensures forall v :: Count(Cells(g), v) <= Count(Cells(g), bg)
    ensures Cells(g) != [] ==> forall v :: Count(Cells(g), v) == Count(Cells(g), bg) ==> bg <= v
  {
    SmallestMode(Cells(g))
  }

  /** `majority_color` is written exactly as `bg_color` is, so it names the background colour. */
  function MajorityColor(g: Grid): (m: int)
    ensures m == BgColor(g)
  {
    SmallestMode(Cells(g))
  }

  // ---------------------------------------------------------------- hamming

  const Mismatch: int := 1_000_000_000

  function RowDiff(a: seq<int>, b: seq<int>): (n: nat)
    requires |a| == |b|
    ensures n <= |a|
    ensures n == 0 <==> a == b
  {
    if a == [] then 0
    else
      assert a == [a[0]] + a[1..] && b == [b[0]] + b[1..];
      (if a[0] != b[0] then 1 else 0) + RowDiff(a[1..], b[1..])
  }

  function GridDiff(a: Grid, b: Grid): (n: nat)
    requires |a| == |b| && Width(a) == Width(b)
    ensures n <= |a| * Width(a)
    ensures n == 0 <==> a == b
  {
    if a == [] then 0
    else
      assert a == [a[0]] + a[1..] && b == [b[0]] + b[1..];
      var rest := GridDiff(a[1..], b[1..]);
      assert rest <= (|a| - 1) * Width(a);
      RowDiff(a[0], b[0]) + rest
  }

  /** `hamming`: 10**9 for different shapes, otherwise the number of differing cells. */
  function Hamming(a: Grid, b: Grid): (d: nat)
    ensures d == 0 <==> a == b
    ensures |a| != |b| || Width(a) != Width(b) ==> d == Mismatch
    ensures |a| == |b| && Width(a) == Width(b) ==> d <= |a| * Width(a)
  {
    if |a| != |b| || Width(a) != Width(b) then Mismatch else GridDiff(a, b)
  }

  lemma {:induction false} RowDiffSymmetric(a: seq<int>, b: seq<int>)
    requires |a| == |b|
    ensures RowDiff(a, b) == RowDiff(b, a)
  {
    if a != [] {
      RowDiffSymmetric(a[1..], b[1..]);
    }
  }

  lemma {:induction false} HammingSymmetric(a: Grid, b: Grid)
    ensures Hamming(a, b) == Hamming(b, a)
  {
    if |a| == |b| && Width(a) == Width(b) && a != [] {
      RowDiffSymmetric(a[0], b[0]);
      HammingSymmetric(a[1..], b[1..]);
    }
  }

  // ------------------------------------------------------ dihedral transforms

  /** `np.rot90(arr, 1)`, a counter-clockwise quarter turn: `out[i][j] = arr[j][W-1-i]`. */
  function Rot90(g: Grid): (r: Grid)
    ensures HasShape(r, Width(g), |g|)
    ensures forall i, j :: 0 <= i < Width(g) && 0 <= j < |g| ==> r[i][j] == g[j][Width(g) - 1 - i]
  {
    seq(Width(g), i requires 0 <= i < Width(g) => seq(|g|, j requires 0 <= j < |g| => g[j][Width(g) - 1 - i]))
  }

  /** `np.rot90(arr, k)`: `k mod 4` quarter turns. */
  function Rotate(g: Grid, k: int): Grid {
    Turns(g, k % 4)
  }

  function Turns(g: Grid, n: nat): Grid {
    if n == 0 then g else Rot90(Turns(g, n - 1))
  }

  /** `arr[:, ::-1]`. */
  function MirrorH(g: Grid): (r: Grid)
    ensures HasShape(r, |g|, Width(g))
    ensures forall i, j :: 0 <= i < |g| && 0 <= j < Width(g) ==> r[i][j] == g[i][Width(g) - 1 - j]
  {
    seq(|g|, i requires 0 <= i < |g| => seq(Width(g), j requires 0 <= j < Width(g) => g[i][Width(g) - 1 - j]))
  }

  /** `arr[::-1, :]`. */
  function MirrorV(g: Grid): (r: Grid)
    ensures HasShape(r, |g|, Width(g))
    ensures forall i :: 0 <= i < |g| ==> r[i] == g[|g| - 1 - i]
    ensures forall i, j :: 0 <= i < |g| && 0 <= j < Width(g) ==> r[i][j] == g[|g| - 1 - i][j]
  {
    seq(|g|, i requires 0 <= i < |g| => g[|g| - 1 - i])
  }

  /** `arr.T`. */
  function Transpose(g: Grid): (r: Grid)
    ensures HasShape(r, Width(g), |g|)
    ensures forall i, j :: 0 <= i < Width(g) && 0 <= j < |g| ==> r[i][j] == g[j][i]
  {
    seq(Width(g), i requires 0 <= i < Width(g) => seq(|g|, j requires 0 <= j < |g| => g[j][i]))
  }

  /** A grid whose shape survives the sequence representation: no rows of width zero. */
  predicate Proper(g: Grid) {
    |g| == 0 || Width(g) > 0
  }

  lemma GridExt(a: Grid, b: Grid)
    requires |a| == |b| && Width(a) == Width(b)
    requires forall i, j :: 0 <= i < |a| && 0 <= j < Width(a) ==> a[i][j] == b[i][j]
    ensures a == b
  {
    forall i | 0 <= i < |a| ensures a[i] == b[i] {
      assert |a[i]| == Width(a) && |b[i]| == Width(b);
    }
  }

  /** The grid held by a two-dimensional array. */
  function FromArray(out: array2<int>): (r: Grid)
    reads out
    ensures HasShape(r, out.Length0, out.Length1)
    ensures forall i, j :: 0 <= i < out.Length0 && 0 <= j < out.Length1 ==> r[i][j] == out[i, j]
  {
    seq(out.Length0, i requires 0 <= i < out.Length0 reads out =>
      seq(out.Length1, j requires 0 <= j < out.Length1 reads out => out[i, j]))
  }

  lemma MirrorHInvolution(g: Grid)
    ensures MirrorH(MirrorH(g)) == g
  {
    GridExt(MirrorH(MirrorH(g)), g);
  }

  lemma MirrorVInvolution(g: Grid)
    ensures MirrorV(MirrorV(g)) == g
  {
    GridExt(MirrorV(MirrorV(g)), g);
  }

  lemma TransposeInvolution(g: Grid)
    requires Proper(g)
    ensures Transpose(Transpose(g)) == g
  {
    GridExt(Transpose(Transpose(g)), g);
  }

  /** One quarter turn swaps height and width. */
  lemma RotateSwapsShape(g: Grid)
    ensures HasShape(Rotate(g, 1), Width(g), |g|)
  {
    assert Turns(g, 1) == Rot90(Turns(g, 0));
  }

  /** Two quarter turns are a half turn: both mirrors. */
  lemma RotateHalfTurn(g: Grid)
    requires Proper(g)
    ensures Rotate(g, 2) == MirrorV(MirrorH(g))
  {
    var r1 := Rot90(g);
    assert Turns(g, 1) == Rot90(Turns(g, 0)) == r1;
    assert Rotate(g, 2) == Turns(g, 2) == Rot90(r1);
    var a, b := Rot90(r1), MirrorV(MirrorH(g));
    forall i, j | 0 <= i < |g| && 0 <= j < Width(g) ensures a[i][j] == b[i][j] {
      HalfTurnCell(g, i, j);
    }
    GridExt(a, b);
  }

  lemma HalfTurnCell(g: Grid, i: nat, j: nat)
    requires Proper(g) && i < |g| && j < Width(g)
    ensures Rot90(Rot90(g))[i][j] == g[|g| - 1 - i][Width(g) - 1 - j]
  {
    var r1 := Rot90(g);
    assert Width(r1) == |g|;
    assert Rot90(r1)[i][j] == r1[j][|g| - 1 - i];
  }

  /** Four quarter turns give back the grid. */
  lemma {:induction false} RotateFourTimes(g: Grid)
    requires Proper(g)
    ensures Turns(g, 4) == g
  {
    assert Turns(g, 2) == Rotate(g, 2);
    RotateHalfTurn(g);
    var h := MirrorV(MirrorH(g));
    assert Proper(h);
    RotateHalfTurn(h);
    assert Turns(h, 1) == Rot90(Turns(h, 0)) == Rot90(h);
    assert Turns(h, 2) == Rotate(h, 2);
    assert Turns(g, 3) == Rot90(h);
    assert Turns(g, 4) == Rot90(Rot90(h)) == Turns(h, 2);
    GridExt(MirrorV(MirrorH(h)), g);
  }

  // ------------------------------------------------------------ cropping

  /** `arr[y0:y1, x0:x1]` for in-range bounds. */
  function SubGrid(g: Grid, y0: nat, y1: nat, x0: nat, x1: nat): (r: Grid)
    requires y0 <= y1 <= |g| && x0 <= x1 <= Width(g)
    ensures HasShape(r, y1 - y0, x1 - x0)
    ensures forall i, j :: 0 <= i < y1 - y0 && 0 <= j < x1 - x0 ==> r[i][j] == g[y0 + i][x0 + j]
  {
    seq(y1 - y0, i requires 0 <= i < y1 - y0 => g[y0 + i][x0..x1])
  }

  /** `np.full((h, w), v)`. */
  function Full(h: nat, w: nat, v: int): (r: Grid)
    ensures HasShape(r, h, w)
    ensures forall i, j :: 0 <= i < h && 0 <= j < w ==> r[i][j] == v
  {
    seq(h, i => seq(w, j => v))
  }

  function FgInRow(row: seq<int>, bg: int, y: int, x: nat): (c: seq<Cell>)
    requires x <= |row|
    ensures forall p :: p in c ==> p.0 == y && x <= p.1 < |row| && row[p.1] != bg
    ensures forall j :: x <= j < |row| && row[j] != bg ==> (y, j) in c
    decreases |row| - x
  {
    if x == |row| then [] else (if row[x] != bg then [(y, x)] else []) + FgInRow(row, bg, y, x + 1)
  }

  function FgFrom(g: Grid, bg: int, y: nat): (c: seq<Cell>)
    requires y <= |g|
    ensures forall p :: p in c ==> y <= p.0 < |g| && 0 <= p.1 < Width(g) && g[p.0][p.1] != bg
    ensures forall i, j :: y <= i < |g| && 0 <= j < Width(g) && g[i][j] != bg ==> (i, j) in c
    decreases |g| - y
  {
    if y == |g| then [] else FgInRow(g[y], bg, y, 0) + FgFrom(g, bg, y + 1)
  }

  /** `np.where(arr != bg)`: the cells whose colour is not `bg`, row by row. */
  function FgCells(g: Grid, bg: int): (c: seq<Cell>)
    ensures forall p :: p in c ==> InGrid(g, p.0, p.1) && g[p.0][p.1] != bg
  {
    FgFrom(g, bg, 0)
  }

  /** Every non-`bg` cell is listed by `FgCells`. */
  lemma FgCellsComplete(g: Grid, bg: int, y: int, x: int)
    requires InGrid(g, y, x) && g[y][x] != bg
    ensures (y, x) in FgCells(g, bg)
  {
  }

  function MinOf(s: seq<int>): (m: int)
    requires |s| > 0
    ensures m in s && forall k :: 0 <= k < |s| ==> m <= s[k]
  {
    if |s| == 1 then s[0] else var t := MinOf(s[1..]); if s[0] <= t then s[0] else t
  }

  function MaxOf(s: seq<int>): (m: int)
    requires |s| > 0
    ensures m in s && forall k :: 0 <= k < |s| ==> s[k] <= m
  {
    if |s| == 1 then s[0] else var t := MaxOf(s[1..]); if s[0] >= t then s[0] else t
  }

  datatype Box = Box(y0: int, x0: int, y1: int, x1: int)

  /** Box `b` lies in `g`. */
  predicate BoxIn(g: Grid, b: Box) {
    0 <= b.y0 <= b.y1 < |g| && 0 <= b.x0 <= b.x1 < Width(g)
  }

  /** `arr[y0:y1+1, x0:x1+1]`, the cells of `g` inside box `b`. */
  function Window(g: Grid, b: Box): Grid
    requires BoxIn(g, b)
  {
    SubGrid(g, b.y0, b.y1 + 1, b.x0, b.x1 + 1)
  }

  /** `bbox_of_pixels`: the least box holding every pixel, as (min y, min x, max y, max x). */
  function BboxOfPixels(pixels: seq<Cell>): (b: Box)
    requires |pixels| > 0
    ensures forall p :: p in pixels ==> b.y0 <= p.0 <= b.y1 && b.x0 <= p.1 <= b.x1
    ensures exists p :: p in pixels && p.0 == b.y0
    ensures exists p :: p in pixels && p.0 == b.y1
    ensures exists p :: p in pixels && p.1 == b.x0
    ensures exists p :: p in pixels && p.1 == b.x1
  {
    var ys := seq(|pixels|, k requires 0 <= k < |pixels| => pixels[k].0);
    var xs := seq(|pixels|, k requires 0 <= k < |pixels| => pixels[k].1);
    var b := Box(MinOf(ys), MinOf(xs), MaxOf(ys), MaxOf(xs));
    assert forall p :: p in pixels ==> b.y0 <= p.0 <= b.y1 && b.x0 <= p.1 <= b.x1 by {
      forall p | p in pixels ensures b.y0 <= p.0 <= b.y1 && b.x0 <= p.1 <= b.x1 {
        var k :| 0 <= k < |pixels| && pixels[k] == p;
        assert ys[k] == p.0 && xs[k] == p.1;
      }
    }
    var k0 :| 0 <= k0 < |ys| && ys[k0] == b.y0;
    assert pixels[k0] in pixels;
    var k1 :| 0 <= k1 < |ys| && ys[k1] == b.y1;
    assert pixels[k1] in pixels;
    var k2 :| 0 <= k2 < |xs| && xs[k2] == b.x0;
    assert pixels[k2] in pixels;
    var k3 :| 0 <= k3 < |xs| && xs[k3] == b.x1;
    assert pixels[k3] in pixels;
    b
  }

  /** `crop_to_bbox`: the smallest sub-grid holding every non-`bg` cell; a copy when there is none. */
  function CropToBbox(g: Grid, bg: int): (r: Grid)
    ensures FgCells(g, bg) == [] ==> r == g
    ensures |r| <= |g| && Width(r) <= Width(g)
  {
    var fg := FgCells(g, bg);
    if fg == [] then g
    else
      var b := BboxOfPixels(fg);
      Window(g, b)
  }

  predicate RowHasFg(g: Grid, bg: int, y: int) {
    0 <= y < |g| && exists x :: 0 <= x < Width(g) && g[y][x] != bg
  }

  predicate ColHasFg(g: Grid, bg: int, x: int) {
    0 <= x < Width(g) && exists y :: 0 <= y < |g| && g[y][x] != bg
  }

  /**
   * When some cell is not `bg`, the crop is the window of `g` given by the
   * bounding box of the non-`bg` cells, and no non-`bg` cell of `g` lies
   * outside that window.
   */
  lemma CropToBboxWindow(g: Grid, bg: int)
    requires FgCells(g, bg) != []
    ensures var b := BboxOfPixels(FgCells(g, bg)); Encloses(g, bg, b) && CropToBbox(g, bg) == Window(g, b)
  {
    BoxInGrid(g, bg, BboxOfPixels(FgCells(g, bg)));
  }

  /** Box `b` lies in `g` and holds every non-`bg` cell of `g`. */
  ghost predicate Encloses(g: Grid, bg: int, b: Box) {
    && BoxIn(g, b)
    && forall y, x :: InGrid(g, y, x) && g[y][x] != bg ==> b.y0 <= y <= b.y1 && b.x0 <= x <= b.x1
  }

  /**
   * Box `b` lies in `g`, and the window it cuts out has a non-`bg` cell in
   * its first and last rows and columns.
   */
  predicate Tight(g: Grid, bg: int, b: Box) {
    && 0 <= b.y0 <= b.y1 < |g| && 0 <= b.x0 <= b.x1 < Width(g)
    && var r := SubGrid(g, b.y0, b.y1 + 1, b.x0, b.x1 + 1);
    && RowHasFg(r, bg, 0) && RowHasFg(r, bg, |r| - 1)
    && ColHasFg(r, bg, 0) && ColHasFg(r, bg, Width(r) - 1)
  }

  /** The bounding box of non-`bg` cells of `g` is tight. */
  lemma BoxTight(g: Grid, bg: int, pixels: seq<Cell>)
    requires |pixels| > 0
    requires forall p :: p in pixels ==> InGrid(g, p.0, p.1) && g[p.0][p.1] != bg
    ensures Tight(g, bg, BboxOfPixels(pixels))
  {
    var b := BboxOfPixels(pixels);
    var top :| top in pixels && top.0 == b.y0;
    var bottom :| bottom in pixels && bottom.0 == b.y1;
    var left :| left in pixels && left.1 == b.x0;
    var right :| right in pixels && right.1 == b.x1;
    WindowEdges(g, bg, b, top, bottom, left, right);
  }

  /** The crop's window is tight (with `CropToBboxWindow`, this is the crop). */
  lemma CropToBboxTight(g: Grid, bg: int)
    requires FgCells(g, bg) != []
    ensures Tight(g, bg, BboxOfPixels(FgCells(g, bg)))
  {
    BoxTight(g, bg, FgCells(g, bg));
  }

  /** `p` is a non-`bg` cell of `g` inside box `b`. */
  predicate InBoxFg(g: Grid, bg: int, b: Box, p: Cell) {
    b.y0 <= p.0 <= b.y1 && b.x0 <= p.1 <= b.x1 && InGrid(g, p.0, p.1) && g[p.0][p.1] != bg
  }

  /** A box whose four edges each pass through a non-`bg` cell inside it is tight. */
  lemma WindowEdges(g: Grid, bg: int, b: Box, top: Cell, bottom: Cell, left: Cell, right: Cell)
    requires InBoxFg(g, bg, b, top) && InBoxFg(g, bg, b, bottom)
    requires InBoxFg(g, bg, b, left) && InBoxFg(g, bg, b, right)
    requires top.0 == b.y0 && bottom.0 == b.y1 && left.1 == b.x0 && right.1 == b.x1
    ensures Tight(g, bg, b)
  {
    var r := SubGrid(g, b.y0, b.y1 + 1, b.x0, b.x1 + 1);
    assert r[0][top.1 - b.x0] == g[top.0][top.1];
    assert r[|r| - 1][bottom.1 - b.x0] == g[bottom.0][bottom.1];
    assert r[left.0 - b.y0][0] == g[left.0][left.1];
    assert r[right.0 - b.y0][Width(r) - 1] == g[right.0][right.1];
  }

  lemma BoxInGrid(g: Grid, bg: int, b: Box)
    requires FgCells(g, bg) != [] && b == BboxOfPixels(FgCells(g, bg))
    ensures Encloses(g, bg, b)
  {
    var fg := FgCells(g, bg);
    var p :| p in fg && p.0 == b.y0;
    var q :| q in fg && q.0 == b.y1;
    var u :| u in fg && u.1 == b.x0;
    var v :| v in fg && v.1 == b.x1;
    assert InGrid(g, p.0, p.1) && InGrid(g, q.0, q.1) && InGrid(g, u.0, u.1) && InGrid(g, v.0, v.1);
    forall y, x | InGrid(g, y, x) && g[y][x] != bg
      ensures b.y0 <= y <= b.y1 && b.x0 <= x <= b.x1
    {
      FgCellsComplete(g, bg, y, x);
    }
  }

  // ------------------------------------------------------------- padding

  /** Along one axis of length `n` into a target of length `len`, whether the centred slice assignment succeeds. */
  predicate Fits(n: nat, len: nat) {
    n <= len || (len == 0 && n <= 2)
  }

  /** The offset at which `pad_to` places an axis of length `n` into one of length `len`. */
  function Offset(n: nat, len: nat, center: bool): int {
    if center then (len - n) / 2 else 0
  }

  /**
   * `pad_to(arr, H, W, bg, align)`: an H x W grid of `bg` with `g` written at
   * the offset, clipped to the target. In centre mode the slice assignment
   * raises when the source slice neither matches the target slice nor
   * broadcasts to it (a longer axis, except a 1- or 2-long axis into an empty
   * one, whose source slice has length 1); top-left mode truncates.
   */
  function PadSpec(g: Grid, H: nat, W: nat, bg: int, center: bool): (r: Option<Grid>)
    ensures r.Some? <==> !center || (Fits(|g|, H) && Fits(Width(g), W))
    ensures r.Some? ==> HasShape(r.value, H, W)
  {
    if center && !(Fits(|g|, H) && Fits(Width(g), W)) then None
    else
      var y0, x0 := Offset(|g|, H, center), Offset(Width(g), W, center);
      Some(seq(H, i => seq(W, j => PadCell(g, bg, y0, x0, i, j))))
  }

  function PadCell(g: Grid, bg: int, y0: int, x0: int, i: int, j: int): int {
    if y0 <= i < y0 + |g| && x0 <= j < x0 + Width(g) then g[i - y0][j - x0] else bg
  }

  /** Padding to the grid's own shape gives the grid back, in either mode. */
  lemma PadToOwnShape(g: Grid, bg: int, center: bool)
    ensures PadSpec(g, |g|, Width(g), bg, center) == Some(g)
  {
    GridExt(PadSpec(g, |g|, Width(g), bg, center).value, g);
  }

  /**
   * When `g` fits, the padded grid holds `g` at the offset (cropping that
   * window gives `g` back) and `bg` everywhere else.
   */
  lemma PadPlacesInput(g: Grid, H: nat, W: nat, bg: int, center: bool)
    requires 0 < |g| <= H && Width(g) <= W
    ensures var y0, x0 := Offset(|g|, H, center), Offset(Width(g), W, center);
      && 0 <= y0 && y0 + |g| <= H && 0 <= x0 && x0 + Width(g) <= W
      && PadSpec(g, H, W, bg, center).Some?
      && SubGrid(PadSpec(g, H, W, bg, center).value, y0, y0 + |g|, x0, x0 + Width(g)) == g
      && forall i, j :: 0 <= i < H && 0 <= j < W && !(y0 <= i < y0 + |g| && x0 <= j < x0 + Width(g))
           ==> PadSpec(g, H, W, bg, center).value[i][j] == bg
  {
    var y0, x0 := Offset(|g|, H, center), Offset(Width(g), W, center);
    var r := PadSpec(g, H, W, bg, center).value;
    GridExt(SubGrid(r, y0, y0 + |g|, x0, x0 + Width(g)), g);
  }

  /** Top-left mode never fails and keeps the top-left block of `g` that fits. */
  lemma PadTopLeftTruncates(g: Grid, H: nat, W: nat, bg: int)
    ensures PadSpec(g, H, W, bg, false).Some?
    ensures forall i, j :: 0 <= i < H && 0 <= j < W && i < |g| && j < Width(g) ==>
      PadSpec(g, H, W, bg, false).value[i][j] == g[i][j]
  {
  }

  /** Centre mode fails on a non-empty target axis shorter than the grid's. */
  lemma PadCentreFailsOnLarger(g: Grid, H: nat, W: nat, bg: int)
    requires (0 < H < |g|) || (0 < W < Width(g))
    ensures PadSpec(g, H, W, bg, true) == None
  {
  }

  /** `pad_to`, run as the source runs it: fill an H x W array with `bg`, then copy the placed window. */
  method PadTo(g: Grid, H: nat, W: nat, bg: int, center: bool) returns (r: Option<Grid>)
    ensures r == PadSpec(g, H, W, bg, center)
  {
    var h, w := |g|, Width(g);
    var out := new int[H, W]((i, j) => bg);
    var y0, x0 := Offset(h, H, center), Offset(w, W, center);
    if center && !(Fits(h, H) && Fits(w, W)) {
      return None;
    }
    var y1 := if y0 + h < H then y0 + h else H;
    var x1 := if x0 + w < W then x0 + w else W;
    if y1 < 0 { y1 := 0; }
    if x1 < 0 { x1 := 0; }
    var ys := if y0 < 0 then 0 else y0;
    var xs := if x0 < 0 then 0 else x0;
    assert ys <= y1 || y1 == 0;
    var i := ys;
    while i < y1
      invariant ys <= i <= y1 || (i == ys && y1 <= ys)
      invariant forall a, b :: 0 <= a < H && 0 <= b < W ==>
        out[a, b] == (if ys <= a < i then PadCell(g, bg, y0, x0, a, b) else bg)
    {
      var j := xs;
      while j < x1
        invariant xs <= j <= x1 || (j == xs && x1 <= xs)
        invariant forall a, b :: 0 <= a < H && 0 <= b < W ==>
          out[a, b] == (if ys <= a < i || (a == i && xs <= b < j) then PadCell(g, bg, y0, x0, a, b) else bg)
      {
        out[i, j] := g[i - y0][j - x0];
        j := j + 1;
      }
      i := i + 1;
    }
    r := Some(seq(H, a requires 0 <= a < H reads out => seq(W, b requires 0 <= b < W reads out => out[a, b])));
    assert r.value == PadSpec(g, H, W, bg, center).value by {
      GridExt(r.value, PadSpec(g, H, W, bg, center).value);
    }
  }

  // ----------------------------------------------------------- rescaling

  /** Python's `round(a / b)` for `a >= 0`, `b > 0`: nearest integer, halves to the even one. */
  function RoundHalfEven(a: nat, b: nat): nat
    requires b > 0
  {
    var q, rem := a / b, a % b;
    if 2 * rem > b || (2 * rem == b && q % 2 == 1) then q + 1 else q
  }

  /** `RoundHalfEven(a, b)` is an integer nearest to `a / b`, the even one on a tie. */
  lemma RoundHalfEvenNearest(a: nat, b: nat)
    requires b > 0
    ensures var r := RoundHalfEven(a, b);
      && -(b as int) <= 2 * (a - r * b) <= b
      && (2 * (a - r * b) == b || 2 * (a - r * b) == -(b as int) ==> r % 2 == 0)
  {
    var q, rem := a / b, a % b;
    var r := RoundHalfEven(a, b);
    assert q * b + rem == a && 0 <= rem < b;
    if r == q + 1 {
      assert r * b == q * b + b;
    }
  }

  lemma MulAtLeast(x: int, b: nat)
    requires x >= 1
    ensures x * b >= b
  {
    assert x * b == (x - 1) * b + b;
  }

  /** Dividing an exact multiple rounds to the multiplier. */
  lemma RoundExactMultiple(k: nat, b: nat)
    requires b > 0
    ensures RoundHalfEven(k * b, b) == k
  {
    var q, rem := (k * b) / b, (k * b) % b;
    assert q * b + rem == k * b && 0 <= rem < b;
    MulGap(q, k, b);
  }

  /** Distinct multipliers give multiples at least `b` apart. */
  lemma MulGap(q: int, k: int, b: nat)
    ensures q > k ==> q * b - k * b >= b
    ensures q < k ==> k * b - q * b >= b
  {
    if q > k {
      MulAtLeast(q - k, b);
      assert (q - k) * b == q * b - k * b;
    } else if q < k {
      MulAtLeast(k - q, b);
      assert (k - q) * b == k * b - q * b;
    }
  }

  /** A row (or column) index of a replicated grid falls in the original. */
  lemma DivBelow(i: int, s: nat, n: nat)
    requires s >= 1 && 0 <= i < n * s
    ensures 0 <= i / s < n
  {
  }

  /** `np.repeat(np.repeat(g, sy, axis=0), sx, axis=1)`: each cell becomes an sy x sx block. */
  function Repeat(g: Grid, sy: nat, sx: nat): (r: Grid)
    requires sy >= 1 && sx >= 1
    ensures HasShape(r, |g| * sy, Width(g) * sx)
  {
    seq(|g| * sy, i requires 0 <= i < |g| * sy =>
      DivBelow(i, sy, |g|);
      seq(Width(g) * sx, j requires 0 <= j < Width(g) * sx => DivBelow(j, sx, Width(g)); g[i / sy][j / sx]))
  }

  /** Cell (i, j) of the replication is cell (i / sy, j / sx) of the original. */
  lemma RepeatCell(g: Grid, sy: nat, sx: nat, i: nat, j: nat)
    requires sy >= 1 && sx >= 1 && i < |g| * sy && j < Width(g) * sx
    ensures i / sy < |g| && j / sx < Width(g)
    ensures Repeat(g, sy, sx)[i][j] == g[i / sy][j / sx]
  {
    DivBelow(i, sy, |g|);
    DivBelow(j, sx, Width(g));
  }

  function Scale(target: nat, size: nat): (s: nat)
    requires size > 0
    ensures s >= 1
  {
    var q := RoundHalfEven(target, size);
    if q < 1 then 1 else q
  }

  /**
   * `resize_integer_scale`: replicate each cell by `max(1, round(target/size))`
   * along each axis, then centre-crop to the target when the scaled grid
   * covers it on both axes, and centre-pad otherwise (which fails if one
   * axis is longer than the target). An empty object gives an all-`bg` target.
   */
  function ResizeIntegerScale(obj: Grid, th: nat, tw: nat, bg: int): (r: Option<Grid>)
    ensures |obj| == 0 || Width(obj) == 0 ==> r == Some(Full(th, tw, bg))
    ensures r.Some? ==> HasShape(r.value, th, tw)
  {
    if |obj| == 0 || Width(obj) == 0 then Some(Full(th, tw, bg))
    else
      var sy, sx := Scale(th, |obj|), Scale(tw, Width(obj));
      var scaled := Repeat(obj, sy, sx);
      var sh, sw := |obj| * sy, Width(obj) * sx;
      assert |scaled| == sh && Width(scaled) == sw;
      if sh >= th && sw >= tw then
        var y0, x0 := (sh - th) / 2, (sw - tw) / 2;
        Some(SubGrid(scaled, y0, y0 + th, x0, x0 + tw))
      else PadSpec(scaled, th, tw, bg, true)
  }

  /**
   * When the replicated object covers the target on both axes, the result is
   * the centred target-sized window of the replication: target cell (i, j) is
   * object cell ((y0 + i) // sy, (x0 + j) // sx), where (y0, x0) is the offset
   * of the centred window.
   */
  lemma ResizeCropsReplication(obj: Grid, th: nat, tw: nat, bg: int)
    requires |obj| > 0 && Width(obj) > 0
    requires |obj| * Scale(th, |obj|) >= th && Width(obj) * Scale(tw, Width(obj)) >= tw
    ensures var sy, sx := Scale(th, |obj|), Scale(tw, Width(obj));
      var r := ResizeIntegerScale(obj, th, tw, bg);
      && r.Some? && HasShape(r.value, th, tw)
      && Replicates(r.value, obj, sy, sx, (|obj| * sy - th) / 2, (Width(obj) * sx - tw) / 2)
  {
    var sy, sx := Scale(th, |obj|), Scale(tw, Width(obj));
    var y0, x0 := (|obj| * sy - th) / 2, (Width(obj) * sx - tw) / 2;
    assert ResizeIntegerScale(obj, th, tw, bg) == Some(SubGrid(Repeat(obj, sy, sx), y0, y0 + th, x0, x0 + tw));
    WindowReplicates(obj, sy, sx, y0, th, x0, tw);
  }

  /** A window of the replication replicates the object from the window's corner. */
  lemma WindowReplicates(obj: Grid, sy: nat, sx: nat, y0: nat, h: nat, x0: nat, w: nat)
    requires sy >= 1 && sx >= 1
    requires y0 + h <= |Repeat(obj, sy, sx)| && x0 + w <= Width(Repeat(obj, sy, sx))
    ensures Replicates(SubGrid(Repeat(obj, sy, sx), y0, y0 + h, x0, x0 + w), obj, sy, sx, y0, x0)
  {
    var scaled := Repeat(obj, sy, sx);
    var r := SubGrid(scaled, y0, y0 + h, x0, x0 + w);
    forall i, j | 0 <= i < |r| && 0 <= j < Width(r) ensures CellFrom(r, obj, sy, sx, y0, x0, i, j) {
      WindowCell(obj, sy, sx, scaled, r, y0, x0, i, j);
    }
  }

  lemma WindowCell(obj: Grid, sy: nat, sx: nat, scaled: Grid, r: Grid, y0: nat, x0: nat, i: nat, j: nat)
    requires sy >= 1 && sx >= 1 && scaled == Repeat(obj, sy, sx)
    requires y0 + i < |scaled| && x0 + j < Width(scaled)
    requires i < |r| && j < Width(r) && r[i][j] == scaled[y0 + i][x0 + j]
    ensures CellFrom(r, obj, sy, sx, y0, x0, i, j)
  {
    RepeatCell(obj, sy, sx, y0 + i, x0 + j);
  }

  /** `r` is the window at (y0, x0) of `obj` replicated sy x sx times. */
  ghost predicate Replicates(r: Grid, obj: Grid, sy: nat, sx: nat, y0: nat, x0: nat)
    requires sy >= 1 && sx >= 1
  {
    forall i, j :: 0 <= i < |r| && 0 <= j < Width(r) ==> CellFrom(r, obj, sy, sx, y0, x0, i, j)
  }

  /** Cell (i, j) of `r` is cell ((y0 + i) // sy, (x0 + j) // sx) of `obj`. */
  ghost predicate CellFrom(r: Grid, obj: Grid, sy: nat, sx: nat, y0: nat, x0: nat, i: nat, j: nat)
    requires sy >= 1 && sx >= 1
  {
    && i < |r| && j < Width(r) && (y0 + i) / sy < |obj| && (x0 + j) / sx < Width(obj)
    && r[i][j] == obj[(y0 + i) / sy][(x0 + j) / sx]
  }

  /** A target that is an exact multiple of the object is its plain replication, with no crop. */
  lemma ResizeExactMultiple(obj: Grid, ky: nat, kx: nat, bg: int)
    requires |obj| > 0 && Width(obj) > 0 && ky >= 1 && kx >= 1
    ensures ResizeIntegerScale(obj, ky * |obj|, kx * Width(obj), bg) == Some(Repeat(obj, ky, kx))
  {
    RoundExactMultiple(ky, |obj|);
    RoundExactMultiple(kx, Width(obj));
    var r := ResizeIntegerScale(obj, ky * |obj|, kx * Width(obj), bg).value;
    GridExt(r, Repeat(obj, ky, kx));
  }

  // ------------------------------------------------------------- tiling

  /** The `th` x `tw` top-left block tiles `g`: both divide the shape and every cell repeats it. */
  predicate TileFits(g: Grid, th: int, tw: int) {
    1 <= th <= |g| && 1 <= tw <= Width(g) && |g| % th == 0 && Width(g) % tw == 0 &&
    forall i, j :: 0 <= i < |g| && 0 <= j < Width(g) ==> g[i][j] == g[i % th][j % tw]
  }

  /** `(a, b)` comes before `(c, d)` in the search order: by height, then by width. */
  predicate Before(a: int, b: int, c: int, d: int) {
    a < c || (a == c && b < d)
  }

  /**
   * The search of `smallest_tile` from (th, tw) onwards: the first fitting
   * block in (height, width) order, or None.
   */
  function TileSearch(g: Grid, th: nat, tw: nat): (r: Option<Grid>)
    requires th >= 1 && tw >= 1
    ensures r.Some? ==> var t := r.value;
      && TileFits(g, |t|, Width(t)) && t == SubGrid(g, 0, |t|, 0, Width(t))
      && !Before(|t|, Width(t), th, tw)
      && forall a, b :: !Before(a, b, th, tw) && Before(a, b, |t|, Width(t)) ==> !TileFits(g, a, b)
    ensures r.None? ==> forall a, b :: !Before(a, b, th, tw) ==> !TileFits(g, a, b)
    decreases |g| + 1 - th, Width(g) + 1 - tw
  {
    if th > |g| then None
    else if |g| % th != 0 || tw > Width(g) then TileSearch(g, th + 1, 1)
    else if Width(g) % tw == 0 && TileFits(g, th, tw) then Some(SubGrid(g, 0, th, 0, tw))
    else TileSearch(g, th, tw + 1)
  }

  /** `smallest_tile`: the first top-left block, by height then width, whose tiling is the grid. */
  function SmallestTileSpec(g: Grid): Option<Grid> {
    TileSearch(g, 1, 1)
  }

  /** A non-empty grid always has a tile: at worst the grid itself. */
  lemma SmallestTileExists(g: Grid)
    requires |g| > 0 && Width(g) > 0
    ensures SmallestTileSpec(g).Some?
  {
    WholeTileFits(g);
  }

  lemma WholeTileFits(g: Grid)
    requires |g| > 0 && Width(g) > 0
    ensures TileFits(g, |g|, Width(g))
  {
    forall i, j | 0 <= i < |g| && 0 <= j < Width(g) ensures g[i][j] == g[i % |g|][j % Width(g)] {
      assert i % |g| == i && j % Width(g) == j;
    }
  }

  /** `smallest_tile` as the source runs it: nested loops over heights and widths, stopping at the first fit. */
  method SmallestTile(g: Grid) returns (r: Option<Grid>)
    ensures r == SmallestTileSpec(g)
  {
    var h, w := |g|, Width(g);
    var th := 1;
    while th <= h
      invariant 1 <= th <= h + 1
      invariant SmallestTileSpec(g) == TileSearch(g, th, 1)
    {
      if h % th == 0 {
        var tw := 1;
        while tw <= w
          invariant 1 <= tw <= w + 1
          invariant SmallestTileSpec(g) == TileSearch(g, th, tw)
        {
          if w % tw == 0 && TileFits(g, th, tw) {
            return Some(SubGrid(g, 0, th, 0, tw));
          }
          tw := tw + 1;
        }
      }
      th := th + 1;
    }
    return None;
  }
}
