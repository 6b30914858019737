/**
 * The operator catalog (`BASIC_OPS`). Every operator maps an input grid, a
 * target shape (H, W) and the training pairs to a grid; `None` stands for a
 * raised exception. `OpSpec` states each operator's result; `ApplyOp` runs
 * the operators as the source does and is proved to agree with it.
 */
module Ops {
  import opened Wrappers
  import opened Counting
  import opened Grids
  import opened Components
  import opened ColourMaps

  datatype Op =
    | Identity
    | Rotate90
    | Rotate180
    | Rotate270
    | MirrorHOp
    | MirrorVOp
    | TransposeOp
    | CropCenterPad
    | RecolorLearned
    | LargestCcCenter
    | IntegerResizeFg
    | MajorityFill
    | CompleteByReflection
    | ProjectRowsOrCols
    | TileSmallestPatch
    | OutlineCc

  /** `BASIC_OPS`, in its order. */
  const BasicOps: seq<Op> := [
    Identity,
    Rotate90, Rotate180, Rotate270,
    MirrorHOp, MirrorVOp,
    TransposeOp,
    CropCenterPad,
    RecolorLearned,
    LargestCcCenter,
    IntegerResizeFg,
    MajorityFill,
    CompleteByReflection,
    ProjectRowsOrCols,
    TileSmallestPatch,
    OutlineCc
  ]

  /** The function's `__name__`, which candidate labels are made of. */
  function Name(op: Op): string {
    match op
    case Identity => "op_identity"
    case Rotate90 => "op_rotate90"
    case Rotate180 => "op_rotate180"
    case Rotate270 => "op_rotate270"
    case MirrorHOp => "op_mirror_h"
    case MirrorVOp => "op_mirror_v"
    case TransposeOp => "op_transpose"
    case CropCenterPad => "op_crop_center_pad"
    case RecolorLearned => "op_recolor_learned"
    case LargestCcCenter => "op_largest_cc_center"
    case IntegerResizeFg => "op_integer_resize_fg"
    case MajorityFill => "op_majority_fill"
    case CompleteByReflection => "op_complete_by_reflection"
    case ProjectRowsOrCols => "op_project_rows_or_cols"
    case TileSmallestPatch => "op_tile_smallest_patch"
    case OutlineCc => "op_outline_cc"
  }

  /** The position of an operator in `BASIC_OPS`. */
  function Position(op: Op): (i: nat)
    ensures i < |BasicOps|
  {
    match op
    case Identity => 0
    case Rotate90 => 1
    case Rotate180 => 2
    case Rotate270 => 3
    case MirrorHOp => 4
    case MirrorVOp => 5
    case TransposeOp => 6
    case CropCenterPad => 7
    case RecolorLearned => 8
    case LargestCcCenter => 9
    case IntegerResizeFg => 10
    case MajorityFill => 11
    case CompleteByReflection => 12
    case ProjectRowsOrCols => 13
    case TileSmallestPatch => 14
    case OutlineCc => 15
  }

  /** Every operator is in the catalog, at its position, and no operator is listed twice. */
  lemma CatalogComplete(op: Op)
    ensures BasicOps[Position(op)] == op
    ensures forall i :: 0 <= i < |BasicOps| && BasicOps[i] == op ==> i == Position(op)
  {
  }

  /** The operator a name stands for. */
  function OpNamed(name: string): (r: Option<Op>)
  {
    if name == "op_identity" then Some(Identity)
    else if name == "op_rotate90" then Some(Rotate90)
    else if name == "op_rotate180" then Some(Rotate180)
    else if name == "op_rotate270" then Some(Rotate270)
    else if name == "op_mirror_h" then Some(MirrorHOp)
    else if name == "op_mirror_v" then Some(MirrorVOp)
    else if name == "op_transpose" then Some(TransposeOp)
    else if name == "op_crop_center_pad" then Some(CropCenterPad)
    else if name == "op_recolor_learned" then Some(RecolorLearned)
    else if name == "op_largest_cc_center" then Some(LargestCcCenter)
    else if name == "op_integer_resize_fg" then Some(IntegerResizeFg)
    else if name == "op_majority_fill" then Some(MajorityFill)
    else if name == "op_complete_by_reflection" then Some(CompleteByReflection)
    else if name == "op_project_rows_or_cols" then Some(ProjectRowsOrCols)
    else if name == "op_tile_smallest_patch" then Some(TileSmallestPatch)
    else if name == "op_outline_cc" then Some(OutlineCc)
    else None
  }

  /** Every operator is recovered from its name, so no two operators share a name. */
  lemma NameRoundTrip(op: Op)
    ensures OpNamed(Name(op)) == Some(op)
  {
    match op
    case Identity =>
    case Rotate90 =>
    case Rotate180 =>
    case Rotate270 =>
    case MirrorHOp =>
    case MirrorVOp =>
    case TransposeOp =>
    case CropCenterPad =>
    case RecolorLearned =>
    case LargestCcCenter =>
    case IntegerResizeFg =>
    case MajorityFill =>
    case CompleteByReflection =>
    case ProjectRowsOrCols =>
    case TileSmallestPatch =>
    case OutlineCc =>
  }

  // ------------------------------------------------------ largest component

  /** Some listing of a finite set of cells. */
  lemma {:induction false} ListingExists(s: set<Cell>)
    ensures exists p :: Elems(p) == s
    decreases |s|
  {
    if s == {} {
      assert Elems([]) == s;
    } else {
      var c :| c in s;
      ListingExists(s - {c});
      var p :| Elems(p) == s - {c};
      assert forall x :: x in p + [c] <==> x in p || x == c;
      assert Elems(p + [c]) == Elems(p) + {c};
      assert s == (s - {c}) + {c};
    }
  }

  ghost function Listing(s: set<Cell>): (p: seq<Cell>)
    ensures Elems(p) == s
  {
    ListingExists(s);
    var p :| Elems(p) == s; p
  }

  /** The bounding box depends only on which pixels are listed, not on their order or repetition. */
  lemma BboxSameCells(p: seq<Cell>, q: seq<Cell>)
    requires |p| > 0 && Elems(p) == Elems(q)
    ensures |q| > 0 && BboxOfPixels(p) == BboxOfPixels(q)
  {
    assert p[0] in Elems(q);
    var a, b := BboxOfPixels(p), BboxOfPixels(q);
    var u :| u in p && u.0 == a.y0;
    var v :| v in q && v.0 == b.y0;
    assert u in Elems(q) && v in Elems(p);
    u :| u in p && u.0 == a.y1;
    v :| v in q && v.0 == b.y1;
    assert u in Elems(q) && v in Elems(p);
    u :| u in p && u.1 == a.x0;
    v :| v in q && v.1 == b.x0;
    assert u in Elems(q) && v in Elems(p);
    u :| u in p && u.1 == a.x1;
    v :| v in q && v.1 == b.x1;
    assert u in Elems(q) && v in Elems(p);
  }

  /** The box of in-grid pixels lies in the grid. */
  lemma BboxInside(g: Grid, pixels: seq<Cell>)
    requires |pixels| > 0 && forall p :: p in pixels ==> InGrid(g, p.0, p.1)
    ensures var b := BboxOfPixels(pixels);
      0 <= b.y0 <= b.y1 < |g| && 0 <= b.x0 <= b.x1 < Width(g)
  {
    var b := BboxOfPixels(pixels);
    var u :| u in pixels && u.0 == b.y0;
    u :| u in pixels && u.0 == b.y1;
    u :| u in pixels && u.1 == b.x0;
    u :| u in pixels && u.1 == b.x1;
    assert pixels[0] in pixels;
  }

  /** The size of each component, in reporting order. */
  ghost function ComponentSizes(g: Grid, bg: int): (sz: seq<int>)
    ensures |sz| == |Starts(g, bg)|
    ensures forall k :: 0 <= k < |sz| ==> sz[k] == |Component(g, Starts(g, bg)[k])|
  {
    var st := Starts(g, bg);
    seq(|st|, k requires 0 <= k < |st| => |Component(g, st[k])|)
  }

  /** `max(comps, key=len(pixels))`: the first reported component of the largest size. */
  ghost function LargestStart(g: Grid, bg: int): (s: Cell)
    requires |Starts(g, bg)| > 0
    ensures s in Starts(g, bg)
  {
    Starts(g, bg)[FirstLargest(ComponentSizes(g, bg))]
  }

  /**
   * The chosen component is at least as large as every component and
   * strictly larger than every component reported before it.
   */
  lemma LargestStartIsFirstLargest(g: Grid, bg: int)
    requires |Starts(g, bg)| > 0
    ensures var s := LargestStart(g, bg);
      && IsStart(g, bg, s)
      && (forall c :: IsStart(g, bg, c) ==> |Component(g, c)| <= |Component(g, s)|)
      && (forall c :: IsStart(g, bg, c) && Earlier(c, s.0, s.1) ==> |Component(g, c)| < |Component(g, s)|)
  {
    var st, sz := Starts(g, bg), ComponentSizes(g, bg);
    var i := FirstLargest(sz);
    forall c | IsStart(g, bg, c)
      ensures |Component(g, c)| <= |Component(g, st[i])|
      ensures Earlier(c, st[i].0, st[i].1) ==> |Component(g, c)| < |Component(g, st[i])|
    {
      var k :| 0 <= k < |st| && st[k] == c;
      FirstLargestInOrder(st, sz, k);
    }
  }

  /** In a list ordered by `Earlier`, nothing listed before the first largest value is as large. */
  lemma FirstLargestInOrder(st: seq<Cell>, sz: seq<int>, k: nat)
    requires |st| == |sz| > 0 && k < |st|
    requires forall a, b :: 0 <= a < b < |st| ==> Earlier(st[a], st[b].0, st[b].1)
    ensures var i := FirstLargest(sz);
      sz[k] <= sz[i] && (Earlier(st[k], st[i].0, st[i].1) ==> sz[k] < sz[i])
  {
    var i := FirstLargest(sz);
    if k > i {
      assert Earlier(st[i], st[k].0, st[k].1);
    }
  }

  /** The bounding box of the largest component, which lies in the grid. */
  ghost function LargestBox(g: Grid, bg: int): (b: Box)
    requires |Starts(g, bg)| > 0
    ensures 0 <= b.y0 <= b.y1 < |g| && 0 <= b.x0 <= b.x1 < Width(g)
    ensures forall c :: c in Component(g, LargestStart(g, bg)) ==> b.y0 <= c.0 <= b.y1 && b.x0 <= c.1 <= b.x1
  {
    var s := LargestStart(g, bg);
    assert IsStart(g, bg, s);
    var pix := Listing(Component(g, s));
    ComponentColour(g, s);
    assert s in pix;
    BboxInside(g, pix);
    BboxOfPixels(pix)
  }

  /**
   * `op_largest_cc_center`: the bounding-box window of the largest
   * component, centre-padded; the centre pad of the input when there is no
   * component.
   */
  ghost function LargestCcSpec(g: Grid, H: nat, W: nat): Option<Grid> {
    var bg := BgColor(g);
    if |Starts(g, bg)| == 0 then PadSpec(g, H, W, bg, true)
    else
      var b := LargestBox(g, bg);
      PadSpec(SubGrid(g, b.y0, b.y1 + 1, b.x0, b.x1 + 1), H, W, bg, true)
  }

  /** A list without repetitions has as many elements as it has members. */
  lemma {:induction false} DistinctCount(s: seq<Cell>)
    requires NoDups(s)
    ensures |Elems(s)| == |s|
  {
    if s != [] {
      var t := s[..|s| - 1];
      assert Elems(s) == Elems(t) + {s[|s| - 1]};
      assert s[|s| - 1] !in Elems(t);
      DistinctCount(t);
    }
  }

  /** The number of pixels of each reported component. */
  function PixelCounts(comps: seq<(int, seq<Cell>)>): seq<int>
  {
    seq(|comps|, k requires 0 <= k < |comps| => |comps[k].1|)
  }

  /** The box of the first longest reported pixel list is the box of the largest component. */
  lemma LargestWindow(g: Grid, bg: int, comps: seq<(int, seq<Cell>)>)
    requires |comps| == |Starts(g, bg)| > 0
    requires forall k :: 0 <= k < |comps| ==> Reports(g, comps[k], Starts(g, bg)[k])
    ensures |comps[FirstLargest(PixelCounts(comps))].1| > 0
    ensures BboxOfPixels(comps[FirstLargest(PixelCounts(comps))].1) == LargestBox(g, bg)
  {
    SizesAgree(g, bg, comps, PixelCounts(comps));
    var k := FirstLargest(PixelCounts(comps));
    assert Reports(g, comps[k], Starts(g, bg)[k]);
    BboxSameCells(comps[k].1, Listing(Component(g, LargestStart(g, bg))));
  }

  /** `op_largest_cc_center` as the source runs it. */
  method LargestCcCenterOp(g: Grid, H: nat, W: nat) returns (r: Option<Grid>)
    ensures r == LargestCcSpec(g, H, W)
  {
    var bg := BgColor(g);
    var found, pix := LargestPixels(g, bg);
    if !found {
      r := PadTo(g, H, W, bg, true);
    } else {
      var b := BboxOfPixels(pix);
      r := PadTo(SubGrid(g, b.y0, b.y1 + 1, b.x0, b.x1 + 1), H, W, bg, true);
    }
  }

  /** The pixel list of the first largest reported component, if there is a component. */
  method LargestPixels(g: Grid, bg: int) returns (found: bool, pix: seq<Cell>)
    ensures found <==> |Starts(g, bg)| > 0
    ensures found ==> |pix| > 0 && BboxOfPixels(pix) == LargestBox(g, bg)
  {
    var comps := ConnectedComponents(g, bg);
    found := |comps| > 0;
    if found {
      pix := comps[FirstLargest(PixelCounts(comps))].1;
      LargestWindow(g, bg, comps);
    } else {
      pix := [];
    }
  }

  /** The lengths of the reported pixel lists are the component sizes. */
  lemma SizesAgree(g: Grid, bg: int, comps: seq<(int, seq<Cell>)>, sizes: seq<int>)
    requires |comps| == |Starts(g, bg)|
    requires forall k :: 0 <= k < |comps| ==> Reports(g, comps[k], Starts(g, bg)[k])
    requires |sizes| == |comps| && forall k :: 0 <= k < |comps| ==> sizes[k] == |comps[k].1|
    ensures sizes == ComponentSizes(g, bg)
  {
    forall k | 0 <= k < |comps| ensures sizes[k] == ComponentSizes(g, bg)[k] {
      DistinctCount(comps[k].1);
    }
  }

  // -------------------------------------------------------- majority fill

  /** `op_majority_fill` never changes the centre pad: the two colour functions agree, so bg is written over bg. */
  lemma MajorityFillIsIdentity(g: Grid, H: nat, W: nat, pairs: seq<Pair>)
    ensures OpSpec(MajorityFill, g, H, W, pairs) == OpSpec(Identity, g, H, W, pairs)
  {
    var bg := BgColor(g);
    var a := PadSpec(g, H, W, bg, true);
    if a.Some? {
      GridExt(Recolor(a.value, map[bg := bg]), a.value);
    }
  }

  // ----------------------------------------------- completion by reflection

  /** The half that `op_complete_by_reflection` rewrites, if any. */
  datatype Half = RightHalf | LeftHalf | BottomHalf | TopHalf | NoHalf

  /** `np.sum(part != bg)`. */
  function FgCount(part: Grid, bg: int): nat {
    |FgCells(part, bg)|
  }

  /**
   * The first sparse half, in the source's order: a half is sparse when its
   * non-`bg` count is below a quarter (rounded down) of the opposite half's.
   * A grid with no rows has no non-`bg` cells, so nothing is sparse.
   */
  function SparseHalf(a: Grid, H: nat, W: nat, bg: int): Half
    requires HasShape(a, H, W)
  {
    if H == 0 then NoHalf
    else
      var hw, hh := W / 2, H / 2;
      var left, right := FgCount(SubGrid(a, 0, H, 0, hw), bg), FgCount(SubGrid(a, 0, H, W - hw, W), bg);
      var top, bot := FgCount(SubGrid(a, 0, hh, 0, W), bg), FgCount(SubGrid(a, H - hh, H, 0, W), bg);
      if right < left / 4 then RightHalf
      else if left < right / 4 then LeftHalf
      else if bot < top / 4 then BottomHalf
      else if top < bot / 4 then TopHalf
      else NoHalf
  }

  /** `out[r0:r0+h, c0:c0+w] = block` on a copy of `a`. */
  function Paste(a: Grid, block: Grid, r0: nat, c0: nat): (r: Grid)
    requires r0 + |block| <= |a| && c0 + Width(block) <= Width(a)
    ensures HasShape(r, |a|, Width(a))
    ensures forall i, j :: 0 <= i < |a| && 0 <= j < Width(a) ==>
      r[i][j] == if r0 <= i < r0 + |block| && c0 <= j < c0 + Width(block) then block[i - r0][j - c0] else a[i][j]
  {
    seq(|a|, i requires 0 <= i < |a| => seq(Width(a), j requires 0 <= j < Width(a) =>
      if r0 <= i < r0 + |block| && c0 <= j < c0 + Width(block) then block[i - r0][j - c0] else a[i][j]))
  }

  /** The mirrored block written over the sparse half, and where it goes. */
  function Patch(a: Grid, H: nat, W: nat, side: Half): (p: (Grid, nat, nat))
    requires HasShape(a, H, W) && H > 0 && !side.NoHalf?
    ensures p.1 + |p.0| <= |a| && p.2 + Width(p.0) <= Width(a)
  {
    var hw, hh := W / 2, H / 2;
    match side
    case RightHalf => (MirrorH(SubGrid(a, 0, H, 0, hw)), 0, W - hw)
    case LeftHalf => (MirrorH(SubGrid(a, 0, H, W - hw, W)), 0, 0)
    case BottomHalf => (MirrorV(SubGrid(a, 0, hh, 0, W)), H - hh, 0)
    case TopHalf => (MirrorV(SubGrid(a, H - hh, H, 0, W)), 0, 0)
  }

  /** The grid after rewriting `side` as the mirror image of the opposite half. */
  function Reflected(a: Grid, H: nat, W: nat, side: Half): (r: Grid)
    requires HasShape(a, H, W)
    ensures HasShape(r, H, W)
  {
    if side.NoHalf? || H == 0 then a
    else
      var p := Patch(a, H, W, side);
      Paste(a, p.0, p.1, p.2)
  }

  /** `op_complete_by_reflection` on the padded grid `a`. */
  function Reflection(a: Grid, H: nat, W: nat, bg: int): (r: Grid)
    requires HasShape(a, H, W)
    ensures HasShape(r, H, W)
  {
    Reflected(a, H, W, SparseHalf(a, H, W, bg))
  }

  /**
   * At most one half is rewritten, and it is rewritten as the mirror image
   * of the opposite half, so the result is symmetric across the middle
   * line; the other half, and the middle line of an odd size, are untouched.
   */
  lemma ReflectionCompletes(a: Grid, H: nat, W: nat, bg: int)
    requires HasShape(a, H, W)
    ensures var r, side := Reflection(a, H, W, bg), SparseHalf(a, H, W, bg);
      && (side.NoHalf? ==> r == a)
      && (side.RightHalf? ==> MirrorH(r) == r && forall i, j :: 0 <= i < H && 0 <= j < W - W / 2 ==> r[i][j] == a[i][j])
      && (side.LeftHalf? ==> MirrorH(r) == r && forall i, j :: 0 <= i < H && W / 2 <= j < W ==> r[i][j] == a[i][j])
      && (side.BottomHalf? ==> MirrorV(r) == r && forall i, j :: 0 <= i < H - H / 2 && 0 <= j < W ==> r[i][j] == a[i][j])
      && (side.TopHalf? ==> MirrorV(r) == r && forall i, j :: H / 2 <= i < H && 0 <= j < W ==> r[i][j] == a[i][j])
  {
    ReflectedSymmetric(a, H, W, SparseHalf(a, H, W, bg));
  }

  lemma ReflectedSymmetric(a: Grid, H: nat, W: nat, side: Half)
    requires HasShape(a, H, W)
    ensures var r := Reflected(a, H, W, side);
      && (side.NoHalf? ==> r == a)
      && (side.RightHalf? ==> MirrorH(r) == r && forall i, j :: 0 <= i < H && 0 <= j < W - W / 2 ==> r[i][j] == a[i][j])
      && (side.LeftHalf? ==> MirrorH(r) == r && forall i, j :: 0 <= i < H && W / 2 <= j < W ==> r[i][j] == a[i][j])
      && (side.BottomHalf? ==> MirrorV(r) == r && forall i, j :: 0 <= i < H - H / 2 && 0 <= j < W ==> r[i][j] == a[i][j])
      && (side.TopHalf? ==> MirrorV(r) == r && forall i, j :: H / 2 <= i < H && 0 <= j < W ==> r[i][j] == a[i][j])
  {
    if H == 0 {
      assert MirrorH(a) == a && MirrorV(a) == a;
    } else {
      match side
      case NoHalf =>
      case RightHalf => ReflectedRight(a, H, W, W / 2);
      case LeftHalf => ReflectedLeft(a, H, W, W / 2);
      case BottomHalf => ReflectedBottom(a, H, W, H / 2);
      case TopHalf => ReflectedTop(a, H, W, H / 2);
    }
  }

  lemma ReflectedRight(a: Grid, H: nat, W: nat, hw: nat)
    requires HasShape(a, H, W) && H > 0 && hw == W / 2
    ensures var r := Reflected(a, H, W, RightHalf);
      MirrorH(r) == r && forall i, j :: 0 <= i < H && 0 <= j < W - hw ==> r[i][j] == a[i][j]
  {
    assert Reflected(a, H, W, RightHalf) == Paste(a, MirrorH(SubGrid(a, 0, H, 0, hw)), 0, W - hw);
    MirrorRight(a, H, W, hw);
  }

  lemma ReflectedLeft(a: Grid, H: nat, W: nat, hw: nat)
    requires HasShape(a, H, W) && H > 0 && hw == W / 2
    ensures var r := Reflected(a, H, W, LeftHalf);
      MirrorH(r) == r && forall i, j :: 0 <= i < H && hw <= j < W ==> r[i][j] == a[i][j]
  {
    assert Reflected(a, H, W, LeftHalf) == Paste(a, MirrorH(SubGrid(a, 0, H, W - hw, W)), 0, 0);
    MirrorLeft(a, H, W, hw);
  }

  lemma ReflectedBottom(a: Grid, H: nat, W: nat, hh: nat)
    requires HasShape(a, H, W) && H > 0 && hh == H / 2
    ensures var r := Reflected(a, H, W, BottomHalf);
      MirrorV(r) == r && forall i, j :: 0 <= i < H - hh && 0 <= j < W ==> r[i][j] == a[i][j]
  {
    assert Reflected(a, H, W, BottomHalf) == Paste(a, MirrorV(SubGrid(a, 0, hh, 0, W)), H - hh, 0);
    MirrorBottom(a, H, W, hh);
  }

  lemma ReflectedTop(a: Grid, H: nat, W: nat, hh: nat)
    requires HasShape(a, H, W) && H > 0 && hh == H / 2
    ensures var r := Reflected(a, H, W, TopHalf);
      MirrorV(r) == r && forall i, j :: hh <= i < H && 0 <= j < W ==> r[i][j] == a[i][j]
  {
    var block := MirrorV(SubGrid(a, H - hh, H, 0, W));
    assert Patch(a, H, W, TopHalf) == (block, 0, 0);
    assert Reflected(a, H, W, TopHalf) == Paste(a, block, 0, 0);
    MirrorTop(a, H, W, hh);
  }

  /** Cell (i, j) after mirroring the left half onto the right half. */
  lemma RightCell(a: Grid, H: nat, W: nat, hw: nat, i: nat, j: nat)
    requires HasShape(a, H, W) && H > 0 && 2 * hw <= W <= 2 * hw + 1 && i < H && j < W
    ensures Paste(a, MirrorH(SubGrid(a, 0, H, 0, hw)), 0, W - hw)[i][j] == if j >= W - hw then a[i][W - 1 - j] else a[i][j]
  {
    var left := SubGrid(a, 0, H, 0, hw);
    var block := MirrorH(left);
    assert |block| == H && Width(block) == hw;
    if j >= W - hw {
      assert block[i][j - (W - hw)] == left[i][W - 1 - j];
    }
  }

  /** Cell (i, j) after mirroring the right half onto the left half. */
  lemma LeftCell(a: Grid, H: nat, W: nat, hw: nat, i: nat, j: nat)
    requires HasShape(a, H, W) && H > 0 && 2 * hw <= W <= 2 * hw + 1 && i < H && j < W
    ensures Paste(a, MirrorH(SubGrid(a, 0, H, W - hw, W)), 0, 0)[i][j] == if j < hw then a[i][W - 1 - j] else a[i][j]
  {
    var right := SubGrid(a, 0, H, W - hw, W);
    var block := MirrorH(right);
    assert |block| == H && Width(block) == hw;
    if j < hw {
      assert block[i][j] == right[i][hw - 1 - j];
    }
  }

  /** Cell (i, j) after mirroring the top half onto the bottom half. */
  lemma BottomCell(a: Grid, H: nat, W: nat, hh: nat, i: nat, j: nat)
    requires HasShape(a, H, W) && H > 0 && 2 * hh <= H <= 2 * hh + 1 && i < H && j < W
    ensures Paste(a, MirrorV(SubGrid(a, 0, hh, 0, W)), H - hh, 0)[i][j] == if i >= H - hh then a[H - 1 - i][j] else a[i][j]
  {
    var top := SubGrid(a, 0, hh, 0, W);
    var block := MirrorV(top);
    if i >= H - hh {
      assert |block| == hh > 0 && Width(block) == W;
      assert block[i - (H - hh)] == top[H - 1 - i];
    }
  }

  /** Cell (i, j) after mirroring the bottom half onto the top half. */
  lemma TopCell(a: Grid, H: nat, W: nat, hh: nat, i: nat, j: nat)
    requires HasShape(a, H, W) && H > 0 && 2 * hh <= H <= 2 * hh + 1 && i < H && j < W
    ensures Paste(a, MirrorV(SubGrid(a, H - hh, H, 0, W)), 0, 0)[i][j] == if i < hh then a[H - 1 - i][j] else a[i][j]
  {
    var bot := SubGrid(a, H - hh, H, 0, W);
    var block := MirrorV(bot);
    if i < hh {
      assert |block| == hh > 0 && Width(block) == W;
      assert block[i] == bot[hh - 1 - i];
    }
  }

  lemma MirrorRight(a: Grid, H: nat, W: nat, hw: nat)
    requires HasShape(a, H, W) && H > 0 && 2 * hw <= W <= 2 * hw + 1
    ensures var r := Paste(a, MirrorH(SubGrid(a, 0, H, 0, hw)), 0, W - hw);
      MirrorH(r) == r && forall i, j :: 0 <= i < H && 0 <= j < W - hw ==> r[i][j] == a[i][j]
  {
    var r := Paste(a, MirrorH(SubGrid(a, 0, H, 0, hw)), 0, W - hw);
    forall i, j | 0 <= i < H && 0 <= j < W ensures r[i][j] == if j >= W - hw then a[i][W - 1 - j] else a[i][j] {
      RightCell(a, H, W, hw, i, j);
    }
    RightFolded(r, a, H, W, hw);
  }

  /** A grid whose right `hw` columns mirror the left columns of `a`, and whose other columns are those of `a`, is symmetric. */
  lemma RightFolded(r: Grid, a: Grid, H: nat, W: nat, hw: nat)
    requires HasShape(r, H, W) && HasShape(a, H, W) && 2 * hw <= W <= 2 * hw + 1
    requires forall i, j {:trigger r[i][j]} :: 0 <= i < H && 0 <= j < W ==> r[i][j] == if j >= W - hw then a[i][W - 1 - j] else a[i][j]
    ensures MirrorH(r) == r && forall i, j :: 0 <= i < H && 0 <= j < W - hw ==> r[i][j] == a[i][j]
  {
    forall i, j | 0 <= i < H && 0 <= j < W ensures MirrorH(r)[i][j] == r[i][j] {
      var jj := W - 1 - j;
      assert Width(r) == W;
      assert MirrorH(r)[i][j] == r[i][jj];
      assert r[i][jj] == if jj >= W - hw then a[i][W - 1 - jj] else a[i][jj];
      assert W - 1 - jj == j;
    }
    GridExt(MirrorH(r), r);
  }

  lemma MirrorLeft(a: Grid, H: nat, W: nat, hw: nat)
    requires HasShape(a, H, W) && H > 0 && 2 * hw <= W <= 2 * hw + 1
    ensures var r := Paste(a, MirrorH(SubGrid(a, 0, H, W - hw, W)), 0, 0);
      MirrorH(r) == r && forall i, j :: 0 <= i < H && hw <= j < W ==> r[i][j] == a[i][j]
  {
    var r := Paste(a, MirrorH(SubGrid(a, 0, H, W - hw, W)), 0, 0);
    forall i, j | 0 <= i < H && 0 <= j < W ensures r[i][j] == if j < hw then a[i][W - 1 - j] else a[i][j] {
      LeftCell(a, H, W, hw, i, j);
    }
    LeftFolded(r, a, H, W, hw);
  }

  /** A grid whose left `hw` columns mirror the right columns of `a`, and whose other columns are those of `a`, is symmetric. */
  lemma LeftFolded(r: Grid, a: Grid, H: nat, W: nat, hw: nat)
    requires HasShape(r, H, W) && HasShape(a, H, W) && 2 * hw <= W <= 2 * hw + 1
    requires forall i, j {:trigger r[i][j]} :: 0 <= i < H && 0 <= j < W ==> r[i][j] == if j < hw then a[i][W - 1 - j] else a[i][j]
    ensures MirrorH(r) == r && forall i, j :: 0 <= i < H && hw <= j < W ==> r[i][j] == a[i][j]
  {
    forall i, j | 0 <= i < H && 0 <= j < W ensures MirrorH(r)[i][j] == r[i][j] {
      var jj := W - 1 - j;
      assert Width(r) == W;
      assert MirrorH(r)[i][j] == r[i][jj];
      assert r[i][jj] == if jj < hw then a[i][W - 1 - jj] else a[i][jj];
      assert W - 1 - jj == j;
    }
    GridExt(MirrorH(r), r);
  }

  lemma MirrorBottom(a: Grid, H: nat, W: nat, hh: nat)
    requires HasShape(a, H, W) && H > 0 && 2 * hh <= H <= 2 * hh + 1
    ensures var r := Paste(a, MirrorV(SubGrid(a, 0, hh, 0, W)), H - hh, 0);
      MirrorV(r) == r && forall i, j :: 0 <= i < H - hh && 0 <= j < W ==> r[i][j] == a[i][j]
  {
    var r := Paste(a, MirrorV(SubGrid(a, 0, hh, 0, W)), H - hh, 0);
    forall i, j | 0 <= i < H && 0 <= j < W ensures r[i][j] == if i >= H - hh then a[H - 1 - i][j] else a[i][j] {
      BottomCell(a, H, W, hh, i, j);
    }
    BottomFolded(r, a, H, W, hh);
  }

  /** A grid whose bottom `hh` rows mirror the top rows of `a`, and whose other rows are those of `a`, is symmetric. */
  lemma BottomFolded(r: Grid, a: Grid, H: nat, W: nat, hh: nat)
    requires HasShape(r, H, W) && HasShape(a, H, W) && 2 * hh <= H <= 2 * hh + 1
    requires forall i, j :: 0 <= i < H && 0 <= j < W ==> r[i][j] == if i >= H - hh then a[H - 1 - i][j] else a[i][j]
    ensures MirrorV(r) == r && forall i, j :: 0 <= i < H - hh && 0 <= j < W ==> r[i][j] == a[i][j]
  {
    forall i, j | 0 <= i < H && 0 <= j < W ensures MirrorV(r)[i][j] == r[i][j] {
      assert r[H - 1 - i][j] == if H - 1 - i >= H - hh then a[i][j] else a[H - 1 - i][j];
    }
    GridExt(MirrorV(r), r);
  }

  lemma MirrorTop(a: Grid, H: nat, W: nat, hh: nat)
    requires HasShape(a, H, W) && H > 0 && 2 * hh <= H <= 2 * hh + 1
    ensures var r := Paste(a, MirrorV(SubGrid(a, H - hh, H, 0, W)), 0, 0);
      MirrorV(r) == r && forall i, j :: hh <= i < H && 0 <= j < W ==> r[i][j] == a[i][j]
  {
    var r := Paste(a, MirrorV(SubGrid(a, H - hh, H, 0, W)), 0, 0);
    forall i, j | 0 <= i < H && 0 <= j < W ensures r[i][j] == if i < hh then a[H - 1 - i][j] else a[i][j] {
      TopCell(a, H, W, hh, i, j);
    }
    TopFolded(r, a, H, W, hh);
  }

  /** A grid whose top `hh` rows mirror the bottom rows of `a`, and whose other rows are those of `a`, is symmetric. */
  lemma TopFolded(r: Grid, a: Grid, H: nat, W: nat, hh: nat)
    requires HasShape(r, H, W) && HasShape(a, H, W) && 2 * hh <= H <= 2 * hh + 1
    requires forall i, j :: 0 <= i < H && 0 <= j < W ==> r[i][j] == if i < hh then a[H - 1 - i][j] else a[i][j]
    ensures MirrorV(r) == r && forall i, j :: hh <= i < H && 0 <= j < W ==> r[i][j] == a[i][j]
  {
    forall i, j | 0 <= i < H && 0 <= j < W ensures MirrorV(r)[i][j] == r[i][j] {
      assert r[H - 1 - i][j] == if H - 1 - i < hh then a[i][j] else a[H - 1 - i][j];
    }
    GridExt(MirrorV(r), r);
  }

  /** `out[r0:r0+h, c0:c0+w] = block`, in place. */
  method PasteInto(out: array2<int>, block: Grid, r0: nat, c0: nat)
    requires r0 + |block| <= out.Length0 && c0 + Width(block) <= out.Length1
    modifies out
    ensures forall i, j :: 0 <= i < out.Length0 && 0 <= j < out.Length1 ==>
      out[i, j] == if r0 <= i < r0 + |block| && c0 <= j < c0 + Width(block) then block[i - r0][j - c0] else old(out[i, j])
  {
    for i := 0 to |block|
      invariant forall y, x :: 0 <= y < out.Length0 && 0 <= x < out.Length1 ==>
        out[y, x] == if r0 <= y < r0 + i && c0 <= x < c0 + Width(block) then block[y - r0][x - c0] else old(out[y, x])
    {
      for j := 0 to Width(block)
        invariant forall y, x :: 0 <= y < out.Length0 && 0 <= x < out.Length1 ==>
          out[y, x] == if (r0 <= y < r0 + i || (y == r0 + i && x < c0 + j)) && c0 <= x < c0 + Width(block)
            then block[y - r0][x - c0] else old(out[y, x])
      {
        out[r0 + i, c0 + j] := block[i][j];
      }
    }
  }

  /** `op_complete_by_reflection` after the pad, as the source runs it: a copy, then one slice assignment at most. */
  method ReflectInPlace(a: Grid, H: nat, W: nat, bg: int) returns (r: Grid)
    requires HasShape(a, H, W)
    ensures r == Reflection(a, H, W, bg)
  {
    var side := SparseHalf(a, H, W, bg);
    if side.NoHalf? {
      return a;
    }
    var p := Patch(a, H, W, side);
    r := PasteCopy(a, p.0, p.1, p.2);
  }

  /** `out = a.copy(); out[r0:r0+h, c0:c0+w] = block`. */
  method PasteCopy(a: Grid, block: Grid, r0: nat, c0: nat) returns (r: Grid)
    requires r0 + |block| <= |a| && c0 + Width(block) <= Width(a)
    ensures r == Paste(a, block, r0, c0)
  {
    var out := new int[|a|, Width(a)]((i, j) => if 0 <= i < |a| && 0 <= j < |a[i]| then a[i][j] else 0);
    PasteInto(out, block, r0, c0);
    r := FromArray(out);
    GridExt(r, Paste(a, block, r0, c0));
  }

  // ------------------------------------------------ projection of rows/cols

  /** `[tuple(c) for c in a.T]`: the `W` columns of an H x W grid. */
  function Columns(a: Grid, H: nat, W: nat): (cols: seq<seq<int>>)
    requires HasShape(a, H, W)
    ensures |cols| == W && forall j :: 0 <= j < W ==> |cols[j]| == H
    ensures forall i, j :: 0 <= i < H && 0 <= j < W ==> cols[j][i] == a[i][j]
  {
    seq(W, j requires 0 <= j < W => seq(H, i requires 0 <= i < H => a[i][j]))
  }

  /**
   * `op_project_rows_or_cols` on the padded grid `a`: H copies of the most
   * common row when it fills at least half (rounded down) of the rows;
   * otherwise W copies of the most common column under the same test;
   * otherwise `a`.
   */
  function Projection(a: Grid, H: nat, W: nat): (r: Grid)
    requires HasShape(a, H, W)
    ensures HasShape(r, H, W)
  {
    if H > 0 && Count(a, ModeFirst(a)) >= H / 2 then
      RowTile(ModeFirst(a), H)
    else
      var cols := Columns(a, H, W);
      if W > 0 && Count(cols, ModeFirst(cols)) >= W / 2 then ColumnTile(ModeFirst(cols), W)
      else a
  }

  /** `np.tile(row, (n, 1))`. */
  function RowTile(row: seq<int>, n: nat): (r: Grid)
    ensures HasShape(r, n, |row|) && forall i :: 0 <= i < n ==> r[i] == row
  {
    seq(n, i requires 0 <= i < n => row)
  }

  /** `np.tile(col.reshape(-1, 1), (1, n))`. */
  function ColumnTile(col: seq<int>, n: nat): (r: Grid)
    ensures HasShape(r, |col|, n) && forall i, j :: 0 <= i < |col| && 0 <= j < n ==> r[i][j] == col[i]
  {
    seq(|col|, i requires 0 <= i < |col| => seq(n, j requires 0 <= j < n => col[i]))
  }

  /**
   * In the row case every row of the result is a most frequent row of `a`
   * (it occurs at least H/2 times); in the column case every column is a
   * most frequent column of `a`; otherwise the result is `a`.
   */
  lemma ProjectionRepeatsMostCommon(a: Grid, H: nat, W: nat)
    requires HasShape(a, H, W)
    ensures var r := Projection(a, H, W);
      if H > 0 && Count(a, ModeFirst(a)) >= H / 2 then
        forall i :: 0 <= i < H ==> r[i] in a && Count(a, r[i]) >= H / 2 && forall row :: Count(a, row) <= Count(a, r[i])
      else if W > 0 && Count(Columns(a, H, W), ModeFirst(Columns(a, H, W))) >= W / 2 then
        var cols := Columns(a, H, W);
        forall j :: 0 <= j < W ==> Columns(r, H, W)[j] in cols && forall c :: Count(cols, c) <= Count(cols, Columns(r, H, W)[j])
      else r == a
  {
    var r := Projection(a, H, W);
    if H > 0 && Count(a, ModeFirst(a)) >= H / 2 {
      forall row ensures Count(a, row) <= Count(a, ModeFirst(a)) {
        ModeFirstIsFirstMostFrequent(a, row);
      }
    } else {
      var cols := Columns(a, H, W);
      if W > 0 && Count(cols, ModeFirst(cols)) >= W / 2 {
        var best := ModeFirst(cols);
        forall c ensures Count(cols, c) <= Count(cols, best) {
          ModeFirstIsFirstMostFrequent(cols, c);
        }
        forall j | 0 <= j < W ensures Columns(r, H, W)[j] == best {
          assert |best| == H;
        }
      }
    }
  }

  /** A grid whose rows are all equal is a fixed point of the projection. */
  lemma ProjectionKeepsUniformRows(a: Grid, H: nat, W: nat)
    requires HasShape(a, H, W) && H > 0
    requires forall i :: 0 <= i < H ==> a[i] == a[0]
    ensures Projection(a, H, W) == a
  {
    assert multiset(a) == multiset{a[0]}[a[0] := H] by {
      SameRows(a, a[0]);
    }
    assert ModeFirst(a) == a[0];
  }

  lemma {:induction false} SameRows(a: seq<seq<int>>, row: seq<int>)
    requires forall i :: 0 <= i < |a| ==> a[i] == row
    ensures multiset(a) == multiset{row}[row := |a|]
  {
    if a != [] {
      assert a == a[..|a| - 1] + [row];
      SameRows(a[..|a| - 1], row);
    }
  }

  // --------------------------------------------------------------- tiling

  /** `math.ceil(n / d)` for `n >= 0`, `d > 0`. */
  function CeilDiv(n: nat, d: nat): (q: nat)
    requires d > 0
    ensures q * d >= n && (q == 0 || (q - 1) * d < n)
  {
    var q := (n + d - 1) / d;
    assert q * d + (n + d - 1) % d == n + d - 1;
    q
  }

  /** `np.tile(t, (ry, rx))`. */
  function TileRepeat(t: Grid, ry: nat, rx: nat): (r: Grid)
    requires |t| > 0 && Width(t) > 0
    ensures HasShape(r, |t| * ry, Width(t) * rx)
  {
    seq(|t| * ry, i requires 0 <= i < |t| * ry =>
      seq(Width(t) * rx, j requires 0 <= j < Width(t) * rx => t[i % |t|][j % Width(t)]))
  }

  /** The tiled grid cut to H x W, tiled at least once along each axis. */
  function TileTo(t: Grid, H: nat, W: nat): (r: Grid)
    requires |t| > 0 && Width(t) > 0
    ensures HasShape(r, H, W)
  {
    var ry, rx := CeilDiv(H, |t|), CeilDiv(W, Width(t));
    var ry', rx' := if ry < 1 then 1 else ry, if rx < 1 then 1 else rx;
    var tiled := TileRepeat(t, ry', rx');
    assert Width(tiled) == Width(t) * rx';
    SubGrid(tiled, 0, H, 0, W)
  }

  /** Each cell of the result repeats the tile: `out[i][j] == tile[i mod th][j mod tw]`. */
  lemma TileToCells(t: Grid, H: nat, W: nat)
    requires |t| > 0 && Width(t) > 0
    ensures forall i, j :: 0 <= i < H && 0 <= j < W ==> TileTo(t, H, W)[i][j] == t[i % |t|][j % Width(t)]
  {
    var ry, rx := CeilDiv(H, |t|), CeilDiv(W, Width(t));
    var ry', rx' := if ry < 1 then 1 else ry, if rx < 1 then 1 else rx;
    var tiled := TileRepeat(t, ry', rx');
    Covers(H, |t|, ry');
    Covers(W, Width(t), rx');
    assert |tiled| == |t| * ry' && Width(tiled) == Width(t) * rx';
    forall i, j | 0 <= i < H && 0 <= j < W ensures TileTo(t, H, W)[i][j] == t[i % |t|][j % Width(t)] {
      assert TileTo(t, H, W)[i][j] == tiled[i][j];
    }
  }

  /** A multiple of `d` at least `CeilDiv(n, d)` times covers `n`. */
  lemma Covers(n: nat, d: nat, k: nat)
    requires d > 0 && k >= CeilDiv(n, d)
    ensures d * k >= n
  {
    var q := CeilDiv(n, d);
    assert d * k == d * q + d * (k - q);
  }

  /** A tile found by `SmallestTileSpec` has both sides positive. */
  lemma TileNonEmpty(g: Grid)
    requires SmallestTileSpec(g).Some?
    ensures |SmallestTileSpec(g).value| > 0 && Width(SmallestTileSpec(g).value) > 0
  {
  }

  /** `op_tile_smallest_patch`. */
  function TileSpec(g: Grid, H: nat, W: nat): (r: Option<Grid>)
    ensures SmallestTileSpec(g).Some? ==> r.Some? && HasShape(r.value, H, W)
  {
    match SmallestTileSpec(g)
    case None => PadSpec(g, H, W, BgColor(g), true)
    case Some(t) => Some(TileTo(t, H, W))
  }

  /** Asked for the grid's own shape, the tiling operator gives the grid back. */
  lemma TileReproduces(g: Grid)
    ensures TileSpec(g, |g|, Width(g)) == Some(g)
  {
    match SmallestTileSpec(g)
    case None =>
      PadToOwnShape(g, BgColor(g), true);
    case Some(t) =>
      TileToCells(t, |g|, Width(g));
      var r := TileTo(t, |g|, Width(g));
      forall i, j | 0 <= i < |g| && 0 <= j < Width(g) ensures r[i][j] == g[i][j] {
        assert r[i][j] == t[i % |t|][j % Width(t)];
      }
      GridExt(r, g);
  }

  // -------------------------------------------------------------- outline

  /** Direction `k` from (y, x) leaves the grid or reaches a `bg` cell. */
  predicate OpenSide(a: Grid, bg: int, y: int, x: int, k: nat)
    requires k < 4
  {
    var n := Step((y, x), k);
    !InGrid(a, n.0, n.1) || a[n.0][n.1] == bg
  }

  /** Some 4-neighbour of (y, x) is off the grid or `bg`. */
  predicate Exposed(a: Grid, bg: int, y: int, x: int) {
    OpenSide(a, bg, y, x, 0) || OpenSide(a, bg, y, x, 1) || OpenSide(a, bg, y, x, 2) || OpenSide(a, bg, y, x, 3)
  }

  function OutlineCell(a: Grid, bg: int, y: int, x: int): int
    requires InGrid(a, y, x)
  {
    if a[y][x] != bg && Exposed(a, bg, y, x) then a[y][x] else bg
  }

  /** `op_outline_cc` on the padded grid: the non-`bg` cells with a `bg` or off-grid 4-neighbour keep their colour, all else is `bg`. */
  function Outline(a: Grid, bg: int): (r: Grid)
    ensures HasShape(r, |a|, Width(a))
    ensures forall y, x :: InGrid(a, y, x) ==> r[y][x] == bg || r[y][x] == a[y][x]
  {
    seq(|a|, y requires 0 <= y < |a| => seq(Width(a), x requires 0 <= x < Width(a) => OutlineCell(a, bg, y, x)))
  }

  /** Outlining an outline changes nothing: every kept cell still touches `bg` or the border. */
  lemma OutlineIdempotent(a: Grid, bg: int)
    ensures Outline(Outline(a, bg), bg) == Outline(a, bg)
  {
    var o := Outline(a, bg);
    forall y, x | InGrid(o, y, x) ensures OutlineCell(o, bg, y, x) == o[y][x] {
      if o[y][x] != bg {
        assert OutlineCell(a, bg, y, x) != bg;
        var k :| 0 <= k < 4 && OpenSide(a, bg, y, x, k);
        StaysOpen(a, bg, y, x, k);
      }
    }
    GridExt(Outline(o, bg), o);
  }

  /** An open side stays open in the outline: `bg` cells stay `bg`. */
  lemma StaysOpen(a: Grid, bg: int, y: int, x: int, k: nat)
    requires k < 4 && OpenSide(a, bg, y, x, k)
    ensures OpenSide(Outline(a, bg), bg, y, x, k)
  {
    var o := Outline(a, bg);
    var n := Step((y, x), k);
    if InGrid(a, n.0, n.1) {
      assert o[n.0][n.1] == OutlineCell(a, bg, n.0, n.1);
    }
  }

  /** One cell of `op_outline_cc`'s loop: try the four directions, stop at the first open one. */
  method OutlineAt(a: Grid, bg: int, out: array2<int>, y: nat, x: nat)
    requires InGrid(a, y, x) && out.Length0 == |a| && out.Length1 == Width(a)
    requires out[y, x] == bg
    modifies out
    ensures out[y, x] == OutlineCell(a, bg, y, x)
    ensures forall i, j :: 0 <= i < out.Length0 && 0 <= j < out.Length1 && (i, j) != (y, x) ==> out[i, j] == old(out[i, j])
  {
    if a[y][x] == bg {
      return;
    }
    for k := 0 to 4
      invariant forall k' :: 0 <= k' < k ==> !OpenSide(a, bg, y, x, k')
    {
      var n := Step((y, x), k);
      if !(0 <= n.0 < |a| && 0 <= n.1 < Width(a)) || a[n.0][n.1] == bg {
        assert OpenSide(a, bg, y, x, k);
        out[y, x] := a[y][x];
        return;
      }
    }
  }

  /** `op_outline_cc` after the pad, as the source runs it: a `bg`-filled array, written cell by cell. */
  method OutlineInPlace(a: Grid, bg: int) returns (r: Grid)
    ensures r == Outline(a, bg)
  {
    var h, w := |a|, Width(a);
    var out := new int[h, w]((i, j) => bg);
    for y := 0 to h
      invariant forall i, j :: 0 <= i < h && 0 <= j < w ==> out[i, j] == if i < y then OutlineCell(a, bg, i, j) else bg
    {
      for x := 0 to w
        invariant forall i, j :: 0 <= i < h && 0 <= j < w ==>
          out[i, j] == if i < y || (i == y && j < x) then OutlineCell(a, bg, i, j) else bg
      {
        OutlineAt(a, bg, out, y, x);
      }
    }
    r := FromArray(out);
    GridExt(r, Outline(a, bg));
  }

  // ------------------------------------------------------------ the catalog

  /** The result of applying `op` to `g` for target shape (H, W) with the training pairs. */
  ghost function OpSpec(op: Op, g: Grid, H: nat, W: nat, pairs: seq<Pair>): (r: Option<Grid>)
    ensures r.Some? ==> HasShape(r.value, H, W)
  {
    var bg := BgColor(g);
    match op
    case Identity => PadSpec(g, H, W, bg, true)
    case Rotate90 => PadSpec(Rotate(g, 1), H, W, bg, true)
    case Rotate180 => PadSpec(Rotate(g, 2), H, W, bg, true)
    case Rotate270 => PadSpec(Rotate(g, 3), H, W, bg, true)
    case MirrorHOp => PadSpec(MirrorH(g), H, W, bg, true)
    case MirrorVOp => PadSpec(MirrorV(g), H, W, bg, true)
    case TransposeOp => PadSpec(Transpose(g), H, W, bg, true)
    case CropCenterPad => PadSpec(CropToBbox(g, bg), H, W, bg, true)
    case RecolorLearned =>
      var recol := Recolor(g, LearnSpec(pairs));
      PadSpec(recol, H, W, BgColor(recol), true)
    case LargestCcCenter => LargestCcSpec(g, H, W)
    case IntegerResizeFg => ResizeIntegerScale(CropToBbox(g, bg), H, W, bg)
    case MajorityFill =>
      var a := PadSpec(g, H, W, bg, true);
      if a.None? then None else Some(Recolor(a.value, map[bg := MajorityColor(g)]))
    case CompleteByReflection =>
      var a := PadSpec(g, H, W, bg, true);
      if a.None? then None else Some(Reflection(a.value, H, W, bg))
    case ProjectRowsOrCols =>
      var a := PadSpec(g, H, W, bg, true);
      if a.None? then None else Some(Projection(a.value, H, W))
    case TileSmallestPatch => TileSpec(g, H, W)
    case OutlineCc =>
      var a := PadSpec(g, H, W, bg, true);
      if a.None? then None else Some(Outline(a.value, bg))
  }

  /** Asked for the grid's own shape, the identity operator gives the grid back. */
  lemma IdentityOnOwnShape(g: Grid, pairs: seq<Pair>)
    ensures OpSpec(Identity, g, |g|, Width(g), pairs) == Some(g)
  {
    PadToOwnShape(g, BgColor(g), true);
  }

  /** Asked for the swapped shape, the quarter-turn operator is a plain counter-clockwise turn. */
  lemma QuarterTurnOnSwappedShape(g: Grid, pairs: seq<Pair>)
    requires Proper(g)
    ensures OpSpec(Rotate90, g, Width(g), |g|, pairs) == Some(Rot90(g))
  {
    assert Rotate(g, 1) == Rot90(Turns(g, 0));
    PadToOwnShape(Rot90(g), BgColor(g), true);
  }

  /** The operator `op` as the source runs it. */
  method ApplyOp(op: Op, g: Grid, H: nat, W: nat, pairs: seq<Pair>) returns (r: Option<Grid>)
    ensures r == OpSpec(op, g, H, W, pairs)
  {
    var bg := BgColor(g);
    match op
    case Identity => r := PadTo(g, H, W, bg, true);
    case Rotate90 => r := PadTo(Rotate(g, 1), H, W, bg, true);
    case Rotate180 => r := PadTo(Rotate(g, 2), H, W, bg, true);
    case Rotate270 => r := PadTo(Rotate(g, 3), H, W, bg, true);
    case MirrorHOp => r := PadTo(MirrorH(g), H, W, bg, true);
    case MirrorVOp => r := PadTo(MirrorV(g), H, W, bg, true);
    case TransposeOp => r := PadTo(Transpose(g), H, W, bg, true);
    case CropCenterPad => r := PadTo(CropToBbox(g, bg), H, W, bg, true);
    case RecolorLearned => r := RecolorLearnedOp(g, H, W, pairs);
    case LargestCcCenter => r := LargestCcCenterOp(g, H, W);
    case IntegerResizeFg => r := ResizeIntegerScale(CropToBbox(g, bg), H, W, bg);
    case MajorityFill => r := MajorityFillOp(g, H, W, pairs);
    case CompleteByReflection =>
      var a := PadTo(g, H, W, bg, true);
      if a.Some? {
        var out := ReflectInPlace(a.value, H, W, bg);
        r := Some(out);
      } else {
        r := None;
      }
    case ProjectRowsOrCols =>
      var a := PadTo(g, H, W, bg, true);
      r := if a.Some? then Some(Projection(a.value, H, W)) else None;
    case TileSmallestPatch =>
      var t := SmallestTile(g);
      if t.Some? {
        TileNonEmpty(g);
        r := Some(TileTo(t.value, H, W));
      } else {
        r := PadTo(g, H, W, bg, true);
      }
    case OutlineCc =>
      var a := PadTo(g, H, W, bg, true);
      if a.Some? {
        var out := OutlineInPlace(a.value, bg);
        r := Some(out);
      } else {
        r := None;
      }
  }

  method RecolorLearnedOp(g: Grid, H: nat, W: nat, pairs: seq<Pair>) returns (r: Option<Grid>)
    ensures r == OpSpec(RecolorLearned, g, H, W, pairs)
  {
    var cmap := LearnColorMap(pairs);
    var recol := ApplyColorMap(g, cmap);
    r := PadTo(recol, H, W, BgColor(recol), true);
  }

  method MajorityFillOp(g: Grid, H: nat, W: nat, ghost pairs: seq<Pair>) returns (r: Option<Grid>)
    ensures r == OpSpec(MajorityFill, g, H, W, pairs)
  {
    var bg := BgColor(g);
    var maj := MajorityColor(g);
    var a := PadTo(g, H, W, bg, true);
    if a.None? {
      return None;
    }
    var out := ApplyColorMap(a.value, map[bg := maj]);
    r := Some(out);
  }
}
