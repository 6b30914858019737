/**
 * 4-connected components of the non-background cells (`connected_components`).
 *
 * The specification: the component of a cell is the least set that contains
 * it and is closed under stepping to a 4-neighbour of the same colour
 * (`Component`); a component is reported once, from its first cell in
 * row-major order (`IsStart`), and the reports come in row-major order of
 * those first cells (`Starts`). The method runs the source's depth-first
 * search over a `seen` array and is proved to produce exactly that.
 */
module Components {
  import opened Grids
  import opened Counting

  /** The neighbour offsets in the order the search visits them: down, up, right, left. */
  function Dir(k: nat): (d: (int, int))
    requires k < 4
    ensures (d.0 == 0) != (d.1 == 0) && -1 <= d.0 <= 1 && -1 <= d.1 <= 1
  {
    [(1, 0), (-1, 0), (0, 1), (0, -1)][k]
  }

  predicate Neighbours(a: Cell, b: Cell) {
    (a.1 == b.1 && (a.0 - b.0 == 1 || b.0 - a.0 == 1)) ||
    (a.0 == b.0 && (a.1 - b.1 == 1 || b.1 - a.1 == 1))
  }

  /** `b` is a 4-neighbour of `a` inside the grid with the same colour. */
  predicate Linked(g: Grid, a: Cell, b: Cell) {
    InGrid(g, a.0, a.1) && InGrid(g, b.0, b.1) && Neighbours(a, b) && g[a.0][a.1] == g[b.0][b.1]
  }

  ghost function AllCells(g: Grid): set<Cell> {
    set y, x | 0 <= y < |g| && 0 <= x < Width(g) :: (y, x)
  }

  lemma InAllCells(g: Grid, c: Cell)
    ensures c in AllCells(g) <==> InGrid(g, c.0, c.1)
  {
    if InGrid(g, c.0, c.1) {
      assert (c.0, c.1) in AllCells(g);
    }
  }

  function Elems(s: seq<Cell>): set<Cell> {
    set c | c in s
  }

  /** Closed under same-colour 4-neighbour steps. */
  ghost predicate Closed(g: Grid, s: set<Cell>) {
    forall a, b :: a in s && Linked(g, a, b) ==> b in s
  }

  /** One step of growth: `s` and every cell linked to a member of `s`. */
  ghost function Grow(g: Grid, s: set<Cell>): (r: set<Cell>)
    requires s <= AllCells(g)
    ensures s <= r <= AllCells(g)
    ensures forall a, b :: a in s && Linked(g, a, b) ==> b in r
  {
    var step := set a, b | a in s && b in AllCells(g) && Linked(g, a, b) :: b;
    forall a, b | a in s && Linked(g, a, b) ensures b in step {
      InAllCells(g, b);
    }
    s + step
  }

  lemma FewerMissing(all: set<Cell>, s: set<Cell>, t: set<Cell>)
    requires s < t <= all
    ensures |all - t| < |all - s|
  {
    var a, b := all - s, all - t;
    assert t - s != {};
    var x :| x in t - s;
    assert x in a - b;
    assert a + b == a && a * b == b && b - a == {};
    assert |a - b| >= 1;
  }

  /** The least fixpoint of `Grow` above `s`. */
  ghost function Closure(g: Grid, s: set<Cell>): (r: set<Cell>)
    requires s <= AllCells(g)
    ensures s <= r <= AllCells(g)
    ensures Closed(g, r)
    decreases |AllCells(g) - s|
  {
    var t := Grow(g, s);
    if t == s then s
    else
      FewerMissing(AllCells(g), s, t);
      Closure(g, t)
  }

  /** `Closure(g, s)` is contained in every closed set that contains `s`. */
  lemma {:induction false} ClosureLeast(g: Grid, s: set<Cell>, t: set<Cell>)
    requires s <= AllCells(g) && s <= t && Closed(g, t)
    ensures Closure(g, s) <= t
    decreases |AllCells(g) - s|
  {
    var u := Grow(g, s);
    if u != s {
      assert u <= t;
      FewerMissing(AllCells(g), s, u);
      ClosureLeast(g, u, t);
    }
  }

  /** The 4-connected same-colour region of `c`. */
  ghost function Component(g: Grid, c: Cell): (r: set<Cell>)
    requires InGrid(g, c.0, c.1)
    ensures c in r && r <= AllCells(g) && Closed(g, r)
  {
    InAllCells(g, c);
    Closure(g, {c})
  }

  /** A component is contained in every closed set holding its cell. */
  lemma ComponentLeast(g: Grid, c: Cell, t: set<Cell>)
    requires InGrid(g, c.0, c.1) && c in t && Closed(g, t)
    ensures Component(g, c) <= t
  {
    InAllCells(g, c);
    ClosureLeast(g, {c}, t);
  }

  /** Every cell of a component has the component's colour. */
  lemma ComponentColour(g: Grid, c: Cell)
    requires InGrid(g, c.0, c.1)
    ensures forall d :: d in Component(g, c) ==> InGrid(g, d.0, d.1) && g[d.0][d.1] == g[c.0][c.1]
  {
    var same := set d | d in AllCells(g) && g[d.0][d.1] == g[c.0][c.1];
    InAllCells(g, c);
    forall a, b | a in same && Linked(g, a, b) ensures b in same {
      InAllCells(g, b);
    }
    ComponentLeast(g, c, same);
    forall d | d in Component(g, c) ensures InGrid(g, d.0, d.1) {
      InAllCells(g, d);
    }
  }

  /** Being in the same component is symmetric, and then the two components coincide. */
  lemma ComponentSymmetric(g: Grid, a: Cell, b: Cell)
    requires InGrid(g, a.0, a.1) && b in Component(g, a)
    ensures InGrid(g, b.0, b.1) && a in Component(g, b)
    ensures Component(g, b) == Component(g, a)
  {
    InAllCells(g, b);
    // The cells whose component reaches back to `a` form a closed set holding `a`.
    var back := set x | x in AllCells(g) && InGrid(g, x.0, x.1) && a in Component(g, x);
    InAllCells(g, a);
    forall x, y | x in back && Linked(g, x, y) ensures y in back {
      assert Linked(g, y, x);
      assert x in Component(g, y);
      ComponentLeast(g, x, Component(g, y));
      InAllCells(g, y);
    }
    ComponentLeast(g, a, back);
    ComponentLeast(g, b, Component(g, a));
    ComponentLeast(g, a, Component(g, b));
  }

  /** A closed set that misses `c` misses all of `c`'s component. */
  lemma ComponentAvoidsClosed(g: Grid, c: Cell, t: set<Cell>)
    requires InGrid(g, c.0, c.1) && Closed(g, t) && c !in t
    ensures Component(g, c) !! t
  {
    forall d | d in Component(g, c) && d in t ensures false {
      ComponentSymmetric(g, c, d);
      ComponentLeast(g, d, t);
    }
  }

  // ---------------------------------------------------------- reporting order

  /** `c` comes before position (y, x) in row-major order. */
  predicate Earlier(c: Cell, y: int, x: int) {
    c.0 < y || (c.0 == y && c.1 < x)
  }

  /** `c` is a non-`bg` cell and the first cell, in row-major order, of its component. */
  ghost predicate IsStart(g: Grid, bg: int, c: Cell) {
    InGrid(g, c.0, c.1) && g[c.0][c.1] != bg &&
    forall d :: d in Component(g, c) ==> !Earlier(d, c.0, c.1)
  }

  /** The starts of row `y` in columns before `x`, left to right. */
  ghost function StartsInRow(g: Grid, bg: int, y: nat, x: nat): (r: seq<Cell>)
    requires y < |g| && x <= Width(g)
    ensures forall c :: c in r <==> IsStart(g, bg, c) && c.0 == y && c.1 < x
    ensures forall i, j :: 0 <= i < j < |r| ==> Earlier(r[i], r[j].0, r[j].1)
  {
    if x == 0 then []
    else StartsInRow(g, bg, y, x - 1) + (if IsStart(g, bg, (y, x - 1)) then [(y, x - 1)] else [])
  }

  /** The starts of rows above `y`, in row-major order. */
  ghost function StartsAbove(g: Grid, bg: int, y: nat): (r: seq<Cell>)
    requires y <= |g|
    ensures forall c :: c in r <==> IsStart(g, bg, c) && c.0 < y
    ensures forall i, j :: 0 <= i < j < |r| ==> Earlier(r[i], r[j].0, r[j].1)
  {
    if y == 0 then []
    else
      var a, b := StartsAbove(g, bg, y - 1), StartsInRow(g, bg, y - 1, Width(g));
      assert forall c :: c in b ==> c.0 == y - 1;
      a + b
  }

  /** Every start, in row-major order: the order in which the components are reported. */
  ghost function Starts(g: Grid, bg: int): (r: seq<Cell>)
    ensures forall c :: c in r <==> IsStart(g, bg, c)
    ensures forall i, j :: 0 <= i < j < |r| ==> Earlier(r[i], r[j].0, r[j].1)
  {
    StartsAbove(g, bg, |g|)
  }

  ghost function StartsBefore(g: Grid, bg: int, y: nat, x: nat): seq<Cell>
    requires y < |g| && x <= Width(g)
  {
    StartsAbove(g, bg, y) + StartsInRow(g, bg, y, x)
  }

  /** A reported component: its colour is its first pixel's, the pixels are distinct and are the component. */
  ghost predicate Reports(g: Grid, comp: (int, seq<Cell>), s: Cell) {
    InGrid(g, s.0, s.1) && comp.1 != [] && comp.1[0] == s && comp.0 == g[s.0][s.1] &&
    NoDups(comp.1) && Elems(comp.1) == Component(g, s)
  }

  // ------------------------------------------------------------ the search

  ghost predicate SeenIs(g: Grid, seen: array2<bool>, s: set<Cell>)
    reads seen
  {
    seen.Length0 == |g| && seen.Length1 == Width(g) &&
    forall i, j :: 0 <= i < |g| && 0 <= j < Width(g) ==> (seen[i, j] <==> (i, j) in s)
  }

  /** The cells linked to `cur` that are not yet marked. */
  ghost function Unmarked(g: Grid, cur: Cell, marked: set<Cell>): (r: set<Cell>)
    ensures r <= AllCells(g) && r !! marked
  {
    set b | b in AllCells(g) && Linked(g, cur, b) && b !in marked
  }

  /** The neighbour of `cur` in direction `k`. */
  function Step(cur: Cell, k: nat): Cell
    requires k < 4
  {
    (cur.0 + Dir(k).0, cur.1 + Dir(k).1)
  }

  lemma StepReachesLinked(g: Grid, cur: Cell, b: Cell)
    requires Linked(g, cur, b)
    ensures exists k :: 0 <= k < 4 && Step(cur, k) == b
  {
    if b.0 == cur.0 + 1 { assert Step(cur, 0) == b; }
    else if b.0 == cur.0 - 1 { assert Step(cur, 1) == b; }
    else if b.1 == cur.1 + 1 { assert Step(cur, 2) == b; }
    else { assert Step(cur, 3) == b; }
  }

  /**
   * The loop over the four directions: every unmarked same-colour neighbour
   * of `cur` is marked and pushed, once each.
   */
  method PushNeighbours(g: Grid, seen: array2<bool>, cur: Cell, stack: seq<Cell>, ghost marked: set<Cell>)
    returns (stack': seq<Cell>)
    requires InGrid(g, cur.0, cur.1) && marked <= AllCells(g)
    requires SeenIs(g, seen, marked)
    modifies seen
    ensures |stack| <= |stack'| && stack' == stack + stack'[|stack|..]
    ensures NoDups(stack'[|stack|..])
    ensures Elems(stack'[|stack|..]) == Unmarked(g, cur, marked)
    ensures SeenIs(g, seen, marked + Unmarked(g, cur, marked))
  {
    stack' := stack;
    ghost var added: seq<Cell> := [];
    for k := 0 to 4
      invariant stack' == stack + added
      invariant NoDups(added)
      invariant forall b :: b in added ==> b in Unmarked(g, cur, marked)
      invariant forall j :: 0 <= j < k && Step(cur, j) in Unmarked(g, cur, marked) ==> Step(cur, j) in added
      invariant SeenIs(g, seen, marked + Elems(added))
    {
      var ny, nx := cur.0 + Dir(k).0, cur.1 + Dir(k).1;
      assert Step(cur, k) == (ny, nx);
      if 0 <= ny < |g| && 0 <= nx < Width(g) && !seen[ny, nx] && g[ny][nx] == g[cur.0][cur.1] {
        InAllCells(g, (ny, nx));
        assert (ny, nx) in Unmarked(g, cur, marked);
        seen[ny, nx] := true;
        NoDupsSnoc(added, (ny, nx));
        added := added + [(ny, nx)];
        stack' := stack' + [(ny, nx)];
      }
    }
    assert stack'[|stack|..] == added;
    forall b | b in Unmarked(g, cur, marked) ensures b in added {
      StepReachesLinked(g, cur, b);
    }
  }

  /**
   * The search's invariant, over the component `comp` being explored: the
   * visited cells `pix` and the pending `stack` are disjoint parts of `comp`
   * without repeats, and every neighbour of a visited cell is already marked.
   */
  ghost predicate Frontier(g: Grid, comp: set<Cell>, covered: set<Cell>, start: Cell,
                           pix: seq<Cell>, stack: seq<Cell>)
  {
    Elems(pix) + Elems(stack) <= comp &&
    NoDups(pix) && NoDups(stack) && Elems(pix) !! Elems(stack) &&
    (pix == [] ==> stack == [start]) &&
    (pix != [] ==> pix[0] == start) &&
    forall a, b :: a in pix && Linked(g, a, b) ==> b in covered + Elems(pix) + Elems(stack)
  }

  /** Popping `cur` and pushing its unmarked neighbours keeps the invariant and grows the marks by those neighbours. */
  lemma FrontierStep(g: Grid, comp: set<Cell>, covered: set<Cell>, start: Cell,
                     pix: seq<Cell>, stack: seq<Cell>, pushed: seq<Cell>)
    requires Closed(g, comp) && comp <= AllCells(g) && covered <= AllCells(g)
    requires Frontier(g, comp, covered, start, pix, stack) && stack != []
    requires NoDups(pushed)
    requires Elems(pushed) == Unmarked(g, stack[|stack| - 1], covered + Elems(pix) + Elems(stack))
    ensures Frontier(g, comp, covered, start, pix + [stack[|stack| - 1]], stack[..|stack| - 1] + pushed)
    ensures covered + Elems(pix + [stack[|stack| - 1]]) + Elems(stack[..|stack| - 1] + pushed)
         == covered + Elems(pix) + Elems(stack) + Elems(pushed)
  {
    var cur := stack[|stack| - 1];
    var rest := stack[..|stack| - 1];
    assert stack == rest + [cur];
    assert Elems(stack) <= comp;
    var marked := covered + Elems(pix) + Elems(stack);
    assert cur in Elems(stack);
    NoDupsSnoc(pix, cur);
    assert Elems(stack) == Elems(rest) + {cur};
    assert NoDups(rest);
    forall x | x in pushed ensures x !in rest {
      assert x in Elems(pushed);
      assert x in Elems(rest) ==> x in marked;
    }
    NoDupsAppend(rest, pushed);
    var pix', stack' := pix + [cur], rest + pushed;
    assert Elems(pix') == Elems(pix) + {cur};
    assert Elems(stack') == Elems(rest) + Elems(pushed);
    assert Elems(stack) == Elems(rest) + {cur};
    forall a, b | a in pix' && Linked(g, a, b) ensures b in covered + Elems(pix') + Elems(stack') {
      if a == cur {
        InAllCells(g, b);
        if b !in marked {
          assert b in Unmarked(g, cur, marked);
        }
      }
    }
  }

  /** When the stack is empty, the visited cells are the whole component. */
  lemma FrontierDone(g: Grid, start: Cell, covered: set<Cell>, pix: seq<Cell>)
    requires InGrid(g, start.0, start.1) && covered !! Component(g, start)
    requires Frontier(g, Component(g, start), covered, start, pix, [])
    ensures Elems(pix) == Component(g, start)
    ensures covered + Elems(pix) + Elems([]) == covered + Component(g, start)
    ensures pix != [] && pix[0] == start && NoDups(pix)
  {
    assert Elems([]) == {};
    var comp := Component(g, start);
    forall a, b | a in Elems(pix) && Linked(g, a, b) ensures b in Elems(pix) {
      assert b in covered + Elems(pix);
      assert b in comp;
    }
    ComponentLeast(g, start, Elems(pix));
  }

  /**
   * The inner search from `start`: marks and collects the whole component of
   * `start`, pushing unseen same-colour neighbours onto a stack and popping
   * the most recent one.
   */
  method Explore(g: Grid, seen: array2<bool>, start: Cell, ghost covered: set<Cell>) returns (pix: seq<Cell>)
    requires InGrid(g, start.0, start.1)
    requires covered <= AllCells(g) && Closed(g, covered) && start !in covered
    requires SeenIs(g, seen, covered)
    modifies seen
    ensures pix != [] && pix[0] == start && NoDups(pix)
    ensures Elems(pix) == Component(g, start)
    ensures SeenIs(g, seen, covered + Component(g, start))
  {
    ghost var comp := Component(g, start);
    ComponentAvoidsClosed(g, start, covered);
    InAllCells(g, start);
    Mark(g, seen, start, covered);
    FrontierInit(g, comp, covered, start);
    assert start in AllCells(g);
    pix := Drain(g, seen, comp, covered, start, [], [start], covered + {start});
    FrontierDone(g, start, covered, pix);
  }

  /** The loop of the search: visits cells until the stack is empty. */
  method Drain(g: Grid, seen: array2<bool>, ghost comp: set<Cell>, ghost covered: set<Cell>, ghost start: Cell,
               pix0: seq<Cell>, stack0: seq<Cell>, ghost marked0: set<Cell>) returns (pix: seq<Cell>)
    requires Closed(g, comp) && comp <= AllCells(g) && covered <= AllCells(g)
    requires Frontier(g, comp, covered, start, pix0, stack0)
    requires marked0 == covered + Elems(pix0) + Elems(stack0)
    requires SeenIs(g, seen, marked0) && marked0 <= AllCells(g)
    modifies seen
    ensures Frontier(g, comp, covered, start, pix, [])
    ensures SeenIs(g, seen, covered + Elems(pix) + Elems([]))
  {
    var stack := stack0;
    pix := pix0;
    ghost var marked := marked0;
    while stack != []
      invariant Frontier(g, comp, covered, start, pix, stack)
      invariant marked == covered + Elems(pix) + Elems(stack)
      invariant SeenIs(g, seen, marked) && marked <= AllCells(g)
      decreases |AllCells(g) - marked|, |stack|
    {
      ghost var pushed;
      pix, stack, pushed := VisitTop(g, seen, comp, covered, start, pix, stack, marked);
      marked := marked + Elems(pushed);
    }
  }

  /**
   * One round of the search: pops the most recent cell, visits it, and pushes
   * its unmarked same-colour neighbours (`pushed`, which are also marked).
   */
  method VisitTop(g: Grid, seen: array2<bool>, ghost comp: set<Cell>, ghost covered: set<Cell>, ghost start: Cell,
                  pix: seq<Cell>, stack: seq<Cell>, ghost marked: set<Cell>)
    returns (pix': seq<Cell>, stack': seq<Cell>, ghost pushed: seq<Cell>)
    requires Closed(g, comp) && comp <= AllCells(g) && covered <= AllCells(g)
    requires Frontier(g, comp, covered, start, pix, stack) && stack != []
    requires marked == covered + Elems(pix) + Elems(stack)
    requires SeenIs(g, seen, marked) && marked <= AllCells(g)
    modifies seen
    ensures Frontier(g, comp, covered, start, pix', stack')
    ensures marked + Elems(pushed) == covered + Elems(pix') + Elems(stack')
    ensures SeenIs(g, seen, marked + Elems(pushed)) && marked + Elems(pushed) <= AllCells(g)
    ensures |AllCells(g) - (marked + Elems(pushed))| < |AllCells(g) - marked| ||
            (pushed == [] && |stack'| < |stack|)
  {
    var cur := stack[|stack| - 1];
    var rest := stack[..|stack| - 1];
    assert cur in Elems(stack);
    InAllCells(g, cur);
    stack' := PushNeighbours(g, seen, cur, rest, marked);
    pushed := stack'[|rest|..];
    FrontierStep(g, comp, covered, start, pix, stack, pushed);
    if pushed != [] {
      assert pushed[0] in Elems(pushed);
      FewerMissing(AllCells(g), marked, marked + Elems(pushed));
    } else {
      assert |stack'| == |rest| + |pushed| == |rest|;
    }
    pix' := pix + [cur];
  }

  /** Marks one more cell as seen. */
  method Mark(g: Grid, seen: array2<bool>, c: Cell, ghost s: set<Cell>)
    requires InGrid(g, c.0, c.1) && SeenIs(g, seen, s)
    modifies seen
    ensures SeenIs(g, seen, s + {c})
  {
    seen[c.0, c.1] := true;
  }

  lemma FrontierInit(g: Grid, comp: set<Cell>, covered: set<Cell>, start: Cell)
    requires start in comp
    ensures Frontier(g, comp, covered, start, [], [start])
    ensures covered + {start} == covered + Elems([]) + Elems([start])
  {
    assert Elems([start]) == {start};
  }

  lemma NoDupsAppend<T>(s: seq<T>, t: seq<T>)
    requires NoDups(s) && NoDups(t) && forall x :: x in t ==> x !in s
    ensures NoDups(s + t)
  {
    forall i, j | 0 <= i < j < |s + t| ensures (s + t)[i] != (s + t)[j] {
      if j >= |s| && i < |s| {
        assert (s + t)[j] in t;
      }
    }
  }

  lemma NoDupsSnoc<T>(s: seq<T>, x: T)
    requires NoDups(s) && x !in s
    ensures NoDups(s + [x])
  {
  }

  /** Adding a component keeps the searched region closed. */
  lemma UnionClosed(g: Grid, s: set<Cell>, t: set<Cell>)
    requires Closed(g, s) && Closed(g, t)
    ensures Closed(g, s + t)
  {
  }

  /** The marked cells form a closed region holding every non-`bg` cell before (y, x). */
  ghost predicate Covers(g: Grid, bg: int, covered: set<Cell>, y: int, x: int) {
    covered <= AllCells(g) && Closed(g, covered) &&
    forall c :: c in AllCells(g) && Earlier(c, y, x) && g[c.0][c.1] != bg ==> c in covered
  }

  /** The only starts among the marked cells come before (y, x). */
  ghost predicate StartsEarlier(g: Grid, bg: int, covered: set<Cell>, y: int, x: int) {
    forall c :: c in covered && IsStart(g, bg, c) ==> Earlier(c, y, x)
  }

  /** `comps` reports the components of `starts`, one each, in order. */
  ghost predicate ReportsAll(g: Grid, comps: seq<(int, seq<Cell>)>, starts: seq<Cell>) {
    |comps| == |starts| && forall k :: 0 <= k < |comps| ==> Reports(g, comps[k], starts[k])
  }

  /**
   * The scan's invariant at position (y, x): the marked cells are the
   * components found so far, they include every earlier non-`bg` cell, the only
   * starts among them are earlier, and the reports match the earlier starts.
   */
  ghost predicate ScanInv(g: Grid, bg: int, covered: set<Cell>, comps: seq<(int, seq<Cell>)>, y: nat, x: nat)
    requires y < |g| && x <= Width(g)
  {
    Covers(g, bg, covered, y, x) && StartsEarlier(g, bg, covered, y, x) &&
    ReportsAll(g, comps, StartsBefore(g, bg, y, x))
  }

  lemma StartsEarlierStep(g: Grid, bg: int, covered: set<Cell>, y: int, x: int)
    requires StartsEarlier(g, bg, covered, y, x)
    ensures StartsEarlier(g, bg, covered, y, x + 1)
  {
  }

  /** A marked or background cell is passed over. */
  lemma ScanSkip(g: Grid, bg: int, covered: set<Cell>, comps: seq<(int, seq<Cell>)>, y: nat, x: nat)
    requires y < |g| && x < Width(g) && ScanInv(g, bg, covered, comps, y, x)
    requires (y, x) in covered || g[y][x] == bg
    ensures ScanInv(g, bg, covered, comps, y, x + 1)
  {
    assert !IsStart(g, bg, (y, x)) by {
      if (y, x) in covered {
        assert StartsEarlier(g, bg, covered, y, x);
      }
    }
    StepInRow(g, bg, y, x);
    StartsEarlierStep(g, bg, covered, y, x);
    CoversSkip(g, bg, covered, y, x);
  }

  lemma CoversSkip(g: Grid, bg: int, covered: set<Cell>, y: nat, x: nat)
    requires InGrid(g, y, x) && Covers(g, bg, covered, y, x)
    requires (y, x) in covered || g[y][x] == bg
    ensures Covers(g, bg, covered, y, x + 1)
  {
    forall c | c in AllCells(g) && Earlier(c, y, x + 1) && g[c.0][c.1] != bg ensures c in covered {
      if c == (y, x) {
        assert g[y][x] != bg;
      }
    }
  }

  /** Adding the component of a fresh start (y, x) extends the cover past (y, x). */
  lemma CoversFound(g: Grid, bg: int, covered: set<Cell>, y: nat, x: nat)
    requires InGrid(g, y, x) && Covers(g, bg, covered, y, x)
    ensures Covers(g, bg, covered + Component(g, (y, x)), y, x + 1)
  {
    var comp := Component(g, (y, x));
    UnionClosed(g, covered, comp);
  }

  /** The only start in the component of a start (y, x) is (y, x). */
  lemma StartsEarlierFound(g: Grid, bg: int, covered: set<Cell>, y: nat, x: nat)
    requires IsStart(g, bg, (y, x)) && StartsEarlier(g, bg, covered, y, x)
    ensures StartsEarlier(g, bg, covered + Component(g, (y, x)), y, x + 1)
  {
    forall c | c in Component(g, (y, x)) && IsStart(g, bg, c) ensures c == (y, x) {
      StartUnique(g, bg, (y, x), c);
    }
  }

  lemma ReportsAllSnoc(g: Grid, comps: seq<(int, seq<Cell>)>, starts: seq<Cell>, comp: (int, seq<Cell>), s: Cell)
    requires ReportsAll(g, comps, starts) && Reports(g, comp, s)
    ensures ReportsAll(g, comps + [comp], starts + [s])
  {
    forall k | 0 <= k < |comps| + 1 ensures Reports(g, (comps + [comp])[k], (starts + [s])[k]) {
      if k < |comps| {
        assert (comps + [comp])[k] == comps[k] && (starts + [s])[k] == starts[k];
      }
    }
  }

  /** An unmarked non-`bg` cell starts a new component, which is reported next. */
  lemma ScanFound(g: Grid, bg: int, covered: set<Cell>, comps: seq<(int, seq<Cell>)>, y: nat, x: nat, pix: seq<Cell>)
    requires y < |g| && x < Width(g) && ScanInv(g, bg, covered, comps, y, x)
    requires (y, x) !in covered && g[y][x] != bg
    requires pix != [] && pix[0] == (y, x) && NoDups(pix) && Elems(pix) == Component(g, (y, x))
    ensures ScanInv(g, bg, covered + Component(g, (y, x)), comps + [(g[y][x], pix)], y, x + 1)
  {
    assert Covers(g, bg, covered, y, x);
    FreshIsStart(g, bg, covered, y, x);
    StepInRow(g, bg, y, x);
    CoversFound(g, bg, covered, y, x);
    StartsEarlierFound(g, bg, covered, y, x);
    ReportsAllSnoc(g, comps, StartsBefore(g, bg, y, x), (g[y][x], pix), (y, x));
    assert StartsBefore(g, bg, y, x + 1) == StartsBefore(g, bg, y, x) + [(y, x)];
  }

  /** The end of a row is the start of the next. */
  lemma ScanNextRow(g: Grid, bg: int, covered: set<Cell>, comps: seq<(int, seq<Cell>)>, y: nat)
    requires y + 1 < |g| && ScanInv(g, bg, covered, comps, y, Width(g))
    ensures ScanInv(g, bg, covered, comps, y + 1, 0)
  {
    RowDone(g, bg, y);
    forall c | c in AllCells(g) && Earlier(c, y + 1, 0) ensures Earlier(c, y, Width(g)) {
      InAllCells(g, c);
    }
    assert StartsEarlier(g, bg, covered, y, Width(g));
  }

  /** After the last row, the reports are one per start, in order. */
  lemma ScanEnd(g: Grid, bg: int, covered: set<Cell>, comps: seq<(int, seq<Cell>)>)
    requires |g| > 0 && ScanInv(g, bg, covered, comps, |g| - 1, Width(g))
    ensures |comps| == |Starts(g, bg)|
    ensures forall k :: 0 <= k < |comps| ==> Reports(g, comps[k], Starts(g, bg)[k])
  {
    RowDone(g, bg, |g| - 1);
  }

  /** A cell the scan meets unmarked and non-`bg` starts a component: nothing earlier is in it. */
  lemma FreshIsStart(g: Grid, bg: int, covered: set<Cell>, y: nat, x: nat)
    requires InGrid(g, y, x) && g[y][x] != bg && (y, x) !in covered
    requires covered <= AllCells(g) && Closed(g, covered)
    requires forall c :: c in AllCells(g) && Earlier(c, y, x) && g[c.0][c.1] != bg ==> c in covered
    ensures IsStart(g, bg, (y, x))
  {
    ComponentAvoidsClosed(g, (y, x), covered);
    ComponentColour(g, (y, x));
    forall d | d in Component(g, (y, x)) ensures !Earlier(d, y, x) {
      InAllCells(g, d);
    }
  }

  /** Two starts with the same component are the same cell. */
  lemma StartUnique(g: Grid, bg: int, s: Cell, c: Cell)
    requires IsStart(g, bg, s) && IsStart(g, bg, c) && c in Component(g, s)
    ensures c == s
  {
    ComponentSymmetric(g, s, c);
  }

  /** The first cell, in row-major order, of a non-empty set of cells. */
  lemma {:induction false} FirstCell(s: set<Cell>) returns (m: Cell)
    requires s != {}
    ensures m in s && forall d :: d in s ==> !Earlier(d, m.0, m.1)
    decreases |s|
  {
    var x :| x in s;
    if s == {x} {
      m := x;
    } else {
      var rest := FirstCell(s - {x});
      m := if Earlier(x, rest.0, rest.1) then x else rest;
      forall d | d in s ensures !Earlier(d, m.0, m.1) {
        if d != x {
          assert d in s - {x};
        }
      }
    }
  }

  /**
   * Every non-`bg` cell lies in the component of exactly one start: the
   * first cell of its own component.
   */
  lemma OneStartPerCell(g: Grid, bg: int, c: Cell)
    requires InGrid(g, c.0, c.1) && g[c.0][c.1] != bg
    ensures exists s :: IsStart(g, bg, s) && c in Component(g, s)
    ensures forall s, s' :: IsStart(g, bg, s) && IsStart(g, bg, s') && c in Component(g, s) && c in Component(g, s') ==> s == s'
  {
    var m := FirstCell(Component(g, c));
    ComponentColour(g, c);
    ComponentSymmetric(g, c, m);
    assert IsStart(g, bg, m);
    forall s, s' | IsStart(g, bg, s) && IsStart(g, bg, s') && c in Component(g, s) && c in Component(g, s')
      ensures s == s'
    {
      ComponentSymmetric(g, s, c);
      ComponentSymmetric(g, s', c);
      StartUnique(g, bg, s, s');
    }
  }

  lemma StepInRow(g: Grid, bg: int, y: nat, x: nat)
    requires y < |g| && x < Width(g)
    ensures StartsBefore(g, bg, y, x + 1)
      == StartsBefore(g, bg, y, x) + (if IsStart(g, bg, (y, x)) then [(y, x)] else [])
  {
  }

  /** Once row `y` is done, the starts seen are those of the rows up to `y`. */
  lemma RowDone(g: Grid, bg: int, y: nat)
    requires y < |g|
    ensures StartsAbove(g, bg, y + 1) == StartsBefore(g, bg, y, Width(g))
    ensures y + 1 < |g| ==> StartsBefore(g, bg, y + 1, 0) == StartsBefore(g, bg, y, Width(g))
  {
  }

  /** One step of the scan: cell (y, x) is passed over or starts a new component. */
  method ScanCell(g: Grid, bg: int, seen: array2<bool>, comps: seq<(int, seq<Cell>)>, y: nat, x: nat,
                  ghost covered: set<Cell>)
    returns (comps': seq<(int, seq<Cell>)>, ghost covered': set<Cell>)
    requires y < |g| && x < Width(g)
    requires ScanInv(g, bg, covered, comps, y, x) && SeenIs(g, seen, covered)
    modifies seen
    ensures ScanInv(g, bg, covered', comps', y, x + 1) && SeenIs(g, seen, covered')
  {
    InAllCells(g, (y, x));
    if seen[y, x] || g[y][x] == bg {
      ScanSkip(g, bg, covered, comps, y, x);
      comps', covered' := comps, covered;
    } else {
      assert Covers(g, bg, covered, y, x);
      var pix := Explore(g, seen, (y, x), covered);
      ScanFound(g, bg, covered, comps, y, x, pix);
      comps', covered' := comps + [(g[y][x], pix)], covered + Component(g, (y, x));
    }
  }

  /** The inner loop of the scan: the cells of row `y`, left to right. */
  method ScanRow(g: Grid, bg: int, seen: array2<bool>, comps: seq<(int, seq<Cell>)>, y: nat,
                 ghost covered: set<Cell>)
    returns (comps': seq<(int, seq<Cell>)>, ghost covered': set<Cell>)
    requires y < |g|
    requires ScanInv(g, bg, covered, comps, y, 0) && SeenIs(g, seen, covered)
    modifies seen
    ensures ScanInv(g, bg, covered', comps', y, Width(g)) && SeenIs(g, seen, covered')
  {
    comps', covered' := comps, covered;
    var x := 0;
    while x < Width(g)
      invariant 0 <= x <= Width(g)
      invariant ScanInv(g, bg, covered', comps', y, x) && SeenIs(g, seen, covered')
    {
      comps', covered' := ScanCell(g, bg, seen, comps', y, x, covered');
      x := x + 1;
    }
  }

  /**
   * `connected_components(arr, bg)`: one `(colour, pixels)` entry per
   * component of non-`bg` cells, in row-major order of their first cells,
   * each listing its component's cells exactly once, first cell first.
   */
  method ConnectedComponents(g: Grid, bg: int) returns (comps: seq<(int, seq<Cell>)>)
    ensures |comps| == |Starts(g, bg)|
    ensures forall k :: 0 <= k < |comps| ==> Reports(g, comps[k], Starts(g, bg)[k])
  {
    var seen := new bool[|g|, Width(g)]((i, j) => false);
    comps := [];
    if |g| == 0 {
      return;
    }
    ghost var covered: set<Cell> := {};
    var y := 0;
    while y < |g|
      invariant 0 <= y < |g|
      invariant ScanInv(g, bg, covered, comps, y, 0) && SeenIs(g, seen, covered)
    {
      comps, covered := ScanRow(g, bg, seen, comps, y, covered);
      if y + 1 == |g| {
        ScanEnd(g, bg, covered, comps);
        return;
      }
      ScanNextRow(g, bg, covered, comps, y);
      y := y + 1;
    }
  }

}
