/**
  The triangle explorer (triangle/script.js): three draggable vertices snapped
  to a 10-pixel grid, squared side lengths, twice the signed area, the
  degeneracy test, the classification by sides and by angles, and the
  adjustment that makes the three displayed whole-degree angles add up to 180.

  Vertices are modelled with whole-pixel coordinates: a dragged vertex is
  always a multiple of `GRID` (see `Snap`), and the starting vertices are
  given to the constructor.
 */
module Triangle {

  import opened Wrappers
  import opened RealMath

  /** `GRID`, `PICK_R` and `PAD`, in canvas pixels. */
  const Grid := 10
  const PickR := 14
  const Pad := 14

  datatype Point = Point(x: int, y: int)

  /** `snap(v)` = `Math.round(v / GRID) * GRID`: the nearest grid line, at most half a cell away. */
  function Snap(v: real): (r: int)
    ensures r % Grid == 0
    ensures Abs(r as real - v) <= (Grid as real) / 2.0
  {
    var n := Round(v / Grid as real);
    MulCast(n, Grid);
    n * Grid
  }

  /**
    The pointer-move handler's new position for the dragged vertex, from the
    pointer position (`px`, `py`) on a `w` by `h` canvas: each coordinate is
    clamped to the padded canvas, then snapped. On a canvas at least twice the
    padding in each direction, the vertex is on the grid and at most half a cell
    outside the padded area.
   */
  function DragTarget(px: real, py: real, w: int, h: int): (q: Point)
    ensures q.x % Grid == 0 && q.y % Grid == 0
    ensures w >= 2 * Pad ==> Pad - Grid / 2 <= q.x <= w - Pad + Grid / 2
    ensures h >= 2 * Pad ==> Pad - Grid / 2 <= q.y <= h - Pad + Grid / 2
  {
    Point(Snap(Clamp(px, Pad as real, (w - Pad) as real)), Snap(Clamp(py, Pad as real, (h - Pad) as real)))
  }

  /** `dist2(p1, p2)`: the squared distance. */
  function Dist2(p: Point, q: Point): int {
    (p.x - q.x) * (p.x - q.x) + (p.y - q.y) * (p.y - q.y)
  }

  /** Squared distances are non-negative and symmetric, and zero exactly for coinciding points. */
  lemma {:induction false} Dist2Properties(p: Point, q: Point)
    ensures Dist2(p, q) >= 0
    ensures Dist2(p, q) == Dist2(q, p)
    ensures Dist2(p, q) == 0 <==> p == q
  {
  }

  /** `triArea2(a, b, c)`: twice the signed area, positive for one orientation. */
  function TriArea2(a: Point, b: Point, c: Point): int {
    (b.x - a.x) * (c.y - a.y) - (b.y - a.y) * (c.x - a.x)
  }

  /**
    Swapping two vertices reverses the orientation, rotating them keeps it, and
    a repeated vertex spans no area.
   */
  lemma {:induction false} TriArea2Properties(a: Point, b: Point, c: Point)
    ensures TriArea2(a, c, b) == -TriArea2(a, b, c)
    ensures TriArea2(b, c, a) == TriArea2(a, b, c)
    ensures a == b || b == c || c == a ==> TriArea2(a, b, c) == 0
  {
  }

  /**
    The degeneracy test: a side shorter than one pixel (squared length below 1)
    or twice the area below 3.
   */
  predicate Degenerate(v0: Point, v1: Point, v2: Point) {
    Dist2(v0, v1) < 1 || Dist2(v1, v2) < 1 || Dist2(v2, v0) < 1 || -3 < TriArea2(v0, v1, v2) < 3
  }

  /** Whether a triangle is degenerate does not depend on how its vertices are numbered. */
  lemma {:induction false} DegenerateSymmetric(v0: Point, v1: Point, v2: Point)
    ensures Degenerate(v0, v1, v2) <==> Degenerate(v1, v2, v0)
    ensures Degenerate(v0, v1, v2) <==> Degenerate(v0, v2, v1)
  {
    TriArea2Properties(v0, v1, v2);
    Dist2Properties(v0, v1);
    Dist2Properties(v1, v2);
    Dist2Properties(v2, v0);
  }

  predicate OnGrid(p: Point) {
    p.x % Grid == 0 && p.y % Grid == 0
  }

  /**
    On the grid twice the area is a multiple of 100, so the tolerances only
    catch exactly coinciding vertices and exactly collinear ones.
   */
  lemma {:induction false} GridDegenerate(v0: Point, v1: Point, v2: Point)
    requires OnGrid(v0) && OnGrid(v1) && OnGrid(v2)
    ensures Degenerate(v0, v1, v2) <==> v0 == v1 || v1 == v2 || v2 == v0 || TriArea2(v0, v1, v2) == 0
  {
    Dist2Properties(v0, v1);
    Dist2Properties(v1, v2);
    Dist2Properties(v2, v0);
    var k := GridArea(v0, v1, v2);
    assert -3 < 100 * k < 3 <==> k == 0;
  }

  /** On the grid, twice the area is 100 times the area counted in grid cells. */
  lemma {:induction false} GridArea(v0: Point, v1: Point, v2: Point) returns (k: int)
    requires OnGrid(v0) && OnGrid(v1) && OnGrid(v2)
    ensures TriArea2(v0, v1, v2) == 100 * k
  {
    var ux, uy := v1.x / Grid - v0.x / Grid, v1.y / Grid - v0.y / Grid;
    var wx, wy := v2.x / Grid - v0.x / Grid, v2.y / Grid - v0.y / Grid;
    k := ux * wy - uy * wx;
    ScaledCross(ux, uy, wx, wy);
  }

  lemma {:induction false} ScaledCross(ux: int, uy: int, wx: int, wy: int)
    ensures (Grid * ux) * (Grid * wy) - (Grid * uy) * (Grid * wx) == 100 * (ux * wy - uy * wx)
  {
  }

  /** `approxEqual(a, b)` on squared lengths: within 1, or within 0.5% of the larger. */
  predicate ApproxEqual(a: real, b: real) {
    Abs(a - b) <= Max(1.0, 0.005 * Max(a, b))
  }

  lemma {:induction false} ApproxEqualProperties(a: real, b: real)
    ensures ApproxEqual(a, a)
    ensures ApproxEqual(a, b) <==> ApproxEqual(b, a)
  {
    assert Max(a, b) == Max(b, a);
  }

  datatype SideKind = Equilateral | Isosceles | Scalene

  /** `classifyBySidesSquared(a2, b2, c2)`. */
  function ClassifyBySides(a2: real, b2: real, c2: real): SideKind {
    var ab := ApproxEqual(a2, b2);
    var bc := ApproxEqual(b2, c2);
    var ca := ApproxEqual(c2, a2);
    if ab && bc then Equilateral
    else if ab || bc || ca then Isosceles
    else Scalene
  }

  /**
    Equilateral exactly when a2 ~ b2 and b2 ~ c2 (c2 ~ a2 is not consulted),
    scalene exactly when no two squared sides are close, isosceles otherwise.
   */
  lemma {:induction false} ClassifyBySidesCases(a2: real, b2: real, c2: real)
    ensures ClassifyBySides(a2, b2, c2) == Equilateral <==> ApproxEqual(a2, b2) && ApproxEqual(b2, c2)
    ensures ClassifyBySides(a2, b2, c2) == Scalene <==>
      !ApproxEqual(a2, b2) && !ApproxEqual(b2, c2) && !ApproxEqual(c2, a2)
    ensures ClassifyBySides(a2, b2, c2) == Isosceles <==>
      !(ApproxEqual(a2, b2) && ApproxEqual(b2, c2))
      && (ApproxEqual(a2, b2) || ApproxEqual(b2, c2) || ApproxEqual(c2, a2))
  {
  }

  /** The tolerance is not transitive: squared sides 100, 101 and 102 read as equilateral. */
  lemma {:induction false} EquilateralNotTransitive()
    ensures ClassifyBySides(100.0, 101.0, 102.0) == Equilateral && !ApproxEqual(102.0, 100.0)
  {
  }

  datatype AngleKind = DegenerateAngles | Right | Obtuse | Acute

  /** A displayed angle list: whole degrees, `None` where the angle is NaN. */
  predicate AllFinite<T>(xs: seq<Option<T>>) {
    forall i :: 0 <= i < |xs| ==> xs[i].Some?
  }

  /** `classifyByAngles(anglesInt)`: NaN first, then an exact 90, then one above 90. */
  function ClassifyByAngles(angles: seq<Option<int>>): AngleKind {
    if !AllFinite(angles) then DegenerateAngles
    else if exists i :: 0 <= i < |angles| && angles[i].value == 90 then Right
    else if exists i :: 0 <= i < |angles| && angles[i].value > 90 then Obtuse
    else Acute
  }

  /** Acute means every angle is finite and below 90; the earlier tests take precedence. */
  lemma {:induction false} ClassifyByAnglesCases(angles: seq<Option<int>>)
    ensures ClassifyByAngles(angles) == Acute <==>
      AllFinite(angles) && forall i :: 0 <= i < |angles| ==> angles[i].value < 90
    ensures ClassifyByAngles(angles) == Right <==>
      AllFinite(angles) && exists i :: 0 <= i < |angles| && angles[i].value == 90
    ensures ClassifyByAngles(angles) == Obtuse <==>
      AllFinite(angles) && (forall i :: 0 <= i < |angles| ==> angles[i].value != 90)
      && exists i :: 0 <= i < |angles| && angles[i].value > 90
  {
    if AllFinite(angles) && ClassifyByAngles(angles) == Acute {
      forall i | 0 <= i < |angles| ensures angles[i].value < 90 {
        assert angles[i].value != 90;
      }
    }
  }

  /** `angles.map((x) => Number.isFinite(x) ? Math.round(x) : NaN)`. */
  function RoundAll(angles: seq<Option<real>>): (r: seq<Option<int>>)
    ensures |r| == |angles|
    ensures forall i :: 0 <= i < |angles| ==> r[i].Some? == angles[i].Some?
    ensures forall i :: 0 <= i < |angles| && angles[i].Some? ==> r[i] == Some(Round(angles[i].value))
  {
    seq(|angles|, i requires 0 <= i < |angles| =>
      match angles[i] case Some(x) => Some(Round(x)) case None => None)
  }

  /** The three rounded angles, when all are finite. */
  function Rounded(angles: seq<Option<real>>): seq<int>
    requires |angles| == 3 && AllFinite(angles)
  {
    [Round(angles[0].value), Round(angles[1].value), Round(angles[2].value)]
  }

  /** `residuals`: how far each angle was rounded down. */
  function Residuals(angles: seq<Option<real>>): seq<real>
    requires |angles| == 3 && AllFinite(angles)
  {
    [angles[0].value - Round(angles[0].value) as real,
     angles[1].value - Round(angles[1].value) as real,
     angles[2].value - Round(angles[2].value) as real]
  }

  function Sum3(s: seq<int>): int
    requires |s| == 3
  {
    s[0] + s[1] + s[2]
  }

  /** An ordering of the three angle indices: each of 0, 1, 2 exactly once. */
  predicate Perm3(o: seq<int>) {
    && |o| == 3
    && (forall p :: 0 <= p < 3 ==> 0 <= o[p] < 3)
    && o[0] != o[1] && o[1] != o[2] && o[0] != o[2]
  }

  /**
    `[0, 1, 2].sort(...)` with a comparator by `key`: a stable sort, so the
    indices come out by increasing key and equal keys keep their index order.
   */
  function Sort3(key: seq<real>): (o: seq<int>)
    requires |key| == 3
    ensures Perm3(o)
    ensures key[o[0]] <= key[o[1]] <= key[o[2]]
    ensures forall p, q :: 0 <= p < q < 3 && key[o[p]] == key[o[q]] ==> o[p] < o[q]
  {
    var first, second := if key[1] < key[0] then 1 else 0, if key[1] < key[0] then 0 else 1;
    if key[2] >= key[second] then [first, second, 2]
    else if key[2] >= key[first] then [first, 2, second]
    else [2, first, second]
  }

  /** The `k % 3` loop visits slot j of the order this many times in n rounds. */
  function Visits(n: nat, j: int): int
    requires 0 <= j < 3
  {
    (n + 2 - j) / 3
  }

  lemma {:induction false} VisitsStep(k: nat, j: int)
    requires 0 <= j < 3
    ensures Visits(k + 1, j) == Visits(k, j) + (if k % 3 == j then 1 else 0)
  {
  }

  /** The visits add up to n, slot 0 gets ceil(n/3) of them, and earlier slots get at least as many. */
  lemma {:induction false} VisitsFacts(n: nat)
    ensures Visits(n, 0) + Visits(n, 1) + Visits(n, 2) == n
    ensures Visits(n, 0) >= Visits(n, 1) >= Visits(n, 2) >= 0
  {
  }

  function Signed(up: bool, v: int): int {
    if up then v else -v
  }

  /** One of the two `for` loops of lines 189 and 192: n unit steps, up or down, through `order` in turn. */
  method Nudge(a: array<int>, order: seq<int>, n: nat, up: bool)
    requires a.Length == 3 && Perm3(order)
    modifies a
    ensures forall j :: 0 <= j < 3 ==> a[order[j]] == old(a[order[j]]) + Signed(up, Visits(n, j))
  {
    var k := 0;
    while k < n
      invariant 0 <= k <= n
      invariant forall j :: 0 <= j < 3 ==> a[order[j]] == old(a[order[j]]) + Signed(up, Visits(k, j))
    {
      var slot := k % 3;
      var i := order[slot];
      a[i] := a[i] + (if up then 1 else -1);
      forall j | 0 <= j < 3
        ensures a[order[j]] == old(a[order[j]]) + Signed(up, Visits(k + 1, j))
      {
        VisitsStep(k, j);
        if j != slot {
          assert order[j] != i;
        }
      }
      k := k + 1;
    }
  }

  /**
    Lines 187-193: with `diff` whole degrees missing, the angles sorted by
    decreasing residual get +1 in turn; with degrees in excess, the angles sorted
    by increasing residual get -1 in turn.
   */
  method Spread(a: array<int>, residuals: seq<real>, diff: int)
    requires a.Length == 3 && |residuals| == 3
    modifies a
    ensures diff == 0 ==> a[..] == old(a[..])
    ensures diff > 0 ==> var o := Sort3([-residuals[0], -residuals[1], -residuals[2]]);
      forall j :: 0 <= j < 3 ==> a[o[j]] == old(a[o[j]]) + Visits(diff, j)
    ensures diff < 0 ==> var o := Sort3(residuals);
      forall j :: 0 <= j < 3 ==> a[o[j]] == old(a[o[j]]) - Visits(-diff, j)
  {
    if diff > 0 {
      var order := Sort3([-residuals[0], -residuals[1], -residuals[2]]);
      Nudge(a, order, diff, true);
    } else if diff < 0 {
      var order := Sort3(residuals);
      Nudge(a, order, -diff, false);
    }
  }

  /**
    What the adjustment promises about the shown angles `s` given the rounded
    ones `r` and the residuals: the three add up to 180, each moved by at most
    ceil(|diff|/3) in the direction of `diff`, and an angle with a larger
    residual never moved less (in that direction) than one with a smaller residual.
   */
  ghost predicate Adjusted(r: seq<int>, residuals: seq<real>, s: seq<int>)
    requires |r| == 3 && |residuals| == 3 && |s| == 3
  {
    var diff := 180 - Sum3(r);
    && Sum3(s) == 180
    && (forall i :: 0 <= i < 3 ==>
          if diff >= 0 then 0 <= s[i] - r[i] <= (diff + 2) / 3
          else 0 <= r[i] - s[i] <= (-diff + 2) / 3)
    && (forall i, j :: 0 <= i < 3 && 0 <= j < 3 && residuals[i] > residuals[j] ==>
          s[i] - r[i] >= s[j] - r[j])
  }

  lemma {:induction false} SpreadUp(r: seq<int>, residuals: seq<real>, s: seq<int>, o: seq<int>, n: nat)
    requires |r| == 3 && |residuals| == 3 && |s| == 3
    requires n == 180 - Sum3(r) && o == Sort3([-residuals[0], -residuals[1], -residuals[2]])
    requires forall j :: 0 <= j < 3 ==> s[o[j]] == r[o[j]] + Visits(n, j)
    ensures Adjusted(r, residuals, s)
  {
    var key := [-residuals[0], -residuals[1], -residuals[2]];
    forall p | 0 <= p < 3
      ensures residuals[o[p]] == -key[o[p]]
    {
      var i := o[p];
      assert i == 0 || i == 1 || i == 2;
    }
    Shares(r, s, o, residuals, n, true);
  }

  lemma {:induction false} SpreadDown(r: seq<int>, residuals: seq<real>, s: seq<int>, o: seq<int>, n: nat)
    requires |r| == 3 && |residuals| == 3 && |s| == 3
    requires n == Sum3(r) - 180 && n > 0 && o == Sort3(residuals)
    requires forall j :: 0 <= j < 3 ==> s[o[j]] == r[o[j]] - Visits(n, j)
    ensures Adjusted(r, residuals, s)
  {
    Shares(r, s, o, residuals, n, false);
  }

  /**
    n unit steps handed out along the ordering o, up or down: they add up to
    n, no angle moves by more than ceil(n/3), and the angle with the larger
    residual moves up at least as far (moving up) or down no further (moving
    down) than the other.
   */
  lemma {:induction false} Shares(r: seq<int>, s: seq<int>, o: seq<int>, residuals: seq<real>, n: nat, up: bool)
    requires Perm3(o) && |r| == 3 && |s| == 3 && |residuals| == 3
    requires forall j :: 0 <= j < 3 ==> s[o[j]] - r[o[j]] == Signed(up, Visits(n, j))
    requires up ==> residuals[o[0]] >= residuals[o[1]] >= residuals[o[2]]
    requires !up ==> residuals[o[0]] <= residuals[o[1]] <= residuals[o[2]]
    ensures Sum3(s) == Sum3(r) + Signed(up, n)
    ensures forall i :: 0 <= i < 3 ==> 0 <= Signed(up, s[i] - r[i]) <= Visits(n, 0)
    ensures forall i, k :: 0 <= i < 3 && 0 <= k < 3 && residuals[i] > residuals[k] ==> s[i] - r[i] >= s[k] - r[k]
  {
    VisitsFacts(n);
    forall i, k | 0 <= i < 3 && 0 <= k < 3 && residuals[i] > residuals[k]
      ensures s[i] - r[i] >= s[k] - r[k]
    {
      var a := Slot(o, i);
      var b := Slot(o, k);
      assert up ==> a < b;
      assert !up ==> b < a;
    }
    forall i | 0 <= i < 3
      ensures 0 <= Signed(up, s[i] - r[i]) <= Visits(n, 0)
    {
      var a := Slot(o, i);
    }
    PermSum(o, s);
    PermSum(o, r);
    assert s[o[0]] - r[o[0]] + (s[o[1]] - r[o[1]]) + (s[o[2]] - r[o[2]])
           == Signed(up, Visits(n, 0)) + Signed(up, Visits(n, 1)) + Signed(up, Visits(n, 2));
  }

  /** Taking the three entries in the order o still adds them all. */
  lemma {:induction false} PermSum(o: seq<int>, x: seq<int>)
    requires Perm3(o) && |x| == 3
    ensures x[o[0]] + x[o[1]] + x[o[2]] == Sum3(x)
  {
    assert o[0] == 0 || o[0] == 1 || o[0] == 2;
    assert o[1] == 0 || o[1] == 1 || o[1] == 2;
  }

  /** Where index i sits in the ordering o. */
  lemma {:induction false} Slot(o: seq<int>, i: int) returns (j: int)
    requires Perm3(o) && 0 <= i < 3
    ensures 0 <= j < 3 && o[j] == i
  {
    j := if o[0] == i then 0 else if o[1] == i then 1 else 2;
  }

  /**
    Lines 181-194 of the update: the displayed whole-degree angles. They are the
    rounded angles, adjusted as `Adjusted` says when the triangle is not
    degenerate and every angle is finite.
   */
  method ShownAngles(angles: seq<Option<real>>, degenerate: bool) returns (shown: seq<Option<int>>)
    requires |angles| == 3
    ensures |shown| == 3
    ensures degenerate || !AllFinite(angles) ==> shown == RoundAll(angles)
    ensures !degenerate && AllFinite(angles) ==>
      AllFinite(shown) && Adjusted(Rounded(angles), Residuals(angles), [shown[0].value, shown[1].value, shown[2].value])
  {
    shown := RoundAll(angles);
    if degenerate || !AllFinite(angles) {
      return;
    }
    var r := Rounded(angles);
    var residuals := Residuals(angles);
    var a := new int[3](i requires 0 <= i < 3 => r[i]);
    assert a[..] == r;
    var diff := 180 - (a[0] + a[1] + a[2]);
    Spread(a, residuals, diff);
    SpreadAdjusts(r, residuals, a[..]);
    shown := [Some(a[0]), Some(a[1]), Some(a[2])];
    assert [shown[0].value, shown[1].value, shown[2].value] == a[..];
  }

  /** What `Spread` does to the rounded angles is an adjustment in the sense of `Adjusted`. */
  lemma {:induction false} SpreadAdjusts(r: seq<int>, residuals: seq<real>, s: seq<int>)
    requires |r| == 3 && |residuals| == 3 && |s| == 3
    requires var diff := 180 - Sum3(r);
      && (diff == 0 ==> s == r)
      && (diff > 0 ==> var o := Sort3([-residuals[0], -residuals[1], -residuals[2]]);
            forall j :: 0 <= j < 3 ==> s[o[j]] == r[o[j]] + Visits(diff, j))
      && (diff < 0 ==> var o := Sort3(residuals);
            forall j :: 0 <= j < 3 ==> s[o[j]] == r[o[j]] - Visits(-diff, j))
    ensures Adjusted(r, residuals, s)
  {
    var diff := 180 - Sum3(r);
    if diff > 0 {
      SpreadUp(r, residuals, s, Sort3([-residuals[0], -residuals[1], -residuals[2]]), diff);
    } else if diff < 0 {
      SpreadDown(r, residuals, s, Sort3(residuals), -diff);
    }
  }

  /** A pointer position in canvas pixels (not snapped). */
  datatype Pointer = Pointer(x: real, y: real)

  /**
    The squared distance from a vertex to the pointer. `pickVertex` compares
    `Math.hypot(dx, dy)` with `PICK_R`; for a non-negative radius that is the
    same test as this squared distance against `PICK_R * PICK_R`.
   */
  function PointerDist2(v: Point, p: Pointer): real {
    (v.x as real - p.x) * (v.x as real - p.x) + (v.y as real - p.y) * (v.y as real - p.y)
  }

  /** The side and angle readouts: "Degenerate" for a degenerate triangle, else the classifications. */
  function SideReadout(v0: Point, v1: Point, v2: Point): (r: Option<SideKind>)
    ensures r.None? <==> Degenerate(v0, v1, v2)
    ensures r.Some? ==> r.value == ClassifyBySides(Dist2(v0, v1) as real, Dist2(v1, v2) as real, Dist2(v2, v0) as real)
  {
    if Degenerate(v0, v1, v2) then None
    else Some(ClassifyBySides(Dist2(v0, v1) as real, Dist2(v1, v2) as real, Dist2(v2, v0) as real))
  }

  /**
    The draggable triangle: its three vertices, the vertex being dragged, and the
    canvas size (`canvas.width`, `canvas.height`).
   */
  class Explorer {
    var vertices: array<Point>
    var selected: Option<int>
    const width: int
    const height: int

    ghost predicate Valid()
      reads this
    {
      vertices.Length == 3 && (selected.Some? ==> 0 <= selected.value < 3)
    }

    /** `resetTriangle()` with the starting vertices (computed there with sqrt 3) given. */
    constructor (w: int, h: int, start: seq<Point>)
      requires |start| == 3
      ensures Valid() && fresh(vertices) && vertices[..] == start && selected.None?
      ensures width == w && height == h
    {
      width := w;
      height := h;
      vertices := new Point[3](i requires 0 <= i < 3 => start[i]);
      selected := None;
    }

    /** `pickVertex(p)`: the first vertex within `PICK_R` of `p`. */
    method PickVertex(p: Pointer) returns (idx: Option<int>)
      requires Valid()
      ensures idx.None? <==> forall i :: 0 <= i < 3 ==> PointerDist2(vertices[i], p) > (PickR * PickR) as real
      ensures idx.Some? ==>
        && 0 <= idx.value < 3 && PointerDist2(vertices[idx.value], p) <= (PickR * PickR) as real
        && (forall i :: 0 <= i < idx.value ==> PointerDist2(vertices[i], p) > (PickR * PickR) as real)
    {
      var i := 0;
      while i < vertices.Length
        invariant 0 <= i <= 3
        invariant forall k :: 0 <= k < i ==> PointerDist2(vertices[k], p) > (PickR * PickR) as real
      {
        if PointerDist2(vertices[i], p) <= (PickR * PickR) as real {
          return Some(i);
        }
        i := i + 1;
      }
      return None;
    }

    /** The pointer-down handler: a press near a vertex selects it, any other press is ignored. */
    method PointerDown(p: Pointer)
      requires Valid()
      modifies this
      ensures Valid() && vertices == old(vertices)
      ensures selected != old(selected) ==>
        selected.Some? && PointerDist2(vertices[selected.value], p) <= (PickR * PickR) as real
      ensures (forall i :: 0 <= i < 3 ==> PointerDist2(vertices[i], p) > (PickR * PickR) as real) ==> selected == old(selected)
      ensures (exists i :: 0 <= i < 3 && PointerDist2(vertices[i], p) <= (PickR * PickR) as real) ==>
        && selected.Some? && 0 <= selected.value < 3
        && PointerDist2(vertices[selected.value], p) <= (PickR * PickR) as real
        && (forall i :: 0 <= i < selected.value ==> PointerDist2(vertices[i], p) > (PickR * PickR) as real)
    {
      var idx := PickVertex(p);
      if idx.None? {
        return;
      }
      selected := idx;
    }

    /** The pointer-up and pointer-cancel handlers: nothing is dragged any more. */
    method PointerUp()
      requires Valid()
      modifies this
      ensures Valid() && vertices == old(vertices) && selected.None?
    {
      selected := None;
    }

    /** The pointer-move handler: the dragged vertex follows the pointer onto the grid; the others stay. */
    method PointerMove(p: Pointer)
      requires Valid()
      modifies vertices
      ensures Valid()
      ensures old(selected).None? ==> vertices[..] == old(vertices[..])
      ensures old(selected).Some? ==> vertices[..] == old(vertices[..])[selected.value := DragTarget(p.x, p.y, width, height)]
    {
      if selected.None? {
        return;
      }
      vertices[selected.value] := DragTarget(p.x, p.y, width, height);
    }
  }
}
