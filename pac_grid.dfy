/**
  The board geometry of Pac-Sweeper (pac-sweeper/game.js): cells as (row,
  column) positions, the eight neighbours of a cell in the order `neighbors8`
  lists them, counting, and the random source the game shuffles with.

  `Math.random()` is not modelled as randomness: `Rng` is a stream of draws
  fixed in advance, and `Math.floor(Math.random() * k)` takes the next draw
  modulo k. Every index a real run could pick is some stream's pick, so what is
  proved for every stream holds for every run.
 */
module PacGrid {

  /** A cell `{ r, c }`. */
  datatype Pos = Pos(r: int, c: int)

  /** `inBounds(r, c)`. */
  predicate InGrid(p: Pos, rows: int, cols: int) {
    0 <= p.r < rows && 0 <= p.c < cols
  }

  /** q is one of the eight cells around p. */
  predicate Adjacent(p: Pos, q: Pos) {
    p != q && -1 <= q.r - p.r <= 1 && -1 <= q.c - p.c <= 1
  }

  /** All cells of a rows-by-cols board. */
  function Cells(rows: int, cols: int): set<Pos> {
    set r, c | 0 <= r < rows && 0 <= c < cols :: Pos(r, c)
  }

  lemma {:induction false} InCells(rows: int, cols: int)
    ensures forall q :: q in Cells(rows, cols) <==> InGrid(q, rows, cols)
  {
    forall q | InGrid(q, rows, cols)
      ensures q in Cells(rows, cols)
    {
      assert q == Pos(q.r, q.c);
    }
  }

  // ---------------------------------------------------------------------------
  // neighbors8, specified: the offsets dr = -1, 0, 1 (outer) and dc = -1, 0, 1
  // (inner) without (0, 0), keeping the cells on the board.

  /** The position in that order of the offset (dr, dc), for (dr, dc) != (0, 0). */
  function OffsetIndex(dr: int, dc: int): int {
    (dr + 1) * 3 + (dc + 1) - (if dr > 0 || (dr == 0 && dc > 0) then 1 else 0)
  }

  /** The k-th of the eight cells around p, in `neighbors8` order. */
  function Around(p: Pos, k: int): Pos
    requires 0 <= k < 8
  {
    var m := if k >= 4 then k + 1 else k;
    Pos(p.r + m / 3 - 1, p.c + m % 3 - 1)
  }

  /** The eight cells around p, on the board or not. */
  function Ring(p: Pos): seq<Pos> {
    seq(8, k requires 0 <= k < 8 => Around(p, k))
  }

  lemma {:induction false} RingAt(p: Pos, dr: int, dc: int)
    requires -1 <= dr <= 1 && -1 <= dc <= 1 && (dr != 0 || dc != 0)
    ensures 0 <= OffsetIndex(dr, dc) < 8 && Ring(p)[OffsetIndex(dr, dc)] == Pos(p.r + dr, p.c + dc)
  {
    AroundAt(p, dr, dc);
  }

  /** The ring holds exactly the adjacent cells, each once. */
  lemma {:induction false} RingSpec(p: Pos)
    ensures forall q :: q in Ring(p) <==> Adjacent(p, q)
    ensures Distinct(Ring(p))
  {
    forall q | Adjacent(p, q)
      ensures q in Ring(p)
    {
      RingAt(p, q.r - p.r, q.c - p.c);
    }
  }

  /** The entries of s that are on the board, in order. */
  function OnBoard(s: seq<Pos>, rows: int, cols: int): (t: seq<Pos>)
    ensures |t| <= |s|
  {
    if s == [] then []
    else OnBoard(s[..|s| - 1], rows, cols) + (if InGrid(s[|s| - 1], rows, cols) then [s[|s| - 1]] else [])
  }

  lemma {:induction false} OnBoardSpec(s: seq<Pos>, rows: int, cols: int)
    ensures forall q :: q in OnBoard(s, rows, cols) <==> q in s && InGrid(q, rows, cols)
    ensures Distinct(s) ==> Distinct(OnBoard(s, rows, cols))
  {
    if s != [] {
      var s' := s[..|s| - 1];
      OnBoardSpec(s', rows, cols);
      assert s == s' + [s[|s| - 1]];
    }
  }

  /** The on-board cells among the first k of the ring, built one offset at a time. */
  function NeighboursUpTo(p: Pos, k: int, rows: int, cols: int): seq<Pos>
    requires 0 <= k <= 8
  {
    if k == 0 then []
    else NeighboursUpTo(p, k - 1, rows, cols)
         + (if InGrid(Around(p, k - 1), rows, cols) then [Around(p, k - 1)] else [])
  }

  lemma {:induction false} NeighboursUpToRing(p: Pos, k: int, rows: int, cols: int)
    requires 0 <= k <= 8
    ensures NeighboursUpTo(p, k, rows, cols) == OnBoard(Ring(p)[..k], rows, cols)
  {
    if k > 0 {
      NeighboursUpToRing(p, k - 1, rows, cols);
      assert Ring(p)[..k][..k - 1] == Ring(p)[..k - 1];
    }
  }

  /** The offset (dr, dc) of the loops is entry OffsetIndex(dr, dc) of the ring. */
  lemma {:induction false} AroundAt(p: Pos, dr: int, dc: int)
    requires -1 <= dr <= 1 && -1 <= dc <= 1 && (dr != 0 || dc != 0)
    ensures 0 <= OffsetIndex(dr, dc) < 8 && Around(p, OffsetIndex(dr, dc)) == Pos(p.r + dr, p.c + dc)
  {
  }

  /** One pass of the inner loop of `neighbors8`: offset (dr, dc) adds its cell when it is on the board. */
  lemma {:induction false} UpToStep(p: Pos, dr: int, dc: int, k: int, rows: int, cols: int)
    requires -1 <= dr <= 1 && -1 <= dc <= 1 && (dr != 0 || dc != 0) && k == OffsetIndex(dr, dc)
    ensures 0 <= k < 8 && OffsetIndex(dr, dc + 1) == k + 1
    ensures NeighboursUpTo(p, k + 1, rows, cols)
            == NeighboursUpTo(p, k, rows, cols) + (if InGrid(Pos(p.r + dr, p.c + dc), rows, cols) then [Pos(p.r + dr, p.c + dc)] else [])
  {
    AroundAt(p, dr, dc);
  }

  /** `neighbors8(r, c)` as a value. */
  function Neighbours(p: Pos, rows: int, cols: int): seq<Pos> {
    OnBoard(Ring(p), rows, cols)
  }

  /**
    The neighbours are exactly the adjacent cells on the board: never the cell
    itself, never a cell off the board, at most eight, and none listed twice.
   */
  lemma {:induction false} NeighboursSpec(p: Pos, rows: int, cols: int)
    ensures forall q :: q in Neighbours(p, rows, cols) <==> InGrid(q, rows, cols) && Adjacent(p, q)
    ensures |Neighbours(p, rows, cols)| <= 8
    ensures Distinct(Neighbours(p, rows, cols))
  {
    RingSpec(p);
    OnBoardSpec(Ring(p), rows, cols);
  }

  /** Pairwise different elements. */
  ghost predicate Distinct<T>(s: seq<T>) {
    forall i, j :: 0 <= i < j < |s| ==> s[i] != s[j]
  }

  /** How many entries of s lie in S (`if (bombs[nr][nc]) n++` over the list). */
  function Count(s: seq<Pos>, S: set<Pos>): (n: nat)
    ensures n <= |s|
  {
    if s == [] then 0 else Count(s[..|s| - 1], S) + (if s[|s| - 1] in S then 1 else 0)
  }

  /** The number of mines around p: a count between 0 and 8. */
  function MinesAround(p: Pos, mines: set<Pos>, rows: int, cols: int): (n: nat)
    ensures n <= 8
  {
    Count(Neighbours(p, rows, cols), mines)
  }

  /** Without mines every count is zero. */
  lemma {:induction false} NoMinesAround(rows: int, cols: int)
    ensures forall p :: MinesAround(p, {}, rows, cols) == 0
  {
    forall p
      ensures MinesAround(p, {}, rows, cols) == 0
    {
      CountNone(Neighbours(p, rows, cols), {});
    }
  }

  /** Counting depends only on which listed cells are in the set. */
  lemma {:induction false} CountSame(s: seq<Pos>, S: set<Pos>, T: set<Pos>)
    requires forall q :: q in s ==> (q in S <==> q in T)
    ensures Count(s, S) == Count(s, T)
  {
    if s != [] {
      CountSame(s[..|s| - 1], S, T);
    }
  }

  /** A count with no listed cell in the set is zero. */
  lemma {:induction false} CountNone(s: seq<Pos>, S: set<Pos>)
    requires forall q :: q in s ==> q !in S
    ensures Count(s, S) == 0
  {
    if s != [] {
      CountNone(s[..|s| - 1], S);
    }
  }

  /** Appending an element not yet listed keeps the list without repeats. */
  lemma {:induction false} DistinctSnoc<T>(s: seq<T>, x: T)
    requires Distinct(s) && x !in s
    ensures Distinct(s + [x])
  {
  }

  lemma {:induction false} DistinctPrefix<T>(s: seq<T>, n: int)
    requires Distinct(s) && 0 <= n <= |s|
    ensures Distinct(s[..n])
  {
  }

  /** A list without repeats has as many entries as elements. */
  lemma {:induction false} DistinctCard<T>(s: seq<T>)
    requires Distinct(s)
    ensures |set x | x in s| == |s|
  {
    if s != [] {
      var s' := s[..|s| - 1];
      DistinctCard(s');
      assert (set x | x in s) == (set x | x in s') + {s[|s| - 1]};
    }
  }

  /** A list without repeats drawn from A is no longer than A. */
  lemma {:induction false} DistinctWithin<T>(s: seq<T>, A: set<T>)
    requires Distinct(s) && forall x :: x in s ==> x in A
    ensures |s| <= |A|
  {
    DistinctCard(s);
    var S := set x | x in s;
    assert A == S + (A - S);
  }

  /** If the first k entries of a list without repeats, drawn from A, all lie in B, then A and B share at least k elements. */
  lemma {:induction false} PrefixWithin<T>(s: seq<T>, k: int, A: set<T>, B: set<T>)
    requires Distinct(s) && 0 <= k <= |s|
    requires forall x :: x in s ==> x in A
    requires forall j :: 0 <= j < k ==> s[j] in B
    ensures k <= |A * B|
  {
    DistinctPrefix(s, k);
    forall x | x in s[..k]
      ensures x in A * B
    {
      var j :| 0 <= j < k && s[..k][j] == x;
      assert s[j] == x;
    }
    DistinctWithin(s[..k], A * B);
  }

  /** A subset as large as its superset is all of it. */
  lemma {:induction false} SubsetFull<T>(S: set<T>, A: set<T>)
    requires S <= A && |A| <= |S|
    ensures S == A
  {
    assert A == S + (A - S);
  }

  // ---------------------------------------------------------------------------
  // Board size and the row-major numbering `idx = r * cols + c`.

  /** The number of cell p when the cells are numbered row by row. */
  function CellIndex(p: Pos, cols: int): int {
    p.r * cols + p.c
  }

  /** The cell numbered x: row `Math.floor(x / cols)`, column `x % cols`. */
  function CellOf(x: int, cols: int): Pos
    requires cols > 0
  {
    Pos(x / cols, x % cols)
  }

  /** Numbering and un-numbering a cell are inverse, and number the board 0 .. rows*cols - 1. */
  lemma {:induction false} CellOfIndex(p: Pos, rows: int, cols: int)
    requires InGrid(p, rows, cols)
    ensures 0 <= CellIndex(p, cols) < rows * cols
    ensures CellOf(CellIndex(p, cols), cols) == p
  {
    assert p.r * cols + p.c < (p.r + 1) * cols <= rows * cols;
    DivUnique(CellIndex(p, cols), cols, p.r, p.c);
  }

  lemma {:induction false} IndexOfCell(x: int, rows: int, cols: int)
    requires cols > 0 && 0 <= x < rows * cols
    ensures InGrid(CellOf(x, cols), rows, cols)
    ensures CellIndex(CellOf(x, cols), cols) == x
  {
    var q, m := x / cols, x % cols;
    assert x == q * cols + m;
    if q >= rows {
      MulLe(rows, q, cols);
    }
    if q < 0 {
      NextMul(q, 0, cols);
    }
  }

  /** Different numbers on the board name different cells. */
  lemma {:induction false} CellOfInjective(x: int, y: int, rows: int, cols: int)
    requires cols > 0 && 0 <= x < rows * cols && 0 <= y < rows * cols && x != y
    ensures CellOf(x, cols) != CellOf(y, cols)
  {
    IndexOfCell(x, rows, cols);
    IndexOfCell(y, rows, cols);
  }

  /** The board has rows * cols cells: the numbering is a bijection onto 0 .. rows*cols - 1. */
  lemma {:induction false} CellsCard(rows: int, cols: int)
    requires 0 < rows && 0 < cols
    ensures |Cells(rows, cols)| == rows * cols
  {
    MulLe(0, rows, cols);
    var total := rows * cols;
    var s := seq(total, x requires 0 <= x < total => CellOf(x, cols));
    forall i, j | 0 <= i < j < |s|
      ensures s[i] != s[j]
    {
      CellOfInjective(i, j, rows, cols);
    }
    InCells(rows, cols);
    forall q | q in Cells(rows, cols)
      ensures q in s
    {
      CellOfIndex(q, rows, cols);
      assert s[CellIndex(q, cols)] == q;
    }
    forall q | q in s
      ensures q in Cells(rows, cols)
    {
      var x :| 0 <= x < |s| && s[x] == q;
      IndexOfCell(x, rows, cols);
    }
    assert (set q | q in s) == Cells(rows, cols);
    DistinctCard(s);
  }

  /** The cells of a board that are not mines: the board size less the mines. */
  lemma {:induction false} SafeCells(mines: set<Pos>, rows: int, cols: int)
    requires 0 < rows && 0 < cols
    requires forall p :: p in mines ==> InGrid(p, rows, cols)
    ensures |Cells(rows, cols) - mines| == rows * cols - |mines|
  {
    CellsCard(rows, cols);
    InCells(rows, cols);
    assert Cells(rows, cols) == (Cells(rows, cols) - mines) + mines;
  }

  /**
    With the mines on the board and the start cell on the board and not a mine,
    rows*cols - |mines| - 1 cells are neither.
   */
  lemma {:induction false} SpareCells(mines: set<Pos>, start: Pos, rows: int, cols: int)
    requires 0 < rows && 0 < cols
    requires forall p :: p in mines ==> InGrid(p, rows, cols)
    requires InGrid(start, rows, cols) && start !in mines
    ensures |Cells(rows, cols) - mines - {start}| == rows * cols - |mines| - 1
  {
    SafeCells(mines, rows, cols);
    InCells(rows, cols);
    var spare := Cells(rows, cols) - mines;
    assert start in spare;
    assert spare == (spare - {start}) + {start};
  }

  /** Opening one more closed cell of the board leaves fewer closed cells. */
  lemma {:induction false} ShrinkClosed(S: set<Pos>, x: Pos, rows: int, cols: int)
    requires InGrid(x, rows, cols) && x !in S
    ensures |Cells(rows, cols) - (S + {x})| < |Cells(rows, cols) - S|
  {
    InCells(rows, cols);
    assert Cells(rows, cols) - S == (Cells(rows, cols) - (S + {x})) + {x};
  }

  /** Opening one more cell adds one to the open safe cells exactly when it is safe. */
  lemma {:induction false} SafeCount(S: set<Pos>, B: set<Pos>, p: Pos)
    requires p !in S
    ensures |(S + {p}) - B| == |S - B| + (if p in B then 0 else 1)
  {
    if p in B {
      assert (S + {p}) - B == S - B;
    } else {
      assert (S + {p}) - B == (S - B) + {p};
    }
  }

  /** Division by a positive number has one quotient and remainder. */
  lemma {:induction false} DivUnique(x: int, cols: int, q: int, m: int)
    requires 0 <= m < cols && x == q * cols + m
    ensures x / cols == q && x % cols == m
  {
    var q', m' := x / cols, x % cols;
    assert x == q' * cols + m';
    if q' < q {
      NextMul(q', q, cols);
    } else if q < q' {
      NextMul(q, q', cols);
    }
  }

  lemma {:induction false} NextMul(a: int, b: int, c: int)
    requires a < b && 0 <= c
    ensures a * c + c <= b * c
  {
    MulLe(a + 1, b, c);
    assert (a + 1) * c == a * c + c;
  }

  /** Every number but x below total, in increasing order: entry t is t, or t + 1 from x on. */
  function SkipIndex(t: int, x: int): int {
    if t < x then t else t + 1
  }

  lemma {:induction false} SkipList(a: seq<int>, total: int, x: int)
    requires 0 <= x < total && |a| == total - 1
    requires forall t :: 0 <= t < |a| ==> a[t] == SkipIndex(t, x)
    ensures Distinct(a)
    ensures forall v :: v in a <==> 0 <= v < total && v != x
  {
    forall v | 0 <= v < total && v != x
      ensures v in a
    {
      var t := if v < x then v else v - 1;
      assert a[t] == v;
    }
  }

  lemma {:induction false} MulLe(a: int, b: int, c: int)
    requires a <= b && 0 <= c
    ensures a * c <= b * c
  {
    var d := b - a;
    assert b * c == a * c + d * c;
  }

  // ---------------------------------------------------------------------------
  // Randomness.

  /** `Math.random()`, as a stream of draws fixed in advance. */
  class Rng {
    var draws: seq<nat>

    constructor (draws: seq<nat>)
      ensures this.draws == draws
    {
      this.draws := draws;
    }

    /**
      `Math.floor(Math.random() * k)`: an index below k. The next draw modulo k;
      an exhausted stream gives 0.
     */
    method Below(k: nat) returns (j: nat)
      requires k > 0
      modifies this
      ensures j < k
      ensures old(draws) == [] ==> j == 0 && draws == []
      ensures old(draws) != [] ==> j == old(draws)[0] % k && draws == old(draws)[1..]
    {
      if draws == [] {
        j := 0;
      } else {
        j := draws[0] % k;
        draws := draws[1..];
      }
    }
  }

  /**
    The Fisher-Yates shuffle the game runs on its index and cell lists: for i
    from the last index down to 1, swap entry i with a random entry j <= i. The
    entries are only moved: the result is a permutation, and a list without
    repeats stays without repeats.
   */
  method Shuffle<T>(a: array<T>, rng: Rng)
    modifies a, rng
    ensures multiset(a[..]) == multiset(old(a[..]))
    ensures forall x :: x in a[..] <==> x in old(a[..])
    ensures Distinct(old(a[..])) ==> Distinct(a[..])
  {
    var i := a.Length - 1;
    while i > 0
      invariant -1 <= i < a.Length
      invariant multiset(a[..]) == multiset(old(a[..]))
      invariant Distinct(old(a[..])) ==> Distinct(a[..])
    {
      var j := rng.Below(i + 1);
      ghost var before := a[..];
      a[i], a[j] := a[j], a[i];
      SwapKeeps(before, a[..], i, j);
      i := i - 1;
    }
    assert forall x :: x in a[..] <==> x in multiset(a[..]);
  }

  /** Exchanging two entries keeps the multiset of entries and the absence of repeats. */
  lemma {:induction false} SwapKeeps<T>(s: seq<T>, t: seq<T>, i: int, j: int)
    requires 0 <= i < |s| && 0 <= j < |s| && |t| == |s|
    requires t[i] == s[j] && t[j] == s[i] && forall k :: 0 <= k < |s| && k != i && k != j ==> t[k] == s[k]
    ensures multiset(t) == multiset(s)
    ensures Distinct(s) ==> Distinct(t)
  {
    if i != j {
      var u := s[i := s[j]][j := s[i]];
      assert t == u;
    } else {
      assert t == s;
    }
  }
}
