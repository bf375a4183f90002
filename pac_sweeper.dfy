/**
  The Pac-Sweeper board engine (pac-sweeper/game.js): a Minesweeper board whose
  mines are placed only after the first click, so the start cell is never a
  mine, and a token (Pac) that walks over it, opening cells, picking up items
  and spending shield charges on mines.

  One `Game` object is one round: `newGame()` becomes the constructor. Each
  boolean grid of the game (`bombs[r][c]`, `revealed[r][c]`, `flagged[r][c]`)
  is the set of cells it marks, and `counts[r][c]` and `items[r][c]` are maps
  from cells to their values (a cell without an item is not in `items`); the
  methods update them cell by cell as the game's loops do. Rendering, sounds
  and status texts are not modelled.
 */
module PacSweeper {
  import opened Wrappers
  import opened PacGrid

  /** The five item kinds of `placeItems`. */
  datatype Item = Reveal1 | Reveal2 | Reveal5 | Defuse | Teleport

  /** The items `placeItems` hands out, in order: three reveal1, two reveal2, one each of the rest. */
  const ItemTypes: seq<Item> := [Reveal1, Reveal1, Reveal1, Reveal2, Reveal2, Reveal5, Defuse, Teleport]

  /**
    `clampInt(v, min, max, fallback)`, with `Number.parseInt(v, 10)` given as its
    result: None when it is not a finite number. A number is pulled into
    [lo, hi]; a non-number gives the fallback, which is not clamped.
   */
  function ClampInt(v: Option<int>, lo: int, hi: int, fallback: int): (n: int)
    ensures v.None? ==> n == fallback
    ensures v.Some? && lo <= hi ==> lo <= n <= hi
    ensures v.Some? && lo <= v.value <= hi ==> n == v.value
    ensures v.Some? && v.value < lo ==> n == lo
    ensures v.Some? && lo <= hi && hi < v.value ==> n == hi
  {
    match v
    case None => fallback
    case Some(x) =>
      var m := if hi < x then hi else x;
      if m < lo then lo else m
  }

  function Min(x: int, y: int): int {
    if x < y then x else y
  }

  function Max(x: int, y: int): int {
    if x < y then y else x
  }

  /** Every cell of S is on the board. */
  ghost predicate Within(S: set<Pos>, rows: int, cols: int) {
    forall p :: p in S ==> InGrid(p, rows, cols)
  }

  /** Every cell of the board has its count, the number of mines around it. */
  ghost predicate CountsOk(counts: map<Pos, int>, bombs: set<Pos>, rows: int, cols: int) {
    forall p {:trigger p in counts} {:trigger counts[p]} :: InGrid(p, rows, cols) ==> p in counts && counts[p] == MinesAround(p, bombs, rows, cols)
  }

  /** Taking a closed mine off the board leaves one mine fewer and the same open safe cells. */
  lemma {:induction false} DropMine(bombs: set<Pos>, revealed: set<Pos>, t: Pos, rows: int, cols: int)
    requires t in bombs && t !in revealed && Within(bombs, rows, cols) && revealed !! bombs
    ensures |bombs - {t}| == |bombs| - 1 && Within(bombs - {t}, rows, cols)
    ensures revealed !! bombs - {t} && revealed - (bombs - {t}) == revealed - bombs
  {
  }

  /** A cell's flag after a toggle. */
  function Flip(S: set<Pos>, p: Pos): (t: set<Pos>)
    ensures p in t <==> p !in S
    ensures forall q :: q != p ==> (q in t <==> q in S)
  {
    if p in S then S - {p} else S + {p}
  }

  /** Toggling twice restores the flags. */
  lemma {:induction false} FlipTwice(S: set<Pos>, p: Pos)
    ensures Flip(Flip(S, p), p) == S
  {
  }

  /** `counts[r][c] === 0 || items[r][c]`: opening this cell also opens its closed neighbours. */
  predicate Spreading(p: Pos, counts: map<Pos, int>, items: map<Pos, Item>) {
    (p in counts && counts[p] == 0) || p in items
  }

  /**
    The items as `placeItems` deals them onto the list `cells` of distinct
    cells: item i of `ItemTypes` lies on cells[i], and no other cell has one.
   */
  ghost predicate Dealt(items: map<Pos, Item>, cells: seq<Pos>) {
    && Distinct(cells) && |cells| <= |ItemTypes|
    && (forall q :: q in items <==> q in cells)
    && forall i :: 0 <= i < |cells| ==> cells[i] in items && items[cells[i]] == ItemTypes[i]
  }

  /** The cells holding an item of kind k. */
  ghost function Holding(items: map<Pos, Item>, k: Item): set<Pos> {
    set q | q in items.Keys && items[q] == k
  }

  /**
    The items of a round as `placeItems` leaves them with `room` free cells:
    as many as fit, dealt in the order of `ItemTypes`, so each kind appears as
    often as in the dealt prefix of `ItemTypes`.
   */
  ghost predicate Stocked(items: map<Pos, Item>, room: int) {
    && |items| == Min(|ItemTypes|, room)
    && (exists cells :: Dealt(items, cells))
    && forall k :: |Holding(items, k)| == multiset(ItemTypes[..|items|])[k]
  }

  /** Taking back the last item dealt leaves the deal of the others. */
  lemma {:induction false} DealtLast(items: map<Pos, Item>, cells: seq<Pos>)
    requires Dealt(items, cells) && cells != []
    ensures Dealt(items - {cells[|cells| - 1]}, cells[..|cells| - 1])
    ensures cells[|cells| - 1] in items && items[cells[|cells| - 1]] == ItemTypes[|cells| - 1]
  {
    var n := |cells| - 1;
    var x := cells[n];
    var rest := items - {x};
    var pre := cells[..n];
    DistinctPrefix(cells, n);
    forall q
      ensures q in rest.Keys <==> q in pre
    {
      if q in pre {
        var i :| 0 <= i < n && pre[i] == q;
        assert cells[i] == q;
      }
      if q in rest.Keys {
        var i :| 0 <= i < |cells| && cells[i] == q;
        assert pre[i] == q;
      }
    }
    assert forall i :: 0 <= i < n ==> pre[i] == cells[i] && cells[i] != x;
  }

  /** Taking one item off the board takes one from the count of its kind. */
  lemma {:induction false} HoldingLess(items: map<Pos, Item>, x: Pos, k: Item)
    requires x in items
    ensures |Holding(items, k)| == |Holding(items - {x}, k)| + (if items[x] == k then 1 else 0)
  {
    if items[x] == k {
      assert Holding(items, k) == Holding(items - {x}, k) + {x};
    } else {
      assert Holding(items, k) == Holding(items - {x}, k);
    }
  }

  /** A deal puts one item on each listed cell. */
  lemma {:induction false} DealtSize(items: map<Pos, Item>, cells: seq<Pos>)
    requires Dealt(items, cells)
    ensures |items| == |cells|
  {
    DistinctCard(cells);
    assert items.Keys == set q | q in cells;
  }

  /** A deal of n items puts on the board as many of each kind as the first n entries of `ItemTypes` list. */
  lemma {:induction false} DealtKinds(items: map<Pos, Item>, cells: seq<Pos>, k: Item)
    requires Dealt(items, cells)
    ensures |Holding(items, k)| == multiset(ItemTypes[..|cells|])[k]
    decreases |cells|
  {
    if cells == [] {
      assert items.Keys == {};
      assert Holding(items, k) == {};
    } else {
      var n := |cells| - 1;
      var x := cells[n];
      DealtLast(items, cells);
      DealtKinds(items - {x}, cells[..n], k);
      KindsStep(items, x, ItemTypes, n, k);
    }
  }

  /** Adding back the item dealt n-th raises the count of its kind as the n-th list entry does. */
  lemma {:induction false} KindsStep(items: map<Pos, Item>, x: Pos, s: seq<Item>, n: int, k: Item)
    requires 0 <= n < |s| && x in items && items[x] == s[n]
    requires |Holding(items - {x}, k)| == multiset(s[..n])[k]
    ensures |Holding(items, k)| == multiset(s[..n + 1])[k]
  {
    HoldingLess(items, x, k);
    CountSnoc(s, n, k);
  }

  /** The occurrences of k in the first n + 1 entries of s: those in the first n, and one more when entry n is k. */
  lemma {:induction false} CountSnoc(s: seq<Item>, n: int, k: Item)
    requires 0 <= n < |s|
    ensures multiset(s[..n + 1])[k] == multiset(s[..n])[k] + (if s[n] == k then 1 else 0)
  {
    assert s[..n + 1] == s[..n] + [s[n]];
  }

  /** Which of the game's three board scans a candidate list comes from. */
  datatype Pick = ForItems(start: Pos) | ForReveal | ForTeleport

  /** What a flood reveal reads and does not change: the board size, flags, mines, counts and items. */
  datatype Board = Board(rows: int, cols: int, flagged: set<Pos>, bombs: set<Pos>, counts: map<Pos, int>, items: map<Pos, Item>)

  /**
    The flood's stack on board b, with `open` the cells open so far and R0 those
    open before: every entry is on the board, and every entry but the start
    cell was pushed (`from`) by an opened cell that spreads and is adjacent to it.
   */
  ghost predicate Pushed(b: Board, open: set<Pos>, R0: set<Pos>, start: Pos, stack: seq<Pos>, from: seq<Pos>) {
    && |from| == |stack|
    && (forall i :: 0 <= i < |stack| ==> InGrid(stack[i], b.rows, b.cols))
    && (forall i :: 0 <= i < |stack| && stack[i] != start ==>
          from[i] in open - R0 && Adjacent(from[i], stack[i]) && Spreading(from[i], b.counts, b.items))
  }

  /** Who opened whom in a flood: each opened cell's parent, and its distance in steps from the start. */
  datatype Links = Links(parent: map<Pos, Pos>, depth: map<Pos, nat>)

  /**
    Every cell the flood opened has a depth, and every one but the start has a
    parent: an opened, adjacent cell that spreads, one step nearer the start.
   */
  ghost predicate Parented(b: Board, open: set<Pos>, R0: set<Pos>, start: Pos, t: Links) {
    forall q :: q in open - R0 ==>
      q in t.depth
      && (q != start ==>
            && q in t.parent && t.parent[q] in open - R0 && Adjacent(t.parent[q], q)
            && Spreading(t.parent[q], b.counts, b.items)
            && t.parent[q] in t.depth && t.depth[t.parent[q]] < t.depth[q])
  }

  /** The links after x opens: the start has depth 0, any other cell hangs one step below the cell that pushed it. */
  ghost function Grow(t: Links, start: Pos, x: Pos, pusher: Pos): Links {
    if x != start then
      Links(t.parent[x := pusher], t.depth[x := (if pusher in t.depth then t.depth[pusher] else 0) + 1])
    else
      Links(t.parent, t.depth[x := 0])
  }

  /** Every neighbour of an opened cell that spreads is open, flagged, a mine, or still on the stack. */
  ghost predicate Frontier(b: Board, open: set<Pos>, R0: set<Pos>, stack: seq<Pos>) {
    forall p, q :: p in open - R0 && Spreading(p, b.counts, b.items) && Adjacent(p, q) && InGrid(q, b.rows, b.cols) ==>
      q in open || q in b.flagged || q in b.bombs || q in stack
  }

  /**
    What the flood keeps: it opened no flagged cell and no mine, the start cell
    is open or still to do, and the three facts above hold.
   */
  ghost predicate Flood(b: Board, open: set<Pos>, R0: set<Pos>, start: Pos, stack: seq<Pos>, from: seq<Pos>, t: Links) {
    && R0 <= open
    && open - R0 !! b.flagged && open - R0 !! b.bombs
    && start !in b.flagged && start !in b.bombs
    && (start in open || start in stack)
    && Pushed(b, open, R0, start, stack, from)
    && Parented(b, open, R0, start, t)
    && Frontier(b, open, R0, stack)
  }

  /** Popping a cell that is open, flagged or a mine keeps the flood invariant. */
  lemma {:induction false} FloodSkip(b: Board, open: set<Pos>, R0: set<Pos>, start: Pos, stack: seq<Pos>, from: seq<Pos>, t: Links)
    requires stack != [] && Flood(b, open, R0, start, stack, from, t)
    requires !(InGrid(stack[|stack| - 1], b.rows, b.cols) && stack[|stack| - 1] !in open
               && stack[|stack| - 1] !in b.flagged && stack[|stack| - 1] !in b.bombs)
    ensures Flood(b, open, R0, start, stack[..|stack| - 1], from[..|from| - 1], t)
  {
    var x := stack[|stack| - 1];
    assert InGrid(x, b.rows, b.cols);
    var rest := stack[..|stack| - 1];
    forall q | q in stack && q != x
      ensures q in rest
    {
      var i :| 0 <= i < |stack| && stack[i] == q;
      assert rest[i] == q;
    }
  }

  /** After popping x and pushing its neighbours, the old entries and the new ones are still well pushed. */
  lemma {:induction false} PushedOpen(b: Board, open: set<Pos>, R0: set<Pos>, start: Pos, stack: seq<Pos>, from: seq<Pos>,
                   x: Pos, open': set<Pos>, stack': seq<Pos>, from': seq<Pos>)
    requires stack != [] && Pushed(b, open, R0, start, stack, from) && R0 <= open
    requires x == stack[|stack| - 1] && open' == open + {x} && x !in open
    requires |stack| - 1 <= |stack'| && |from'| == |stack'|
    requires stack'[..|stack| - 1] == stack[..|stack| - 1] && from'[..|stack| - 1] == from[..|stack| - 1]
    requires forall i :: |stack| - 1 <= i < |stack'| ==> from'[i] == x && Adjacent(x, stack'[i]) && InGrid(stack'[i], b.rows, b.cols)
    requires !Spreading(x, b.counts, b.items) ==> |stack'| == |stack| - 1
    ensures Pushed(b, open', R0, start, stack', from')
  {
    var last := |stack| - 1;
    forall i | 0 <= i < |stack'|
      ensures InGrid(stack'[i], b.rows, b.cols)
      ensures stack'[i] != start ==> from'[i] in open' - R0 && Adjacent(from'[i], stack'[i]) && Spreading(from'[i], b.counts, b.items)
    {
      if i < last {
        assert stack'[i] == stack'[..last][i] && from'[i] == from'[..last][i];
      }
    }
  }

  /** Opening x gives it, unless it is the start cell, the parent that pushed it, one step deeper. */
  lemma {:induction false} ParentedOpen(b: Board, open: set<Pos>, R0: set<Pos>, start: Pos, stack: seq<Pos>, from: seq<Pos>, t: Links,
                     x: Pos, open': set<Pos>)
    requires stack != [] && Pushed(b, open, R0, start, stack, from) && Parented(b, open, R0, start, t)
    requires x == stack[|stack| - 1] && x !in open && open' == open + {x}
    ensures Parented(b, open', R0, start, Grow(t, start, x, from[|from| - 1]))
  {
    var t' := Grow(t, start, x, from[|from| - 1]);
    forall q | q in open' - R0
      ensures q in t'.depth
      ensures q != start ==>
                && q in t'.parent && t'.parent[q] in open' - R0 && Adjacent(t'.parent[q], q)
                && Spreading(t'.parent[q], b.counts, b.items)
                && t'.parent[q] in t'.depth && t'.depth[t'.parent[q]] < t'.depth[q]
    {
      if q == x && q != start {
        assert stack[|stack| - 1] != start;
        assert from[|from| - 1] in open - R0;
      } else if q != x && q != start {
        assert t.parent[q] in open;
      }
    }
  }

  /** Opening x and pushing its neighbours when it spreads keeps every spreading cell's neighbours covered. */
  lemma {:induction false} FrontierOpen(b: Board, open: set<Pos>, R0: set<Pos>, stack: seq<Pos>, x: Pos, open': set<Pos>, stack': seq<Pos>)
    requires stack != [] && Frontier(b, open, R0, stack)
    requires x == stack[|stack| - 1] && open' == open + {x}
    requires |stack| - 1 <= |stack'| && stack'[..|stack| - 1] == stack[..|stack| - 1]
    requires Spreading(x, b.counts, b.items) ==> forall q :: Adjacent(x, q) && InGrid(q, b.rows, b.cols) ==>
               q in open' || q in b.flagged || q in b.bombs || q in stack'
    ensures Frontier(b, open', R0, stack')
  {
    var last := |stack| - 1;
    forall p, q | p in open' - R0 && Spreading(p, b.counts, b.items) && Adjacent(p, q) && InGrid(q, b.rows, b.cols)
      ensures q in open' || q in b.flagged || q in b.bombs || q in stack'
    {
      if p != x && q !in open' && q !in b.flagged && q !in b.bombs {
        assert q != x && stack[last] == x;
        var i :| 0 <= i < |stack| && stack[i] == q;
        assert i != last;
        assert stack'[..last][i] == q;
      }
    }
  }

  /**
    A way the flood can spread from the start on board b with R0 open before:
    a walk of adjacent cells, none open before, flagged or a mine, each but the
    last one that spreads.
   */
  ghost predicate FloodPath(b: Board, R0: set<Pos>, path: seq<Pos>) {
    && (forall i :: 0 <= i < |path| ==>
          InGrid(path[i], b.rows, b.cols) && path[i] !in R0 && path[i] !in b.flagged && path[i] !in b.bombs)
    && (forall i :: 0 <= i < |path| - 1 ==> Adjacent(path[i], path[i + 1]) && Spreading(path[i], b.counts, b.items))
  }

  /** Cell q is reached by such a walk from the start. */
  ghost predicate Reaches(b: Board, R0: set<Pos>, start: Pos, q: Pos) {
    exists path :: FloodPath(b, R0, path) && |path| > 0 && path[0] == start && path[|path| - 1] == q
  }

  /** Following the parents back from an opened cell gives a walk to it from the start. */
  lemma {:induction false} PathTo(b: Board, open: set<Pos>, R0: set<Pos>, start: Pos, t: Links, q: Pos) returns (path: seq<Pos>)
    requires Parented(b, open, R0, start, t) && Within(open, b.rows, b.cols)
    requires open - R0 !! b.flagged && open - R0 !! b.bombs
    requires q in open - R0
    ensures FloodPath(b, R0, path) && |path| > 0 && path[0] == start && path[|path| - 1] == q
    decreases t.depth[q]
  {
    if q == start {
      path := [q];
    } else {
      var p := t.parent[q];
      var pre := PathTo(b, open, R0, start, t, p);
      path := pre + [q];
      forall i | 0 <= i < |path| - 1
        ensures Adjacent(path[i], path[i + 1]) && Spreading(path[i], b.counts, b.items)
      {
        if i < |pre| - 1 {
          assert path[i] == pre[i] && path[i + 1] == pre[i + 1];
        } else {
          assert path[i] == p && path[i + 1] == q;
        }
      }
    }
  }

  /** Once the flood is closed, every cell a walk from the opened start reaches is open. */
  lemma {:induction false} PathOpen(b: Board, open: set<Pos>, R0: set<Pos>, start: Pos, path: seq<Pos>)
    requires start in open && FloodPath(b, R0, path) && |path| > 0 && path[0] == start
    requires forall p, q :: p in open - R0 && Spreading(p, b.counts, b.items) && Adjacent(p, q) && InGrid(q, b.rows, b.cols) ==>
               q in open || q in b.flagged || q in b.bombs
    ensures path[|path| - 1] in open
    decreases |path|
  {
    if |path| > 1 {
      var pre := path[..|path| - 1];
      assert forall i :: 0 <= i < |pre| ==> pre[i] == path[i];
      PathOpen(b, open, R0, start, pre);
      var p := path[|path| - 2];
      assert p == pre[|pre| - 1];
      assert Adjacent(path[|path| - 2], path[|path| - 1]);
    }
  }

  /**
    When the stack is empty the flood is complete: the start cell is open,
    every other opened cell has an opened spreading neighbour, every neighbour
    of an opened spreading cell is open, flagged or a mine, and the cells it
    opened are exactly those a walk from the start reaches.
   */
  lemma {:induction false} FloodDone(b: Board, open: set<Pos>, R0: set<Pos>, start: Pos, t: Links)
    requires Flood(b, open, R0, start, [], [], t) && Within(open, b.rows, b.cols)
    ensures start in open
    ensures forall q :: q in open - R0 && q != start ==>
              exists p :: p in open - R0 && Adjacent(p, q) && Spreading(p, b.counts, b.items)
    ensures forall p, q :: p in open - R0 && Spreading(p, b.counts, b.items) && Adjacent(p, q) && InGrid(q, b.rows, b.cols) ==>
              q in open || q in b.flagged || q in b.bombs
    ensures forall q :: q in open - R0 <==> Reaches(b, R0, start, q)
  {
    forall q | q in open - R0 && q != start
      ensures exists p :: p in open - R0 && Adjacent(p, q) && Spreading(p, b.counts, b.items)
    {
      var p := t.parent[q];
      assert p in open - R0 && Adjacent(p, q) && Spreading(p, b.counts, b.items);
    }
    forall q
      ensures q in open - R0 <==> Reaches(b, R0, start, q)
    {
      if q in open - R0 {
        var path := PathTo(b, open, R0, start, t, q);
      }
      if Reaches(b, R0, start, q) {
        var path :| FloodPath(b, R0, path) && |path| > 0 && path[0] == start && path[|path| - 1] == q;
        PathOpen(b, open, R0, start, path);
      }
    }
  }

  /**
    Popping a closed, unflagged safe cell x, opening it and pushing its
    neighbours (when it spreads) keeps the flood invariant, with x's parent
    the cell that pushed it.
   */
  lemma {:induction false} FloodOpen(b: Board, open: set<Pos>, R0: set<Pos>, start: Pos, stack: seq<Pos>, from: seq<Pos>, t: Links,
                  x: Pos, open': set<Pos>, stack': seq<Pos>, from': seq<Pos>)
    requires stack != [] && Flood(b, open, R0, start, stack, from, t)
    requires x == stack[|stack| - 1] && open' == open + {x}
    requires x !in open && x !in b.flagged && x !in b.bombs
    requires |stack| - 1 <= |stack'| && |from'| == |stack'|
    requires stack'[..|stack| - 1] == stack[..|stack| - 1] && from'[..|stack| - 1] == from[..|stack| - 1]
    requires forall i :: |stack| - 1 <= i < |stack'| ==> from'[i] == x && Adjacent(x, stack'[i]) && InGrid(stack'[i], b.rows, b.cols)
    requires Spreading(x, b.counts, b.items) ==> forall q :: Adjacent(x, q) && InGrid(q, b.rows, b.cols) ==>
               q in open' || q in b.flagged || q in b.bombs || q in stack'
    requires !Spreading(x, b.counts, b.items) ==> |stack'| == |stack| - 1
    ensures Flood(b, open', R0, start, stack', from', Grow(t, start, x, from[|from| - 1]))
  {
    PushedOpen(b, open, R0, start, stack, from, x, open', stack', from');
    ParentedOpen(b, open, R0, start, stack, from, t, x, open');
    FrontierOpen(b, open, R0, stack, x, open', stack');
    if start !in open' {
      var last := |stack| - 1;
      assert start != x && stack[last] == x;
      var i :| 0 <= i < |stack| && stack[i] == start;
      assert i != last;
      assert stack'[..last][i] == start;
    }
  }

  class Game {
    const rows: int
    const cols: int
    const bombCount: int

    /** The cells `bombs[r][c]` marks. */
    var bombs: set<Pos>
    /** `counts[r][c]`, the mines around each cell. */
    var counts: map<Pos, int>
    /** The cells `revealed[r][c]` marks. */
    var revealed: set<Pos>
    /** The cells `flagged[r][c]` marks. */
    var flagged: set<Pos>
    /** The cells holding an item (`items[r][c]` not null) and their items. */
    var items: map<Pos, Item>

    var pac: Option<Pos>
    var alive: bool
    var started: bool
    var revealedSafe: int
    var totalSafe: int
    var bombsRemaining: int
    var defuseCharges: nat

    ghost predicate Shape() {
      5 <= rows <= 30 && 5 <= cols <= 40 && 1 <= bombCount
    }

    /**
      The grids lie on the board, the counts are right, no cell is both open and
      flagged, no item lies on a mine, and the counters agree with the grids:
      revealedSafe is the number of open safe cells and totalSafe +
      bombsRemaining the board size. Before the first click nothing is placed.
     */
    ghost predicate Wf()
      reads this`bombs, this`counts, this`revealed, this`flagged, this`items, this`alive, this`started
      reads this`revealedSafe, this`totalSafe, this`bombsRemaining
    {
      && Shape()
      && Within(bombs, rows, cols) && Within(revealed, rows, cols)
      && Within(flagged, rows, cols) && Within(items.Keys, rows, cols)
      && CountsOk(counts, bombs, rows, cols)
      && revealed !! flagged
      && revealedSafe == |revealed - bombs|
      && totalSafe + bombsRemaining == rows * cols
      && (started ==> bombsRemaining == |bombs|)
      && (!started ==> bombs == {} && items == map[] && revealed == {} && bombsRemaining == bombCount && alive)
      && (alive ==> revealed !! bombs)
      && items.Keys !! bombs
    }

    /** Between events, moreover: Pac is placed exactly when the round has started, on an open cell. */
    ghost predicate Valid()
      reads this`bombs, this`counts, this`revealed, this`flagged, this`items, this`alive, this`started
      reads this`revealedSafe, this`totalSafe, this`bombsRemaining, this`pac
    {
      && Wf()
      && (pac.Some? <==> started)
      && (pac.Some? ==> pac.value in revealed)
    }

    /**
      `newGame()`: the board size and mine count from the three inputs, empty
      grids, no Pac, alive and not started.
     */
    constructor (rowsIn: Option<int>, colsIn: Option<int>, bombsIn: Option<int>)
      ensures Valid()
      ensures rows == ClampInt(rowsIn, 5, 30, 12) && cols == ClampInt(colsIn, 5, 40, 18)
      ensures bombCount == ClampInt(bombsIn, 1, rows * cols - 1, 35)
      ensures bombs == {} && revealed == {} && flagged == {} && items == map[]
      ensures forall p :: InGrid(p, rows, cols) ==> p in counts && counts[p] == 0
      ensures pac.None? && alive && !started
      ensures revealedSafe == 0 && defuseCharges == 0
      ensures totalSafe == rows * cols - bombCount && bombsRemaining == bombCount
    {
      var r := ClampInt(rowsIn, 5, 30, 12);
      var c := ClampInt(colsIn, 5, 40, 18);
      rows, cols := r, c;
      var b := ClampInt(bombsIn, 1, r * c - 1, 35);
      bombCount := b;
      bombs, revealed, flagged, items := {}, {}, {}, map[];
      counts := map p | p in Cells(r, c) :: 0;
      pac := None;
      alive := true;
      started := false;
      revealedSafe := 0;
      totalSafe := r * c - b;
      bombsRemaining := b;
      defuseCharges := 0;
      InCells(r, c);
      NoMinesAround(r, c);
    }

    /** `inBounds(r, c)`. */
    predicate InBounds(r: int, c: int) {
      InGrid(Pos(r, c), rows, cols)
    }

    /** `neighbors8(r, c)`: the on-board cells around (r, c), as the loops list them. */
    method Neighbors8(r: int, c: int) returns (out: seq<Pos>)
      ensures out == Neighbours(Pos(r, c), rows, cols)
    {
      ghost var k := 0;
      out := [];
      var dr := -1;
      while dr <= 1
        invariant -1 <= dr <= 2 && k == OffsetIndex(dr, -1)
        invariant out == NeighboursUpTo(Pos(r, c), k, rows, cols)
      {
        out, k := NeighboursRow(r, c, dr, out, k);
        dr := dr + 1;
      }
      NeighboursUpToRing(Pos(r, c), 8, rows, cols);
      assert Ring(Pos(r, c))[..8] == Ring(Pos(r, c));
    }

    /** The inner loop of `neighbors8`: row dr of the 3-by-3 block, skipping the centre. */
    method NeighboursRow(r: int, c: int, dr: int, out0: seq<Pos>, ghost k0: int) returns (out: seq<Pos>, ghost k: int)
      requires -1 <= dr <= 1 && k0 == OffsetIndex(dr, -1)
      requires out0 == NeighboursUpTo(Pos(r, c), k0, rows, cols)
      ensures k == OffsetIndex(dr + 1, -1)
      ensures out == NeighboursUpTo(Pos(r, c), k, rows, cols)
    {
      out, k := out0, k0;
      var dc := -1;
      while dc <= 1
        invariant -1 <= dc <= 2 && k == OffsetIndex(dr, dc)
        invariant out == NeighboursUpTo(Pos(r, c), k, rows, cols)
      {
        if !(dr == 0 && dc == 0) {
          out, k := NeighbourAt(r, c, dr, dc, out, k);
        }
        dc := dc + 1;
      }
    }

    /** One pass of the inner loop of `neighbors8`: the cell at offset (dr, dc) is kept when it is on the board. */
    method NeighbourAt(r: int, c: int, dr: int, dc: int, out0: seq<Pos>, ghost k0: int) returns (out: seq<Pos>, ghost k: int)
      requires -1 <= dr <= 1 && -1 <= dc <= 1 && (dr != 0 || dc != 0) && k0 == OffsetIndex(dr, dc)
      requires out0 == NeighboursUpTo(Pos(r, c), k0, rows, cols)
      ensures k == OffsetIndex(dr, dc + 1) && out == NeighboursUpTo(Pos(r, c), k, rows, cols)
    {
      UpToStep(Pos(r, c), dr, dc, k0, rows, cols);
      var nr, nc := r + dr, c + dc;
      out := out0;
      if InBounds(nr, nc) {
        out := out + [Pos(nr, nc)];
      }
      k := k0 + 1;
    }

    /** `recomputeCounts()`: every count becomes the number of mines around its cell. */
    method RecomputeCounts()
      requires Shape()
      modifies this`counts
      ensures CountsOk(counts, bombs, rows, cols)
    {
      var r := 0;
      while r < rows
        invariant 0 <= r <= rows
        invariant forall p :: InGrid(p, r, cols) ==> p in counts && counts[p] == MinesAround(p, bombs, rows, cols)
      {
        var c := 0;
        while c < cols
          invariant 0 <= c <= cols
          invariant forall p :: InGrid(p, r, cols) ==> p in counts && counts[p] == MinesAround(p, bombs, rows, cols)
          invariant forall j :: 0 <= j < c ==> Pos(r, j) in counts && counts[Pos(r, j)] == MinesAround(Pos(r, j), bombs, rows, cols)
        {
          var n := CountAround(r, c);
          counts := counts[Pos(r, c) := n];
          c := c + 1;
        }
        r := r + 1;
      }
    }

    /** The inner loop of `recomputeCounts`: the mines among the neighbours of (r, c). */
    method CountAround(r: int, c: int) returns (n: int)
      ensures n == MinesAround(Pos(r, c), bombs, rows, cols)
    {
      var nbrs := Neighbors8(r, c);
      n := 0;
      var k := 0;
      while k < |nbrs|
        invariant 0 <= k <= |nbrs|
        invariant n == Count(nbrs[..k], bombs)
      {
        var q := nbrs[k];
        assert nbrs[..k + 1][..k] == nbrs[..k];
        if q in bombs {
          n := n + 1;
        }
        k := k + 1;
      }
      assert nbrs[..k] == nbrs;
    }

    /**
      The cells a scan of the board keeps, all on the board and none a mine:
      for `placeItems` every other cell than the start; for
      `revealRandomSafeTiles` the closed, unflagged ones Pac is not on; for
      `teleportPac` those of them with no mine around.
     */
    predicate Eligible(k: Pick, q: Pos)
      reads this`bombs, this`revealed, this`flagged, this`counts, this`pac
    {
      && InGrid(q, rows, cols) && q !in bombs
      && match k
         case ForItems(start) => q != start
         case ForReveal => q !in revealed && q !in flagged && pac != Some(q)
         case ForTeleport => q !in flagged && q !in revealed && q in counts && counts[q] == 0 && pac != Some(q)
    }

    /** The set of cells scan k keeps. */
    ghost function Pool(k: Pick): set<Pos>
      reads this`bombs, this`revealed, this`flagged, this`counts, this`pac
    {
      set q | q in Cells(rows, cols) && Eligible(k, q)
    }

    /**
      `placeBombs(er, ec)`: lays min(bombCount, rows*cols - 1) mines on distinct
      cells other than the start cell (the first cells of a shuffled list of all
      the others), recounts, places the items and starts the round.
     */
    method PlaceBombs(er: int, ec: int, rng: Rng)
      requires Valid() && !started && InBounds(er, ec)
      modifies this`bombs, this`counts, this`items, this`started, this`bombsRemaining, this`totalSafe, rng
      ensures Wf() && started
      ensures Pos(er, ec) !in bombs
      ensures |bombs| == Min(bombCount, rows * cols - 1)
      ensures bombsRemaining == |bombs| && totalSafe == rows * cols - |bombs|
      ensures forall q :: q in items ==> q !in bombs && q != Pos(er, ec)
      ensures Stocked(items, rows * cols - |bombs| - 1)
    {
      var need := Min(bombCount, rows * cols - 1);
      Seed(er, ec, need, rng);
      bombsRemaining := need;
      totalSafe := rows * cols - need;
      started := true;
    }

    /** The grid work of `placeBombs`: mines, counts and items on an empty board. */
    method Seed(er: int, ec: int, need: int, rng: Rng)
      requires Shape() && InBounds(er, ec) && 0 <= need < rows * cols
      requires bombs == {} && items == map[]
      modifies this`bombs, this`counts, this`items, rng
      ensures Within(bombs, rows, cols) && CountsOk(counts, bombs, rows, cols)
      ensures Within(items.Keys, rows, cols)
      ensures |bombs| == need && Pos(er, ec) !in bombs
      ensures forall q :: q in items ==> q !in bombs && q != Pos(er, ec)
      ensures |items| == Min(|ItemTypes|, rows * cols - |bombs| - 1)
      ensures exists cells :: Dealt(items, cells)
      ensures forall k :: |Holding(items, k)| == multiset(ItemTypes[..|items|])[k]
    {
      LayBombs(er, ec, need, rng);
      RecomputeCounts();
      PlaceItems(er, ec, rng);
    }

    /** The mine-laying half of `placeBombs`: `need` mines, none on the start cell. */
    method LayBombs(er: int, ec: int, need: int, rng: Rng)
      requires Shape() && bombs == {}
      requires InBounds(er, ec) && 0 <= need < rows * cols
      modifies this`bombs, rng
      ensures Within(bombs, rows, cols)
      ensures |bombs| == need && Pos(er, ec) !in bombs
    {
      var total := rows * cols;
      var exclude := er * cols + ec;
      CellOfIndex(Pos(er, ec), rows, cols);
      var idxs := OtherIndices(total, exclude);
      Shuffle(idxs, rng);
      LayMines(idxs, need, er, ec);
    }

    /** The first loop of `placeBombs`: every cell number below total except exclude, in order. */
    static method OtherIndices(total: int, exclude: int) returns (idxs: array<int>)
      requires 0 <= exclude < total
      ensures fresh(idxs) && idxs.Length == total - 1
      ensures Distinct(idxs[..])
      ensures forall v :: v in idxs[..] <==> 0 <= v < total && v != exclude
    {
      idxs := new int[total - 1];
      var n, i := 0, 0;
      while i < total
        invariant 0 <= i <= total && n == (if i <= exclude then i else i - 1)
        invariant forall t :: 0 <= t < n ==> idxs[t] == SkipIndex(t, exclude)
      {
        if i != exclude {
          idxs[n] := i;
          n := n + 1;
        }
        i := i + 1;
      }
      SkipList(idxs[..], total, exclude);
    }

    /** The mine-laying loop of `placeBombs`: the cells numbered by the first `need` entries become mines. */
    method LayMines(idxs: array<int>, need: int, er: int, ec: int)
      requires Shape() && bombs == {}
      requires InBounds(er, ec) && 0 <= need <= idxs.Length && Distinct(idxs[..])
      requires forall v :: v in idxs[..] <==> 0 <= v < rows * cols && v != CellIndex(Pos(er, ec), cols)
      modifies this`bombs
      ensures Within(bombs, rows, cols)
      ensures |bombs| == need && Pos(er, ec) !in bombs
    {
      CellOfIndex(Pos(er, ec), rows, cols);
      var k := 0;
      while k < need
        invariant 0 <= k <= need
        invariant Within(bombs, rows, cols)
        invariant |bombs| == k && Pos(er, ec) !in bombs
        invariant forall t :: k <= t < idxs.Length ==> CellOf(idxs[t], cols) !in bombs
      {
        var idx := idxs[k];
        assert idx in idxs[..];
        IndexOfCell(idx, rows, cols);
        var r := idx / cols;
        var c := idx % cols;
        forall t | k < t < idxs.Length
          ensures CellOf(idxs[t], cols) != Pos(r, c)
        {
          assert idxs[..][t] != idxs[..][k];
          assert idxs[t] in idxs[..];
          CellOfInjective(idxs[t], idx, rows, cols);
        }
        bombs := bombs + {Pos(r, c)};
        k := k + 1;
      }
    }

    /**
      `placeItems(er, ec)`: the eight items go, in order, on the first cells of a
      shuffled list of the cells that are neither mines nor the start cell.
     */
    method PlaceItems(er: int, ec: int, rng: Rng)
      requires Shape() && Within(bombs, rows, cols) && items == map[]
      requires InBounds(er, ec) && Pos(er, ec) !in bombs
      modifies this`items, rng
      ensures Within(items.Keys, rows, cols)
      ensures forall q :: q in items ==> q !in bombs && q != Pos(er, ec)
      ensures |items| == Min(|ItemTypes|, rows * cols - |bombs| - 1)
      ensures exists cells :: Dealt(items, cells)
      ensures forall k :: |Holding(items, k)| == multiset(ItemTypes[..|items|])[k]
    {
      var arr := ItemCells(er, ec, rng);
      var n := DealItems(arr);
      DistinctPrefix(arr[..], n);
      assert arr[..][..n] == arr[..n];
      DistinctCard(arr[..n]);
      assert forall q :: q in arr[..n] ==> q in arr[..];
      assert Dealt(items, arr[..n]);
      DealtSize(items, arr[..n]);
      forall k
        ensures |Holding(items, k)| == multiset(ItemTypes[..|items|])[k]
      {
        DealtKinds(items, arr[..n], k);
      }
    }

    /** The first half of `placeItems`: the cells other than the start and the mines, shuffled. */
    method ItemCells(er: int, ec: int, rng: Rng) returns (arr: array<Pos>)
      requires Shape() && Within(bombs, rows, cols)
      requires InBounds(er, ec) && Pos(er, ec) !in bombs
      modifies rng
      ensures fresh(arr) && Distinct(arr[..]) && arr.Length == rows * cols - |bombs| - 1
      ensures forall q :: q in arr[..] ==> InGrid(q, rows, cols) && q !in bombs && q != Pos(er, ec)
    {
      arr := Shuffled(ForItems(Pos(er, ec)), rng);
      InCells(rows, cols);
      assert Pool(ForItems(Pos(er, ec))) == Cells(rows, cols) - bombs - {Pos(er, ec)};
      SpareCells(bombs, Pos(er, ec), rows, cols);
    }

    /** The candidate cells of a pick, in a fresh array, shuffled by the random stream. */
    method Shuffled(k: Pick, rng: Rng) returns (arr: array<Pos>)
      requires Shape()
      modifies rng
      ensures fresh(arr) && Distinct(arr[..]) && arr.Length == |Pool(k)|
      ensures forall q :: q in arr[..] <==> Eligible(k, q)
    {
      var cells := Candidates(k);
      arr := new Pos[|cells|](t requires 0 <= t < |cells| => cells[t]);
      assert arr[..] == cells;
      Shuffle(arr, rng);
    }

    /** The last loop of `placeItems`: item i goes on cell i of the list, while both last. */
    method DealItems(cells: array<Pos>) returns (n: int)
      requires items == map[] && Distinct(cells[..])
      modifies this`items
      ensures n == Min(|ItemTypes|, cells.Length)
      ensures items.Keys == set q | q in cells[..n]
      ensures forall i :: 0 <= i < n ==> cells[i] in items && items[cells[i]] == ItemTypes[i]
      ensures Dealt(items, cells[..n])
    {
      var i := 0;
      while i < |ItemTypes| && i < cells.Length
        invariant 0 <= i <= cells.Length && i <= |ItemTypes|
        invariant items.Keys == set q | q in cells[..i]
        invariant forall j :: 0 <= j < i ==> cells[j] in items && items[cells[j]] == ItemTypes[j]
      {
        var q := cells[i];
        forall j | 0 <= j < i
          ensures cells[j] != q
        {
          assert cells[..][j] != cells[..][i];
        }
        items := items[q := ItemTypes[i]];
        assert cells[..i + 1] == cells[..i] + [q];
        i := i + 1;
      }
      n := i;
    }

    /** The row-by-row scans of `placeItems`, `revealRandomSafeTiles` and `teleportPac`: each eligible cell once. */
    method Candidates(k: Pick) returns (cells: seq<Pos>)
      requires Shape()
      ensures Distinct(cells) && |cells| == |Pool(k)|
      ensures forall q :: q in cells <==> Eligible(k, q)
    {
      cells := [];
      var r := 0;
      while r < rows
        invariant 0 <= r <= rows && Distinct(cells)
        invariant forall q :: q in cells <==> q.r < r && Eligible(k, q)
      {
        var c := 0;
        while c < cols
          invariant 0 <= c <= cols && Distinct(cells)
          invariant forall q :: q in cells <==> (q.r < r || (q.r == r && q.c < c)) && Eligible(k, q)
        {
          if Eligible(k, Pos(r, c)) {
            DistinctSnoc(cells, Pos(r, c));
            cells := cells + [Pos(r, c)];
          }
          c := c + 1;
        }
        r := r + 1;
      }
      InCells(rows, cols);
      assert (set q | q in cells) == Pool(k);
      DistinctCard(cells);
    }

    /** `revealCell(r, c)`: opens a closed, unflagged cell, counting it when it is safe. */
    method RevealCell(r: int, c: int) returns (shown: bool)
      requires revealedSafe == |revealed - bombs|
      modifies this`revealed, this`revealedSafe
      ensures shown <==> old(Pos(r, c) !in revealed && Pos(r, c) !in flagged)
      ensures revealed == old(revealed) + (if shown then {Pos(r, c)} else {})
      ensures revealedSafe == |revealed - bombs|
      ensures revealedSafe == old(revealedSafe) + (if shown && Pos(r, c) !in bombs then 1 else 0)
    {
      var p := Pos(r, c);
      if p in revealed || p in flagged {
        return false;
      }
      SafeCount(revealed, bombs, p);
      if p !in bombs {
        revealedSafe := revealedSafe + 1;
      }
      revealed := revealed + {p};
      shown := true;
    }

    /**
      `toggleFlag(r, c)`: flips the flag of a closed cell that Pac is not on,
      while the round is alive; otherwise nothing changes.
     */
    method ToggleFlag(r: int, c: int)
      requires Valid() && InBounds(r, c)
      modifies this`flagged
      ensures Valid()
      ensures !old(alive) || Pos(r, c) in revealed || pac == Some(Pos(r, c)) ==> flagged == old(flagged)
      ensures old(alive) && Pos(r, c) !in revealed && pac != Some(Pos(r, c)) ==> flagged == Flip(old(flagged), Pos(r, c))
    {
      if !alive {
        return;
      }
      if Pos(r, c) in revealed {
        return;
      }
      if pac.Some? && pac.value == Pos(r, c) {
        return;
      }
      flagged := Flip(flagged, Pos(r, c));
    }

    /** What a flood reads of this game: the board size, flags, mines, counts and items. */
    ghost function Layout(): Board
      reads this`flagged, this`bombs, this`counts, this`items
    {
      Board(rows, cols, flagged, bombs, counts, items)
    }

    /** Whether opening cell p of this game also opens its closed neighbours. */
    predicate Spreads(p: Pos)
      reads this`counts, this`items
    {
      Spreading(p, counts, items)
    }

    /**
      `reveal(r, c)`, the flood reveal. On an open or flagged cell it does
      nothing and returns 0; a mine is opened alone. From a safe cell it pops
      cells off a stack, opens each closed, unflagged safe one, and pushes the
      closed, unflagged safe neighbours of those that spread.
     */
    method Reveal(r: int, c: int) returns (n: int)
      requires Wf() && started && InBounds(r, c)
      requires alive ==> Pos(r, c) !in bombs
      modifies this`revealed, this`revealedSafe
      ensures Wf()
      ensures old(Pos(r, c) in revealed || Pos(r, c) in flagged) ==> n == 0 && revealed == old(revealed)
      ensures old(revealed) <= revealed && revealed - old(revealed) !! flagged
      ensures old(Pos(r, c) !in revealed && Pos(r, c) !in flagged) ==> Pos(r, c) in revealed
      ensures Pos(r, c) in bombs ==> revealed <= old(revealed) + {Pos(r, c)} && revealedSafe == old(revealedSafe)
      ensures Pos(r, c) in bombs ==> n == (if old(Pos(r, c) in revealed || Pos(r, c) in flagged) then 0 else 1)
      ensures Pos(r, c) !in bombs ==> revealed - old(revealed) !! bombs && n == revealedSafe - old(revealedSafe)
      ensures forall q :: q in revealed - old(revealed) && q != Pos(r, c) ==>
                exists p :: p in revealed - old(revealed) && Adjacent(p, q) && Spreads(p)
      ensures Pos(r, c) !in bombs ==> forall p, q :: p in revealed - old(revealed) && Spreads(p) && Adjacent(p, q) && InGrid(q, rows, cols) ==>
                q in revealed || q in flagged || q in bombs
      ensures Pos(r, c) !in bombs ==> forall q :: q in revealed - old(revealed) <==> Reaches(Layout(), old(revealed), Pos(r, c), q)
    {
      var start := Pos(r, c);
      if start in revealed || start in flagged {
        return 0;
      }
      if start in bombs {
        var shown := RevealCell(r, c);
        n := if shown then 1 else 0;
        return;
      }
      n := FloodFrom(start);
    }

    /** The flood of `reveal` from a closed, unflagged safe cell: the stack loop. */
    method FloodFrom(start: Pos) returns (n: int)
      requires Wf() && started && InGrid(start, rows, cols)
      requires start !in revealed && start !in flagged && start !in bombs
      modifies this`revealed, this`revealedSafe
      ensures Wf() && start in revealed
      ensures old(revealed) <= revealed && revealed - old(revealed) !! flagged && revealed - old(revealed) !! bombs
      ensures n == revealedSafe - old(revealedSafe)
      ensures forall q :: q in revealed - old(revealed) && q != start ==>
                exists p :: p in revealed - old(revealed) && Adjacent(p, q) && Spreads(p)
      ensures forall p, q :: p in revealed - old(revealed) && Spreads(p) && Adjacent(p, q) && InGrid(q, rows, cols) ==>
                q in revealed || q in flagged || q in bombs
      ensures forall q :: q in revealed - old(revealed) <==> Reaches(Layout(), old(revealed), start, q)
    {
      n := FloodRun(start);
    }

    /** The flood of FloodFrom on the open set alone: what the stack loop opens. */
    method FloodRun(start: Pos) returns (n: int)
      requires InGrid(start, rows, cols) && start !in revealed && start !in flagged && start !in bombs
      requires Within(revealed, rows, cols) && revealedSafe == |revealed - bombs|
      modifies this`revealed, this`revealedSafe
      ensures Within(revealed, rows, cols) && revealedSafe == |revealed - bombs| && start in revealed
      ensures old(revealed) <= revealed && revealed - old(revealed) !! flagged && revealed - old(revealed) !! bombs
      ensures n == revealedSafe - old(revealedSafe)
      ensures forall q :: q in revealed - old(revealed) && q != start ==>
                exists p :: p in revealed - old(revealed) && Adjacent(p, q) && Spreads(p)
      ensures forall p, q :: p in revealed - old(revealed) && Spreads(p) && Adjacent(p, q) && InGrid(q, rows, cols) ==>
                q in revealed || q in flagged || q in bombs
      ensures forall q :: q in revealed - old(revealed) <==> Reaches(Layout(), old(revealed), start, q)
    {
      ghost var b := Layout();
      ghost var t;
      n, t := FloodLoop(b, start);
      FloodDone(b, revealed, old(revealed), start, t);
    }

    /** The stack loop of `reveal`, run until the stack is empty. */
    method FloodLoop(ghost b: Board, start: Pos) returns (n: int, ghost t: Links)
      requires b == Layout()
      requires Flood(b, revealed, revealed, start, [start], [start], Links(map[], map[]))
      requires Within(revealed, rows, cols) && revealedSafe == |revealed - bombs|
      modifies this`revealed, this`revealedSafe
      ensures Flood(b, revealed, old(revealed), start, [], [], t)
      ensures Within(revealed, rows, cols) && revealedSafe == |revealed - bombs|
      ensures n == revealedSafe - old(revealedSafe)
    {
      ghost var R0 := revealed;
      t := Links(map[], map[]);
      n := 0;
      var stack := [start];
      ghost var from := [start];
      while stack != []
        invariant Flood(b, revealed, R0, start, stack, from, t)
        invariant Within(revealed, rows, cols)
        invariant revealedSafe == |revealed - bombs| && n == revealedSafe - old(revealedSafe)
        decreases |Cells(rows, cols) - revealed|, |stack|
      {
        var shown;
        stack, from, t, shown := FloodStep(b, R0, start, stack, from, t);
        if shown {
          n := n + 1;
        }
      }
    }

    /**
      `reveal(r, c)` as its callers in the game use it: the cell ends open unless
      flagged, cells only open, and from a safe cell no mine opens.
     */
    method Open(r: int, c: int) returns (n: int)
      requires Wf() && started && InBounds(r, c)
      requires alive ==> Pos(r, c) !in bombs
      modifies this`revealed, this`revealedSafe
      ensures Wf() && old(revealed) <= revealed
      ensures Pos(r, c) !in flagged ==> Pos(r, c) in revealed
      ensures Pos(r, c) !in bombs ==> revealed - old(revealed) !! bombs
      ensures Pos(r, c) in bombs ==> revealed <= old(revealed) + {Pos(r, c)}
      ensures Pos(r, c) !in bombs ==> forall q :: q in revealed - old(revealed) <==> Reaches(Layout(), old(revealed), Pos(r, c), q)
    {
      n := Reveal(r, c);
    }

    /**
      One turn of the loop of `reveal`: pop a cell; if it is on the board,
      closed, unflagged and safe, open it and, when it spreads, push its
      neighbours. Either a cell is opened or the stack shrinks.
     */
    method FloodStep(ghost b: Board, ghost R0: set<Pos>, start: Pos, stack: seq<Pos>, ghost from: seq<Pos>, ghost t: Links)
      returns (stack': seq<Pos>, ghost from': seq<Pos>, ghost t': Links, shown: bool)
      requires b == Layout()
      requires stack != [] && Flood(b, revealed, R0, start, stack, from, t)
      requires Within(revealed, rows, cols) && revealedSafe == |revealed - bombs|
      modifies this`revealed, this`revealedSafe
      ensures Flood(b, revealed, R0, start, stack', from', t')
      ensures Within(revealed, rows, cols) && revealedSafe == |revealed - bombs|
      ensures revealedSafe == old(revealedSafe) + (if shown then 1 else 0)
      ensures |Cells(rows, cols) - revealed| < |Cells(rows, cols) - old(revealed)|
              || (revealed == old(revealed) && |stack'| < |stack|)
    {
      var x := stack[|stack| - 1];
      if InBounds(x.r, x.c) && x !in revealed && x !in flagged && x !in bombs {
        ShrinkClosed(revealed, x, rows, cols);
        stack', from', t' := FloodVisit(b, R0, start, stack, from, t);
        shown := true;
      } else {
        stack', from', t', shown := stack[..|stack| - 1], from[..|from| - 1], t, false;
        FloodSkip(b, revealed, R0, start, stack, from, t);
      }
    }

    /**
      The body of the loop of `reveal` for a popped cell x that is on the board,
      closed, unflagged and safe: open it and, when it spreads, push its
      closed, unflagged safe neighbours.
     */
    method FloodVisit(ghost b: Board, ghost R0: set<Pos>, start: Pos, stack: seq<Pos>, ghost from: seq<Pos>, ghost t: Links)
      returns (stack': seq<Pos>, ghost from': seq<Pos>, ghost t': Links)
      requires b == Layout()
      requires stack != [] && Flood(b, revealed, R0, start, stack, from, t)
      requires Within(revealed, rows, cols) && revealedSafe == |revealed - bombs|
      requires InGrid(stack[|stack| - 1], rows, cols) && stack[|stack| - 1] !in revealed
      requires stack[|stack| - 1] !in flagged && stack[|stack| - 1] !in bombs
      modifies this`revealed, this`revealedSafe
      ensures Flood(b, revealed, R0, start, stack', from', t')
      ensures revealed == old(revealed) + {stack[|stack| - 1]}
      ensures revealedSafe == |revealed - bombs| && revealedSafe == old(revealedSafe) + 1
    {
      var x := stack[|stack| - 1];
      stack' := stack[..|stack| - 1];
      from' := from[..|from| - 1];
      ghost var open := revealed;
      assert Pos(x.r, x.c) == x;
      var shown := RevealCell(x.r, x.c);
      if (x in counts && counts[x] == 0) || x in items {
        stack', from' := PushAround(x, stack', from');
      }
      FloodOpen(b, open, R0, start, stack, from, t, x, revealed, stack', from');
      t' := Grow(t, start, x, from[|from| - 1]);
    }

    /** The inner loop of `reveal`: push each closed, unflagged safe neighbour of x. */
    method PushAround(x: Pos, stack: seq<Pos>, ghost from: seq<Pos>) returns (stack': seq<Pos>, ghost from': seq<Pos>)
      requires |from| == |stack|
      ensures |stack| <= |stack'| && |from'| == |stack'| && stack'[..|stack|] == stack && from'[..|from|] == from
      ensures forall i :: |stack| <= i < |stack'| ==> from'[i] == x && Adjacent(x, stack'[i]) && InGrid(stack'[i], rows, cols)
      ensures forall q :: Adjacent(x, q) && InGrid(q, rows, cols) ==> q in revealed || q in flagged || q in bombs || q in stack'
    {
      var nbrs := Neighbors8(x.r, x.c);
      NeighboursSpec(x, rows, cols);
      stack', from' := stack, from;
      var k := 0;
      while k < |nbrs|
        invariant 0 <= k <= |nbrs|
        invariant |stack| <= |stack'| && |from'| == |stack'| && stack'[..|stack|] == stack && from'[..|from|] == from
        invariant forall i :: |stack| <= i < |stack'| ==> from'[i] == x && Adjacent(x, stack'[i]) && InGrid(stack'[i], rows, cols)
        invariant forall j :: 0 <= j < k ==> nbrs[j] in revealed || nbrs[j] in flagged || nbrs[j] in bombs || nbrs[j] in stack'
      {
        var q := nbrs[k];
        assert q in nbrs;
        if q !in revealed && q !in flagged && q !in bombs {
          stack', from' := stack' + [q], from' + [x];
        }
        k := k + 1;
      }
    }

    /** `revealAllBombs()`: once the round is lost, every mine is opened and unflagged. */
    method RevealAllBombs()
      requires Wf() && !alive
      modifies this`revealed, this`flagged
      ensures Wf()
      ensures revealed == old(revealed) + bombs && flagged == old(flagged) - bombs
    {
      var r := 0;
      while r < rows
        invariant 0 <= r <= rows
        invariant forall q :: q in revealed <==> q in old(revealed) || (q in bombs && q.r < r)
        invariant forall q :: q in flagged <==> q in old(flagged) && !(q in bombs && q.r < r)
      {
        var c := 0;
        while c < cols
          invariant 0 <= c <= cols
          invariant forall q :: q in revealed <==> q in old(revealed) || (q in bombs && (q.r < r || (q.r == r && q.c < c)))
          invariant forall q :: q in flagged <==> q in old(flagged) && !(q in bombs && (q.r < r || (q.r == r && q.c < c)))
        {
          if Pos(r, c) in bombs {
            revealed := revealed + {Pos(r, c)};
            flagged := flagged - {Pos(r, c)};
          }
          c := c + 1;
        }
        r := r + 1;
      }
      assert revealed == old(revealed) + bombs;
      assert revealed - bombs == old(revealed) - bombs;
    }

    /**
      The win test `revealedSafe >= totalSafe`, once the mines are placed, holds
      exactly when every safe cell of the board is open.
     */
    lemma {:induction false} Cleared()
      requires Wf() && started
      ensures revealedSafe >= totalSafe <==> Cells(rows, cols) - bombs <= revealed
    {
      SafeCells(bombs, rows, cols);
      InCells(rows, cols);
      var open := revealed - bombs;
      var safe := Cells(rows, cols) - bombs;
      assert open <= safe;
      if revealedSafe >= totalSafe {
        SubsetFull(open, safe);
      }
      if safe <= revealed {
        assert open == safe;
      }
    }

    /**
      `revealRandomSafeTiles(count)`: shuffles the closed, unflagged safe cells
      Pac is not on and reveals the first `count` of them (each with its flood);
      returns how many it picked, min(count, candidates).
     */
    method RevealRandomSafeTiles(count: nat, rng: Rng) returns (got: int)
      requires Valid() && started
      modifies this`revealed, this`revealedSafe, rng
      ensures Valid()
      ensures got == Min(count, old(|Pool(ForReveal)|))
      ensures old(revealed) <= revealed && revealed - old(revealed) !! bombs
      ensures got <= |old(Pool(ForReveal)) * revealed|
    {
      ghost var pool := Pool(ForReveal);
      var a := Shuffled(ForReveal, rng);
      InCells(rows, cols);
      assert forall q :: q in a[..] ==> q in pool && InGrid(q, rows, cols) && q !in bombs && q !in flagged;
      got := Min(count, a.Length);
      OpenFirst(a, got);
      PrefixWithin(a[..], got, pool, revealed);
    }

    /** The last loop of `revealRandomSafeTiles`: reveal the first k cells of the list. */
    method OpenFirst(a: array<Pos>, k: int)
      requires Wf() && started && 0 <= k <= a.Length
      requires forall q :: q in a[..] ==> InGrid(q, rows, cols) && q !in bombs && q !in flagged
      modifies this`revealed, this`revealedSafe
      ensures Wf() && old(revealed) <= revealed && revealed - old(revealed) !! bombs
      ensures forall j :: 0 <= j < k ==> a[j] in revealed
    {
      var i := 0;
      while i < k
        invariant 0 <= i <= k
        invariant Wf() && old(revealed) <= revealed && revealed - old(revealed) !! bombs
        invariant forall j :: 0 <= j < i ==> a[j] in revealed
      {
        var q := a[i];
        assert q in a[..];
        var n := Open(q.r, q.c);
        i := i + 1;
      }
    }

    /** How many random safe cells a reveal item opens. */
    static function Tiles(it: Item): nat {
      match it
      case Reveal1 => 1
      case Reveal2 => 2
      case Reveal5 => 5
      case Defuse => 0
      case Teleport => 0
    }

    /**
      `activateItemAt(r, c)`: with no item there it returns false and changes
      nothing. Otherwise it clears the item first (so a chain of teleports
      ends), applies it, and ends the round when every safe cell is open.
     */
    method ActivateItemAt(p: Pos, rng: Rng) returns (used: bool)
      requires Valid()
      modifies this`items, this`revealed, this`revealedSafe, this`defuseCharges, this`alive, this`pac, rng
      decreases items.Keys, 1
      ensures Valid() && old(revealed) <= revealed && items.Keys <= old(items.Keys)
      ensures used <==> old(p in items)
      ensures !used ==> unchanged(this) && unchanged(rng)
      ensures used ==> p !in items && (alive <==> old(alive) && revealedSafe < totalSafe)
      ensures used && old(items[p]) != Teleport ==> items == old(items) - {p} && pac == old(pac)
      ensures used && old(items[p]) == Defuse ==> defuseCharges == old(defuseCharges) + 1 && revealed == old(revealed)
      ensures used && Tiles(old(items[p])) > 0 ==> defuseCharges == old(defuseCharges)
      ensures defuseCharges >= old(defuseCharges)
    {
      if p !in items {
        return false;
      }
      var kind := items[p];
      UseUp(p);
      Apply(kind, rng);
      EndIfWon();
      return true;
    }

    /** `items[r][c] = null`: the item on p is used up. */
    method UseUp(p: Pos)
      requires Valid()
      modifies this`items
      ensures Valid() && items == old(items) - {p}
    {
      items := items - {p};
    }

    /** The win test after a step or an item: the round ends once every safe cell is open. */
    method EndIfWon()
      requires Valid() && started
      modifies this`alive
      ensures Valid() && (alive <==> old(alive) && revealedSafe < totalSafe)
    {
      if revealedSafe >= totalSafe {
        alive := false;
      }
    }

    /**
      The effect of an item of the given kind: a reveal item opens 1, 2 or 5
      random safe cells, a defuse adds a shield, a teleport moves Pac.
     */
    method Apply(kind: Item, rng: Rng)
      requires Valid() && started
      modifies this`items, this`revealed, this`revealedSafe, this`defuseCharges, this`alive, this`pac, rng
      decreases items.Keys, 5
      ensures Valid() && old(revealed) <= revealed && items.Keys <= old(items.Keys)
      ensures revealedSafe < totalSafe ==> alive == old(alive)
      ensures kind == Defuse ==>
                defuseCharges == old(defuseCharges) + 1 && revealed == old(revealed) && pac == old(pac) && items == old(items) && alive == old(alive)
      ensures Tiles(kind) > 0 ==>
                defuseCharges == old(defuseCharges) && pac == old(pac) && items == old(items) && alive == old(alive)
                && Min(Tiles(kind), old(|Pool(ForReveal)|)) <= |old(Pool(ForReveal)) * revealed|
      ensures defuseCharges >= old(defuseCharges)
    {
      match kind {
        case Defuse =>
          defuseCharges := defuseCharges + 1;
        case Teleport =>
          var ok, landed := TeleportPac(rng);
        case _ =>
          OpenRandom(Tiles(kind), rng);
      }
    }

    /** A reveal item: `revealRandomSafeTiles` with the item's count, nothing else touched. */
    method OpenRandom(count: nat, rng: Rng)
      requires Valid() && started
      modifies this`revealed, this`revealedSafe, rng
      ensures Valid() && old(revealed) <= revealed
      ensures Min(count, old(|Pool(ForReveal)|)) <= |old(Pool(ForReveal)) * revealed|
    {
      var got := RevealRandomSafeTiles(count, rng);
    }

    /**
      `teleportPac()`: Pac jumps to a random closed, unflagged safe cell with no
      mine around that it is not on, reveals it and uses its item; false, with
      nothing changed, when there is no Pac or no such cell.
     */
    method TeleportPac(rng: Rng) returns (ok: bool, ghost landed: Pos)
      requires Valid()
      modifies this`items, this`revealed, this`revealedSafe, this`defuseCharges, this`alive, this`pac, rng
      decreases items.Keys, 4
      ensures Valid() && old(revealed) <= revealed && items.Keys <= old(items.Keys)
      ensures revealedSafe < totalSafe ==> alive == old(alive)
      ensures ok <==> old(pac.Some? && Pool(ForTeleport) != {})
      ensures !ok ==> unchanged(this) && unchanged(rng)
      ensures ok ==> landed in old(Pool(ForTeleport)) && landed in revealed
      ensures ok && old(landed !in items) ==>
                pac == Some(landed) && items == old(items) && defuseCharges == old(defuseCharges) && alive == old(alive)
                && forall q :: q in revealed - old(revealed) <==> Reaches(old(Layout()), old(revealed), landed, q)
      ensures ok ==> landed !in items
      ensures ok && old(landed in items && items[landed] != Teleport) ==>
                pac == Some(landed) && items == old(items) - {landed}
      ensures defuseCharges >= old(defuseCharges)
    {
      landed := Pos(0, 0);
      if pac.None? {
        return false, landed;
      }
      ghost var pool := Pool(ForTeleport);
      var cands := Candidates(ForTeleport);
      if |cands| == 0 {
        return false, landed;
      }
      var j := rng.Below(|cands|);
      var t := cands[j];
      assert t in cands;
      InCells(rows, cols);
      assert t in pool;
      landed := t;
      LandOn(t, rng);
      return true, landed;
    }

    /**
      The end of `teleportPac()`: Pac moves to cell t, which is opened with its
      flood, and t's item is used.
     */
    method LandOn(t: Pos, rng: Rng)
      requires Valid() && started && Eligible(ForTeleport, t)
      modifies this`items, this`revealed, this`revealedSafe, this`defuseCharges, this`alive, this`pac, rng
      decreases items.Keys, 3
      ensures Valid() && old(revealed) <= revealed && items.Keys <= old(items.Keys) && t in revealed
      ensures revealedSafe < totalSafe ==> alive == old(alive)
      ensures old(t !in items) ==>
                pac == Some(t) && items == old(items) && defuseCharges == old(defuseCharges) && alive == old(alive)
      ensures old(t !in items) ==> forall q :: q in revealed - old(revealed) <==> Reaches(old(Layout()), old(revealed), t, q)
      ensures t !in items && defuseCharges >= old(defuseCharges)
      ensures old(t in items && items[t] != Teleport) ==> pac == Some(t) && items == old(items) - {t}
    {
      pac := Some(t);
      Visit(t, rng);
    }

    /** The cell a step of (dr, dc) from Pac aims at. */
    function Target(dr: int, dc: int): Pos
      reads this`pac
      requires pac.Some?
    {
      Pos(pac.value.r + dr, pac.value.c + dc)
    }

    /** `tryMove` goes ahead: the round is on, Pac is placed, and the target is on the board and unflagged. */
    predicate Moves(dr: int, dc: int)
      reads this`alive, this`pac, this`flagged
    {
      alive && pac.Some? && InBounds(Target(dr, dc).r, Target(dr, dc).c) && Target(dr, dc) !in flagged
    }

    /**
      `tryMove(dr, dc)`: Pac steps onto the target. On a mine it spends a
      shield to clear the mine, or, with no shield left, dies and every mine
      is shown; on a safe cell the cell opens, its item is used, and the round
      is won once every safe cell is open.
     */
    method TryMove(dr: int, dc: int, rng: Rng)
      requires Valid()
      modifies this`bombs, this`counts, this`bombsRemaining, this`totalSafe, this`flagged, this`items
      modifies this`revealed, this`revealedSafe, this`defuseCharges, this`alive, this`pac, rng
      ensures Valid()
      ensures !old(Moves(dr, dc)) ==> unchanged(this) && unchanged(rng)
      ensures old(Moves(dr, dc)) ==> old(Target(dr, dc)) in revealed && old(revealed) <= revealed
      ensures old(Moves(dr, dc) && Target(dr, dc) in bombs && defuseCharges > 0) ==>
                alive && pac == old(Some(Target(dr, dc))) && defuseCharges == old(defuseCharges) - 1
                && bombs == old(bombs) - {old(Target(dr, dc))} && flagged == old(flagged) && items == old(items)
                && bombsRemaining == Max(0, old(bombsRemaining) - 1) && totalSafe == rows * cols - bombsRemaining
                && forall q :: q in revealed - old(revealed) <==> Reaches(Layout(), old(revealed), old(Target(dr, dc)), q)
      ensures old(Moves(dr, dc) && Target(dr, dc) in bombs && defuseCharges == 0) ==>
                !alive && pac == old(Some(Target(dr, dc))) && bombs == old(bombs)
                && items == old(items) && defuseCharges == old(defuseCharges)
                && revealed == old(revealed) + bombs && flagged == old(flagged) - bombs
      ensures old(Moves(dr, dc) && Target(dr, dc) !in bombs) ==>
                bombs == old(bombs) && flagged == old(flagged) && (alive <==> !(Cells(rows, cols) - bombs <= revealed))
                && forall q :: Reaches(old(Layout()), old(revealed), old(Target(dr, dc)), q) ==> q in revealed
      ensures old(Moves(dr, dc) && Target(dr, dc) !in bombs && Target(dr, dc) !in items) ==>
                pac == old(Some(Target(dr, dc))) && items == old(items) && defuseCharges == old(defuseCharges)
                && forall q :: q in revealed - old(revealed) <==> Reaches(old(Layout()), old(revealed), old(Target(dr, dc)), q)
      ensures old(Moves(dr, dc) && Target(dr, dc) !in bombs && Target(dr, dc) in items && items[Target(dr, dc)] != Teleport) ==>
                pac == old(Some(Target(dr, dc))) && items == old(items) - {old(Target(dr, dc))}
      ensures old(Moves(dr, dc) && Target(dr, dc) !in bombs && Target(dr, dc) in items && items[Target(dr, dc)] == Defuse) ==>
                defuseCharges == old(defuseCharges) + 1
                && forall q :: q in revealed - old(revealed) <==> Reaches(old(Layout()), old(revealed), old(Target(dr, dc)), q)
      ensures old(Moves(dr, dc) && Target(dr, dc) !in bombs && Target(dr, dc) in items && Tiles(items[Target(dr, dc)]) > 0) ==>
                defuseCharges == old(defuseCharges)
      ensures old(Moves(dr, dc) && Target(dr, dc) !in bombs) ==>
                items.Keys <= old(items.Keys) && old(Target(dr, dc)) !in items && defuseCharges >= old(defuseCharges)
    {
      if !alive || pac.None? {
        return;
      }
      var nr, nc := pac.value.r + dr, pac.value.c + dc;
      if !InBounds(nr, nc) {
        return;
      }
      var t := Pos(nr, nc);
      if t in flagged {
        return;
      }
      MoveTo(t, rng);
    }

    /** The rest of `tryMove` once it goes ahead: Pac is on the target t, then the shield, death or safe branch. */
    method MoveTo(t: Pos, rng: Rng)
      requires Valid() && alive && pac.Some? && InGrid(t, rows, cols) && t !in flagged
      modifies this`bombs, this`counts, this`bombsRemaining, this`totalSafe, this`flagged, this`items
      modifies this`revealed, this`revealedSafe, this`defuseCharges, this`alive, this`pac, rng
      ensures Valid() && t in revealed && old(revealed) <= revealed
      ensures old(t in bombs && defuseCharges > 0) ==>
                alive && pac == Some(t) && defuseCharges == old(defuseCharges) - 1
                && bombs == old(bombs) - {t} && flagged == old(flagged) && items == old(items)
                && bombsRemaining == Max(0, old(bombsRemaining) - 1) && totalSafe == rows * cols - bombsRemaining
                && forall q :: q in revealed - old(revealed) <==> Reaches(Layout(), old(revealed), t, q)
      ensures old(t in bombs && defuseCharges == 0) ==>
                !alive && pac == Some(t) && bombs == old(bombs)
                && items == old(items) && defuseCharges == old(defuseCharges)
                && revealed == old(revealed) + bombs && flagged == old(flagged) - bombs
      ensures old(t !in bombs) ==>
                bombs == old(bombs) && flagged == old(flagged) && (alive <==> !(Cells(rows, cols) - bombs <= revealed))
                && forall q :: Reaches(old(Layout()), old(revealed), t, q) ==> q in revealed
      ensures old(t !in bombs && t !in items) ==>
                pac == Some(t) && items == old(items) && defuseCharges == old(defuseCharges)
                && forall q :: q in revealed - old(revealed) <==> Reaches(old(Layout()), old(revealed), t, q)
      ensures old(t !in bombs && t in items && items[t] != Teleport) ==> pac == Some(t) && items == old(items) - {t}
      ensures old(t !in bombs && t in items && items[t] == Defuse) ==>
                defuseCharges == old(defuseCharges) + 1
                && forall q :: q in revealed - old(revealed) <==> Reaches(old(Layout()), old(revealed), t, q)
      ensures old(t !in bombs && t in items && Tiles(items[t]) > 0) ==> defuseCharges == old(defuseCharges)
      ensures old(t !in bombs) ==> items.Keys <= old(items.Keys) && t !in items && defuseCharges >= old(defuseCharges)
    {
      if t in bombs {
        StepOnMine(t);
      } else {
        pac := Some(t);
        StepOn(t, rng);
      }
    }

    /** The mine branch of `tryMove`: Pac moves onto the mine, then a shield is spent if there is one, otherwise Pac dies. */
    method StepOnMine(t: Pos)
      requires Wf() && started && alive && pac.Some? && InGrid(t, rows, cols) && t in bombs && t !in flagged
      modifies this`bombs, this`counts, this`bombsRemaining, this`totalSafe, this`flagged
      modifies this`revealed, this`revealedSafe, this`defuseCharges, this`alive, this`pac
      ensures Valid() && pac == Some(t) && t in revealed && old(revealed) <= revealed
      ensures old(defuseCharges) > 0 ==>
                alive && defuseCharges == old(defuseCharges) - 1
                && bombs == old(bombs) - {t} && flagged == old(flagged)
                && bombsRemaining == Max(0, old(bombsRemaining) - 1) && totalSafe == rows * cols - bombsRemaining
                && forall q :: q in revealed - old(revealed) <==> Reaches(Layout(), old(revealed), t, q)
      ensures old(defuseCharges) == 0 ==>
                !alive && bombs == old(bombs) && defuseCharges == old(defuseCharges)
                && revealed == old(revealed) + bombs && flagged == old(flagged) - bombs
    {
      pac := Some(t);
      if defuseCharges > 0 {
        SpendShield(t);
      } else {
        Die(t);
      }
    }

    /** The shield branch of `tryMove`: the mine under Pac goes and the cell opens. */
    method SpendShield(t: Pos)
      requires Wf() && started && alive && pac == Some(t) && InGrid(t, rows, cols)
      requires t in bombs && t !in flagged && defuseCharges > 0
      modifies this`defuseCharges, this`bombs, this`bombsRemaining, this`totalSafe, this`flagged, this`counts
      modifies this`revealed, this`revealedSafe
      ensures Valid() && old(revealed) <= revealed && t in revealed && flagged == old(flagged)
      ensures defuseCharges == old(defuseCharges) - 1 && bombs == old(bombs) - {t}
      ensures forall q :: q in revealed - old(revealed) <==> Reaches(Layout(), old(revealed), t, q)
      ensures bombsRemaining == Max(0, old(bombsRemaining) - 1) && totalSafe == rows * cols - bombsRemaining
    {
      Disarm(t);
      OpenUnder(t);
    }

    /** `reveal` on the safe cell Pac now stands on: it opens, and Pac is on an open cell again. */
    method OpenUnder(t: Pos)
      requires Wf() && started && pac == Some(t) && InGrid(t, rows, cols) && t !in bombs && t !in flagged
      modifies this`revealed, this`revealedSafe
      ensures Valid() && old(revealed) <= revealed && t in revealed
      ensures forall q :: q in revealed - old(revealed) <==> Reaches(Layout(), old(revealed), t, q)
    {
      var n := Open(t.r, t.c);
    }

    /**
      A shield is spent and the mine removed: one mine fewer (never below
      zero), one safe cell more, the flag cleared and the counts redone.
     */
    method Disarm(t: Pos)
      requires Wf() && started && alive && InGrid(t, rows, cols)
      requires t in bombs && t !in flagged && defuseCharges > 0
      modifies this`defuseCharges, this`bombs, this`bombsRemaining, this`totalSafe, this`flagged, this`counts
      ensures Wf() && flagged == old(flagged)
      ensures defuseCharges == old(defuseCharges) - 1 && bombs == old(bombs) - {t}
      ensures bombsRemaining == Max(0, old(bombsRemaining) - 1) && totalSafe == rows * cols - bombsRemaining
    {
      RemoveMine(t);
      RecomputeCounts();
    }

    /** The counters and grids of a defuse, before the counts are redone. */
    method RemoveMine(t: Pos)
      requires Wf() && started && alive && InGrid(t, rows, cols)
      requires t in bombs && t !in flagged && defuseCharges > 0
      modifies this`defuseCharges, this`bombs, this`bombsRemaining, this`totalSafe, this`flagged
      ensures flagged == old(flagged) && defuseCharges == old(defuseCharges) - 1 && bombs == old(bombs) - {t}
      ensures bombsRemaining == Max(0, old(bombsRemaining) - 1) && totalSafe == rows * cols - bombsRemaining
      ensures Within(bombs, rows, cols) && bombsRemaining == |bombs| && revealed !! bombs
      ensures revealedSafe == |revealed - bombs|
    {
      DropMine(bombs, revealed, t, rows, cols);
      defuseCharges := defuseCharges - 1;
      bombs := bombs - {t};
      bombsRemaining := Max(0, bombsRemaining - 1);
      totalSafe := rows * cols - bombsRemaining;
      flagged := flagged - {t};
    }

    /** The death branch of `tryMove`: the round ends, the mine opens and so does every other. */
    method Die(t: Pos)
      requires Wf() && started && alive && pac == Some(t) && InGrid(t, rows, cols)
      requires t in bombs && t !in flagged
      modifies this`alive, this`revealed, this`revealedSafe, this`flagged
      ensures Valid() && !alive
      ensures revealed == old(revealed) + bombs && flagged == old(flagged) - bombs
    {
      Stop();
      Explode(t);
    }

    /** After the round ends on a mine: that cell opens, then every mine is shown. */
    method Explode(t: Pos)
      requires Wf() && started && !alive && InGrid(t, rows, cols) && t in bombs && t !in flagged
      modifies this`revealed, this`revealedSafe, this`flagged
      ensures Wf() && revealed == old(revealed) + bombs && flagged == old(flagged) - bombs
    {
      HitMine(t);
      RevealAllBombs();
    }

    /** `alive = false`: the round is over. */
    method Stop()
      requires Wf() && started
      modifies this`alive
      ensures Wf() && !alive
    {
      alive := false;
    }

    /** `reveal` on the mine Pac stepped on, once the round is over: that one cell opens. */
    method HitMine(t: Pos)
      requires Wf() && started && !alive && InGrid(t, rows, cols) && t in bombs && t !in flagged
      modifies this`revealed, this`revealedSafe
      ensures Wf() && revealed == old(revealed) + {t}
    {
      var n := Open(t.r, t.c);
    }

    /** The safe branch of `tryMove`: open the cell, use its item, and end the round once every safe cell is open. */
    method StepOn(t: Pos, rng: Rng)
      requires Wf() && started && alive && pac == Some(t) && InGrid(t, rows, cols)
      requires t !in bombs && t !in flagged
      modifies this`items, this`revealed, this`revealedSafe, this`defuseCharges, this`alive, this`pac, rng
      ensures Valid() && old(revealed) <= revealed && t in revealed
      ensures alive <==> revealedSafe < totalSafe
      ensures forall q :: Reaches(old(Layout()), old(revealed), t, q) ==> q in revealed
      ensures old(t !in items) ==>
                pac == Some(t) && items == old(items) && defuseCharges == old(defuseCharges)
                && forall q :: q in revealed - old(revealed) <==> Reaches(old(Layout()), old(revealed), t, q)
      ensures old(t in items && items[t] != Teleport) ==> pac == Some(t) && items == old(items) - {t}
      ensures old(t in items && items[t] == Defuse) ==>
                defuseCharges == old(defuseCharges) + 1
                && forall q :: q in revealed - old(revealed) <==> Reaches(old(Layout()), old(revealed), t, q)
      ensures old(t in items && Tiles(items[t]) > 0) ==> defuseCharges == old(defuseCharges)
      ensures alive <==> !(Cells(rows, cols) - bombs <= revealed)
      ensures items.Keys <= old(items.Keys) && t !in items && defuseCharges >= old(defuseCharges)
    {
      Visit(t, rng);
      EndIfWon();
      Cleared();
    }

    /**
      `reveal` and then `activateItemAt` on the cell Pac has just moved to: the
      flood from it opens, then its item, if any, is used up and applied.
     */
    method Visit(t: Pos, rng: Rng)
      requires Wf() && started && pac == Some(t) && InGrid(t, rows, cols) && t !in bombs && t !in flagged
      modifies this`items, this`revealed, this`revealedSafe, this`defuseCharges, this`alive, this`pac, rng
      decreases items.Keys, 2
      ensures Valid() && old(revealed) <= revealed && t in revealed && items.Keys <= old(items.Keys)
      ensures old(t in items) ==> (alive <==> old(alive) && revealedSafe < totalSafe)
      ensures forall q :: Reaches(old(Layout()), old(revealed), t, q) ==> q in revealed
      ensures old(t !in items) ==>
                pac == Some(t) && items == old(items) && defuseCharges == old(defuseCharges) && alive == old(alive)
                && forall q :: q in revealed - old(revealed) <==> Reaches(old(Layout()), old(revealed), t, q)
      ensures old(t in items && items[t] != Teleport) ==> pac == Some(t) && items == old(items) - {t}
      ensures old(t in items && items[t] == Defuse) ==>
                defuseCharges == old(defuseCharges) + 1
                && forall q :: q in revealed - old(revealed) <==> Reaches(old(Layout()), old(revealed), t, q)
      ensures old(t in items && Tiles(items[t]) > 0) ==> defuseCharges == old(defuseCharges)
      ensures t !in items && defuseCharges >= old(defuseCharges)
    {
      ghost var before := Layout();
      var n := Open(t.r, t.c);
      assert Layout() == before;
      var used := ActivateItemAt(t, rng);
    }

    /**
      A plain click while Pac is not on the board: the first click lays the
      mines and items away from the cell, then Pac lands on it and it opens.
      Its item is used, though none lies there. Nothing happens on a flagged
      cell or once Pac is placed.
     */
    method Place(r: int, c: int, rng: Rng)
      requires Valid() && InBounds(r, c)
      modifies this`bombs, this`counts, this`items, this`started, this`bombsRemaining, this`totalSafe
      modifies this`revealed, this`revealedSafe, this`defuseCharges, this`alive, this`pac, rng
      ensures Valid()
      ensures old(pac.Some? || Pos(r, c) in flagged) ==> unchanged(this) && unchanged(rng)
      ensures old(pac.None? && Pos(r, c) !in flagged) ==>
                started && alive && pac == Some(Pos(r, c)) && Pos(r, c) in revealed && Pos(r, c) !in bombs
                && |bombs| == Min(bombCount, rows * cols - 1) && Pos(r, c) !in items
      ensures old(pac.None? && Pos(r, c) !in flagged) ==>
                Stocked(items, rows * cols - |bombs| - 1)
      ensures old(pac.None? && Pos(r, c) !in flagged) ==>
                defuseCharges == old(defuseCharges) && forall q :: q in revealed <==> Reaches(Layout(), {}, Pos(r, c), q)
    {
      if pac.Some? {
        return;
      }
      var p := Pos(r, c);
      if p in flagged {
        return;
      }
      assert !started;
      if !started {
        PlaceBombs(p.r, p.c, rng);
      }
      Arrive(p, rng);
    }

    /** Pac lands on a cell of a started round, the cell opens and its (absent) item is used. */
    method Arrive(p: Pos, rng: Rng)
      requires Wf() && started && alive && pac.None? && InGrid(p, rows, cols)
      requires p !in flagged && p !in bombs && p !in items
      modifies this`items, this`revealed, this`revealedSafe, this`defuseCharges, this`alive, this`pac, rng
      ensures Valid() && alive && pac == Some(p) && p in revealed && p !in items
      ensures items == old(items) && defuseCharges == old(defuseCharges)
      ensures forall q :: q in revealed - old(revealed) <==> Reaches(Layout(), old(revealed), p, q)
    {
      pac := Some(p);
      Visit(p, rng);
    }
  }
}
