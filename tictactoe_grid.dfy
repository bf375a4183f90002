/**
  N-by-N tic-tac-toe (tic-tac-toe/tic-tac-toe.js): the board is an array of
  size * size marks numbered row by row; a move is checked only against the row,
  the column and (when on them) the two diagonals through the cell just played;
  a full board with no winning line is a draw.
 */
module TicTacToeGrid {

  import opened Arith
  import opened Wrappers

  /** The content of a cell: `""`, `"X"` or `"O"`. */
  datatype Mark = Empty | X | O

  /** `currentPlayer === "X" ? "O" : "X"`. */
  function Other(p: Mark): (q: Mark)
    ensures q != Empty && q != p
  {
    if p == X then O else X
  }

  /** `Number(sizeEl.value) || 3`: a missing or zero setting means 3. */
  function SizeFrom(setting: Option<nat>): (n: nat)
    ensures n >= 1
    ensures setting.Some? && setting.value != 0 ==> n == setting.value
    ensures setting.None? || setting.value == 0 ==> n == 3
  {
    match setting
    case Some(v) => if v == 0 then 3 else v
    case None => 3
  }

  /** `board.every(v => v)`: no cell is empty. */
  predicate Full(board: seq<Mark>) {
    forall i :: 0 <= i < |board| ==> board[i] != Empty
  }

  /** How many cells hold `p`. */
  function Count(board: seq<Mark>, p: Mark): nat {
    multiset(board)[p]
  }

  /** Every index of `line` names a cell of `board` that holds `p` (an index off the board never does). */
  predicate LineAll(board: seq<Mark>, line: seq<int>, p: Mark) {
    forall k :: 0 <= k < |line| ==> 0 <= line[k] < |board| && board[line[k]] == p
  }

  /** Pairwise different elements. */
  predicate Distinct(s: seq<int>) {
    forall i, j :: 0 <= i < j < |s| ==> s[i] != s[j]
  }

  /** Row r: r * size + c for c = 0 .. size - 1. */
  function RowLine(size: nat, r: int): seq<int> {
    seq(size, (c: int) => r * size + c)
  }

  /** Column c: r * size + c for r = 0 .. size - 1. */
  function ColLine(size: nat, c: int): seq<int> {
    seq(size, (r: int) => r * size + c)
  }

  /** The main diagonal: i * size + i. */
  function DiagLine(size: nat): seq<int> {
    seq(size, (i: int) => i * size + i)
  }

  /** The anti-diagonal: i * size + (size - 1 - i). */
  function AntiDiagLine(size: nat): seq<int> {
    seq(size, (i: int) => i * size + (size - 1 - i))
  }

  /** Some row, column or diagonal of the board holds only `p`. */
  ghost predicate Won(board: seq<Mark>, size: nat, p: Mark) {
    || (exists r :: 0 <= r < size && LineAll(board, RowLine(size, r), p))
    || (exists c :: 0 <= c < size && LineAll(board, ColLine(size, c), p))
    || LineAll(board, DiagLine(size), p)
    || LineAll(board, AntiDiagLine(size), p)
  }

  /**
    The lines `getWinningLine(idx)` examines, in its order: the row and the
    column of idx, the diagonal when idx is on it, the anti-diagonal when idx is on it.
   */
  function LinesThrough(size: nat, idx: int): seq<seq<int>>
    requires size >= 1
  {
    var r, c := idx / size, idx % size;
    [RowLine(size, r), ColLine(size, c)]
    + (if r == c then [DiagLine(size)] else [])
    + (if r + c == size - 1 then [AntiDiagLine(size)] else [])
  }

  /** Each of the four kinds of line has `size` distinct cell numbers, all on the board. */
  lemma {:induction false} RowLineShape(size: nat, r: int)
    requires 0 <= r < size
    ensures |RowLine(size, r)| == size && Distinct(RowLine(size, r))
    ensures forall k :: 0 <= k < size ==> 0 <= RowLine(size, r)[k] < size * size
  {
    var line := RowLine(size, r);
    forall k | 0 <= k < size
      ensures 0 <= line[k] < size * size && line[k] % size == k
    {
      RowMajor(size, size, r, k);
    }
  }

  lemma {:induction false} ColLineShape(size: nat, c: int)
    requires 0 <= c < size
    ensures |ColLine(size, c)| == size && Distinct(ColLine(size, c))
    ensures forall k :: 0 <= k < size ==> 0 <= ColLine(size, c)[k] < size * size
  {
    var line := ColLine(size, c);
    forall k | 0 <= k < size
      ensures 0 <= line[k] < size * size && line[k] / size == k
    {
      RowMajor(size, size, k, c);
    }
  }

  lemma {:induction false} DiagLineShape(size: nat)
    ensures |DiagLine(size)| == size && Distinct(DiagLine(size))
    ensures forall k :: 0 <= k < size ==> 0 <= DiagLine(size)[k] < size * size
  {
    var line := DiagLine(size);
    forall k | 0 <= k < size
      ensures 0 <= line[k] < size * size && line[k] / size == k
    {
      RowMajor(size, size, k, k);
    }
  }

  lemma {:induction false} AntiDiagLineShape(size: nat)
    ensures |AntiDiagLine(size)| == size && Distinct(AntiDiagLine(size))
    ensures forall k :: 0 <= k < size ==> 0 <= AntiDiagLine(size)[k] < size * size
  {
    var line := AntiDiagLine(size);
    forall k | 0 <= k < size
      ensures 0 <= line[k] < size * size && line[k] / size == k
    {
      RowMajor(size, size, k, size - 1 - k);
    }
  }

  /** A cell lies on row r, column c, the diagonal or the anti-diagonal exactly as its row and column say. */
  lemma {:induction false} OnRow(size: nat, r: int, idx: int)
    requires 0 <= r < size
    ensures idx in RowLine(size, r) ==> idx / size == r
  {
    if idx in RowLine(size, r) {
      var k :| 0 <= k < size && RowLine(size, r)[k] == idx;
      RowMajor(size, size, r, k);
    }
  }

  lemma {:induction false} OnCol(size: nat, c: int, idx: int)
    requires 0 <= c < size
    ensures idx in ColLine(size, c) ==> idx % size == c
  {
    if idx in ColLine(size, c) {
      var k :| 0 <= k < size && ColLine(size, c)[k] == idx;
      RowMajor(size, size, k, c);
    }
  }

  lemma {:induction false} OnDiag(size: nat, idx: int)
    ensures idx in DiagLine(size) ==> idx / size == idx % size
  {
    if idx in DiagLine(size) {
      var k :| 0 <= k < size && DiagLine(size)[k] == idx;
      RowMajor(size, size, k, k);
    }
  }

  lemma {:induction false} OnAntiDiag(size: nat, idx: int)
    ensures idx in AntiDiagLine(size) ==> idx / size + idx % size == size - 1
  {
    if idx in AntiDiagLine(size) {
      var k :| 0 <= k < size && AntiDiagLine(size)[k] == idx;
      RowMajor(size, size, k, size - 1 - k);
    }
  }

  /** Every line `getWinningLine(idx)` examines passes through idx and is a line of the board. */
  lemma {:induction false} LinesThroughContain(size: nat, idx: int, line: seq<int>)
    requires size >= 1 && 0 <= idx < size * size && line in LinesThrough(size, idx)
    ensures idx in line
    ensures (exists r :: 0 <= r < size && line == RowLine(size, r))
         || (exists c :: 0 <= c < size && line == ColLine(size, c))
         || line == DiagLine(size) || line == AntiDiagLine(size)
  {
    var r, c := idx / size, idx % size;
    var lines := LinesThrough(size, idx);
    RowMajorInverse(size, size, idx);
    var k :| 0 <= k < |lines| && lines[k] == line;
    if k == 0 {
      assert line[c] == idx;
    } else if k == 1 {
      assert line[r] == idx;
    } else if k == 2 && r == c {
      assert line == DiagLine(size);
      assert line[r] == idx;
    } else {
      assert r + c == size - 1 && line == AntiDiagLine(size);
      assert line[r] == idx;
    }
  }

  /** A line through idx that holds only `p` is a win for `p`. */
  lemma {:induction false} ThroughWins(board: seq<Mark>, size: nat, idx: int, line: seq<int>, p: Mark)
    requires size >= 1 && 0 <= idx < size * size && line in LinesThrough(size, idx)
    requires LineAll(board, line, p)
    ensures Won(board, size, p)
  {
    LinesThroughContain(size, idx, line);
  }

  /** Changing a cell that is not on a line does not change whether the line holds only `p`. */
  lemma {:induction false} LineAllOff(board: seq<Mark>, idx: int, v: Mark, line: seq<int>, p: Mark)
    requires 0 <= idx < |board| && idx !in line
    ensures LineAll(board[idx := v], line, p) <==> LineAll(board, line, p)
  {
  }

  /** Writing `v` somewhere cannot complete a line of any other mark. */
  lemma {:induction false} LineAllOther(board: seq<Mark>, idx: int, v: Mark, line: seq<int>, q: Mark)
    requires 0 <= idx < |board| && q != v
    ensures LineAll(board[idx := v], line, q) ==> LineAll(board, line, q)
  {
  }

  /**
    The point of checking only the lines through the last move: when no line
    held only `p` before, and none of the lines through idx holds only `p` after
    `p` is written at idx, then no line at all holds only `p`.
   */
  lemma {:induction false} NoNewWin(board: seq<Mark>, size: nat, idx: int, p: Mark)
    requires size >= 1 && |board| == size * size && 0 <= idx < |board|
    requires !Won(board, size, p)
    requires forall l :: l in LinesThrough(size, idx) ==> !LineAll(board[idx := p], l, p)
    ensures !Won(board[idx := p], size, p)
  {
    forall r | 0 <= r < size
      ensures !LineAll(board[idx := p], RowLine(size, r), p)
    {
      NotNewOnLine(board, size, idx, p, RowLine(size, r));
    }
    forall c | 0 <= c < size
      ensures !LineAll(board[idx := p], ColLine(size, c), p)
    {
      NotNewOnLine(board, size, idx, p, ColLine(size, c));
    }
    NotNewOnLine(board, size, idx, p, DiagLine(size));
    NotNewOnLine(board, size, idx, p, AntiDiagLine(size));
  }

  /** One line of the board: either it misses idx and is as before, or it is one of `LinesThrough`. */
  lemma {:induction false} NotNewOnLine(board: seq<Mark>, size: nat, idx: int, p: Mark, line: seq<int>)
    requires size >= 1 && |board| == size * size && 0 <= idx < |board|
    requires !LineAll(board, line, p)
    requires forall l :: l in LinesThrough(size, idx) ==> !LineAll(board[idx := p], l, p)
    requires (exists r :: 0 <= r < size && line == RowLine(size, r))
          || (exists c :: 0 <= c < size && line == ColLine(size, c))
          || line == DiagLine(size) || line == AntiDiagLine(size)
    ensures !LineAll(board[idx := p], line, p)
  {
    if idx in line {
      ThroughIsExamined(size, idx, line);
    } else {
      LineAllOff(board, idx, p, line, p);
    }
  }

  /** A line of the board through idx is one of the lines `getWinningLine(idx)` examines. */
  lemma {:induction false} ThroughIsExamined(size: nat, idx: int, line: seq<int>)
    requires size >= 1 && 0 <= idx < size * size && idx in line
    requires (exists r :: 0 <= r < size && line == RowLine(size, r))
          || (exists c :: 0 <= c < size && line == ColLine(size, c))
          || line == DiagLine(size) || line == AntiDiagLine(size)
    ensures line in LinesThrough(size, idx)
  {
    var lines := LinesThrough(size, idx);
    if r :| 0 <= r < size && line == RowLine(size, r) {
      OnRow(size, r, idx);
      assert lines[0] == line;
    } else if c :| 0 <= c < size && line == ColLine(size, c) {
      OnCol(size, c, idx);
      assert lines[1] == line;
    } else if line == DiagLine(size) {
      OnDiag(size, idx);
    } else {
      OnAntiDiag(size, idx);
    }
  }

  /** Writing `p` cannot give the other player a win. */
  lemma {:induction false} NoWinForOther(board: seq<Mark>, size: nat, idx: int, p: Mark, q: Mark)
    requires 0 <= idx < |board| && q != p && !Won(board, size, q)
    ensures !Won(board[idx := p], size, q)
  {
    var b2 := board[idx := p];
    forall r | 0 <= r < size
      ensures !LineAll(b2, RowLine(size, r), q)
    {
      LineAllOther(board, idx, p, RowLine(size, r), q);
    }
    forall c | 0 <= c < size
      ensures !LineAll(b2, ColLine(size, c), q)
    {
      LineAllOther(board, idx, p, ColLine(size, c), q);
    }
    LineAllOther(board, idx, p, DiagLine(size), q);
    LineAllOther(board, idx, p, AntiDiagLine(size), q);
  }

  /** `Array(n).fill("")`. */
  function Blank(n: nat): (b: seq<Mark>)
    ensures |b| == n && forall i :: 0 <= i < n ==> b[i] == Empty
  {
    seq(n, (_: int) => Empty)
  }

  /** An empty board of at least one cell: nobody has won, it is not full, and it holds no marks. */
  lemma {:induction false} BlankBoard(size: nat, p: Mark)
    requires size >= 1 && p != Empty
    ensures !Won(Blank(size * size), size, p)
    ensures !Full(Blank(size * size))
    ensures Count(Blank(size * size), p) == 0
  {
    var b := Blank(size * size);
    MulAtLeast(size, size);
    assert b[0] == Empty;
    forall r | 0 <= r < size
      ensures !LineAll(b, RowLine(size, r), p)
    {
      assert RowLine(size, r)[0] == r * size;
    }
    forall c | 0 <= c < size
      ensures !LineAll(b, ColLine(size, c), p)
    {
      assert ColLine(size, c)[0] == c;
    }
    assert DiagLine(size)[0] == 0;
    assert AntiDiagLine(size)[0] == size - 1;
    assert p !in b;
  }

  /**
    Marks are balanced: X moves first and the players alternate, so the count of
    X minus the count of O is 0 with X to move and 1 with O to move; once the
    game is over, `currentPlayer` is the player who made the last move.
   */
  predicate Balanced(board: seq<Mark>, currentPlayer: Mark, gameOver: bool) {
    var d := Count(board, X) - Count(board, O);
    if currentPlayer == X then d == (if gameOver then 1 else 0)
    else d == (if gameOver then 0 else 1)
  }

  class Game {
    var size: nat
    var state: array<Mark>
    var currentPlayer: Mark
    var gameOver: bool

    /**
      The rules the game keeps: the board has size * size cells; marks are
      balanced; a game in progress has no winner and an empty cell; a finished
      game has a line of the last mover's marks or a full board.
     */
    ghost predicate Valid()
      reads this, state
    {
      && size >= 1 && state.Length == size * size
      && (currentPlayer == X || currentPlayer == O)
      && Balanced(state[..], currentPlayer, gameOver)
      && (!gameOver ==> !Won(state[..], size, X) && !Won(state[..], size, O) && !Full(state[..]))
      && (gameOver ==> Won(state[..], size, currentPlayer) || Full(state[..]))
    }

    /** Page load: the size from the size selector, an empty board, X to move. */
    constructor (setting: Option<nat>)
      ensures Valid() && fresh(state)
      ensures size == SizeFrom(setting) && state[..] == Blank(size * size)
      ensures currentPlayer == X && !gameOver
    {
      size := SizeFrom(setting);
      state := new Mark[SizeFrom(setting) * SizeFrom(setting)](_ => Empty);
      currentPlayer := X;
      gameOver := false;
      new;
      assert state[..] == Blank(size * size);
      BlankBoard(size, X);
      BlankBoard(size, O);
    }

    /** `resetGame`: a fresh empty board of the current size, X to move, game not over. */
    method ResetGame()
      requires size >= 1
      modifies this
      ensures Valid() && fresh(state) && size == old(size)
      ensures state[..] == Blank(size * size) && currentPlayer == X && !gameOver
    {
      state := new Mark[size * size](_ => Empty);
      currentPlayer := X;
      gameOver := false;
      assert state[..] == Blank(size * size);
      BlankBoard(size, X);
      BlankBoard(size, O);
    }

    /** The size selector's change handler: new size, then `resetGame`. */
    method ChangeSize(setting: Option<nat>)
      modifies this
      ensures Valid() && fresh(state) && size == SizeFrom(setting)
      ensures state[..] == Blank(size * size) && currentPlayer == X && !gameOver
    {
      size := SizeFrom(setting);
      ResetGame();
    }

    /** `indicesForRow(r)`. */
    method IndicesForRow(r: int) returns (out: seq<int>)
      ensures out == RowLine(size, r)
    {
      out := [];
      var c := 0;
      while c < size
        invariant 0 <= c <= size && |out| == c
        invariant forall k :: 0 <= k < c ==> out[k] == r * size + k
      {
        out := out + [r * size + c];
        c := c + 1;
      }
    }

    /** `indicesForCol(c)`. */
    method IndicesForCol(c: int) returns (out: seq<int>)
      ensures out == ColLine(size, c)
    {
      out := [];
      var r := 0;
      while r < size
        invariant 0 <= r <= size && |out| == r
        invariant forall k :: 0 <= k < r ==> out[k] == k * size + c
      {
        out := out + [r * size + c];
        r := r + 1;
      }
    }

    /** `indicesForDiag()`. */
    method IndicesForDiag() returns (out: seq<int>)
      ensures out == DiagLine(size)
    {
      out := [];
      var i := 0;
      while i < size
        invariant 0 <= i <= size && |out| == i
        invariant forall k :: 0 <= k < i ==> out[k] == k * size + k
      {
        out := out + [i * size + i];
        i := i + 1;
      }
    }

    /** `indicesForAntiDiag()`. */
    method IndicesForAntiDiag() returns (out: seq<int>)
      ensures out == AntiDiagLine(size)
    {
      out := [];
      var i := 0;
      while i < size
        invariant 0 <= i <= size && |out| == i
        invariant forall k :: 0 <= k < i ==> out[k] == k * size + (size - 1 - k)
      {
        out := out + [i * size + (size - 1 - i)];
        i := i + 1;
      }
    }

    /** `isLineWin(line)`: every cell of the line holds the current player's mark. */
    predicate IsLineWin(line: seq<int>)
      reads this, state
    {
      LineAll(state[..], line, currentPlayer)
    }

    /**
      `getWinningLine(lastIndex)`: the first line through lastIndex, in the order of
      `LinesThrough`, that holds only the current player's mark; `None` when there is none.
     */
    method GetWinningLine(lastIndex: int) returns (line: Option<seq<int>>)
      requires size >= 1
      ensures line.Some? ==>
        (exists k :: 0 <= k < |LinesThrough(size, lastIndex)|
          && LinesThrough(size, lastIndex)[k] == line.value && IsLineWin(line.value)
          && (forall j :: 0 <= j < k ==> !IsLineWin(LinesThrough(size, lastIndex)[j])))
      ensures line.None? <==> forall l :: l in LinesThrough(size, lastIndex) ==> !IsLineWin(l)
    {
      var r := lastIndex / size;
      var c := lastIndex % size;
      ghost var lines := LinesThrough(size, lastIndex);

      var row := IndicesForRow(r);
      if IsLineWin(row) {
        assert lines[0] == row;
        return Some(row);
      }

      var col := IndicesForCol(c);
      if IsLineWin(col) {
        assert lines[1] == col;
        return Some(col);
      }

      if r == c {
        var diag := IndicesForDiag();
        if IsLineWin(diag) {
          assert lines[2] == diag;
          return Some(diag);
        }
      }

      if r + c == size - 1 {
        var anti := IndicesForAntiDiag();
        if IsLineWin(anti) {
          assert lines[|lines| - 1] == anti;
          return Some(anti);
        }
      }

      return None;
    }

    /**
      `onBoardClick` on cell `index`: ignored when the game is over or the cell is
      taken; otherwise the current player's mark goes into that one cell, a line
      through it ends the game with a win, a full board ends it with a draw, and
      only otherwise does the turn pass to the other player.
     */
    method OnBoardClick(index: int) returns (winLine: Option<seq<int>>)
      requires Valid() && 0 <= index < state.Length
      modifies this, state
      ensures Valid() && size == old(size) && state == old(state)
      ensures old(gameOver) || old(state[index]) != Empty ==>
        state[..] == old(state[..]) && currentPlayer == old(currentPlayer) && gameOver == old(gameOver)
        && winLine.None?
      ensures !old(gameOver) && old(state[index]) == Empty ==>
        && state[..] == old(state[..])[index := old(currentPlayer)]
        && (winLine.Some? ==> winLine.value in LinesThrough(size, index)
                              && index in winLine.value
                              && LineAll(state[..], winLine.value, old(currentPlayer)))
        && (winLine.Some? <==> Won(state[..], size, old(currentPlayer)))
        && gameOver == (winLine.Some? || Full(state[..]))
        && currentPlayer == (if gameOver then old(currentPlayer) else Other(old(currentPlayer)))
    {
      if gameOver {
        return None;
      }
      if state[index] != Empty {
        return None;
      }
      ghost var before := state[..];
      var p := currentPlayer;
      state[index] := p;
      assert state[..] == before[index := p];
      MoveCounts(before, index, p);
      NoWinForOther(before, size, index, p, Other(p));

      winLine := GetWinningLine(index);
      if winLine.Some? {
        LinesThroughContain(size, index, winLine.value);
        ThroughWins(state[..], size, index, winLine.value, p);
        gameOver := true;
        return;
      }
      NoNewWin(before, size, index, p);

      if Full(state[..]) {
        gameOver := true;
        return;
      }

      currentPlayer := Other(currentPlayer);
    }
  }

  /** Filling an empty cell with `p` adds one `p` and leaves the other player's count alone. */
  lemma {:induction false} MoveCounts(board: seq<Mark>, idx: int, p: Mark)
    requires 0 <= idx < |board| && board[idx] == Empty && p != Empty
    ensures Count(board[idx := p], p) == Count(board, p) + 1
    ensures Count(board[idx := p], Other(p)) == Count(board, Other(p))
  {
  }
}
