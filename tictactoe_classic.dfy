/**
  The fixed 3-by-3 tic-tac-toe (tic-tac-toe.js): nine cells whose text is the
  mark, eight winning combinations, and a game that starts over by itself after
  a win or a draw.
 */
module TicTacToeClassic {

  import opened TicTacToeGrid

  /** `winningCombos`: three rows, three columns, two diagonals. */
  const WinningCombos: seq<seq<int>> := [
    [0, 1, 2], [3, 4, 5], [6, 7, 8],
    [0, 3, 6], [1, 4, 7], [2, 5, 8],
    [0, 4, 8], [2, 4, 6]
  ]

  /** The combinations are exactly the rows, the columns and the two diagonals of a 3-by-3 grid, in that order. */
  lemma {:induction false} CombosAreGridLines()
    ensures WinningCombos == [RowLine(3, 0), RowLine(3, 1), RowLine(3, 2),
                              ColLine(3, 0), ColLine(3, 1), ColLine(3, 2),
                              DiagLine(3), AntiDiagLine(3)]
  {
    assert RowLine(3, 0) == [0, 1, 2];
    assert RowLine(3, 1) == [3, 4, 5];
    assert RowLine(3, 2) == [6, 7, 8];
    assert ColLine(3, 0) == [0, 3, 6];
    assert ColLine(3, 1) == [1, 4, 7];
    assert ColLine(3, 2) == [2, 5, 8];
    assert DiagLine(3) == [0, 4, 8];
    assert AntiDiagLine(3) == [2, 4, 6];
  }

  /** `checkWin()` on a board: some combination holds only `p` in all three of its cells. */
  predicate CheckWin(board: seq<Mark>, p: Mark)
    requires |board| == 9
  {
    exists i :: 0 <= i < |WinningCombos| &&
      board[WinningCombos[i][0]] == p && board[WinningCombos[i][1]] == p && board[WinningCombos[i][2]] == p
  }

  /** `checkWin` agrees with the general rule: a win is a full row, column or diagonal. */
  lemma {:induction false} CheckWinIsWon(board: seq<Mark>, p: Mark)
    requires |board| == 9
    ensures CheckWin(board, p) <==> Won(board, 3, p)
  {
    CombosAreGridLines();
    if Won(board, 3, p) {
      WonChecked(board, p);
    }
    if CheckWin(board, p) {
      CheckedWon(board, p);
    }
  }

  /** Combination i is complete exactly when its line holds only `p`. */
  lemma {:induction false} ComboLine(board: seq<Mark>, p: Mark, i: int)
    requires |board| == 9 && 0 <= i < 8
    ensures LineAll(board, WinningCombos[i], p) <==>
      (board[WinningCombos[i][0]] == p && board[WinningCombos[i][1]] == p && board[WinningCombos[i][2]] == p)
  {
    assert |WinningCombos[i]| == 3;
  }

  lemma {:induction false} WonChecked(board: seq<Mark>, p: Mark)
    requires |board| == 9 && Won(board, 3, p)
    ensures CheckWin(board, p)
  {
    CombosAreGridLines();
    var i: int;
    if r :| 0 <= r < 3 && LineAll(board, RowLine(3, r), p) {
      i := r;
    } else if c :| 0 <= c < 3 && LineAll(board, ColLine(3, c), p) {
      i := 3 + c;
    } else if LineAll(board, DiagLine(3), p) {
      i := 6;
    } else {
      i := 7;
    }
    ComboLine(board, p, i);
  }

  lemma {:induction false} CheckedWon(board: seq<Mark>, p: Mark)
    requires |board| == 9 && CheckWin(board, p)
    ensures Won(board, 3, p)
  {
    CombosAreGridLines();
    var i :| 0 <= i < 8 &&
      board[WinningCombos[i][0]] == p && board[WinningCombos[i][1]] == p && board[WinningCombos[i][2]] == p;
    ComboLine(board, p, i);
    if i < 3 {
      assert LineAll(board, RowLine(3, i), p);
    } else if i < 6 {
      assert LineAll(board, ColLine(3, i - 3), p);
    }
  }

  /** What a click led to: nothing, a win and a new game, a draw and a new game, or the other player's turn. */
  datatype Outcome = Ignored | Win(winner: Mark) | Draw | NextTurn

  class Classic {
    var cells: array<Mark>
    var currentPlayer: Mark

    /**
      Between clicks the board has nine cells, X has made as many moves as O or
      one more as the player to move says, no combination is complete and an
      empty cell remains.
     */
    ghost predicate Valid()
      reads this, cells
    {
      && cells.Length == 9
      && (currentPlayer == X || currentPlayer == O)
      && Balanced(cells[..], currentPlayer, false)
      && !CheckWin(cells[..], X) && !CheckWin(cells[..], O) && !Full(cells[..])
    }

    /** Page load: nine empty cells, X to move. */
    constructor ()
      ensures Valid() && fresh(cells) && cells[..] == Blank(9) && currentPlayer == X
    {
      cells := new Mark[9](_ => Empty);
      currentPlayer := X;
      new;
      assert cells[..] == Blank(9);
      EmptyStart();
    }

    /** `resetGame()`: empty every cell, X to move. */
    method ResetGame()
      requires cells.Length == 9
      modifies this, cells
      ensures cells == old(cells) && Valid()
      ensures cells[..] == Blank(9) && currentPlayer == X
    {
      var i := 0;
      while i < cells.Length
        modifies cells
        invariant 0 <= i <= cells.Length
        invariant forall k :: 0 <= k < i ==> cells[k] == Empty
      {
        cells[i] := Empty;
        i := i + 1;
      }
      currentPlayer := X;
      assert cells[..] == Blank(9);
      EmptyStart();
    }

    /**
      `handleClick` on cell `index`: a taken cell ignores the click; otherwise the
      mark goes in, and a win or a full board starts a new game with X to move,
      while any other move passes the turn.
     */
    method HandleClick(index: int) returns (outcome: Outcome)
      requires Valid() && 0 <= index < 9
      modifies this, cells
      ensures Valid() && cells == old(cells)
      ensures old(cells[index]) != Empty ==>
        outcome == Ignored && cells[..] == old(cells[..]) && currentPlayer == old(currentPlayer)
      ensures old(cells[index]) == Empty ==>
        var played := old(cells[..])[index := old(currentPlayer)];
        && (outcome == Win(old(currentPlayer)) <==> Won(played, 3, old(currentPlayer)))
        && (outcome == Draw <==> !Won(played, 3, old(currentPlayer)) && Full(played))
        && (outcome.Win? || outcome == Draw ==> cells[..] == Blank(9) && currentPlayer == X)
        && (outcome == NextTurn <==> !Won(played, 3, old(currentPlayer)) && !Full(played))
        && (outcome == NextTurn ==> cells[..] == played && currentPlayer == Other(old(currentPlayer)))
    {
      if cells[index] != Empty {
        return Ignored;
      }
      ghost var before := cells[..];
      var p := currentPlayer;
      cells[index] := p;
      assert cells[..] == before[index := p];
      CheckWinIsWon(cells[..], p);
      if CheckWin(cells[..], p) {
        outcome := Win(p);
        ResetGame();
      } else if Full(cells[..]) {
        outcome := Draw;
        ResetGame();
      } else {
        CheckWinIsWon(before, Other(p));
        NoWinForOther(before, 3, index, p, Other(p));
        CheckWinIsWon(cells[..], Other(p));
        MoveCounts(before, index, p);
        currentPlayer := Other(currentPlayer);
        outcome := NextTurn;
      }
    }
  }

  /** The empty board: no win, not full, no marks. */
  lemma {:induction false} EmptyStart()
    ensures !CheckWin(Blank(9), X) && !CheckWin(Blank(9), O) && !Full(Blank(9))
    ensures Count(Blank(9), X) == 0 && Count(Blank(9), O) == 0
  {
    BlankBoard(3, X);
    BlankBoard(3, O);
    CheckWinIsWon(Blank(9), X);
    CheckWinIsWon(Blank(9), O);
  }
}
