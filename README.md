# digames in Dafny

A Dafny model of the game logic of the digames collection of browser games and
learning tools. Each game keeps its state in page variables, and each one is
modelled here by one module:

- **Pac-Sweeper** (`pac_sweeper.dfy`, with `pac_grid.dfy`). This is a
  Minesweeper board. Its mines are laid only after the first click, so the
  start cell is never a mine. A token, Pac, walks the board: it opens cells,
  picks up items and spends shield charges on mines. One round is a `Game`
  object. `newGame` is its constructor.
  - The `bombs`, `revealed` and `flagged` grids are sets of cells.
  - `counts` and `items` are maps from cells.
  - The methods update these grids cell by cell, following the game's own
    loops: the neighbour scan, the recount, the stack-driven flood reveal, the
    Fisher-Yates shuffles and the row-by-row candidate scans.
  - `Math.random()` is an `Rng` object that hands out a stream of draws fixed
    in advance. `Math.floor(Math.random() * k)` is the next draw modulo k.
- **Column arithmetic trainers** (`addition.dfy`, `subtraction.dfy`,
  `division.dfy`, with `digits.dfy`). These cover column addition with
  carries, column subtraction with borrows, and digit-by-digit long division.
  Each is proved against the value of its digit sequences. The answer checks
  are modelled over what a learner typed into each box: a blank, a number, or
  text that reads as NaN.
- **Tic-tac-toe**. `tictactoe_grid.dfy` models the N-by-N game: its board
  array, win lines, moves and draws. `tictactoe_classic.dfy` models the fixed
  3-by-3 game, which starts over by itself after a win or a draw.
- **Geometry explorers**. `trapezium.dfy` models the trapezium explorer's
  area, classification, sliders, presets and ten-question quiz.
  `triangle.dfy` models the triangle explorer. It covers grid snapping,
  squared sides, signed area, the degeneracy test, both classifications, and
  the adjustment that makes the shown whole-degree angles add up to 180.
  Shared real arithmetic is in `realmath.dfy`.
- **Aura-rolling game** (`rng_game.dfy`). This is the roll bookkeeping and the
  coin shop.
- **Loyalty-points account** (`loyalty.dfy`). It covers HTML escaping, the
  balance rule of a movement, the earn and redeem amounts, and how the title of
  a movement is stripped.
- **Equation-solver step** (`equation_solver.dfy`). It covers the `=` check,
  the split into two sides, and the mapping from an instruction to a transform
  applied to both sides.

`wrappers.dfy` holds `Option` and `Result`, `text.dfy` holds the JavaScript
string helpers the models need (white space, `trim`, `startsWith`,
`indexOf`), and `arith.dfy` holds the row-major numbering facts.

## Model

| member | source | states |
|---|---|---|
| PacSweeper.ClampInt | pac-sweeper/game.js:77-81 | A non-number gives the fallback unclamped. A number is pulled into [min, max]: unchanged inside, min below, max above. |
| PacGrid.NeighboursSpec | pac-sweeper/game.js:92-102 | The neighbour list holds exactly the on-board cells adjacent to p, never p itself, each once, and at most 8 of them. |
| PacGrid.RingSpec | pac-sweeper/game.js:94-96 | The 3-by-3 block without its centre holds exactly the adjacent cells, each once. |
| PacGrid.UpToStep | pac-sweeper/game.js:95-98 | One offset (dr, dc) of the loops appends its cell exactly when that cell is on the board. |
| PacSweeper.Game.Neighbors8 | pac-sweeper/game.js:92-102 | The loops return the specified neighbour list: the on-board cells around (r, c), in loop order. |
| PacSweeper.Game.NeighboursRow | pac-sweeper/game.js:94-100 | One pass of the outer loop extends the list by row dr of the block. |
| PacSweeper.Game.NeighbourAt | pac-sweeper/game.js:95-99 | One pass of the inner loop keeps the cell at (dr, dc) when it is on the board. |
| PacSweeper.Game.constructor | pac-sweeper/game.js:137-155 | newGame: rows, cols and the mine count are clamped from the inputs with their fallbacks. The grids are empty and every count is 0. There is no Pac; the round is alive and not started. totalSafe + bombsRemaining == rows * cols. |
| PacSweeper.Game.PlaceBombs | pac-sweeper/game.js:162-192 | The start cell is never a mine. Exactly min(bombCount, rows*cols - 1) distinct cells become mines. bombsRemaining is the mine count and totalSafe the rest of the board. Counts are right. Items lie off the mines and off the start, min(8, eligible) of them. The items are dealt in `ItemTypes` order onto distinct cells, so each kind appears as often as in the first n entries of that list (three reveal1, two reveal2, one each of reveal5, defuse and teleport when all eight fit). The round is started. |
| PacSweeper.Game.Seed | pac-sweeper/game.js:171-189 | Mines, then counts, then items on an empty board, with the same guarantees as PlaceBombs, item kinds included. |
| PacSweeper.Game.LayBombs | pac-sweeper/game.js:171-186 | need mines on the board, none on the start cell. |
| PacSweeper.Game.OtherIndices | pac-sweeper/game.js:172-175 | The index list holds every cell number below total except the start's, once each. |
| PacSweeper.Game.LayMines | pac-sweeper/game.js:176-186 | The first need shuffled numbers become exactly need distinct mines, none on the start cell. |
| PacGrid.Shuffle | pac-sweeper/game.js:176-179 | Fisher-Yates over any draws only moves entries: the result is a permutation of the input, and a list without repeats stays without repeats. |
| PacGrid.Rng.Below | pac-sweeper/game.js:177 | floor(random * k) is an index below k: the next draw modulo k, with 0 once the stream is exhausted. |
| PacSweeper.Game.RecomputeCounts | pac-sweeper/game.js:194-204 | Every cell's count becomes the number of mines around it. |
| PacSweeper.Game.CountAround | pac-sweeper/game.js:197-200 | The inner loop counts exactly the mines among the neighbours of (r, c). |
| PacGrid.MinesAround | pac-sweeper/game.js:197-200 | A mine count is between 0 and 8. |
| PacGrid.NoMinesAround | pac-sweeper/game.js:144 | Without mines every count is 0, as newGame's zero-filled grid says. |
| PacSweeper.Game.PlaceItems | pac-sweeper/game.js:215-236 | Items lie only on cells that are neither mines nor the start cell, and min(8, eligible cells) of them are placed. The items are dealt in `ItemTypes` order onto distinct cells, so each kind appears as often as in the first n entries of that list (three reveal1, two reveal2, one each of reveal5, defuse and teleport when all eight fit). |
| PacSweeper.Game.ItemCells | pac-sweeper/game.js:217-230 | The shuffled list holds each cell that is neither a mine nor the start once. |
| PacSweeper.Game.Candidates | pac-sweeper/game.js:219-225 | A row-by-row scan lists each eligible cell once. The same scan shape appears in revealRandomSafeTiles and teleportPac. |
| PacSweeper.Game.Shuffled | pac-sweeper/game.js:434-449 | The candidates of a scan, shuffled, each exactly once. |
| PacSweeper.Game.DealItems | pac-sweeper/game.js:232-235 | Item i goes on cell i of the list while both last: min(8, cells) items, in the list order, and no other cell holds one. |
| PacSweeper.DealtKinds | pac-sweeper/game.js:232-235 | A deal of n items puts on the board exactly as many items of each kind as the first n entries of `ItemTypes` hold. |
| PacSweeper.DealtLast | pac-sweeper/game.js:232-235 | Without the last item dealt, the rest is the deal of the shorter list. |
| PacSweeper.HoldingLess | pac-sweeper/game.js:404 | Removing the item on a cell lowers the count of its kind by one and leaves the other kinds as they were. |
| PacSweeper.Game.RevealCell | pac-sweeper/game.js:269-275 | An open or flagged cell is refused (false) and nothing changes. Otherwise the cell opens, and revealedSafe rises by one exactly when the cell is safe. |
| PacSweeper.Game.ToggleFlag | pac-sweeper/game.js:281-290 | No change when the round is over, the cell is open, or Pac is on it. Otherwise only that cell's flag flips. No cell is both open and flagged. |
| PacSweeper.Flip | pac-sweeper/game.js:286 | A toggle flips the flag of p and no other. |
| PacSweeper.FlipTwice | pac-sweeper/game.js:286 | Two toggles restore the flags. |
| PacSweeper.Game.Reveal | pac-sweeper/game.js:293-319 | An open or flagged cell returns 0 and changes nothing. A mine opens alone. From a safe cell: the cell opens, and no mine or flagged cell is opened or closed. The result is the rise in revealedSafe. Every newly opened cell but the start has an opened spreading neighbour (count 0 or an item). Every neighbour of an opened spreading cell ends open, flagged or a mine. The cells that open are exactly those reached from the target by a walk of adjacent cells that were closed, unflagged and safe, each step leaving a spreading cell. |
| PacSweeper.Game.FloodFrom | pac-sweeper/game.js:300-318 | The flood from a closed, unflagged safe start gives the same guarantees as Reveal's safe branch, including that it opens exactly the cells reachable from the start. |
| PacSweeper.Game.FloodRun | pac-sweeper/game.js:300-318 | The flood from a closed, unflagged safe start on the open cells alone: they only grow, no mine or flagged cell opens, the start opens, the count is the rise in revealedSafe, and exactly the cells reachable from the start open. |
| PacSweeper.Game.FloodLoop | pac-sweeper/game.js:302-315 | The stack loop terminates, because the closed cells strictly decrease, and it leaves the flood invariant with an empty stack. |
| PacSweeper.Game.FloodStep | pac-sweeper/game.js:303-314 | One pop keeps the flood invariant and strictly shrinks the closed cells when it opens one. |
| PacSweeper.Game.FloodVisit | pac-sweeper/game.js:309-314 | Opening a popped safe cell adds one open safe cell and keeps the flood invariant. |
| PacSweeper.Game.PushAround | pac-sweeper/game.js:311-313 | Every closed, unflagged safe neighbour of x ends up on the stack, pushed by x. |
| PacSweeper.FloodOpen | pac-sweeper/game.js:303-314 | Opening x and pushing its neighbours keeps the flood invariant. |
| PacSweeper.FloodSkip | pac-sweeper/game.js:304-307 | Skipping an open, flagged or mined cell keeps the flood invariant. |
| PacSweeper.FloodDone | pac-sweeper/game.js:302-318 | With the stack empty the flood is complete: every opened cell was reached from a spreading neighbour, and every spreading cell's neighbours are open, flagged or mines. The opened cells are exactly the cells reachable from the start by a flood walk. |
| PacSweeper.PathTo | pac-sweeper/game.js:302-316 | Each opened cell is reached by a flood walk from the start, found by following parents, which are one step nearer the start. So the flood opens nothing it could not reach. |
| PacSweeper.PathOpen | pac-sweeper/game.js:302-316 | Once the flood is closed, every cell a flood walk from the opened start reaches is open. So the flood misses nothing it could reach. |
| PacSweeper.ParentedOpen | pac-sweeper/game.js:309-313 | Opening a popped cell gives it the cell that pushed it as parent, one step deeper, and keeps every depth ranked. |
| PacSweeper.Game.Open | pac-sweeper/game.js:293-319 | reveal as a statement: open cells stay open, an unflagged target opens, a mine opens at most itself, and from a safe cell exactly the cells reachable by a flood walk open. |
| PacSweeper.Game.RevealAllBombs | pac-sweeper/game.js:321-331 | Once the round is lost, every mine opens and loses its flag. Nothing else changes. |
| PacSweeper.Game.Cleared | pac-sweeper/game.js:388 | Once the round has started, revealedSafe >= totalSafe holds exactly when every safe cell is open. |
| PacSweeper.Game.TryMove | pac-sweeper/game.js:344-398 | Nothing changes when the round is over, there is no Pac, or the target is off the board or flagged. Otherwise the target ends open and no open cell closes. Mine with a shield: Pac is on it, the round goes on, one charge is spent, the mine goes, bombsRemaining drops by one (floored at 0), totalSafe = rows*cols - bombsRemaining, flags and items are unchanged, and exactly the flood from the target opens. Mine without a shield: Pac is on it, the round ends, every mine opens and loses its flag, and items and charges are unchanged. Safe step: mines and flags are unchanged, the flood from the target opens, and the round stays alive exactly while some safe cell is closed. With no item on the target, Pac is on it, items and charges are unchanged, and exactly the flood opens. With a non-teleport item, Pac is on it and only that item is gone. A defuse adds exactly one charge and opens nothing beyond the flood. A reveal item leaves the charges unchanged. On any safe step the item cells only shrink, the target ends without an item (a teleport chain only removes items), and the charges do not fall. |
| PacSweeper.Game.MoveTo | pac-sweeper/game.js:352-393 | What tryMove does once it goes ahead, stated for the target t with the same three branches as TryMove, including that on a safe cell the item cells only shrink, t ends without an item and the charges do not fall. |
| PacSweeper.Game.StepOnMine | pac-sweeper/game.js:352-381 | The mine branch: Pac moves onto the mine. With a charge, the shield case of TryMove. Without one, death: the round ends, every mine opens and loses its flag, and nothing else changes. |
| PacSweeper.Game.SpendShield | pac-sweeper/game.js:355-372 | The shield branch: one charge less, the mine gone, the counters adjusted, flags unchanged, and exactly the flood from the cell on the new board opened. |
| PacSweeper.Game.Disarm | pac-sweeper/game.js:356-361 | The mine is removed and the counts redone. |
| PacSweeper.Game.RemoveMine | pac-sweeper/game.js:356-359 | The counters of a defuse: charges - 1, the mine gone, bombsRemaining = max(0, bombsRemaining - 1), totalSafe = rows*cols - bombsRemaining. |
| PacSweeper.DropMine | pac-sweeper/game.js:357 | Taking a closed mine off leaves one mine fewer and the same open safe cells. |
| PacSweeper.Game.OpenUnder | pac-sweeper/game.js:370 | The defused cell opens with its flood: exactly the cells reachable from it on the board without that mine. |
| PacSweeper.Game.Die | pac-sweeper/game.js:373-380 | The death branch: the round ends, the mine and then every mine opens, and mines lose their flags. |
| PacSweeper.Game.Stop | pac-sweeper/game.js:374 | alive becomes false. |
| PacSweeper.Game.Explode | pac-sweeper/game.js:375-377 | The hit mine opens, then every mine. |
| PacSweeper.Game.HitMine | pac-sweeper/game.js:375 | reveal on the hit mine opens that one cell. |
| PacSweeper.Game.StepOn | pac-sweeper/game.js:384-393 | The safe branch: the flood from the cell opens, its item is used, and the round ends exactly when every safe cell is open. No item: Pac stays, items and charges are unchanged, and exactly the flood opens. A non-teleport item: Pac stays and only that item is gone. A defuse: one more charge and nothing opens beyond the flood. A reveal item: the charges are unchanged. Whatever the item, the item cells only shrink, the cell ends without an item, and the charges do not fall. |
| PacSweeper.Game.Visit | pac-sweeper/game.js:384-386 | reveal then activateItemAt on Pac's new cell: the flood from it opens, the set of item cells only shrinks, the cell ends without an item, and the charges do not fall. The per-item effects are those of StepOn. With an item, the round then ends exactly when every safe cell is open. |
| PacSweeper.Game.EndIfWon | pac-sweeper/game.js:388-392 | The win test: the round ends once revealedSafe >= totalSafe. |
| PacSweeper.Game.ActivateItemAt | pac-sweeper/game.js:400-432 | No item: false and nothing changes. Otherwise the item is cleared before its effect, so the set of item cells shrinks and teleport chains end. A non-teleport item leaves the other items and Pac unchanged. A defuse adds one charge and opens nothing. A reveal item leaves the charges unchanged. The round then ends exactly when every safe cell is open. The charges never fall. |
| PacSweeper.Game.UseUp | pac-sweeper/game.js:404 | The item on p is removed and nothing else changes. |
| PacSweeper.Game.Apply | pac-sweeper/game.js:408-423 | A defuse adds exactly one charge and changes nothing else. A reveal item for n cells (1, 2 or 5) leaves at least min(n, candidates) of the candidate cells open and does not move Pac or end the round. Any item: no open cell closes, the item cells only shrink, and the round ends only once every safe cell is open. The charges never fall. |
| PacSweeper.Game.OpenRandom | pac-sweeper/game.js:408-416 | A reveal item's call of revealRandomSafeTiles. |
| PacSweeper.Game.RevealRandomSafeTiles | pac-sweeper/game.js:434-460 | Returns min(count, candidates), where candidates are the closed, unflagged safe cells Pac is not on. At least that many of them end open, and no mine opens. |
| PacSweeper.Game.OpenFirst | pac-sweeper/game.js:452-457 | The first k cells of the shuffled list end open; no mine opens. |
| PacGrid.PrefixWithin | pac-sweeper/game.js:451-459 | k distinct candidates that all end open means at least k candidates are open. |
| PacSweeper.Game.TeleportPac | pac-sweeper/game.js:462-484 | False, with nothing changed, when there is no Pac or no candidate. Otherwise the landing cell is a closed, unflagged safe cell with count 0 that Pac was not on; it ends open and without an item, the item cells only shrink, and the charges do not fall. When it held no item, Pac stays on it, exactly the flood from it opens, and nothing else about the round changes. When it held an item other than a teleport, Pac stays on it and only that item is gone. |
| PacSweeper.Game.LandOn | pac-sweeper/game.js:479-482 | Pac moves to the cell, it opens, and its item is used: the cell ends without an item, the item cells only shrink, and the charges do not fall. Without an item there, Pac stays on it, exactly the flood from it opens, and items, charges and the round are unchanged. With an item other than a teleport, Pac stays on it and only that item is gone. |
| PacSweeper.Game.Place | pac-sweeper/game.js:518-527 | First placement: nothing changes on a flagged cell or once Pac is placed. Otherwise min(bombCount, rows*cols - 1) mines go down away from the cell, and the items are dealt as by PlaceBombs: min(8, free cells) of them in `ItemTypes` order, each kind as often as in the dealt prefix of that list. Pac then lands on the cell, which holds no mine and no item. The round is started and alive, the charges are unchanged, and the open cells are exactly the flood from the cell. |
| PacSweeper.Game.Arrive | pac-sweeper/game.js:521-524 | Pac lands on a cell without an item in a started round: the round stays alive, items and charges are unchanged, and exactly the flood from the cell opens. |
| PacGrid.CellOfIndex | pac-sweeper/game.js:164 | The start cell's number r*cols + c is below rows*cols and maps back to the cell. |
| PacGrid.IndexOfCell | pac-sweeper/game.js:182-184 | floor(idx / cols), idx % cols is an on-board cell whose number is idx. |
| PacGrid.CellsCard | pac-sweeper/game.js:163 | The board has rows * cols cells. |
| PacGrid.SafeCells | pac-sweeper/game.js:359 | The safe cells of the board number rows*cols less the mines. |
| PacGrid.SafeCount | pac-sweeper/game.js:272 | Opening one more cell adds one open safe cell exactly when the cell is safe. |
| Addition.GenerateNumber | addition/script.js:49-51 | digits digits, each in 0..9. |
| Addition.GenerateNumberReachesAll | addition/script.js:49-51 | Every digit sequence is a possible outcome. |
| Addition.CalculateSolution | addition/script.js:53-64 | The sum has the inputs' length and only digits, the carry is 0 or 1, and value(num1) + value(num2) == carry * 10^n + value(sum). |
| Addition.CheckAnswer | addition/script.js:66-77 | Correct exactly when every box, with a blank read as 0, equals the sum digit-wise. The final carry is not compared. |
| Digits.DigitsOfSpec | division/script.js:5-7 | For 0 <= num < 10^digits: exactly digits digits, each in 0..9, whose value is num. |
| Digits.Decimal | division/script.js:6 | String(num) split into digits: at least one digit, no leading zero unless num is 0, and the value is num. |
| Digits.DecimalLength | division/script.js:6 | The decimal form fits in n digits exactly when num < 10^n, so padStart only adds zeros. |
| Digits.ValueLeadingZeros | division/script.js:6 | Leading zeros do not change the value. |
| Digits.ValueBounds | division/script.js:5-7 | n digits write a number in [0, 10^n). |
| Digits.LeadingDigitNonZero | division/script.js:9-14 | A number of exactly digits digits has a non-zero leading digit. |
| Digits.RandomInt | division/script.js:1-3 | randomInt(min, max) lies in [min, max]. |
| Digits.RandomIntReachesAll | division/script.js:1-3 | Every integer of [min, max] is a possible outcome. |
| Digits.ReadOrZero | division/script.js:148 | A blank box reads as 0, a number as itself, and unreadable text as NaN. |
| Division.GenerateDividendDigits | division/script.js:9-14 | digits digits with a non-zero leading digit, valued in [10^(digits-1), 10^digits). |
| Division.CalculateSolution | division/script.js:16-40 | One quotient digit (0..9) and one step per dividend digit. Each step has current = previous remainder * 10 + digit, product = q * divisor, remainder = current - product. value(dividend) == value(quotient) * divisor + remainder, with remainder in [0, divisor). |
| Division.ProgressStep | division/script.js:20-37 | One iteration keeps prefix value == quotient value * divisor + remainder. |
| Division.ValueAppend | division/script.js:22 | Appending a digit multiplies the value by ten and adds the digit. |
| Division.StepsExtend | division/script.js:28-34 | A well-formed step extends a well-formed list of steps. |
| Division.QuotientDigit | division/script.js:22-25 | A remainder below the divisor with one digit brought down gives a quotient digit in 0..9 and a new remainder below the divisor. |
| Division.BringDown | division/script.js:21-25 | Bringing down digit i keeps the division identity for the dividend prefix. |
| Division.FirstEntered | division/script.js:118-119 | The index of the first non-blank box, or the row length when all are blank. |
| Division.FirstEnteredIs | division/script.js:118-119 | With z leading blanks and a filled box at z, the first entry is z. |
| Division.CheckQuotient | division/script.js:121-145 | Correct exactly when every box is right: a leading blank only where the quotient digit is 0, any other box equal to its digit. |
| Division.LeadingBlanksAccepted | division/script.js:126-135 | Leaving leading zero digits blank and writing the rest is accepted. |
| Division.BlankAfterEntryRejected | division/script.js:138-141 | A blank after the first filled box is wrong, whatever the digit. |
| Division.CheckRemainder | division/script.js:147-149 | A blank remainder reads as 0; otherwise the number must equal the remainder. |
| Division.LeadingBlankRow | division/script.js:126-134 | A row with its first z boxes blank and the rest holding the quotient digits. |
| Subtraction.GenerateMinuendAndSubtrahend | subtraction/script.js:9-20 | Both padded to digits digits, the minuend's leading digit non-zero, and 0 <= subtrahend <= minuend. |
| Subtraction.CalculateSolution | subtraction/script.js:22-45 | diff and borrows have length n, every mark is 0 or 1, and mark n-1 is 0. Mark j-1 is set exactly when column j borrowed. diff is digits, valued minuend - subtrahend, or its ten's complement when the subtrahend is larger. |
| Subtraction.Conclude | subtraction/script.js:30-44 | Once every column is done, diff is the difference or its ten's complement. |
| Subtraction.FinalBorrow | subtraction/script.js:33-39 | The borrow out of the leftmost column is 0 exactly when minuend >= subtrahend. |
| Subtraction.SuffixStep | subtraction/script.js:30-41 | One column keeps the difference invariant of the processed suffix. |
| Subtraction.CheckAnswer | subtraction/script.js:129-141 | The result is correct exactly when every box holds its difference digit, where a blank never matches. The borrows are correct exactly when each of the borrow boxes (one fewer than the columns on the page) equals its mark, where a blank reads as 0. |
| TicTacToeGrid.SizeFrom | tic-tac-toe/tic-tac-toe.js:9 | A non-zero setting is taken as is. A missing or zero setting gives 3. The size is always positive. |
| TicTacToeGrid.Other | tic-tac-toe/tic-tac-toe.js:198 | The turn passes to the other mark. |
| TicTacToeGrid.Game.IndicesForRow | tic-tac-toe/tic-tac-toe.js:101-105 | Row r: the size cell numbers r*size + c. |
| TicTacToeGrid.Game.IndicesForCol | tic-tac-toe/tic-tac-toe.js:107-111 | Column c: the size cell numbers r*size + c. |
| TicTacToeGrid.Game.IndicesForDiag | tic-tac-toe/tic-tac-toe.js:113-117 | The diagonal i*size + i. |
| TicTacToeGrid.Game.IndicesForAntiDiag | tic-tac-toe/tic-tac-toe.js:119-123 | The anti-diagonal i*size + (size - 1 - i). |
| TicTacToeGrid.RowLineShape | tic-tac-toe/tic-tac-toe.js:101-105 | A row has exactly size distinct cell numbers, all in [0, size*size). |
| TicTacToeGrid.ColLineShape | tic-tac-toe/tic-tac-toe.js:107-111 | A column has exactly size distinct cell numbers, all in [0, size*size). |
| TicTacToeGrid.DiagLineShape | tic-tac-toe/tic-tac-toe.js:113-117 | The diagonal has exactly size distinct cell numbers, all in [0, size*size). |
| TicTacToeGrid.AntiDiagLineShape | tic-tac-toe/tic-tac-toe.js:119-123 | The anti-diagonal has exactly size distinct cell numbers, all in [0, size*size). |
| TicTacToeGrid.OnRow | tic-tac-toe/tic-tac-toe.js:130 | A cell of row r has row number idx / size == r. |
| TicTacToeGrid.OnCol | tic-tac-toe/tic-tac-toe.js:131 | A cell of column c has idx % size == c. |
| TicTacToeGrid.OnDiag | tic-tac-toe/tic-tac-toe.js:139 | A cell of the diagonal has r == c. |
| TicTacToeGrid.OnAntiDiag | tic-tac-toe/tic-tac-toe.js:144 | A cell of the anti-diagonal has r + c == size - 1. |
| TicTacToeGrid.Game.GetWinningLine | tic-tac-toe/tic-tac-toe.js:129-150 | Returns the first line through lastIndex (row, column, diagonal, anti-diagonal) whose every cell holds the current player's mark. Returns null exactly when no such line exists. |
| TicTacToeGrid.LinesThroughContain | tic-tac-toe/tic-tac-toe.js:129-150 | Every examined line contains lastIndex and is a row, column or diagonal of the board. |
| TicTacToeGrid.ThroughIsExamined | tic-tac-toe/tic-tac-toe.js:129-150 | Every line of the board through lastIndex is among the examined ones. |
| TicTacToeGrid.ThroughWins | tic-tac-toe/tic-tac-toe.js:129-150 | A found line is a win of the board. |
| TicTacToeGrid.NoNewWin | tic-tac-toe/tic-tac-toe.js:182-190 | Checking only the lines through the last move is enough: if none wins, the board has no win for the mover. |
| TicTacToeGrid.NotNewOnLine | tic-tac-toe/tic-tac-toe.js:182-190 | A board line either misses the move and is as before, or is an examined line. |
| TicTacToeGrid.LineAllOff | tic-tac-toe/tic-tac-toe.js:175 | Writing a cell off a line does not change whether the line is complete. |
| TicTacToeGrid.LineAllOther | tic-tac-toe/tic-tac-toe.js:175 | Writing a mark cannot complete a line of any other mark. |
| TicTacToeGrid.NoWinForOther | tic-tac-toe/tic-tac-toe.js:175 | A move cannot give the other player a win. |
| TicTacToeGrid.Blank | tic-tac-toe/tic-tac-toe.js:161 | n cells, all empty. |
| TicTacToeGrid.BlankBoard | tic-tac-toe/tic-tac-toe.js:160-163 | An empty board has no win, is not full and holds no marks. |
| TicTacToeGrid.MoveCounts | tic-tac-toe/tic-tac-toe.js:175 | Filling an empty cell adds one of the mover's marks and leaves the other count alone. |
| TicTacToeGrid.Game.constructor | tic-tac-toe/tic-tac-toe.js:9-12 | The size from the selector, an empty board of size*size cells, X to move, game not over. |
| TicTacToeGrid.Game.ResetGame | tic-tac-toe/tic-tac-toe.js:160-166 | size*size empty cells, X to move, gameOver false. The invariant holds: #X - #O is 0 or 1 as the mover says, no win while the game runs. |
| TicTacToeGrid.Game.ChangeSize | tic-tac-toe/tic-tac-toe.js:202-205 | The new size from the selector, then a reset. |
| TicTacToeGrid.Game.OnBoardClick | tic-tac-toe/tic-tac-toe.js:168-200 | No change once the game is over or on a taken cell. Otherwise exactly that cell takes the mover's mark. A win line through it is returned exactly when the mover has won, and it ends the game. A full board ends the game as a draw. Only otherwise does the turn pass. |
| TicTacToeClassic.CombosAreGridLines | tic-tac-toe.js:33-37 | The eight combinations are exactly the three rows, three columns and two diagonals of the 3-by-3 grid. |
| TicTacToeClassic.CheckWinIsWon | tic-tac-toe.js:32-43 | checkWin holds exactly when some row, column or diagonal holds only the current player's mark. |
| TicTacToeClassic.ComboLine | tic-tac-toe.js:38-42 | A combination is complete exactly when its three cells hold the mark. |
| TicTacToeClassic.WonChecked | tic-tac-toe.js:32-43 | A complete line is found by checkWin. |
| TicTacToeClassic.CheckedWon | tic-tac-toe.js:32-43 | What checkWin finds is a complete line. |
| TicTacToeClassic.EmptyStart | tic-tac-toe.js:7-14 | The empty board has no win, is not full and holds no marks. |
| TicTacToeClassic.Classic.constructor | tic-tac-toe.js:2-14 | Nine empty cells, X to move. |
| TicTacToeClassic.Classic.ResetGame | tic-tac-toe.js:45-48 | All nine cells empty, X to move. |
| TicTacToeClassic.Classic.HandleClick | tic-tac-toe.js:16-30 | A taken cell changes nothing. Otherwise the mark goes in. A win or a full board resets all nine cells and gives X the move. Any other move fills exactly that cell and passes the turn X to O or O to X. |
| RealMath.Clamp | trapezium/script.js:60-62 | max(min, min(max, v)): inside [min, max] v itself, below it min, above it max. |
| RealMath.Round | triangle/script.js:30 | Math.round: the integer n with x - 0.5 < n <= x + 0.5. |
| RealMath.RoundInt | triangle/script.js:30 | Rounding an integer gives it back. |
| Trapezium.AreaProperties | trapezium/script.js:78-80 | The area is symmetric in the two bases, 0 for height 0, and a*h/2 + b*h/2. |
| Trapezium.AreaHalves | trapezium/script.js:78-80 | With whole-centimetre sides, twice the area is the integer (a + b) * h. |
| Trapezium.AreaDeterminesHeight | trapezium/script.js:347-363 | For fixed bases the area determines the height. |
| Trapezium.AreaDeterminesTopBase | trapezium/script.js:365-381 | For fixed bottom base and height the area determines the top base. |
| Trapezium.ClassifyEqualBases | trapezium/script.js:89-107 | Equal bases: Square, Rectangle, Rhombus (dx^2 + h^2 ~ a^2) and Parallelogram, each exactly under its tests in that order. |
| Trapezium.ClassifyUnequalBases | trapezium/script.js:86-111 | Unequal bases: Right trapezium (dx ~ +-(b - a)/2) is checked before Isosceles (dx ~ 0); anything else is a Trapezium. |
| Trapezium.RightBeforeIsosceles | trapezium/script.js:94-110 | Both tests can pass at once, and then the right-angle name wins. |
| Trapezium.PresetKinds | trapezium/script.js:295-330 | Every preset is classified as the shape it is named after, and the default shape is isosceles. |
| Trapezium.SliderState | trapezium/script.js:271-286 | a and h as set; b the slider value when it exceeds a, else a + 1; dx clamped to +-(floor((b - a)/2) + 6). |
| Trapezium.SliderGapWhole | trapezium/script.js:277-280 | With whole slider positions, b >= a + 1. |
| Trapezium.Choice | trapezium/script.js:68-70 | choice(arr) returns an element of arr. |
| Trapezium.Below | trapezium/script.js:368 | The filter keeps exactly the even sizes below b. |
| Trapezium.GenQuestion | trapezium/script.js:332-393 | A generated question shows a shape with b >= a + 1, h in 2..10 and |dx| <= 2. Its stored answer is the area, the height or the top base, as its kind says. |
| Trapezium.QuestionAnswerUnique | trapezium/script.js:332-393 | Every question has exactly one correct answer, the stored one. Its shape is one the sliders can produce. |
| Trapezium.Explorer.constructor | trapezium/script.js:37-58 | Play mode, the default shape, the quiz counters at 0. |
| Trapezium.Explorer.OnSliderInput | trapezium/script.js:462-466 | Ignored in quiz mode; otherwise the shape is the slider state. |
| Trapezium.Explorer.OnPreset | trapezium/script.js:487-492 | Ignored in quiz mode; otherwise the shape is the preset. |
| Trapezium.Explorer.NextQuizQuestion | trapezium/script.js:411-425 | Once qNo >= total nothing changes. Otherwise qNo rises by one, never above total, and a new unchecked question replaces the shape and the answer. |
| Trapezium.Explorer.StartQuiz | trapezium/script.js:427-432 | Ignored in quiz mode. Otherwise quiz mode, correct 0, question 1 asked. |
| Trapezium.Explorer.ExitQuiz | trapezium/script.js:434-442 | Play mode, counters cleared, default shape. |
| Trapezium.Explorer.CheckQuizAnswer | trapezium/script.js:444-460 | No change once checked or on a non-number. Otherwise checked, and correct rises by one exactly when the answer matches. correct <= qNo always. |
| Triangle.Snap | triangle/script.js:29-31 | A multiple of GRID, at most half a cell from v. |
| Triangle.DragTarget | triangle/script.js:146-153 | The dragged vertex lands on the grid, at most half a cell outside the padded canvas. |
| Triangle.Dist2Properties | triangle/script.js:43-47 | dist2 is non-negative and symmetric, and 0 exactly for coinciding points. |
| Triangle.TriArea2Properties | triangle/script.js:49-52 | Swapping two vertices negates triArea2, rotating them keeps it, and a repeated vertex gives 0. |
| Triangle.DegenerateSymmetric | triangle/script.js:178-179 | The degeneracy test does not depend on the vertex numbering. |
| Triangle.GridDegenerate | triangle/script.js:178-179 | On the grid, degenerate exactly when two vertices coincide or all three are collinear. |
| Triangle.GridArea | triangle/script.js:49-52 | On the grid, triArea2 is a multiple of 100. |
| Triangle.ApproxEqualProperties | triangle/script.js:69-72 | approxEqual is reflexive and symmetric. |
| Triangle.ClassifyBySidesCases | triangle/script.js:74-82 | Equilateral exactly when a2 ~ b2 and b2 ~ c2. Scalene exactly when no pair is close. Isosceles otherwise. |
| Triangle.EquilateralNotTransitive | triangle/script.js:69-82 | Squared sides 100, 101, 102 read as equilateral though 100 and 102 are not close. |
| Triangle.ClassifyByAnglesCases | triangle/script.js:84-89 | Degenerate when an angle is NaN, then Right when one is exactly 90, then Obtuse when one is above 90, else Acute (all below 90). |
| Triangle.RoundAll | triangle/script.js:181 | Each finite angle is rounded and each NaN stays NaN. |
| Triangle.Sort3 | triangle/script.js:188 | The sort of [0, 1, 2] by a key: a permutation in increasing key order, stable on ties. |
| Triangle.Nudge | triangle/script.js:189-192 | n unit steps handed out through the order in turn: slot j gets its share of them. |
| Triangle.Spread | triangle/script.js:186-193 | Missing degrees go +1 in turn by decreasing residual; excess degrees go -1 in turn by increasing residual. |
| Triangle.ShownAngles | triangle/script.js:181-194 | The shown angles are the rounded ones. When the triangle is not degenerate and every angle is finite, they are adjusted: they sum to exactly 180, each moved by at most ceil(abs(diff)/3), and a larger residual never moves less. |
| Triangle.SpreadAdjusts | triangle/script.js:183-193 | What Spread does is such an adjustment. |
| Triangle.SpreadUp | triangle/script.js:187-189 | Handing out missing degrees by decreasing residual is an adjustment. |
| Triangle.SpreadDown | triangle/script.js:190-192 | Handing out excess degrees by increasing residual is an adjustment. |
| Triangle.Shares | triangle/script.js:189-192 | n unit steps add up to n, give no angle more than ceil(n/3), and follow the residual order. |
| Triangle.VisitsFacts | triangle/script.js:189-192 | The k % 3 loop visits the slots n times in all, earlier slots at least as often. |
| Triangle.SideReadout | triangle/script.js:218 | "Degenerate" exactly for a degenerate triangle, else the classification by squared sides. |
| Triangle.Explorer.constructor | triangle/script.js:94-107 | The starting vertices, nothing selected. |
| Triangle.Explorer.PickVertex | triangle/script.js:119-124 | The first vertex within PICK_R of the pointer, or none exactly when none is that close. |
| Triangle.Explorer.PointerDown | triangle/script.js:126-133 | A press within PICK_R of a vertex selects the first such vertex. A press near none changes nothing. The vertices never move. |
| Triangle.Explorer.PointerUp | triangle/script.js:135-144 | Nothing is selected afterwards. |
| Triangle.Explorer.PointerMove | triangle/script.js:146-155 | With a selection only that vertex moves, to the clamped, snapped pointer position; otherwise nothing moves. |
| RngGame.InitialTable | rng-game/main.js:39 | Every aura name maps to 0, and the table has no other keys. |
| RngGame.NamesDistinct | rng-game/main.js:2-27 | No two auras share a name, so each roll touches one table entry. |
| RngGame.ProbPositive | rng-game/main.js:2-27 | Every prob is positive. |
| RngGame.Record | rng-game/main.js:59 | The increment keeps the table's keys. |
| RngGame.TalliesAfterRoll | rng-game/main.js:59 | A roll adds one to its own aura's entry and leaves the others. |
| RngGame.BestAfterRoll | rng-game/main.js:62-64 | best stays the rarest aura rolled, the earlier one on ties, so its prob never decreases. |
| RngGame.BookingRoll | rng-game/main.js:56-64 | The bookkeeping of a roll agrees with the history extended by that roll. |
| RngGame.Game.constructor | rng-game/main.js:31-40 | The initial gameState: zero coins, tries and items, no best, the all-zero table. |
| RngGame.Game.Roll | rng-game/main.js:56-64 | coins rise by the aura's prob, tries by one, its table entry by one. best is replaced only by a strictly rarer aura. |
| RngGame.TriesIsTableTotal | rng-game/main.js:58-59 | tries equals the sum of the table's counts. |
| RngGame.CountsAddUp | rng-game/main.js:58-59 | The per-aura counts of a history add up to its length. |
| RngGame.CountsAppend | rng-game/main.js:58-59 | Appending a roll of aura x adds one to the count of auras below k exactly when x is below k. |
| RngGame.Game.BuyItem | rng-game/main.js:156-169 | With coins >= cost: coins fall by exactly the cost and only that item's count rises by one. Otherwise only the message changes. Coins never go negative. |
| RngGame.Cost | rng-game/main.js:157 | The prices 500, 1000 and 3500. |
| Loyalty.EscapeHtml | _DioAccount/app.js:141-143 | The result has none of < > " ', is no shorter, and is the input itself when the input has none of the five special characters. |
| Loyalty.EscapeHtmlAppend | _DioAccount/app.js:141-143 | Escaping works character by character. |
| Loyalty.UnescapeEscape | _DioAccount/app.js:141-143 | Decoding the five entities gives the input back, so each special character maps to its own entity and every other character is kept. |
| Loyalty.UnescapeChar | _DioAccount/app.js:142 | Decoding one character's replacement gives that character. |
| Loyalty.StripTitle | _DioAccount/app.js:247 | Text before the leftmost match of the suffix pattern, or the text unchanged when nothing matches. |
| Loyalty.CutPoint | _DioAccount/app.js:247 | Finds the leftmost match of the suffix pattern, or reports that there is none. |
| Loyalty.StripTitleCuts | _DioAccount/app.js:247 | When the pattern matches anywhere, the title is cut at the leftmost match. |
| Loyalty.LeftmostUnique | _DioAccount/app.js:247 | The leftmost match is unique. |
| Loyalty.CloseIsLast | _DioAccount/app.js:247 | In any match, the closing parenthesis is the last character that is not white space. |
| Loyalty.OpenAfterBreak | _DioAccount/app.js:247 | In any match, the opening parenthesis comes after the last line break before the closing one. |
| Loyalty.StripExample | _DioAccount/app.js:247 | "Dishes (+5 pts)" becomes "Dishes". |
| Loyalty.MovementTitle | _DioAccount/app.js:246-247 | No option or an empty text gives the fallback; otherwise the stripped text. |
| Loyalty.Amount | _DioAccount/app.js:248 | Never negative: an empty field is 0, and a negative entry becomes 0. |
| Loyalty.EarnDelta | _DioAccount/app.js:248 | The earn delta is >= 0. |
| Loyalty.RedeemDelta | _DioAccount/app.js:267 | The redeem delta is <= 0. |
| Loyalty.NextBalance | _DioAccount/app.js:149-151 | Fails with "Not enough points." exactly when current + delta < 0; otherwise current + delta, which is >= 0. |
| Loyalty.EarnAlwaysSucceeds | _DioAccount/app.js:248-252 | An earn on a non-negative balance succeeds and does not lower it. |
| Loyalty.RedeemNeedsCover | _DioAccount/app.js:267-271 | A redemption succeeds exactly when the balance covers its cost. |
| Loyalty.Account.constructor | _DioAccount/app.js:147-149 | An account with its stored balance, possibly missing, and no movements. |
| Loyalty.Account.AddMovement | _DioAccount/app.js:145-162 | A missing balance counts as 0. A move below 0 fails and writes nothing. Otherwise the balance becomes current + delta >= 0 and exactly one record with that delta is appended. |
| Text.Trim | equation-solver/app.js:11 | trim: a slice of the input without white space at either end, with only white space cut. |
| Text.IndexOf | equation-solver/app.js:6 | The first occurrence of the character, or none exactly when it is absent. |
| EquationSolver.SplitSides | equation-solver/app.js:6-11 | No sides exactly when the text has no =. |
| EquationSolver.SplitSidesOf | equation-solver/app.js:11 | The sides are the first two parts at =, trimmed. |
| EquationSolver.SecondEqualsIgnored | equation-solver/app.js:11 | A second = and anything after it change neither side. |
| EquationSolver.FirstKeyword | equation-solver/app.js:15-30 | The first keyword of subtract, add, multiply by, divide by the instruction starts with, in that order; none exactly when it starts with none. |
| EquationSolver.KeywordsExclusive | equation-solver/app.js:15-26 | No instruction starts with two keywords, so the test order decides nothing. |
| EquationSolver.ParseInstruction | equation-solver/app.js:15-30 | The transform of the keyword's operation with the rest, trimmed, as operand; none for any other instruction. |
| EquationSolver.ParsePhrase | equation-solver/app.js:15-26 | Reading "keyword operand" back gives the transform. |
| EquationSolver.Render | equation-solver/app.js:17-26 | The transform text is the operator followed by the operand in parentheses. |
| EquationSolver.ApplyInstruction | equation-solver/app.js:1-39 | "Please enter a valid equation" exactly without =. "Unsupported instruction." exactly for an unknown instruction. Otherwise the same transform is appended to both trimmed sides; the steps appear when both simplifications succeed, else the error message. |

## Left out

- Everything the pages draw or play: the DOM, canvas drawing, CSS sizing, status and feedback texts, sounds, the cutscene player, and the table and shop panels.
- Event wiring, as plain dispatch: Pac-Sweeper's keydown handler maps keys to `TryMove` with (-1,0), (1,0), (0,-1) or (0,1). Its shift-click and context-menu handlers call `ToggleFlag`.
- `setPac`'s display part. Its state part, `pac = {r, c}`, is an assignment inside the methods that move Pac.
- `Math.random()`. It is the `Rng` draw stream (Pac-Sweeper) or a draw parameter (the trainers, the trapezium quiz). An exhausted stream gives 0, and every outcome the game can produce is reachable.
- PacSweeper.Game.Reveal: the returned count after a flood is tied to the rise in revealedSafe. On a mine it is 1 whenever the cell opens. Pac-Sweeper's callers only compare it with 1 to pick a sound.
- PacSweeper.Game.RevealRandomSafeTiles: the per-cell floods are not stated cell by cell. The contract gives the count it returns and a lower bound on how many candidates end open.
- PacSweeper.Game.Apply: a teleport's effect is stated on TeleportPac, not repeated here.
- PacSweeper.Game.TryMove: after the shield branch there is no win test, as in the source; the contract states nothing about the win there. A win can be missed until the next step.
- PacSweeper.Game.Place: as in the source, the first placement runs no win test of its own. Its cell has no item, so activateItemAt does nothing there.
- The redundant `flagged[nr][nc] = false` of the shield branch. The target cannot be flagged there, and RemoveMine states that the flags are unchanged.
- TeleportPac's landing cell is kept as a ghost out-parameter, so its contract speaks of it only through `ok` and the state.
- Division.CalculateSolution: requires a divisor of at least 1. The divisor is read from the page's divisor field, whose allowed values are not part of this model. A zero, negative or non-numeric divisor, which would give Infinity or NaN digits, is not modelled.
- Division and subtraction read `numDigits` from the page. Here the row length is the length of the typed row.
- Trapezium.Explorer.NextQuizQuestion: requires quiz mode, because its button is on the quiz panel, which is hidden in play mode.
- Trapezium.Explorer.CheckQuizAnswer: requires quiz mode for the same reason. Its button is on the same quiz panel, which `setMode` hides in play mode (trapezium/script.js:251-256).
- Trapezium and RealMath: side lengths, areas, slider values, GenQuestion answers and `Round` are exact reals, not IEEE doubles. The generated questions have whole-number sides and heights, so their areas are multiples of one half, which doubles also hold exactly. For other values the source relies on the 1e-9 tolerances of ApproxEqual and AnswerMatches to absorb rounding; the model does not state that they do.
- The trapezium explorer's reset button, which is ignored in quiz mode and otherwise applies the default preset, is `OnPreset` with the default preset.
- Trapezium's `fmt` (display rounding to halves) and the pixel geometry of the drawing.
- Triangle: `angleDeg`, `dist`, `safeAcos` and the perimeter, base, height and area readouts. These are floating-point `acos`/`hypot`, so the angles are inputs (`None` for NaN).
- Triangle: `Point` has integer coordinates, so only vertices on the grid can be represented. The starting vertices of `resetTriangle` (triangle/script.js:94-107), which the `default` preset also uses (lines 334-336), are computed from the canvas size with `Math.sqrt(3)` and are not snapped, so they are generally not grid points. The constructor takes grid vertices instead.
- Triangle: `setPreset` (triangle/script.js:271-342) is not modelled. Its named presets are clamped and snapped onto the grid (line 339), so their vertices could be `Point`s; the equilateral preset uses `Math.sqrt(3)` only before that snap.
- Triangle.Explorer.PickVertex: compares squared distances with PICK_R squared, which is the same test as `hypot <= PICK_R` for real numbers; floating-point rounding is not modelled.
- RngGame: the weighted draw of `roll` (a float running sum of `1000 / prob`) is an input, the index of the aura found. A draw that falls through the loop by rounding, and changes nothing, is not modelled.
- Loyalty: every remote database call, the transaction retry, timestamps, history paging, and the task and award forms. The balance is a field of `Account`; a failed transaction is a `Failure` that writes nothing.
- Loyalty.StripTitle: models the regular expression for the one pattern it is used with. White space is the set of characters JavaScript's `\s` matches, and `.` excludes line terminators.
- Loyalty.Amount: the amount fields are number inputs, so their value is empty or a number. A value that reads as NaN is not modelled.
- Loyalty.NextBalance / Loyalty.Account.AddMovement: balances and amounts are exact reals, not IEEE doubles, so the rounding of fractional amounts is not modelled. With doubles, from a balance of 0, earning 0.3 and then redeeming 0.1 and 0.2 leaves about -2.8e-17, so the last redeem fails with "Not enough points."; here it succeeds and leaves 0. Whole-number amounts whose running sums stay below 2^53 behave the same in both.
- Text: a character is one Unicode scalar value, whereas a JavaScript string is a sequence of UTF-16 code units. A character outside the Basic Multilingual Plane is one character here but two units in JavaScript, so string lengths and `indexOf` positions after such a character differ. Unpaired surrogates cannot be represented.
- EquationSolver: `math.simplify` is a parameter that returns the simplified text or fails.
- pong/script.js and trivia-game/script.js: real-time floating-point physics, and a network quiz with one score increment. script.js is a page animation. These three files are not part of this model.
