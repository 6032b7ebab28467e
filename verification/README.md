# Minesweeper engine — a Dafny model

This project models the game engine of a small Minesweeper web service
(`src/main.py`). The model covers three parts:

- **Board generation** (`new_game`). The request is checked in a fixed order: width, then
  height, then mine count. Next come a blank hidden field and a blank scouted overlay.
  Mines are then placed by rejection sampling. Last, every safe cell gets the number of
  mines among its in-grid neighbours.
- **The reveal engine**:
  - `scout_empty_cells`, the recursive flood fill from a `0` cell;
  - the per-value cell count behind `count_uncleared_cells`;
  - `convert_mines_to_x_marks`.
- **The turn state machine** (`turn`). It looks up the game, then refuses a finished game,
  off-field coordinates and an already scouted cell, in that order. A mine loses, a `0`
  floods, and any other value shows one cell. After a safe reveal, the game is won when
  the number of blank overlay cells equals the mine count.

The two grids are `seq<seq<Cell>>`, indexed `g[row][col]`. The row is the source's `y`
and the column its `x`. `Cell` names the strings the source stores: `" "` is `Blank`,
`"M"` is `Mine`, `"0"`..`"8"` is `Count(n)` and `"X"` is `XMark`. `Token` and
`ParseToken` translate between the two.

All operations are pure functions, except where the source works in place with loops.
Those are the counting pass (`Board.CountNeighbourMines`), game creation and the
new-game request, and they are methods. The source raises exceptions; the model returns
a `Result` or `Option` instead.

Modules: `Outcomes` (Option/Result), `Cells`, `Grids`, `Neighbours` (SURROUND_MATRIX
and neighbour-mine counts), `Board` (validation, placement, counting), `Reveal` (flood
fill, single reveal, X marks), `Session` (the game and `turn`), `Store` (the game
registry and the two requests), and `WorkedExample` (a 3 by 3 board).

The random source is a parameter. `draws` is the sequence of `(x, y)` pairs that the
two `random.randint` calls would return, each within the field. `PlaceMines` uses them
in order and skips any draw that lands on a non-blank cell, as the source's inner
`while` does. If the draws run out before all mines are placed, the result is
`DrawsExhausted`. At that point the source would simply keep drawing. The model also
proves that placement finishes whenever the draws reach at least `mines_count`
distinct blank cells.

## Model

| member | source | states |
|---|---|---|
| Cells.TokenRoundTrip | src/main.py:144-170 | every cell value is stored as a one-character string that reads back as that value, so the string grids and the `Cell` grids carry the same information |
| Cells.ParseTokenRoundTrip | src/main.py:144-170 | every string that reads as a cell is exactly that cell's stored form |
| Grids.CountOfFill | src/main.py:78-82 | a fresh `h` by `w` grid of blanks has `w * h` uncleared cells, and none of any other value |
| Grids.CountOfSet | src/main.py:78-82 | replacing one cell changes the count of a value by exactly that cell's contribution |
| Grids.CountOfBound | src/main.py:78-82 | a `w` by `h` grid never counts more than `w * h` cells of one value |
| Grids.CountDominance | src/main.py:78-82 | if every mine of the field is blank on the overlay, the blank count is at least the mine count, and equal exactly when every blank cell hides a mine |
| Neighbours.OffsetsDistinct | src/main.py:13 | the eight SURROUND_MATRIX offsets lead to eight different cells, so the walk counts no neighbour twice |
| Neighbours.OffsetMinesCountsNeighbours | src/main.py:164-169 | walking the offsets and skipping out-of-grid cells counts exactly the in-grid mines adjacent to the cell |
| Neighbours.MineNeighboursBound | src/main.py:159-170 | a cell has at most 8 mines around it |
| Neighbours.ZeroHasNoMineNeighbour | src/main.py:159-170 | in a counted field, no mine is adjacent to a cell holding 0 |
| Board.Validate | src/main.py:132-138 | width outside [2,30] is reported first; then height outside [2,30]; then a mine count outside [1, width·height−1]; the request passes exactly when all three hold |
| Board.ValidateExamples | src/main.py:132-138 | 1×5 with 1 mine is refused for its width, 5×5 with 25 mines for its mine count, 5×5 with 24 mines passes |
| Board.PlaceMines | src/main.py:151-157 | placement only turns blank cells into mines and never overwrites a mine, so it adds exactly `n` mines to the field |
| Board.PlaceMinesFinishes | src/main.py:151-157 | placement of `n` mines finishes whenever the draws hit at least `n` distinct blank cells |
| Board.CountAround | src/main.py:163-169 | the offset loop computes the number of in-grid mines adjacent to the cell |
| Board.CountRow | src/main.py:160-170 | one row of the pass writes each safe cell's true neighbour-mine count, keeps the mines, and touches no other row |
| Board.CountNeighbourMines | src/main.py:159-170 | after the in-place pass, mines sit where they were, and every other cell holds the true number of adjacent mines in the placed field |
| Board.SameMinesSameCounts | src/main.py:164-169 | the neighbour-mine count depends only on where the mines are, so overwriting safe cells earlier in the pass cannot change later counts |
| Reveal.MarkMines | src/main.py:64-75 | keeps the shape, turns each mine into an X, and keeps every other cell |
| Reveal.MarkMinesIdempotent | src/main.py:64-75 | converting twice is the same as converting once |
| Reveal.MarkMinesShowsMines | src/main.py:64-75 | after conversion no mine is left, X marks sit exactly where the mines (or earlier X marks) were, and with no earlier X marks there are as many X marks as mines |
| Reveal.Scout | src/main.py:89-99 | the flood fill terminates; it changes only overlay cells that were blank and hide no mine, sets each to its hidden value, and never increases the blank count |
| Reveal.ScoutSettlesStart | src/main.py:89-99 | after the flood from a cell, every in-grid neighbour of that cell is scouted or a mine |
| Reveal.ScoutSettlesFlood | src/main.py:89-99 | every blank cell the flood turns into a 0 ends with every in-grid neighbour scouted or a mine, as the recursive call on it promises |
| Reveal.ScoutReach | src/main.py:89-99 | every cell the flood changes is reached from the start cell by a chain of adjacent cells whose inner cells are all blanks the flood itself turned into 0s, the only cells the recursion calls itself on |
| Reveal.RevealCell | src/main.py:232-263 | a reveal scouts the target with its hidden value and otherwise only blank safe cells; for a non-0 target nothing else changes; the blank count strictly drops |
| Reveal.RevealReach | src/main.py:232-239 | every cell a reveal changes is the target itself or is reached from the target by a chain of adjacent cells whose inner cells are all 0s the reveal uncovered, so the reveal stays inside the region the recursion visits |
| Reveal.FloodLeavesNoBlankNeighbour | src/main.py:232-239 | revealing a 0 of a counted field leaves no blank cell next to the target or next to any 0 the move uncovered |
| Session.NewGame | src/main.py:132-170 | refused requests report the first failing check; an accepted request gives an open, valid game of the requested size and mine count, with an all-blank overlay of `width * height` uncleared cells; enough distinct draws guarantee success |
| Session.Turn | src/main.py:206-283 | a finished game is refused first, then off-field coordinates, then an already scouted cell; any other move is accepted and keeps the size and mine count |
| Session.TurnOnMine | src/main.py:219-231 | stepping on a mine ends the game; field and overlay both become the converted field, with an X exactly at each mine; every safe cell shows its count, and every cell scouted before is unchanged |
| Session.TurnOnSafeCell | src/main.py:243-281 | after a safe reveal, the game is won exactly when every safe cell is scouted; a won game shows the hidden field; otherwise the overlay is the revealed one, and the hidden field is untouched |
| Session.TurnKeepsValid | src/main.py:206-283 | every accepted move keeps a valid game valid |
| Session.TurnNotRepeatable | src/main.py:206-216 | repeating an accepted move is refused, as already cleared while the game is open and as ended once it is over |
| Session.TurnOnDigit | src/main.py:262-281 | revealing a non-0 safe cell that does not win scouts that one cell and changes no other |
| Session.TurnOnZero | src/main.py:232-253 | after revealing a 0, no 0 uncovered by the move has a blank neighbour |
| Session.TurnScoutsSomething | src/main.py:232-281 | every accepted move that leaves the game open scouts at least one cell, so a game ends within `width * height` moves |
| Store.HandleNew | src/main.py:175-189 | an invalid request is refused with the first failed check; a valid request whose draws hit enough distinct cells is accepted, and a valid request is refused only for running out of draws; a refused creation leaves the registry unchanged; an accepted one files one valid game under the new id and answers with its blank overlay |
| Store.HandleTurn | src/main.py:201-283 | an unknown id is refused with "not found" before anything else; otherwise a refusal carries exactly the error `turn` gives and changes no game, and an accepted move stores `turn`'s resulting game under the id, leaves every other game alone and answers with that game's overlay |
| Store.HandleTurnKeepsValid | src/main.py:201-283 | a registry of valid games stays valid after any move |
| Store.HandleTurnTwice | src/main.py:206-216 | an accepted move sent again is refused |
| WorkedExample.ExampleLoss | src/main.py:219-231 | on the 3×3 example, stepping on the mine shows every digit and an X on the mine |
| WorkedExample.ExampleFloodWins | src/main.py:232-253 | on the 3×3 example, revealing the top-left 0 floods all eight safe cells and wins |
| WorkedExample.ExampleCounted | src/main.py:159-170 | the example field holds the true neighbour counts |
| WorkedExample.ExampleOutOfBounds | src/main.py:282-283 | a move one column past the edge is refused as out of bounds |

## Notes on the code's behaviour

- **Loss display.** On a loss, `turn` replaces both the field and the overlay with the
  whole converted field (src/main.py:219-229). So the response shows every safe cell's
  count and an `"X"` on every mine, not only the cells scouted so far
  (`Session.TurnOnMine`).
- **Win display.** On a win, the overlay becomes the hidden field itself
  (src/main.py:243-251, 264-272). The response therefore shows the mines as `"M"`
  (`Session.TurnOnSafeCell`).
- **Repeated move.** A move that was accepted is refused when it is sent again. While the
  game is open, the refusal is "cell already cleared" (src/main.py:213-216). Once that move
  won or lost the game, the refusal is "game ended" instead (src/main.py:206-208,
  `Session.TurnNotRepeatable`).
- **Finished game.** The code answers a move on a finished game with an error body
  (src/main.py:206-208) and does not raise. The model returns the error `GameEnded`, as it
  does for the other refusals.

## Left out

- `src/models.py`: an unfinished database schema that holds only persistence plumbing.
- `count_mines_around_cells` (src/main.py:85-86): an empty stub.
- FastAPI routing, the exception handler, the request/response schemas, the HTML
  template route and the request logging via `print`: none of them affects game state.
- HTTP status codes: every refusal is one error value.
- Game id generation with `uuid4`: the id is a parameter of `Store.HandleNew`. The
  global dictionary is the `Games` map passed in and returned.
- The distribution of `random.randint` and the expected number of draws: placement is
  modelled for any sequence of in-field draws. `DrawsExhausted` marks a draw sequence
  too short to finish; the source has no such error and would keep drawing.
- Object identity: after a win, the source makes the overlay the same list object as the
  field, and after a loss both names point to one new list. The model copies values
  instead. A finished game is never changed again, so the sharing is not observable.
- Concurrent requests on the same game.
