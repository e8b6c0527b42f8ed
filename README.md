# Quarto for one player against the computer — a verified model

`app.js` runs a game of Quarto in the browser. The board has sixteen cells. There are sixteen
pieces, each carrying four binary attributes: color, height, shape and hollowness. Turns go round
in four phases:

0. you hand the computer a piece;
1. the computer places it;
2. the computer hands you a piece;
3. you place it.

A placement that completes a row, a column or a diagonal of four pieces sharing an attribute wins.
When the sixteenth piece goes down without a win, the game is a draw.

This project models, in Dafny:

- the piece catalog (module `Pieces`, `pieces.dfy`): ids and attribute bits;
- the board and the win evaluator (module `Win`, `win.dfy`):
  - the ten win lines;
  - `simulateWin` and `wouldWin`;
  - the ordered scan `checkWin` uses to report which line and which attribute won;
- the computer's deterministic play (module `Ai`, `ai.dfy`):
  - `getEmptyCells`, `cellBonus`;
  - the full-enumeration danger estimate `estimateDangerAfterPlace`;
  - the counts and scores the selections rank by;
  - `aiPlaceHardcore`, `aiSelectHardcore` and `aiSelectNormal`.
  Each is a method over a snapshot of the board and of the `used` flags. It is proved against a
  ghost predicate that says which choice the source makes.
- the game session (module `Session`, `session.dfy`): class `Game`.
  - Its fields are the module-level state of `app.js`: `board` and `used` as arrays, `phase`,
    `selected`, `gameOver`, `lastMoveIndex`, `winCells`, the score and the AI preset flag.
  - Its methods are `onPiece`, `onBoard`, `placeAt`, `checkWin`, `aiPlaceHardcore`,
    `aiSelect*`, `resetGame` and `setDifficulty`.
  - Every public step keeps the invariant `Valid()`; the internal steps `CheckWin` and `Place`
    keep its part `Sound()`. `used[id]` holds exactly when piece `id` lies on
    the board, and no piece lies on two cells. A running game has no win and an unused piece. A
    finished game has one or the other.
- the clock display `formatMMSS` (module `Clock`, `clock.dfy`), with a parse-back round trip;
- a few concrete positions (module `Scenarios`, `scenarios.dfy`).

The source's `setTimeout` continuations are modelled as steps the caller takes next: `OnPiece` is
followed, under the hardcore preset, by `AiPlaceHardcore`, and `PlaceAt` by `AiSelect`.

The source sorts in place and takes the first element. The comparators of `aiPlaceHardcore`
and `aiSelectHardcore` end on the cell index or the piece id, so they are strict total orders.
The first element after sorting is then the unique minimum, and the model finds it with a
minimum scan. `aiSelectNormal` sorts only by descending score. The sort is stable, so its first
element is the first piece of highest score in id order, and the model scans for exactly that.

With pieces 1, 3, 9 and 11 on the top row, the line shares both height (all 0) and hollowness
(all 1). `checkWin` reports height, because height comes before hollowness in `ATTRS`.
`Scenarios.TopRowReportsHeight` states it.

## Model

| member | source | states |
|---|---|---|
| Pieces.AttrOf | app.js:67-73 | every attribute of every piece is 0 or 1 |
| Pieces.CatalogEntry | app.js:67-73 | the catalog holds sixteen pieces, entry `i` has id `i`, and `pieces[i][a]` is bit `a` of `i` |
| Pieces.AttrsToId | app.js:67-73 | a piece's four attribute values determine its id |
| Pieces.IdToAttrs | app.js:67-73 | every combination of four binary values is the attribute set of some piece; the catalog is all sixteen combinations |
| Pieces.DistinctPiecesDiffer | app.js:67-73 | two different pieces differ on at least one attribute |
| Win.FirstSharedAttrSound | app.js:627-628 | the attribute loop over a full line stops at the first attribute, in `ATTRS` order, that all four pieces share, and finds none exactly when they share none |
| Win.ScanLinesSound | app.js:620-628 | the line loop skips lines with an empty cell and stops at the first winning line in `WIN_LINES` order |
| Win.FindWinSound | app.js:620-655 | what `checkWin` reports is a winning line and a shared attribute, both the first in scan order; nothing is reported exactly when no line wins |
| Win.ScanForWin | app.js:620-628 | the nested `checkWin` loops compute exactly the reported win |
| Win.SimulateWinIff | app.js:598-610 | `simulateWin` holds exactly when some line is full and its four pieces share an attribute; a line with an empty cell never wins |
| Win.FindWinIffSimulateWin | app.js:598-610 | `checkWin` reports a win exactly when `simulateWin` finds one |
| Win.LineUnaffected | app.js:612-616 | a placement leaves every line not through the placed cell as it was |
| Win.NewWinThroughPlacedCell | app.js:612-616 | a placement that turns a board without a win into a winning one wins on a line through the placed cell |
| Win.WinSurvivesPlacement | app.js:612-616 | `wouldWin` holds for every empty cell once a line already wins |
| Ai.EmptyCellsBelow | app.js:55-61 | the list holds exactly the empty cells, in ascending order |
| Ai.GetEmptyCells | app.js:55-61 | the loop collects exactly the empty cells in ascending order |
| Ai.CellBonus | app.js:420-426 | 2 exactly for the inner 2x2 block, 1 exactly for the four corners, otherwise 0 |
| Ai.CountWinsZeroIff | app.js:526-532 | the count is zero exactly when no listed cell wins |
| Ai.ImmediateWinCount | app.js:526-532 | the counting loop gives the number of empty cells where placing the piece wins |
| Ai.WinCountZeroIff | app.js:526-532 | a piece has no winning cell exactly when it is safe, so the hardcore ranking's first key is 0 for the pieces `aiSelectNormal` calls safe |
| Ai.SimilarityFromExtremes | app.js:534-543 | the similarity score is 0 exactly when no attribute value of the piece appears on the board, and 4 exactly when all do |
| Ai.SimilarityScore | app.js:534-543 | the loop over `ATTRS` computes the similarity score |
| Ai.SimilarityFromGrows | app.js:534-543 | placing a piece never lowers another piece's similarity score |
| Ai.SimilarityOnEmptyBoard | app.js:534-543 | on the empty board every piece scores 0 |
| Ai.DangerBelowZeroIff | app.js:399-418 | the danger is zero exactly when no remaining opponent piece can win at once after the placement |
| Ai.DangerBelowBound | app.js:399-418 | the danger never exceeds the number of pieces left to the opponent |
| Ai.EstimateDanger | app.js:399-418 | with every remaining piece enumerated, the loop counts the pieces other than `selected` that can win at once after the trial placement |
| Ai.FirstWinningCell | app.js:432-438 | the win scan returns the lowest empty cell where `selected` wins, and returns nothing exactly when no such cell exists |
| Ai.KeyMoves | app.js:441-445 | one (danger, bonus, index) key per empty cell, in ascending cell order |
| Ai.FirstMove | app.js:447-453 | the chosen key sorts before every other under danger ascending, bonus descending, index ascending |
| Ai.SafestCell | app.js:441-454 | the chosen empty cell sorts first among all empty cells |
| Ai.ChooseHardcorePlacement | app.js:429-455 | the lowest winning empty cell when `selected` can win; otherwise the empty cell minimal by (danger, −bonus, index) |
| Ai.HardcorePlacementAvoidsDanger | app.js:441-454 | with no win available, the chosen cell's danger is at most that of every other empty cell |
| Ai.HardcorePlacementUnique | app.js:429-455 | the hardcore placement is determined by the board, the usage flags and the selected piece |
| Ai.Candidates | app.js:564-567 | the filtered list holds exactly the unused pieces (the safe ones, when filtering for safety), in id order |
| Ai.KeySelections | app.js:545-556 | one (win count, similarity, id) key per candidate, in candidate order |
| Ai.FirstSelection | app.js:545-558 | the chosen key sorts before every other under win count, similarity, id, all ascending |
| Ai.ChooseHardcoreSelection | app.js:522-561 | the unused piece minimal by (immediate-win count, similarity, id) |
| Ai.HardcoreSelectionUnique | app.js:545-557 | the hardcore selection is determined by the board and the usage flags |
| Ai.HardcoreSelectionIsSafe | app.js:545-558 | the hardcore player hands over a safe piece whenever one exists |
| Ai.NormalPool | app.js:564-580 | the pool is the safe unused pieces in id order, or all unused pieces when none is safe |
| Ai.ScorePool | app.js:569-581 | the score of each pool piece, in pool order |
| Ai.FirstHighest | app.js:581-583 | the first position of the highest score, as the stable descending sort puts it first |
| Ai.ChooseNormalSelection | app.js:563-587 | a piece of the pool with the highest similarity, the lowest id among ties |
| Ai.NormalSelectionUnique | app.js:580-583 | the normal selection is determined by the board and the usage flags |
| Ai.NormalSelectionIsSafe | app.js:567-580 | the normal player hands over a safe piece whenever one exists |
| Session.PlacementKeepsConsistent | app.js:378-385 | putting an unused piece on an empty cell and marking it used keeps "used exactly when on the board, on one cell only", and uses one more piece |
| Session.UnusedPieceLeavesEmptyCell | app.js:429-431 | while a piece is unused the board has an empty cell, so `aiPlaceHardcore` always has a cell to choose |
| Session.EmptyConsistent | app.js:697-698 | the empty board with no piece used satisfies the invariant |
| Session.NoWinOnEmptyBoard | app.js:598-610 | no line wins on the empty board |
| Session.PresetKey | app.js:125-127 | the name is kept exactly when `AI_PRESET[name]` is truthy: the two presets and the names every object inherits from `Object.prototype` (`"toString"`, `"__proto__"`, …); any other name falls back to `"normal"`; only `"hardcore"` selects the deterministic preset |
| Session.Game.constructor | app.js:141-148 | an empty board, nothing used or selected, phase 0, the stored score and mode; the invariant holds |
| Session.Game.SetDifficulty | app.js:125-130 | only the preset flag changes |
| Session.Game.CheckWin | app.js:618-676 | the first winning line is reported, `winCells` set to it and the mover's counter raised; otherwise a draw is declared only when every piece is used and the draw counter is raised; otherwise nothing changes; the board is untouched |
| Session.Game.OnPiece | app.js:367-376 | outside phase 0, after the game, or for a used piece, nothing changes; otherwise the piece is selected and phase 1 begins |
| Session.Game.Place | app.js:503-507 | the selected piece goes on the cell, is marked used and is unselected, and the cell becomes the last move |
| Session.Game.OnBoard | app.js:378-393 | outside phase 3, after the game, or on a filled cell, nothing changes; otherwise the piece is placed and checked: a win puts its line in `winCells` and raises `youWin`, a full board without a win raises `draw`, and a running game passes to phase 0 with the score unchanged |
| Session.Game.PlaceAt | app.js:503-516 | the piece is placed and checked: a win puts its line in `winCells` and raises `aiWin`, a full board without a win raises `draw`, and a running game passes to phase 2 with the score unchanged |
| Session.Game.AiPlaceHardcore | app.js:429-455 | the computer places on the hardcore cell of the board before the move; a win puts its line in `winCells` and raises `aiWin`, a full board without a win raises `draw` |
| Session.Game.AiSelectHardcore | app.js:522-561 | the computer selects the hardcore piece and phase 3 begins |
| Session.Game.AiSelectNormal | app.js:563-587 | the computer selects the normal-mode piece and phase 3 begins |
| Session.Game.AiSelect | app.js:589-592 | the hardcore rule under the hardcore preset, the normal rule otherwise |
| Session.Game.ResetGame | app.js:694-711 | fresh empty board and usage, phase 0, nothing selected, no win cells; the score and preset are kept; the invariant holds |
| Clock.DigitsOf | app.js:213-218 | `String(n)` is a non-empty digit string without a leading zero |
| Clock.DigitsRoundTrip | app.js:213-218 | reading the decimal digits of `n` back gives `n` |
| Clock.PadStartZeros | app.js:215-216 | `padStart(2, "0")` keeps the value, reaches length 2 and keeps the original digits at the end |
| Clock.FormatMMSSShape | app.js:213-218 | the display is minutes, a colon and exactly two digits of seconds below 60, together showing the whole seconds elapsed |
| Clock.FormatMMSSRoundTrip | app.js:213-218 | parsing the display back gives the whole seconds elapsed |
| Clock.FormatMMSSExamples | app.js:213-218 | 65 s show as `01:05`; an hour shows as `60:00` (minutes are not wrapped) |
| Scenarios.TopRowReportsHeight | app.js:620-631 | a top row of 1, 3, 9, 11 shares height and hollowness and is reported as a height win |
| Scenarios.DrawnBoardHasNoWin | app.js:598-610 | some full board has no winning line, so a game can end in a draw |
| Scenarios.HardcoreTakesTheWin | app.js:432-438 | with 0, 1, 2 on the top row, the hardcore player puts piece 4 on cell 3 |

## Left out

- Rendering, SVG pieces, status text, turn hints, the modal and its texts are not modelled.
- Win-line labels and attribute display names are not modelled. A win is reported as a line
  index into `WinLines` and an `Attr`.
- localStorage is not modelled. The stored score and AI mode are constructor parameters, and
  `saveScore` and `resetScore` are left out. The stored score is taken to be three natural
  numbers. Malformed stored JSON, which `loadScore` replaces by zeros, is not modelled.
- Event binding and page initialisation beyond the constructor are not modelled.
- The timer (`startTimer`, `stopTimer`, `renderTimer`, `Date.now`) is not modelled.
  `formatMMSS` takes the elapsed milliseconds as a natural number. A negative difference of
  clock readings is not covered.
- `setTimeout` pacing is not modelled. A continuation is the caller's next call. A continuation
  still pending when `resetGame` runs is not modelled.
- Session.Game.PlaceAt: requires phase 1, a selected piece and an empty cell. The source has no
  guard; its only caller, the `aiPlace` continuation, runs in that state unless a reset came in
  between, which is the case left out above.
- `aiPlaceNormal`, the `aiPlace` dispatcher over it, and `rollAIMood` are left out: they draw on
  `Math.random`.
- The random sampling branch of `estimateDangerAfterPlace` is left out: it draws on
  `Math.random`. `Ai.EstimateDanger` models the full enumeration. The source takes the full
  enumeration under the hardcore preset, and under the normal preset whenever at most
  `samplePieces` (8) opponent pieces remain.
- `clamp01`, `shuffle` and `pickOne` are left out: they serve only the random paths.
- `setDifficulty` copies a whole preset. Only its `deterministic` flag is modelled, because it
  is the only field the modelled operations read.
- Session.PresetKey: for an inherited name such as `"toString"` the source sets `AI` to an empty
  object, so every preset field is undefined. The model captures only that `deterministic` is
  then false; the effect of the undefined fields falls on the random paths left out above.
- The in-place sorts are modelled by minimum scans that return the element the sort puts first.
  The order of the rest of the sorted array is not modelled, because the source reads only
  element 0.
- `checkWin` handles only the two callers' `who` values, so `Player` has just two cases.
