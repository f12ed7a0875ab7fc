# Jeopardy board: the clue-reveal state machine

This project models the core of a browser Jeopardy game (`jeopardy.js`). The page keeps a
global list `categories` of six categories. Each category has a title and up to five clues,
and each clue is a question, an answer and a `showing` marker. The model covers:

- building the clue records from the trivia service's reply (`getCategory`);
- the ids `fillTable` gives the grid cells (`"<catIdx>-<clueIdx>"`) and the way
  `handleClick` splits such an id to find its clue again;
- the table `fillTable` draws: a header of titles and five rows of six `"?"` cells;
- the reveal state machine of `handleClick`. A hidden clue shows its question, a clue
  showing its question shows its answer, and a clue showing its answer ignores the click.
  It updates that one clue in place;
- `setupAndStart`, which empties the board and appends one category per sampled id, in order.

Modules, one per part of the file:

- `Wrappers`: `Option`.
- `CellIds`: decimal rendering of an index, `String.prototype.split` on one character,
  the cell id and its decoding. JavaScript looks an index up as a property name, so only
  the canonical numeral names an element: `"01"` names nothing. `ParseIndex` models this.
- `Clues`: the data model (`Showing = Hidden | Question | Answer` stands for
  `null`/`"question"`/`"answer"`), `GetCategory`, one click on one clue (`Click`), and
  lemmas about sequences of clicks.
- `Board`: a click on the whole board (`ClickAt`), the drawn table (`IsInitialTable`), and
  which table cells can be clicked.
- `Jeopardy`: class `Game`, whose field `categories` is the global list. Its methods
  `Reveal`/`HandleClick` update it in place and are proved against `ClickAt`.
  `Reset`/`Append`/`SetupAndStart` rebuild it, and `FillTable` draws the table with the
  source's nested loops.

The trivia service's replies and the results of lodash's `_.sampleSize` are parameters of
`SetupAndStart`. What the model assumes of a sample is `IsSample`: min(n, |pool|) elements,
forming a sub-multiset of the pool.

What the code does not do:

- The code has no session token and no guard against stale replies.
- The code does not check the board's shape. A board of fewer than six categories makes
  `fillTable` throw; `SetupAndStart` then returns no table.
- Out-of-range clicks are not a reported error. A click whose id names no clue makes
  `handleClick` throw a `TypeError`, so `Reveal` and `HandleClick` require a valid cell.
- The grid always has five rows, even when a category received fewer than five clues.
  Lemma `TableCellsClickable` proves that every drawn cell names a clue exactly when every
  category has five clues.

## Model

| member | source | states |
|---|---|---|
| `CellIds.Decimal` | jeopardy.js:93 | an index is rendered as a canonical decimal numeral: non-empty, digits only, no leading zero |
| `CellIds.Split` | jeopardy.js:109 | `id.split("-")` gives at least one piece, no piece contains the separator, and joining the pieces with it gives back the id |
| `CellIds.SplitAround` | jeopardy.js:109 | splitting `a + "-" + b`, where neither part contains "-", gives exactly `[a, b]` |
| `CellIds.ParseIndex` | jeopardy.js:110 | using an id piece as an array index: it names an element iff it is a canonical numeral ("01" and "" name nothing), and then it is exactly the rendering of the index it names |
| `CellIds.ParseDecimal` | jeopardy.js:110 | the rendering of index n, used as an array index, names element n |
| `CellIds.CellId` | jeopardy.js:93 | the id `${catIdx}-${clueIdx}` decodes back to exactly (catIdx, clueIdx), so distinct cells get distinct ids |
| `CellIds.DecodeId` | jeopardy.js:108-110 | the split-and-destructure of the id: when it yields (catIdx, clueIdx), the id starts with `${catIdx}-${clueIdx}`, and is exactly that id when it has exactly one "-" (later pieces are ignored) |
| `Clues.FreshClues` | jeopardy.js:60-64 | the clue records are one per sampled clue, in order, each keeping its question and answer with `showing` null |
| `Clues.GetCategory` | jeopardy.js:52-67 | the category keeps the reply's title and every sampled question and answer in order, and starts with every clue hidden; given a proper sample, it has at most five clues, drawn from the reply, and exactly five iff the reply had at least five |
| `Clues.Click` | jeopardy.js:113-121 | only `showing` changes; a clue not fully revealed advances exactly one step (hidden to question, question to answer) and its cell then shows the new state's text (the question, then the answer); a clue showing its answer is unchanged and nothing is written |
| `Clues.AnsweredClueIgnoresClicks` | jeopardy.js:119-121 | once the answer shows, any number of further clicks changes nothing and writes nothing |
| `Clues.ClicksFromHidden` | jeopardy.js:99-121 | from a fresh clue, n clicks write exactly the first min(n, 2) of [question, answer] and leave the clue in state [hidden, question, answer][min(n, 2)]: the answer never comes before the question |
| `Clues.ClicksAreMonotonic` | jeopardy.js:113-118 | more clicks never reveal less, and a clicked clue is never hidden again |
| `Board.ClickAt` | jeopardy.js:110-121 | a click on (catIdx, clueIdx) applies one `Click` to that clue; every other clue, every title and the board's shape stay unchanged |
| `Board.ClickKeepsWellFormed` | jeopardy.js:110-118 | a click keeps a board of at most six categories of at most five clues in that shape |
| `Board.ClicksOnDistinctCellsCommute` | jeopardy.js:110-118 | clicks on two different cells give the same board and the same texts in either order |
| `Board.TableIdsDistinct` | jeopardy.js:90-96 | no two cells of the drawn table share an id |
| `Board.InitialTableShowsBoard` | jeopardy.js:90-96 | on a fresh board each drawn cell decodes to its own clue and shows "?", the text of a hidden clue |
| `Board.TableCellsClickable` | jeopardy.js:90-110 | every cell of the drawn table names an existing clue iff each of the six categories has at least five clues |
| `Jeopardy.Game.constructor` | jeopardy.js:21 | the board starts empty |
| `Jeopardy.Game.Reveal` | jeopardy.js:110-121 | updates the clicked clue in place and returns the text written, exactly as `ClickAt` on the old board; a well-formed board stays well formed |
| `Jeopardy.Game.HandleClick` | jeopardy.js:107-124 | decodes the clicked cell's id and reveals that clue, as `ClickAt` on the old board at the decoded indices; a well-formed board stays well formed |
| `Jeopardy.Game.Reset` | jeopardy.js:152 | the board becomes empty |
| `Jeopardy.Game.Append` | jeopardy.js:156 | the category is added at the end and the earlier ones are kept |
| `Jeopardy.Game.FillTable` | jeopardy.js:77-97 | the table has the six titles in order as header, then five rows of six cells; the cell in row r, column c has id `${c}-${r}` and text "?" |
| `Jeopardy.Game.SetupAndStart` | jeopardy.js:151-159 | the board holds, in input order, one category per sampled id, built by `GetCategory` from that id's reply, all hidden, at most six of at most five clues; a table is drawn, as `FillTable` states, exactly when at least six ids were listed |
| `Jeopardy.PlayOneClue` | jeopardy.js:99-124 | three clicks on the cell of a hidden clue write its question, then its answer, then nothing; the clue ends fully revealed, and every other clue, every title and the board's shape are unchanged |

## Left out

- `getCategoryIds` and the HTTP requests of `getCategory` (jeopardy.js:32-38, 54-56). These are network I/O through axios. Their results are parameters of `SetupAndStart`, as are `baseURL` and `count`.
- `_.sampleSize` (jeopardy.js:37, 59). This is a random library call. Its result is a parameter, constrained only by `IsSample`.
- DOM work: writing the cells, the loading spinner, `showLoadingView`/`hideLoadingView`, event binding and `console.log` (jeopardy.js:79-96, 122-123, 130-142, 163-170). The model keeps the drawn table as a value and the written text as the result of `Reveal`.
- `async`/`await` interleaving (jeopardy.js:151-159, 167-170). Clicks and restarts can land while `setupAndStart` is still appending, and `fillTable` is not awaited. The model runs each handler to completion.
- Clue records are modelled as values in a sequence rather than as shared JavaScript objects. No clue object is aliased in the source, so the result is the same.
- `Jeopardy.Game.Reveal` and `Jeopardy.Game.HandleClick`: a click whose id names no clue throws a `TypeError` in the source. The model requires a valid cell instead of modelling the exception.
- `Jeopardy.Game.SetupAndStart`: when fewer than six categories load, `fillTable` throws while building the header row, after emptying the table header; nothing is drawn. The model returns no table.
- JavaScript's `showing` test is a falsiness test (`!clue.showing`). Only null, "question" and "answer" ever occur, and the three-valued `Showing` covers exactly those.
