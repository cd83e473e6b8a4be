# Generalised rock-paper-scissors: the rule engine

A model in Dafny of the rule engine of `game.js`, a command-line game of
rock-paper-scissors over any list of move names given as arguments. The user
plays against a computer move. The model covers:

- `GameRules.determineWinner`. It returns Win, Lose, Draw or Invalid for a
  user move against a computer move over the ordered move list. Both moves must
  be in the list, otherwise the result is Invalid. Equal moves draw. Otherwise
  the user wins when the computer's move is one of the `floor(n/2)` moves that
  follow the user's move, wrapping round the list. The source builds this
  relation as a dictionary filled by two nested loops. `GameRules.WinningMoves`
  and `GameRules.DetermineWinner` keep those loops. `GameRules.Winner` is the
  pure function they are proved against. `GameRules.Beats` is the same relation
  by index arithmetic: `(k - i) mod n` lies in `1..floor(n/2)`.
- `HelpTable.generateTable`. It builds the `(n+1) x (n+1)` grid shown by the
  `?` command: a header row, then one labelled row per move.
- `Statistics`. A class whose fields count wins, losses and draws.
- The decisions of `Main.main` around the engine. These are the guard on the
  command-line catalog, the classification of a line of input (`0`, `?`, `!`
  or a 1-based move number), and one played round that updates the score.

Modules: `Moves` (distinctness and last index of a name), `GameRules`
(the engine and its lemmas), `Scores` (class `Statistics`), `Help` (class
`HelpTable`), and `Session` (the guards and one round of `Main.main`).

The intended rules of the game and the code differ in four places. The model
follows the code:

- Over Rock, Paper, Scissors the intended rule is that Rock beats Scissors. In
  the code each move beats the moves listed after it, so Rock beats Paper and
  loses to Scissors (`GameRules.ThreeMoveCatalog`).
- The game is meant to accept only an odd number of moves, so that every pair
  of moves has exactly one winner. The guard at game.js:136 accepts an even
  number too (see Findings).
- The outcome matrix is meant to be `n x n`. The code's grid also has a header
  row and a label column, and its diagonal holds the literal `Draw` for equal
  names.
- Names may repeat when `determineWinner` is called directly. The dictionary
  then keeps the entry written last, so `GameRules.Winner` uses the last index
  of the user's move (`Moves.LastIndexOf`). For lists without duplicates,
  `GameRules.WinnerByIndex` shows this equals the index arithmetic.

## Model

| member | source | states |
|---|---|---|
| `GameRules.Winner` | game.js:25-54 | The value outcome of `determineWinner`, the function `DetermineWinner` is proved against. It is Invalid exactly when a move is missing from the list, and Draw exactly when both are present and equal. |
| `GameRules.NextMoves` | game.js:40-44 | The `nextMoves` list built for index `i`: it has `floor(n/2)` entries, all catalog moves. |
| `GameRules.DetermineWinner` | game.js:25-54 | The result is Invalid exactly when a move is missing from the list. It is Draw exactly when both are present and equal. Otherwise it is what the loop-built dictionary gives. For a list without duplicates it is Win exactly when `Beats(n, i, k)` and Lose otherwise. |
| `GameRules.WinningMoves` | game.js:35-47 | The dictionary has one key per name in the list. Each name maps to the `floor(n/2)` names that follow its last index, wrapping round. |
| `GameRules.WinnerByIndex` | game.js:35-53 | For a list without duplicates, the outcome of `moves[i]` against `moves[k]` is Draw when `i == k`, Win when `(k - i) mod n` is in `1..floor(n/2)`, and Lose otherwise. |
| `GameRules.OutcomeByArc` | game.js:42-53 | `moves[i]` wins against exactly the moves of its `nextMoves` arc. It loses against exactly the remaining arc, offsets `floor(n/2)+1..n-1`. |
| `GameRules.BeatsAntisymmetric` | game.js:36-44 | For odd `n` and distinct indices, exactly one of `i beats k` and `k beats i` holds. |
| `GameRules.WinnerAntisymmetric` | game.js:38-53 | For an odd list without duplicates and distinct moves, the result is never Draw or Invalid. `a` wins against `b` exactly when `b` loses against `a`, and the other way round. |
| `GameRules.AllPairsAntisymmetric` | game.js:38-53 | For an odd list without duplicates, over every pair of distinct moves, `a` wins against `b` exactly when `b` loses against `a`. |
| `GameRules.EvenCatalogNotAntisymmetric` | game.js:38-53 | Over the four moves Rock, Paper, Scissors, Lizard, Rock beats Scissors and Scissors beats Rock. |
| `GameRules.Balance` | game.js:36-44 | For a list without duplicates, a move's win set and lose set are disjoint. Together they cover every other move. They have `floor(n/2)` and `n-1-floor(n/2)` members. |
| `GameRules.BalancedWhenOdd` | game.js:36-44 | For an odd list without duplicates, every move wins against `floor(n/2)` moves and loses against `floor(n/2)`. |
| `GameRules.ThreeMoveCatalog` | game.js:26-53 | Over Rock, Paper, Scissors: Rock wins against Paper, loses against Scissors, draws against Rock, and is Invalid against a name not in the list. |
| `GameRules.FiveMoveCatalog` | game.js:35-53 | Over five moves, the first wins against the second and third and loses against the fourth and fifth. |
| `Moves.LastIndexOf` | game.js:38-46 | The result indexes the name, and no later index holds it. This is the entry the dictionary keeps when a name repeats. |
| `Moves.DistinctIffNamesCount` | game.js:136 | The set of a list's names is as large as the list exactly when no name repeats. |
| `Scores.Statistics.constructor` | game.js:58-62 | All three counters start at 0. |
| `Scores.Statistics.UpdateStatistics` | game.js:64-72 | "Win", "Lose" and "Draw" each add one to their own counter and leave the others unchanged. Any other string, "Invalid" included, changes nothing. No counter decreases. |
| `Help.Cell` | game.js:92-97 | The grid cell for `moves[k]` against `moves[j]`. The literal `Draw` on equal names agrees with `determineWinner`: the cell is always the name of the `determineWinner` result, and never "Invalid". |
| `Help.HelpTable.constructor` | game.js:80-83 | Stores the moves, and the stored table is the matchup grid of those moves. |
| `Help.HelpTable.GenerateTable` | game.js:85-103 | Returns `n+1` rows of `n+1` cells. Row 0 is `""` then the moves. Row `k+1` starts with `moves[k]`. Cell `(k+1, j+1)` is "Draw" on equal names, otherwise the name of `determineWinner(moves[k], moves[j])`. |
| `Help.TableNeverInvalid` | game.js:89-100 | Every grid cell is Win, Lose or Draw, never Invalid. The diagonal is Draw. |
| `Help.TableAntisymmetric` | game.js:89-100 | For an odd list without duplicates, every off-diagonal cell is Win or Lose. Cell `(a, b)` is Win exactly when cell `(b, a)` is Lose. |
| `Session.AcceptsCatalog` | game.js:136 | The catalog is accepted exactly when it has at least 3 entries and no name repeats. |
| `Session.AcceptsFairCatalog` | game.js:136 | Corrected guard. It accepts exactly the catalogs of at least 3 distinct names with odd length. Each of those the original guard also accepts. In each of them, for every pair of distinct moves, `a` wins against `b` exactly when `b` loses against `a`. |
| `Session.EvenCatalogAccepted` | game.js:136 | The original guard accepts Rock, Paper, Scissors, Lizard, and over that catalog Rock and Scissors each beat the other. |
| `Session.FairCatalogIsFair` | game.js:136 | For each catalog the corrected guard accepts, two distinct moves never draw and exactly one of them wins, and every move has `floor(n/2)` wins and `floor(n/2)` losses. |
| `Session.SelectMove` | game.js:170-177 | A parsed selection is accepted exactly when it is a number in `1..n`, and it then picks `moves[index-1]`, a catalog move. |
| `Session.SelectionNumbersCatalog` | game.js:172-177 | For a catalog without duplicates, every index `k` in `1..n` picks `moves[k-1]`, and two indices that pick the same move are equal. |
| `Session.Classify` | game.js:160-177 | Exactly `0`, `?` and `!` give Exit, help and history, checked before any parsing. Any other line plays exactly when its selection is accepted and asks again exactly when it is rejected. A played move is the one `SelectMove` picks, `moves[index-1]`, a catalog move. |
| `Session.PlayRound` | game.js:160-187 | A played line resolves the chosen move against the computer's move. The result is never Invalid, and exactly one counter goes up by one. Meta-commands and rejected lines leave the score unchanged. |

## Left out

- `KeyGenerator.generateKey` and `HmacCalculator.calculateHmac` (game.js:4-22): thin wrappers over Node's `crypto` random bytes and HMAC-SHA256. They are not modelled, and neither is the commit-and-reveal protocol built on them.
- The computer's random move (game.js:150): it uses floating point and `Math.random`. `Session.PlayRound` takes its index as a parameter.
- The interactive loop's I/O: `readline-sync` input, `console.log`, `console.table` and `process.exit` (game.js:137-139, 148-196). The loop is not modelled as a loop. `Session.PlayRound` is one pass of it.
- JavaScript `parseInt` (game.js:170): the model takes the already-parsed value as an option, with `None` for NaN.
- `formatTable`, `formatTableRow` and `displayTable` (game.js:105-129): these only pad and separate cells and do not change the grid's content. `displayStatistics` (game.js:74-76) only prints.
- The unused `headerRow` (game.js:86) and the message printed by `determineWinner` for an invalid move (game.js:27).
- JavaScript object-key quirks of the `winningMoves` dictionary, such as a move named `__proto__`: the dictionary is a Dafny `map`.
- `gameHistory` (game.js:146, 189-193): an append-only log with no logic.
- Scores.Statistics.UpdateStatistics: the counters are unbounded naturals. The source's JavaScript numbers count exactly only up to 2^53.

## Findings

| source | as written | input that shows it | evidently intended | confidence | as-written member | corrected member |
|---|---|---|---|---|---|---|
| game.js:136 | The guard accepts any catalog of at least 3 distinct names, even-length ones included. | `Rock Paper Scissors Lizard`: Rock beats Scissors and Scissors beats Rock. Each move wins against 2 moves and loses against 1. | Accept only odd-length catalogs, so that every pair has one winner and every move wins and loses equally often. | medium, not executed | `Session.EvenCatalogAccepted` | `Session.FairCatalogIsFair` |
