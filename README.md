# Rock-paper-scissors for any odd number of moves, modelled in Dafny

`game.js` is a command-line game. The player names an odd number (at least
three) of distinct moves. The computer picks one of them and publishes the
HMAC of its pick under a random key. The player then types move numbers, `?`
for a help table, or `0` to quit. Each round prints both moves, the winner,
and the key, so the player can check the published HMAC.

This project models the core of that file:

- `move_rules.dfy` (module `MoveRules`) models class `MoveRules`.
  - `GenerateRules` is the loop that fills the rules table keyed by move name.
  - It is proved to produce `Rules(moves)`. For each name, that table holds the rule built at the name's last occurrence, because a later assignment overwrites an earlier one.
  - `Slice` models `Array.prototype.slice`: a negative start counts from the end, and both ends are clipped to the list.
  - `DetermineWinner` is `determineWinner`.
- `help_table.dfy` (module `HelpTable`) models class `HelpTable`.
  - `DetermineResult` is `determineResult`.
  - `GenerateTable` is the nested loop. It is proved to build `Table(moves)`.
- `arguments.dfy` (module `Arguments`) models `validateArguments`.
- `game.dfy` (module `GameSession`) models class `Game`.
  - `moves`, `key`, `computerMove` and the HMAC primitive are `const` fields, so only the constructor assigns them.
  - The console is the field `output`, a trace of `Event`s.
  - `Play` consumes a sequence of input `Token`s: `Exit` is the line `0`, `Help` is `?`, `Num(k)` is a line read as the number k, and `Other` is anything else.
  - `Play` is proved to write the commitment, the menu and then `Run(moves, computerMove, key, input)`. `Run` is the specification of the loop.

## Where the intended rules and the code differ (the model follows the code)

The intended rule is cyclic: in a list of N moves, each move beats the
(N-1)/2 moves that follow it, wrapping around past the end of the list to its
start. The code does not wrap. `moves.slice(i + 1, i + 1 + N/2)` stops at the end of the
list, and the fractional end is truncated. So for distinct names, `moves[i]`
beats `moves[j]` exactly when `i < j <= i + N/2`, with N/2 rounded down, which
is (N-1)/2 for odd N (`WinnerByIndex`). The consequences:

- A move beats `min((N-1)/2, N-1-i)` moves, not always (N-1)/2. The last move beats nothing (`RuleAtSlices`).
- For a != b, `determineWinner(a, b)` and `determineWinner(b, a)` are not always opposite. First against last is a computer win in both directions (`FirstAndLastBothLose`). Only the one-sided half holds (`PlayerWinIsOneSided`).
- The help table is not antisymmetric across its diagonal. A 'Win' cell always mirrors a 'Lose' cell (`WinMirrorsLose`), but both corner cells are 'Lose' (`CornerCellsBothLose`).
- Take the moves rock, paper, scissors in that order (`RockPaperScissors`):
  - Under the cyclic rule, rock beats paper and paper beats scissors, and so does the code.
  - The missing wrap-around changes only scissors against rock. The cyclic rule gives it to scissors. The code gives it to the computer, whichever side plays scissors.

The direction "a move beats the moves that follow it" reverses the classic
game for this order of moves, with or without the wrap-around. In the classic
game paper beats rock and scissors beat paper.

`determineWinner` reads only the `wins` lists. The `loses` lists are built and
modelled (`RuleAtSlices`), but no decision uses them.

## Model

| member | source | states |
|---|---|---|
| `MoveRules.LastIndex` | game.js:13-21 | the index returned holds the name, and no later index below n does: it is the occurrence whose assignment survives the loop |
| `MoveRules.RulesUpToKeys` | game.js:13-22 | after n iterations of generateRules' loop the table has an entry for exactly the names among the first n moves |
| `MoveRules.RulesUpToEntry` | game.js:13-22 | after n iterations, the entry of a name is the rule built at its last occurrence among the first n moves, because later assignments overwrite earlier ones |
| `MoveRules.Rules` | game.js:10-25 | the finished rules table has an entry for exactly the move names in the list |
| `MoveRules.GenerateRules` | game.js:10-25 | the loop returns exactly the table `Rules(moves)`, the result of all N iterations |
| `MoveRules.DetermineWinner` | game.js:27-35 | the result is 'draw' exactly when the two moves are equal, which is checked before any table lookup |
| `MoveRules.RuleAtSlices` | game.js:14-16 | the 'wins' list built at index i is moves[i+1 .. min(N, i+1+N/2)] and has length min(N/2, N-1-i), so the last move's list is empty; the 'loses' list is moves[i-N/2 .. i] when i >= N/2 and empty otherwise |
| `MoveRules.RuleOfMove` | game.js:13-21 | for distinct names, the table's entry of moves[i] is the rule built at index i |
| `MoveRules.WinsContains` | game.js:15 | for distinct names, moves[j] is on the 'wins' list of moves[i] iff i < j <= i + N/2 |
| `MoveRules.WinnerByIndex` | game.js:13-34 | for distinct names, moves[i] against moves[j] gives draw iff i = j, player iff i < j <= i + N/2, and computer otherwise; there is no wrap-around |
| `MoveRules.PlayerWinIsOneSided` | game.js:27-35 | if moves[i] wins against moves[j], then moves[j] against moves[i] is a computer win |
| `MoveRules.FirstAndLastBothLose` | game.js:15-34 | for N >= 3, first against last and last against first are both computer wins, so the relation is not antisymmetric |
| `MoveRules.RockPaperScissors` | game.js:27-35 | with the moves rock, paper, scissors: rock beats paper, paper beats scissors, rock against scissors is a computer win from either side, and paper against paper is a draw |
| `HelpTable.DetermineResult` | game.js:61-74 | the label is 'Draw' iff the moves are equal, 'Win' iff determineWinner says player, and 'Lose' iff it says computer |
| `HelpTable.RowUpTo` | game.js:48-53 | after n iterations of the inner loop the row has n+1 entries and starts with moves[i] |
| `HelpTable.TableUpTo` | game.js:45-56 | after n iterations of the outer loop the table has n+1 rows; row 0 is 'Moves' followed by the moves, and every row has N+1 entries |
| `HelpTable.Table` | game.js:44-59 | the finished table has N+1 rows of N+1 entries each |
| `HelpTable.GenerateTable` | game.js:44-59 | the nested loops return exactly `Table(moves)`, the result of all N outer iterations |
| `HelpTable.RowUpToAt` | game.js:50-53 | entry k+1 of a row is the label of moves[i] against moves[k] |
| `HelpTable.TableUpToAt` | game.js:47-56 | entry k+1 of the table is the complete row of moves[k] |
| `HelpTable.TableLayout` | game.js:45-58 | row 0 is 'Moves' followed by the moves in order; row i+1 starts with moves[i]; cell (i+1, j+1) is the label of moves[i] against moves[j] |
| `HelpTable.TableCell` | game.js:61-73 | for distinct names, cell (i+1, j+1) is 'Draw' iff i = j (the whole diagonal), 'Win' iff i < j <= i + N/2, and 'Lose' otherwise |
| `HelpTable.WinMirrorsLose` | game.js:61-73 | a 'Win' at (i+1, j+1) implies a 'Lose' at (j+1, i+1) |
| `HelpTable.CornerCellsBothLose` | game.js:61-73 | for N >= 3 the cells of first against last and of last against first are both 'Lose' |
| `Arguments.ElementsSize` | game.js:163 | the Set built from the list is never larger than the list, and it has the same size iff the names are pairwise distinct |
| `Arguments.ValidateArguments` | game.js:162-170 | the arguments are accepted iff there are at least 3, an odd number, and no name repeats |
| `Arguments.ValidationExamples` | game.js:162-170 | ["a","a","b"] and ["a","b"] are rejected; ["a","b","c"] and the five-move list are accepted |
| `GameSession.Game.constructor` | game.js:78-82 | the game keeps the moves, takes the key as given, and picks the computer's move as moves[c] for an index c in [0, N) |
| `GameSession.Game.DisplayMoves` | game.js:94-99 | writes the menu of moves and changes nothing else |
| `GameSession.Game.ShowResult` | game.js:115-131 | writes one round: the player's move, the fixed computer move, the winner on a freshly built rules table, and the key |
| `GameSession.Game.Answer` | game.js:142-155 | a token other than "0" writes the help table, or the invalid-input message and the menu when it is not a number from 1 to N, or else one round with moves[k-1] |
| `GameSession.Game.Play` | game.js:133-159 | writes the HMAC of the computer's move and the menu, then the answers to the input up to the first "0" and Goodbye; returns how many tokens it read; for every round in what it writes, the HMAC of the round's revealed key and computer move is the digest it published first |
| `GameSession.ContinueAppends` | game.js:137-158 | running the loop after some output has been written appends exactly the loop's own trace |
| `GameSession.ExitEndsSession` | game.js:137-158 | with no "0" before it, the first "0" ends the trace with a single Goodbye; tokens after it are never read, and exactly \|before\| + 1 tokens are consumed |
| `GameSession.NoExitReadsAll` | game.js:137-156 | input without a "0" is read completely and no Goodbye is written |
| `GameSession.RoundsUseTheCommitment` | game.js:115-134 | every round of a session uses the one computer move and reveals the one key fixed at construction |
| `GameSession.NonMoveTokenChangesNoRound` | game.js:142-151 | removing a help request or an invalid token from the input leaves the sequence of rounds unchanged |
| `GameSession.RoundByIndex` | game.js:149-154 | choosing number k against the computer's move at index c gives draw iff k-1 = c, player iff k-1 < c <= k-1 + N/2, and computer otherwise |

## Left out

- `crypto.randomBytes` (game.js:84-86) is not modelled. The key is an opaque string given to the constructor.
- `crypto.createHmac` (game.js:88-92) is not modelled. The HMAC primitive is an arbitrary function of key and move given to the constructor, so nothing is claimed about SHA-256 itself.
- `Math.random()` (game.js:81) is not modelled. The computer's index is a constructor parameter in [0, N).
- `readline` and the promise in `getUserMove` (game.js:101-113) are replaced by a sequence of input tokens. The "Enter your move: " prompt is not in the trace. Input that ends before a "0" stops the model without Goodbye, since Node then exits with the read still pending.
- Console formatting is not modelled: the exact texts, `index - move` numbering and the tab join of the table rows (game.js:94-99, 116-130, 145-148). Each console output is one `Event` that carries its data.
- JavaScript string-to-number coercion in the input check (game.js:149) is not modelled. Inputs such as " 2 " and "0x2" are taken to arrive as `Num(k)`. A fraction such as "1.5" passes the check and then fails at game.js:32; the integer tokens cannot express it.
- The usage messages of `validateArguments` (game.js:164-165) are not modelled; only the verdict is.
- `main`, `process.argv` and `process.exit` (game.js:172-184) are not modelled.
- Move names that collide with properties of a plain JavaScript object, such as `__proto__`, are not modelled (game.js:11, 18). The table is a Dafny map.
- The source builds a new `MoveRules` for every comparison (game.js:66, 119). `ShowResult` does the same by calling `GenerateRules`. The pure `DetermineResult` uses `Rules(moves)` instead, which `GenerateRules` is proved to return.
- `MoveRules.WinnerByIndex`, `MoveRules.RuleOfMove` and the lemmas built on them assume pairwise distinct names, which `validateArguments` guarantees. With repeated names, only `Rules` and `GenerateRules` describe the table (last occurrence wins).
