# TACTO tic-tac-toe: rules engine and computer opponent

This project models the game logic of the TACTO browser tic-tac-toe game, which lives in
`hooks/useGameLogic.ts`. The model has four modules:

- `Types` mirrors the type declarations: `Player` (X, O), cells as `Option<Player>`, the
  nine-cell `Board`, the three-cell `Line`, `WinnerInfo`, `GameMode`, `GameStatus` and
  `Difficulty`. The board length of 9 is part of the `Board` type. In the source the array
  type is unbounded, but every board the game builds has nine cells.
- `Outcome` holds the table of the eight winning lines and the winner scan
  (`calculateWinner`). It also holds the status derivation (`gameStatus`) and counts of marks
  on a board. Those counts give the search its termination measure and the game its
  turn-balance invariant.
- `Strategy` holds the computer's move selection:
  - Hard tier: `minimax` is a specification function (`MinimaxValue`) plus the looping,
    recursive method `Minimax` proved equal to it. `findBestMove` is proved to return the
    lowest-index cell of maximal score.
  - Medium tier: the win / block / centre / random heuristic.
  - Easy tier: a random pick.
- `Game` holds the state that the React hook keeps (`board`, `currentPlayer`, `winner`,
  `gameMode`, `difficulty`). It is a class whose methods are the hook's callbacks: click,
  reset, mode and difficulty change, the computer's move, and the effect that triggers the
  computer's move. Its invariant `Valid()` has three parts:
  - the recorded winner is always `CalculateWinner(board)`;
  - a recorded winner is the player still on turn;
  - X has one mark more than O exactly when X moved last.

`Math.random` is modelled as a nondeterministic choice (`:|`) of an index into the
list of available cells.

On the board `X X _ / O O _ / _ _ _` with O to move, the code looks for an O win
(`hooks/useGameLogic.ts:149-156`) before it looks for a block (lines 159-166). So both the
medium and the hard tier answer 5, the win, and not 2, the block; `Strategy.WinBeforeBlock`
proves this.

## Model

| member | source | states |
|---|---|---|
| `Outcome.CalculateWinner` | hooks/useGameLogic.ts:15-23 | the winner scan itself, `WinnerFrom` from table position 0; it has no contract of its own, and `Outcome.CalculateWinnerFirstMatch` states what it returns |
| `Outcome.WinnerFromFirstMatch` | hooks/useGameLogic.ts:16-22 | the scan from table position k reports nothing iff no line from k on is uniformly marked; otherwise it reports the first uniform line from k on, with the mark on its first cell |
| `Outcome.CalculateWinnerFirstMatch` | hooks/useGameLogic.ts:8-23 | null exactly when none of the 8 lines is uniformly marked; otherwise the reported line is one of the 8 winning combinations, the first uniform one in the order rows, columns, diagonals, and the reported player holds all three of its cells |
| `Outcome.GameStatusOf` | hooks/useGameLogic.ts:84-88 | the status is an exhaustive, exclusive partition: WON iff a winner is recorded, DRAW iff there is no winner and every cell is marked, PLAYING iff there is no winner and some cell is empty |
| `Outcome.FullIffNoEmpty` | hooks/useGameLogic.ts:31-33 | `board.every(tile => tile !== null)` holds exactly when the count of empty cells is zero |
| `Outcome.FillCell` | hooks/useGameLogic.ts:37-52 | marking an empty cell lowers the empty-cell count by one, raises the mover's count by one and leaves the other player's count alone; this is the measure that makes minimax terminate |
| `Outcome.MoveWinsForMover` | hooks/useGameLogic.ts:121-130 | on a board without a winner, a move that produces a winner produces it for the player who moved, along a line through the cell just marked |
| `Strategy.MinimaxValue` | hooks/useGameLogic.ts:26-56 | the minimax score as a function, the reference the method `Strategy.Minimax` is proved equal to; its range is stated by `Strategy.MinimaxBounds` |
| `Strategy.ChildrenFrom` | hooks/useGameLogic.ts:35-54 | the fold of the children's scores over cells i..8 from the -1000 / 1000 sentinel, the reference for the loop invariants of `Strategy.Minimax`; its range is stated by `Strategy.ChildrenBounds` |
| `Strategy.Minimax` | hooks/useGameLogic.ts:26-56 | the looping recursive search returns exactly the minimax score: 10 - depth for an O win, depth - 10 for an X win, 0 for a full board, else the max (O to move) or min (X to move) over all children; it terminates on the empty-cell count |
| `Strategy.MinimaxBounds` | hooks/useGameLogic.ts:26-56 | within nine moves of the root, the score at depth d lies in [d - 10, 10 - d], and in [d - 9, 9 - d] when nobody has won, so the -1000/1000 sentinels are never returned |
| `Strategy.ChildrenBounds` | hooks/useGameLogic.ts:35-54 | the fold over the children never moves past its start value in the wrong direction (max at an O node, min at an X node), never exceeds the children's range [depth - 9, 9 - depth], and reaches that range once one empty cell has been folded in, so the loop's result is never a sentinel |
| `Strategy.RootScoreRange` | hooks/useGameLogic.ts:62-66 | a root move scores between -10 and 10, and scores 10 exactly when placing O there makes the winner scan report O |
| `Strategy.FindBestMove` | hooks/useGameLogic.ts:58-74 | returns -1 on a full board; otherwise an empty cell in 0..8 whose score is maximal, and the lowest such cell (strict `>`) |
| `Strategy.HardChoiceTakesWin` | hooks/useGameLogic.ts:58-74 | when O can win at once, the hard tier's cell wins at once and is the lowest winning cell |
| `Strategy.AvailableIndices` | hooks/useGameLogic.ts:134-136 | the candidates are exactly the empty cells, in ascending order, and there are none exactly when the board is full |
| `Strategy.FirstWinFor` | hooks/useGameLogic.ts:149-166 | the scan over the candidates returns -1 iff placing the given mark wins nowhere; otherwise the lowest cell where it wins |
| `Strategy.MediumMove` | hooks/useGameLogic.ts:146-177 | returns an empty cell chosen by priority: the lowest O win, else the lowest X win (a block), else the centre if empty, else any candidate |
| `Strategy.EasyMove` | hooks/useGameLogic.ts:143-145 | returns one of the candidates |
| `Strategy.HardAgreesWithMediumOnWin` | hooks/useGameLogic.ts:146-181 | when O can win at once, the medium and hard tiers answer the same cell |
| `Strategy.WinBeforeBlock` | hooks/useGameLogic.ts:148-166 | on `X X _ / O O _ / _ _ _` both tiers answer 5, the win, not 2, the block |
| `Game.GameLogic.Status` | hooks/useGameLogic.ts:84-88 | Won exactly when a winner is recorded, Draw exactly when there is none and the board is full; in a valid state Won exactly when the board itself has a winner |
| `Game.GameLogic.constructor` | hooks/useGameLogic.ts:77-81 | the hook starts with the empty board, X to move, no winner, PVP mode and easy difficulty, and the invariant holds |
| `Game.GameLogic.ResetGame` | hooks/useGameLogic.ts:98-102 | the empty board, X to move, no winner; mode and difficulty unchanged; the invariant holds |
| `Game.GameLogic.ChangeGameMode` | hooks/useGameLogic.ts:104-107 | sets the mode and resets the game |
| `Game.GameLogic.ChangeDifficulty` | hooks/useGameLogic.ts:109-112 | sets the difficulty and resets the game |
| `Game.GameLogic.HandleTileClick` | hooks/useGameLogic.ts:114-131 | board, player and winner are unchanged if the cell is taken, a winner exists or the status is not PLAYING; otherwise the board changes only at the index, which gets the current player, the winner is recalculated, and the turn toggles only when nobody won; the invariant is preserved |
| `Game.GameLogic.ComputerMove` | hooks/useGameLogic.ts:133-187 | with no empty cell nothing changes; otherwise the player on turn marks a cell that the difficulty's choice rule allows (any empty cell, the medium priority, or the hard tier's first maximal score); the invariant is preserved |
| `Game.GameLogic.ComputerTurn` | hooks/useGameLogic.ts:189-193 | mode and difficulty never change; in PVC mode, with O to move and the status PLAYING, O marks a cell that the rule of the difficulty in force allows, the winner is recalculated and the turn passes to X unless O won; otherwise nothing changes |

## Left out

- React plumbing is not modelled: `useState`, `useMemo`, `useCallback`, the effect
  dependency lists and re-rendering. Each callback is one method of `Game.GameLogic` acting
  on the current state.
- Game.GameLogic.ComputerMove: the 500 ms `setTimeout` before the click is not modelled.
  The chosen cell is clicked at once, on the state it was chosen from. Clicks or resets
  that land during the delay, and the stale closure the timer holds, are timing behaviour
  outside this model.
- The sound effects are not modelled: the effect at lines 90-96, `hooks/useSound.ts` and
  `sounds/index.ts` only play audio.
- The components (`App.tsx`, `components/*`) only render and forward clicks, so they are
  not modelled.
- Strategy.EasyMove: `Math.random` is a nondeterministic choice, so the model does not
  claim that the pick is uniform.
- Strategy.MediumMove: the same holds for the random fallback.
- Game.GameLogic.HandleTileClick requires 0 <= index < 9. Every caller passes a board
  index. The JavaScript behaviour for other indices, where the array would grow, is not
  modelled.
- The `default:` branch of the difficulty switch cannot be reached, because `Difficulty`
  is a closed datatype here.
- The hard tier's game-theoretic optimality ("never loses") is not proved. It needs
  reasoning over the whole game tree.
- The reply 4 to an opening X in a corner is also not proved, for the same reason.
- `findBestMove` never alters its input board. In the model this holds by construction,
  because boards are values and every simulated move builds a new sequence. There is
  therefore no separate statement of it.
- The medium and hard tiers always simulate 'O', as the source does. `ComputerMove` clicks
  for whoever is on turn, which is O whenever the effect in `ComputerTurn` triggers it.
