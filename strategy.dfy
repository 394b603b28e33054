/** Move selection for the computer, which always plays 'O': the exhaustive
    minimax search of the hard tier, the depth-one heuristic of the medium
    tier and the random pick of the easy tier. */
module Strategy {
  import opened Types
  import opened Outcome

  function Max(a: int, b: int): int { if a >= b then a else b }

  function Min(a: int, b: int): int { if a <= b then a else b }

  /** The player whose move is simulated at a maximising (O) or minimising (X) node. */
  function Mover(isMax: bool): Player { if isMax then O else X }

  // ---------------------------------------------------------------------------
  // Hard tier: minimax

  /** The score minimax assigns to `b`, reached `depth` moves below the search root:
      an O win scores 10 - depth, an X win depth - 10, a full board 0; otherwise the
      best child score for the player to move, starting from the -1000 / 1000 sentinel. */
  function MinimaxValue(b: Board, depth: nat, isMax: bool): int
    decreases EmptyCount(b), 1
  {
    match CalculateWinner(b)
    case Some(w) => if w.player == O then 10 - depth else depth - 10
    case None =>
      if Full(b) then 0
      else ChildrenFrom(b, depth, isMax, 0, if isMax then -1000 else 1000)
  }

  /** Folds the scores of the children obtained by marking each empty cell `i..8`
      into `best`, taking the maximum at a maximising node and the minimum otherwise. */
  function ChildrenFrom(b: Board, depth: nat, isMax: bool, i: nat, best: int): int
    requires i <= 9
    decreases EmptyCount(b), 0, 9 - i
  {
    if i == 9 then best
    else if b[i] == None then
      FillCell(b, i, Mover(isMax));
      var v := MinimaxValue(b[i := Some(Mover(isMax))], depth + 1, !isMax);
      ChildrenFrom(b, depth, isMax, i + 1, if isMax then Max(best, v) else Min(best, v))
    else ChildrenFrom(b, depth, isMax, i + 1, best)
  }

  /** The recursive search: checks for a finished game, then tries every empty cell
      on a copy of the board and keeps the best score. */
  method Minimax(b: Board, depth: nat, isMax: bool) returns (score: int)
    decreases EmptyCount(b)
    ensures score == MinimaxValue(b, depth, isMax)
  {
    var winner := CalculateWinner(b);
    if winner.Some? {
      return if winner.value.player == O then 10 - depth else depth - 10;
    }
    if Full(b) {
      return 0;
    }
    if isMax {
      var best := -1000;
      for i := 0 to 9
        invariant ChildrenFrom(b, depth, true, i, best) == MinimaxValue(b, depth, true)
      {
        if b[i] == None {
          var newBoard := b[i := Some(O)];
          FillCell(b, i, O);
          var v := Minimax(newBoard, depth + 1, !isMax);
          best := Max(best, v);
        }
      }
      return best;
    } else {
      var best := 1000;
      for i := 0 to 9
        invariant ChildrenFrom(b, depth, false, i, best) == MinimaxValue(b, depth, false)
      {
        if b[i] == None {
          var newBoard := b[i := Some(X)];
          FillCell(b, i, X);
          var v := Minimax(newBoard, depth + 1, !isMax);
          best := Min(best, v);
        }
      }
      return best;
    }
  }

  /** While the search stays within nine moves of its root, a score lies in
      [depth - 10, 10 - depth], and in [depth - 9, 9 - depth] when nobody has won yet;
      in particular the -1000 / 1000 sentinels are never returned. */
  lemma {:induction false} MinimaxBounds(b: Board, depth: nat, isMax: bool)
    requires depth + EmptyCount(b) <= 9
    decreases EmptyCount(b), 1
    ensures depth - 10 <= MinimaxValue(b, depth, isMax) <= 10 - depth
    ensures CalculateWinner(b).None? ==> depth - 9 <= MinimaxValue(b, depth, isMax) <= 9 - depth
  {
    if CalculateWinner(b).None? && !Full(b) {
      var e :| 0 <= e < 9 && b[e] == None;
      ChildrenBounds(b, depth, isMax, 0, if isMax then -1000 else 1000, e);
    }
  }

  /** The fold over children stays between its start value and the children's bounds,
      and reaches the children's range as soon as one empty cell `e` is folded in. */
  lemma {:induction false} ChildrenBounds(b: Board, depth: nat, isMax: bool, i: nat, best: int, e: nat)
    requires i <= 9 && depth + EmptyCount(b) <= 9
    decreases EmptyCount(b), 0, 9 - i
    ensures isMax ==>
      best <= ChildrenFrom(b, depth, isMax, i, best) <= Max(best, 9 - depth)
    ensures !isMax ==>
      Min(best, depth - 9) <= ChildrenFrom(b, depth, isMax, i, best) <= best
    ensures isMax && i <= e < 9 && b[e] == None ==>
      depth - 9 <= ChildrenFrom(b, depth, isMax, i, best)
    ensures !isMax && i <= e < 9 && b[e] == None ==>
      ChildrenFrom(b, depth, isMax, i, best) <= 9 - depth
  {
    if i < 9 {
      if b[i] == None {
        var child := b[i := Some(Mover(isMax))];
        FillCell(b, i, Mover(isMax));
        MinimaxBounds(child, depth + 1, !isMax);
        var v := MinimaxValue(child, depth + 1, !isMax);
        ChildrenBounds(b, depth, isMax, i + 1, if isMax then Max(best, v) else Min(best, v), e);
      } else {
        ChildrenBounds(b, depth, isMax, i + 1, best, e);
      }
    }
  }

  /** Placing `p` at the empty cell `i` makes the winner scan report `p`. */
  predicate WinningMove(b: Board, i: nat, p: Player)
    requires i < 9
  {
    b[i] == None &&
    match CalculateWinner(b[i := Some(p)])
    case Some(w) => w.player == p
    case None => false
  }

  /** The score of the root move `i`: O is placed there and X is to reply. */
  function RootScore(b: Board, i: nat): int
    requires i < 9
  {
    MinimaxValue(b[i := Some(O)], 0, false)
  }

  /** A root move scores between -10 and 10, and scores exactly 10 precisely when it wins
      on the spot. */
  lemma RootScoreRange(b: Board, i: nat)
    requires i < 9 && b[i] == None
    ensures -10 <= RootScore(b, i) <= 10
    ensures RootScore(b, i) == 10 <==> WinningMove(b, i, O)
  {
    FillCell(b, i, O);
    MinimaxBounds(b[i := Some(O)], 0, false);
  }

  /** What the hard tier may answer: an empty cell of maximal root score, the lowest
      such cell. */
  ghost predicate HardChoice(b: Board, m: int)
  {
    0 <= m < 9 && b[m] == None &&
    (forall j :: 0 <= j < 9 && b[j] == None ==> RootScore(b, j) <= RootScore(b, m)) &&
    (forall j :: 0 <= j < m && b[j] == None ==> RootScore(b, j) < RootScore(b, m))
  }

  /** Scores each empty cell with minimax and keeps the first one with the strictly
      greatest score; -1 when there is no empty cell. The input board is a value
      and is never altered. */
  method FindBestMove(b: Board) returns (m: int)
    ensures Full(b) ==> m == -1
    ensures !Full(b) ==> HardChoice(b, m)
  {
    var bestVal := -1000;
    var bestMove := -1;
    for i := 0 to 9
      invariant bestMove == -1 <==> forall j :: 0 <= j < i ==> b[j].Some?
      invariant bestMove == -1 ==> bestVal == -1000
      invariant bestMove != -1 ==>
        0 <= bestMove < i && b[bestMove] == None && bestVal == RootScore(b, bestMove) &&
        (forall j :: 0 <= j < i && b[j] == None ==> RootScore(b, j) <= bestVal) &&
        (forall j :: 0 <= j < bestMove && b[j] == None ==> RootScore(b, j) < bestVal)
    {
      if b[i] == None {
        var newBoard := b[i := Some(O)];
        var moveVal := Minimax(newBoard, 0, false);
        RootScoreRange(b, i);
        if moveVal > bestVal {
          bestMove := i;
          bestVal := moveVal;
        }
      }
    }
    m := bestMove;
  }

  /** The hard tier never delays a win: when some move wins at once, its choice wins at
      once, and it is the lowest-index winning cell. */
  lemma HardChoiceTakesWin(b: Board, m: int)
    requires HardChoice(b, m)
    requires exists i :: 0 <= i < 9 && WinningMove(b, i, O)
    ensures WinningMove(b, m, O)
    ensures forall j :: 0 <= j < m ==> !WinningMove(b, j, O)
  {
    var i :| 0 <= i < 9 && WinningMove(b, i, O);
    RootScoreRange(b, i);
    RootScoreRange(b, m);
    forall j | 0 <= j < m
      ensures !WinningMove(b, j, O)
    {
      if b[j] == None {
        RootScoreRange(b, j);
      }
    }
  }

  // ---------------------------------------------------------------------------
  // Medium and easy tiers

  /** Sorted indices of the empty cells from `i` on. */
  function AvailableFrom(b: Board, i: nat): (r: seq<nat>)
    requires i <= 9
    decreases 9 - i
    ensures forall q :: 0 <= q < |r| ==> i <= r[q] < 9 && b[r[q]] == None
    ensures forall c: nat :: c in r <==> i <= c < 9 && b[c] == None
    ensures forall p, q :: 0 <= p < q < |r| ==> r[p] < r[q]
  {
    if i == 9 then []
    else if b[i] == None then [i] + AvailableFrom(b, i + 1)
    else AvailableFrom(b, i + 1)
  }

  /** `avail` lists exactly the empty cells of `b`, in ascending order. */
  ghost predicate Candidates(b: Board, avail: seq<nat>)
  {
    (forall q :: 0 <= q < |avail| ==> avail[q] < 9 && b[avail[q]] == None) &&
    (forall c: nat :: c < 9 && b[c] == None ==> c in avail) &&
    (forall p, q :: 0 <= p < q < |avail| ==> avail[p] < avail[q])
  }

  /** The candidate moves: the empty cells in ascending order; none on a full board. */
  function AvailableIndices(b: Board): (r: seq<nat>)
    ensures Candidates(b, r)
    ensures r == [] <==> Full(b)
  {
    AvailableFrom(b, 0)
  }

  ghost predicate HasWinningMove(b: Board, p: Player)
  {
    exists i :: 0 <= i < 9 && WinningMove(b, i, p)
  }

  /** `m` is the lowest cell where placing `p` wins. */
  ghost predicate FirstWinningMove(b: Board, m: int, p: Player)
  {
    0 <= m < 9 && WinningMove(b, m, p) && forall j :: 0 <= j < m ==> !WinningMove(b, j, p)
  }

  /** What the medium tier may answer: an empty cell, chosen by priority — the first
      winning cell for O, else the first cell where X would win (a block), else the
      centre if empty, else any empty cell. */
  ghost predicate MediumChoice(b: Board, m: int)
  {
    0 <= m < 9 && b[m] == None &&
    (HasWinningMove(b, O) ==> FirstWinningMove(b, m, O)) &&
    (!HasWinningMove(b, O) && HasWinningMove(b, X) ==> FirstWinningMove(b, m, X)) &&
    (!HasWinningMove(b, O) && !HasWinningMove(b, X) && b[4] == None ==> m == 4)
  }

  /** An empty cell below the `k`-th candidate is one of the first `k` candidates. */
  lemma EarlierCandidate(b: Board, avail: seq<nat>, k: nat, c: nat)
    requires Candidates(b, avail)
    requires k < |avail| && c < avail[k] && b[c] == None
    ensures exists q :: 0 <= q < k && avail[q] == c
  {
  }

  /** None of the first `k` candidates is a winning cell for `p`. */
  ghost predicate NoWinAmong(b: Board, avail: seq<nat>, k: nat, p: Player)
  {
    k <= |avail| &&
    (k == 0 || (NoWinAmong(b, avail, k - 1, p) && avail[k - 1] < 9 && !WinningMove(b, avail[k - 1], p)))
  }

  lemma {:induction false} NoWinAmongEach(b: Board, avail: seq<nat>, k: nat, p: Player)
    requires NoWinAmong(b, avail, k, p)
    ensures forall q :: 0 <= q < k ==> avail[q] < 9 && !WinningMove(b, avail[q], p)
  {
    if k > 0 {
      NoWinAmongEach(b, avail, k - 1, p);
    }
  }

  /** The first winning candidate is the lowest winning cell of the board. */
  lemma FirstAmongCandidates(b: Board, avail: seq<nat>, k: nat, p: Player)
    requires Candidates(b, avail) && k < |avail|
    requires NoWinAmong(b, avail, k, p)
    requires WinningMove(b, avail[k], p)
    ensures FirstWinningMove(b, avail[k], p)
  {
    NoWinAmongEach(b, avail, k, p);
    forall j | 0 <= j < avail[k]
      ensures !WinningMove(b, j, p)
    {
      if b[j] == None {
        EarlierCandidate(b, avail, k, j);
      }
    }
  }

  /** When no candidate wins, no cell of the board wins. */
  lemma NoneAmongCandidates(b: Board, avail: seq<nat>, p: Player)
    requires Candidates(b, avail)
    requires NoWinAmong(b, avail, |avail|, p)
    ensures !HasWinningMove(b, p)
  {
    NoWinAmongEach(b, avail, |avail|, p);
    forall j | 0 <= j < 9
      ensures !WinningMove(b, j, p)
    {
      if b[j] == None {
        var q :| 0 <= q < |avail| && avail[q] == j;
      }
    }
  }

  /** Scans the candidates for the first cell where placing `p` wins; -1 if none. */
  method FirstWinFor(b: Board, avail: seq<nat>, p: Player) returns (m: int)
    requires Candidates(b, avail)
    ensures m == -1 <==> !HasWinningMove(b, p)
    ensures m != -1 ==> FirstWinningMove(b, m, p)
  {
    for k := 0 to |avail|
      invariant NoWinAmong(b, avail, k, p)
    {
      var i := avail[k];
      var tempBoard := b[i := Some(p)];
      var w := CalculateWinner(tempBoard);
      if w.Some? && w.value.player == p {
        FirstAmongCandidates(b, avail, k, p);
        return i;
      }
    }
    NoneAmongCandidates(b, avail, p);
    return -1;
  }

  /** The medium tier: win, else block, else centre, else a random candidate. */
  method MediumMove(b: Board, avail: seq<nat>) returns (m: int)
    requires Candidates(b, avail) && avail != []
    ensures MediumChoice(b, m)
  {
    var bestMove := FirstWinFor(b, avail, O);
    if bestMove == -1 {
      bestMove := FirstWinFor(b, avail, X);
    }
    if bestMove == -1 && 4 in avail {
      bestMove := 4;
    }
    if bestMove == -1 {
      var r :| 0 <= r < |avail|;
      bestMove := avail[r];
    }
    m := bestMove;
  }

  /** The easy tier: a random candidate. */
  method EasyMove(avail: seq<nat>) returns (m: nat)
    requires avail != []
    ensures m in avail
  {
    var r :| 0 <= r < |avail|;
    m := avail[r];
  }

  /** When O can win at once, the medium and the hard tier answer the same cell: the
      lowest one where O wins. */
  lemma HardAgreesWithMediumOnWin(b: Board, hard: int, medium: int)
    ensures HardChoice(b, hard) && MediumChoice(b, medium) && HasWinningMove(b, O) ==>
      hard == medium
  {
    if HardChoice(b, hard) && HasWinningMove(b, O) {
      HardChoiceTakesWin(b, hard);
    }
  }

  /** X holds cells 0 and 1, O holds cells 3 and 4, and O is to move. */
  const WinOrBlockBoard: Board :=
    [Some(X), Some(X), None, Some(O), Some(O), None, None, None, None]

  /** On that board O completes the middle row at cell 5 ... */
  lemma WinOrBlockBoardWinsAtFive()
    ensures WinningMove(WinOrBlockBoard, 5, O)
  {
  }

  /** ... while blocking at cell 2 does not win for O. */
  lemma WinOrBlockBoardNoWinAtTwo()
    ensures !WinningMove(WinOrBlockBoard, 2, O)
  {
  }

  /** Both the medium and the hard tier complete O's row at cell 5 rather than block
      X's row at cell 2. */
  lemma WinBeforeBlock(m: int)
    requires MediumChoice(WinOrBlockBoard, m) || HardChoice(WinOrBlockBoard, m)
    ensures m == 5
  {
    var b := WinOrBlockBoard;
    WinOrBlockBoardWinsAtFive();
    WinOrBlockBoardNoWinAtTwo();
    if HardChoice(b, m) {
      HardChoiceTakesWin(b, m);
    }
    assert WinningMove(b, m, O);
    assert m != 0 && m != 1 && m != 2 && m != 3 && m != 4;
  }

  /** What the computer may answer at each difficulty. */
  ghost predicate ChoiceFor(b: Board, difficulty: Difficulty, m: int)
  {
    match difficulty
    case Easy => 0 <= m < 9 && b[m] == None
    case Medium => MediumChoice(b, m)
    case Hard => HardChoice(b, m)
  }
}
