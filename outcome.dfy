/** Outcome evaluation: the table of winning lines, the winner scan over it,
    the status derivation, and counts of marks on a board. */
module Outcome {
  import opened Types

  /** The board every game starts from: nine empty cells. */
  const InitialBoard: Board := seq(9, i => None)

  /** Rows, then columns, then the two diagonals; the scan visits them in this order. */
  const WinningCombinations: seq<Line> := [
    [0, 1, 2], [3, 4, 5], [6, 7, 8],
    [0, 3, 6], [1, 4, 7], [2, 5, 8],
    [0, 4, 8], [2, 4, 6]
  ]

  /** The first cell of `line` is marked and the other two hold the same mark. */
  predicate Uniform(b: Board, line: Line)
  {
    b[line[0]].Some? && b[line[0]] == b[line[1]] && b[line[0]] == b[line[2]]
  }

  /** Line `j` is the first uniformly marked line at or after position `k` of the table. */
  ghost predicate FirstUniformFrom(b: Board, k: int, j: int)
  {
    0 <= k <= j < |WinningCombinations| &&
    Uniform(b, WinningCombinations[j]) &&
    forall i :: k <= i < j ==> !Uniform(b, WinningCombinations[i])
  }

  /** The scan of the winning table from position `k` on, stopping at the first match. */
  function WinnerFrom(b: Board, k: nat): Option<WinnerInfo>
    requires k <= |WinningCombinations|
    decreases |WinningCombinations| - k
  {
    if k == |WinningCombinations| then None
    else
      var line := WinningCombinations[k];
      if Uniform(b, line) then Some(WinnerInfo(b[line[0]].value, line))
      else WinnerFrom(b, k + 1)
  }

  /** The scan from `k` finds nothing exactly when no line from `k` on is uniform, and
      otherwise reports the first uniform line from `k` on, with its mark. */
  lemma {:induction false} WinnerFromFirstMatch(b: Board, k: nat)
    requires k <= |WinningCombinations|
    decreases |WinningCombinations| - k
    ensures WinnerFrom(b, k).None? <==>
      forall i :: k <= i < |WinningCombinations| ==> !Uniform(b, WinningCombinations[i])
    ensures WinnerFrom(b, k).Some? ==> exists j ::
      FirstUniformFrom(b, k, j) &&
      WinnerFrom(b, k).value.line == WinningCombinations[j] &&
      b[WinningCombinations[j][0]] == Some(WinnerFrom(b, k).value.player)
  {
    if k < |WinningCombinations| && !Uniform(b, WinningCombinations[k]) {
      WinnerFromFirstMatch(b, k + 1);
    }
  }

  /** The winner of a board: the scan of the whole table. */
  function CalculateWinner(b: Board): Option<WinnerInfo>
  {
    WinnerFrom(b, 0)
  }

  /** No winner is reported exactly when no line is uniformly marked. Otherwise the
      reported line is one of the eight winning lines, namely the first uniform one in
      table order, and the reported player holds all three of its cells. */
  lemma CalculateWinnerFirstMatch(b: Board)
    ensures CalculateWinner(b).None? <==>
      forall k :: 0 <= k < |WinningCombinations| ==> !Uniform(b, WinningCombinations[k])
    ensures CalculateWinner(b).Some? ==> exists k ::
      FirstUniformFrom(b, 0, k) && CalculateWinner(b).value.line == WinningCombinations[k]
    ensures CalculateWinner(b).Some? ==>
      var w := CalculateWinner(b).value;
      b[w.line[0]] == Some(w.player) && b[w.line[1]] == Some(w.player) && b[w.line[2]] == Some(w.player)
  {
    WinnerFromFirstMatch(b, 0);
  }

  /** Every cell holds a mark. */
  predicate Full(b: Board)
  {
    forall i :: 0 <= i < 9 ==> b[i].Some?
  }

  /** The displayed status, derived from the recorded winner and the board. */
  function GameStatusOf(board: Board, winner: Option<WinnerInfo>): (s: GameStatus)
    ensures s == Won <==> winner.Some?
    ensures s == Draw <==> winner.None? && Full(board)
    ensures s == Playing <==> winner.None? && !Full(board)
  {
    if winner.Some? then Won
    else if Full(board) then Draw
    else Playing
  }

  /** Number of cells of `s` that hold `c`. */
  function Count(s: seq<Cell>, c: Cell): (n: nat)
    ensures n <= |s|
  {
    if s == [] then 0 else Count(s[1..], c) + (if s[0] == c then 1 else 0)
  }

  function EmptyCount(b: Board): nat
  {
    Count(b, None)
  }

  /** Writing `v` at `i` moves one cell from the count of `s[i]` to the count of `v`. */
  lemma {:induction false} CountUpdate(s: seq<Cell>, i: nat, v: Cell, c: Cell)
    requires i < |s|
    ensures Count(s[i := v], c) ==
      Count(s, c) - (if s[i] == c then 1 else 0) + (if v == c then 1 else 0)
  {
    if i == 0 {
      assert s[i := v][1..] == s[1..];
    } else {
      assert s[i := v][1..] == s[1..][i - 1 := v];
      CountUpdate(s[1..], i - 1, v, c);
    }
  }

  /** A value is counted zero times exactly when no cell holds it. */
  lemma {:induction false} CountZero(s: seq<Cell>, c: Cell)
    ensures Count(s, c) == 0 <==> forall i :: 0 <= i < |s| ==> s[i] != c
  {
    if s != [] {
      CountZero(s[1..], c);
      assert forall i :: 1 <= i < |s| ==> s[i] == s[1..][i - 1];
    }
  }

  /** A board is full exactly when it has no empty cell left. */
  lemma FullIffNoEmpty(b: Board)
    ensures Full(b) <==> EmptyCount(b) == 0
  {
    CountZero(b, None);
  }

  /** Marking an empty cell leaves one empty cell fewer: the measure that ends the search. */
  lemma FillCell(b: Board, i: nat, p: Player)
    requires i < 9 && b[i] == None
    ensures EmptyCount(b[i := Some(p)]) == EmptyCount(b) - 1
    ensures Count(b[i := Some(p)], Some(p)) == Count(b, Some(p)) + 1
    ensures Count(b[i := Some(p)], Some(Other(p))) == Count(b, Some(Other(p)))
  {
    CountUpdate(b, i, Some(p), None);
    CountUpdate(b, i, Some(p), Some(p));
    CountUpdate(b, i, Some(p), Some(Other(p)));
  }

  /** On a board without a winner, a move can only produce a win for the player who made
      it, along a line through the cell just marked. */
  lemma MoveWinsForMover(b: Board, i: nat, p: Player)
    requires i < 9 && b[i] == None && CalculateWinner(b).None?
    requires CalculateWinner(b[i := Some(p)]).Some?
    ensures CalculateWinner(b[i := Some(p)]).value.player == p
    ensures i in CalculateWinner(b[i := Some(p)]).value.line
  {
    var b' := b[i := Some(p)];
    CalculateWinnerFirstMatch(b);
    CalculateWinnerFirstMatch(b');
    var w := CalculateWinner(b').value;
    var k :| FirstUniformFrom(b', 0, k) && w.line == WinningCombinations[k];
    assert !Uniform(b, WinningCombinations[k]);
  }
}
