/** The value types the game logic is written against: players, cells,
    boards, winning lines, the winner record, modes, statuses and tiers. */
module Types {

  datatype Option<+T> = None | Some(value: T)

  /** The two marks. 'X' always opens a game; the computer plays 'O'. */
  datatype Player = X | O

  /** The player who moves after `p`. */
  function Other(p: Player): Player
  {
    if p == X then O else X
  }

  /** A cell is empty (None) or holds one player's mark. */
  type Cell = Option<Player>

  /** A board is exactly nine cells in row-major order (index = row * 3 + col). */
  type Board = b: seq<Cell> | |b| == 9
    witness [None, None, None, None, None, None, None, None, None]

  /** A winning line: three cell indices of the board. */
  type Line = l: seq<nat> | |l| == 3 && l[0] < 9 && l[1] < 9 && l[2] < 9
    witness [0, 1, 2]

  /** A recorded win: who won and along which line. */
  datatype WinnerInfo = WinnerInfo(player: Player, line: Line)

  datatype GameMode = PVP | PVC

  datatype GameStatus = Playing | Won | Draw

  datatype Difficulty = Easy | Medium | Hard
}
