/**
 * The value-level game state shared by the rules and the search: a piece as
 * the search records it, a move, and the 8x8 board of optional pieces,
 * indexed board[x][y] as the C# `PieceObject[x, y]` arrays are.
 */
module Board {

  datatype Option<+T> = None | Some(value: T)

  /** A piece as the search sees it: colour, kingship and the square it records for itself. */
  datatype PieceObject = PieceObject(isWhite: bool, isKing: bool, x: int, y: int)

  /** A move from (xStart, yStart) to (xEnd, yEnd). */
  datatype Move = Move(xStart: int, xEnd: int, yStart: int, yEnd: int)

  type Column = seq<Option<PieceObject>>

  /** b[x][y] is the content of square (x, y). */
  type Board = seq<Column>

  predicate InBounds(x: int, y: int)
  {
    0 <= x < 8 && 0 <= y < 8
  }

  predicate IsBoard(b: Board)
  {
    |b| == 8 && forall x :: 0 <= x < 8 ==> |b[x]| == 8
  }

  /** Every piece records the square it stands on (what the copy in CreateStateFromMove establishes). */
  ghost predicate WellFormed(b: Board)
  {
    IsBoard(b) &&
    forall x, y :: 0 <= x < 8 && 0 <= y < 8 && b[x][y].Some? ==> b[x][y].value.x == x && b[x][y].value.y == y
  }

  function Abs(n: int): nat
  {
    if n < 0 then -n else n
  }

  /** The square jumped over by a two-square move; coordinates are non-negative, so `/` truncates as in C#. */
  function MidX(m: Move): int { (m.xStart + m.xEnd) / 2 }
  function MidY(m: Move): int { (m.yStart + m.yEnd) / 2 }

  /** The board with square (x, y) replaced by v. */
  function Put(b: Board, x: int, y: int, v: Option<PieceObject>): (r: Board)
    requires IsBoard(b) && InBounds(x, y)
    ensures IsBoard(r)
    ensures r[x][y] == v
    ensures forall i, j :: InBounds(i, j) && (i != x || j != y) ==> r[i][j] == b[i][j]
  {
    b[x := b[x][y := v]]
  }
}
