/**
 * The human-side legality checks of Assets/Piece.cs. A piece is an object
 * on the board of the game manager (an 8x8 array of possibly-null pieces);
 * its colour is fixed, it may be crowned, and it records the square its
 * transform stands on.
 */
module Pieces {
  import opened Board

  predicate Is8x8<T>(a: array2<T>)
  {
    a.Length0 == 8 && a.Length1 == 8
  }

  class Piece {
    const isWhite: bool
    var isKing: bool
    /** The square under the piece's transform (its position less the 0.5 board offset). */
    var x: int
    var y: int

    constructor (isWhite: bool, x: int, y: int)
      ensures this.isWhite == isWhite && !isKing && this.x == x && this.y == y
    {
      this.isWhite := isWhite;
      isKing := false;
      this.x := x;
      this.y := y;
    }

    /** This piece may move in vertical direction dy: up (+1) when white or a king, down (-1) when black or a king. */
    predicate MovesToward(dy: int)
      reads this
    {
      (dy == 1 && (isWhite || isKing)) || (dy == -1 && (!isWhite || isKing))
    }

    /**
     * From (x, y) this piece can jump in direction (dx, dy): the square
     * two steps away is on the board and empty, and the square between
     * holds a piece of the other colour.
     */
    predicate JumpOpen(board: array2<Piece?>, x: int, y: int, dx: int, dy: int)
      requires Is8x8(board) && InBounds(x, y)
      requires (dx == 1 || dx == -1) && (dy == 1 || dy == -1)
      reads board
    {
      && InBounds(x + 2 * dx, y + 2 * dy)
      && board[x + dx, y + dy] != null && board[x + dx, y + dy].isWhite != isWhite
      && board[x + 2 * dx, y + 2 * dy] == null
    }

    /**
     * Assets/Piece.cs ForcedMove: whether this piece, standing on (x, y),
     * has a capture. The guards `x >= 2`, `x <= 5`, `y >= 2`, `y <= 5` keep
     * every read on the board, so the only demand is that (x, y) is on it.
     * A capture needs two rows of room in a direction the piece may move, and
     * an opposing piece on the board.
     */
    function ForcedMove(board: array2<Piece?>, x: int, y: int): (r: bool)
      requires Is8x8(board) && InBounds(x, y)
      reads this, board
      ensures r ==> ((isWhite || isKing) && y <= 5) || ((!isWhite || isKing) && y >= 2)
      ensures r ==> exists i, j :: 0 <= i < 8 && 0 <= j < 8 && board[i, j] != null && board[i, j].isWhite != isWhite
    {
      var up := isWhite || isKing;
      var down := !isWhite || isKing;
      if up && x >= 2 && y <= 5 && board[x - 1, y + 1] != null && board[x - 1, y + 1].isWhite != isWhite
         && board[x - 2, y + 2] == null then true
      else if up && x <= 5 && y <= 5 && board[x + 1, y + 1] != null && board[x + 1, y + 1].isWhite != isWhite
         && board[x + 2, y + 2] == null then true
      else if down && x >= 2 && y >= 2 && board[x - 1, y - 1] != null && board[x - 1, y - 1].isWhite != isWhite
         && board[x - 2, y - 2] == null then true
      else if down && x <= 5 && y >= 2 && board[x + 1, y - 1] != null && board[x + 1, y - 1].isWhite != isWhite
         && board[x + 2, y - 2] == null then true
      else false
    }

    /** ForcedMove holds exactly when some permitted direction has a capture open. */
    lemma ForcedMoveExact(board: array2<Piece?>, x: int, y: int)
      requires Is8x8(board) && InBounds(x, y)
      ensures ForcedMove(board, x, y) <==>
                exists dx, dy :: (dx == 1 || dx == -1) && MovesToward(dy) && JumpOpen(board, x, y, dx, dy)
    {
      if ForcedMove(board, x, y) {
        if JumpOpen(board, x, y, -1, 1) && MovesToward(1) {
        } else if JumpOpen(board, x, y, 1, 1) && MovesToward(1) {
        } else if JumpOpen(board, x, y, -1, -1) && MovesToward(-1) {
        } else {
          assert JumpOpen(board, x, y, 1, -1) && MovesToward(-1);
        }
      }
    }

    /**
     * Assets/Piece.cs ValidMove: whether this piece may move from
     * (xStart, yStart) to (xEnd, yEnd). A step up the board by a white piece
     * or a king is refused while the piece has a capture; a step down is
     * not checked against captures.
     */
    function ValidMove(board: array2<Piece?>, xStart: int, xEnd: int, yStart: int, yEnd: int): (r: bool)
      requires Is8x8(board) && InBounds(xStart, yStart) && InBounds(xEnd, yEnd)
      reads this, board
      // an occupied destination is never valid
      ensures board[xEnd, yEnd] != null ==> !r
      // a valid move is a step, or a jump over a piece of the other colour, in a permitted direction
      ensures r ==>
                || (Abs(xEnd - xStart) == 1 && MovesToward(yEnd - yStart))
                || (Abs(xEnd - xStart) == 2 && MovesToward((yEnd - yStart) / 2) && Abs(yEnd - yStart) == 2
                    && board[(xStart + xEnd) / 2, (yStart + yEnd) / 2] != null
                    && board[(xStart + xEnd) / 2, (yStart + yEnd) / 2].isWhite != isWhite)
      // a step up the board is valid only without a capture from the start square
      ensures r && yEnd - yStart == 1 && Abs(xEnd - xStart) == 1 ==> !ForcedMove(board, xStart, yStart)
      // and conversely: every such move onto an empty square is valid
      ensures (board[xEnd, yEnd] == null && Abs(xEnd - xStart) == 1 && yEnd - yStart == -1 && MovesToward(-1)) ==> r
      ensures (board[xEnd, yEnd] == null && Abs(xEnd - xStart) == 1 && yEnd - yStart == 1 && MovesToward(1)
               && !ForcedMove(board, xStart, yStart)) ==> r
      ensures (board[xEnd, yEnd] == null && Abs(xEnd - xStart) == 2 && Abs(yEnd - yStart) == 2
               && MovesToward((yEnd - yStart) / 2)
               && board[(xStart + xEnd) / 2, (yStart + yEnd) / 2] != null
               && board[(xStart + xEnd) / 2, (yStart + yEnd) / 2].isWhite != isWhite) ==> r
    {
      if board[xEnd, yEnd] != null then false
      else
        var deltaMoveX := Abs(xEnd - xStart);
        var deltaMoveY := yEnd - yStart;
        var mid := board[(xStart + xEnd) / 2, (yStart + yEnd) / 2];
        if (isWhite || isKing)
           && ((deltaMoveX == 1 && deltaMoveY == 1 && !ForcedMove(board, xStart, yStart))
               || (deltaMoveX == 2 && deltaMoveY == 2 && mid != null && mid.isWhite != isWhite))
        then true
        else if (!isWhite || isKing)
           && ((deltaMoveX == 1 && deltaMoveY == -1)
               || (deltaMoveX == 2 && deltaMoveY == -2 && mid != null && mid.isWhite != isWhite))
        then true
        else false
    }
  }
}
