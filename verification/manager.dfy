/**
 * The game manager of Assets/CheckersManager.cs: the 8x8 array of piece
 * objects the human plays on, whose turn it is, the selected piece and the
 * square it was selected on, the no-progress counter and the end of the game.
 *
 * `turn` is true on white's (the human's) turn. The result text the manager
 * shows is kept as the CheckEndGame code in `outcome` (1 win, 2 loss, 3 draw).
 */
module Manager {
  import opened Board
  import opened Pieces
  import Rules

  /** The pieces standing on some square of board. */
  ghost function PiecesOn(board: array2<Piece?>): set<Piece>
    reads board
  {
    set i, j | 0 <= i < board.Length0 && 0 <= j < board.Length1 && board[i, j] != null :: board[i, j]
  }

  /** The value the search sees for one square (the conversion of ConvertPieceArrayToPieceObjectArray). */
  function AsObject(p: Piece?): Option<PieceObject>
    reads p
  {
    if p == null then None else Some(PieceObject(p.isWhite, p.isKing, p.x, p.y))
  }

  /** The squares the initial layout fills: the dark squares (x + y even) of rows 0-2 and 5-7. */
  predicate StartSquare(x: int, y: int)
  {
    InBounds(x, y) && (y <= 2 || y >= 5) && (x + y) % 2 == 0
  }

  /** p is a fresh-from-the-box piece for square (x, y): white on rows 0-2, black elsewhere, uncrowned. */
  ghost predicate StartPiece(p: Piece?, x: int, y: int)
    reads p
  {
    p != null && p.isWhite == (y <= 2) && !p.isKing && p.x == x && p.y == y
  }

  /** Each row of the layout holds four pieces, and only rows 0-2 and 5-7 hold any. */
  lemma StartRowCount(y: int)
    requires 0 <= y < 8
    ensures |set x | 0 <= x < 8 && StartSquare(x, y)| == (if y <= 2 || y >= 5 then 4 else 0)
  {
    var row := set x | 0 <= x < 8 && StartSquare(x, y);
    if y <= 2 || y >= 5 {
      if y % 2 == 0 {
        assert row == {0, 2, 4, 6};
      } else {
        assert row == {1, 3, 5, 7};
      }
    } else {
      assert row == {};
    }
  }

  /** The pieces of column x, rows 0 to n - 1, that have a capture from where they stand. */
  ghost function ForcedInColumn(board: array2<Piece?>, x: int, n: nat): seq<Piece>
    requires Is8x8(board) && 0 <= x < 8 && n <= 8
    reads board, PiecesOn(board)
  {
    if n == 0 then []
    else if board[x, n - 1] != null && board[x, n - 1].ForcedMove(board, x, n - 1) then
      ForcedInColumn(board, x, n - 1) + [board[x, n - 1]]
    else ForcedInColumn(board, x, n - 1)
  }

  /** The pieces of columns 0 to n - 1 that have a capture, in the scan order of CheckForcedMoves. */
  ghost function ForcedScan(board: array2<Piece?>, n: nat): seq<Piece>
    requires Is8x8(board) && n <= 8
    reads board, PiecesOn(board)
  {
    if n == 0 then [] else ForcedScan(board, n - 1) + ForcedInColumn(board, n - 1, 8)
  }

  /** p stands on square (x, y) of board and has a capture from there. */
  ghost predicate ForcedAt(board: array2<Piece?>, p: Piece, x: int, y: int)
    requires Is8x8(board)
    reads board, p
  {
    InBounds(x, y) && board[x, y] == p && p.ForcedMove(board, x, y)
  }

  lemma {:induction false} ForcedInColumnMembers(board: array2<Piece?>, x: int, n: nat, p: Piece)
    requires Is8x8(board) && 0 <= x < 8 && n <= 8
    ensures p in ForcedInColumn(board, x, n) <==> exists y :: 0 <= y < n && ForcedAt(board, p, x, y)
  {
    if n > 0 {
      ForcedInColumnMembers(board, x, n - 1, p);
      if ForcedAt(board, p, x, n - 1) {
        assert p in ForcedInColumn(board, x, n);
      }
    }
  }

  /** A piece is in the scan exactly when it stands on a scanned square and has a capture from there. */
  lemma {:induction false} ForcedScanMembers(board: array2<Piece?>, n: nat, p: Piece)
    requires Is8x8(board) && n <= 8
    ensures p in ForcedScan(board, n) <==> exists x, y :: 0 <= x < n && 0 <= y < 8 && ForcedAt(board, p, x, y)
  {
    if n > 0 {
      ForcedScanMembers(board, n - 1, p);
      ForcedInColumnMembers(board, n - 1, 8, p);
      if p in ForcedInColumn(board, n - 1, 8) {
        var y :| 0 <= y < 8 && ForcedAt(board, p, n - 1, y);
        assert ForcedAt(board, p, n - 1, y);
      }
    }
  }

  /** The pieces of ps of the given colour, in order (the `Where(i => i.isWhite == turn)` of SelectPiece). */
  function OfColour(ps: seq<Piece>, white: bool): seq<Piece>
  {
    if ps == [] then []
    else if ps[|ps| - 1].isWhite == white then OfColour(ps[..|ps| - 1], white) + [ps[|ps| - 1]]
    else OfColour(ps[..|ps| - 1], white)
  }

  lemma {:induction false} OfColourMembers(ps: seq<Piece>, white: bool, q: Piece)
    ensures q in OfColour(ps, white) <==> q in ps && q.isWhite == white
  {
    if ps != [] {
      OfColourMembers(ps[..|ps| - 1], white, q);
      assert ps == ps[..|ps| - 1] + [ps[|ps| - 1]];
    }
  }

  /** The contents of an 8x8 board, square by square. */
  ghost function Cells(board: array2<Piece?>): (c: seq<seq<Piece?>>)
    requires Is8x8(board)
    reads board
    ensures IsGrid(c)
    ensures forall i, j {:trigger c[i][j]} :: 0 <= i < 8 && 0 <= j < 8 ==> c[i][j] == board[i, j]
  {
    seq(8, i requires 0 <= i < 8 reads board => seq(8, j requires 0 <= j < 8 reads board => board[i, j]))
  }

  /** An 8x8 grid of squares. */
  predicate IsGrid(c: seq<seq<Piece?>>)
  {
    |c| == 8 && forall i :: 0 <= i < 8 ==> |c[i]| == 8
  }

  /** The grid c with square (x, y) holding v. */
  function Place(c: seq<seq<Piece?>>, x: int, y: int, v: Piece?): (r: seq<seq<Piece?>>)
    requires IsGrid(c) && InBounds(x, y)
    ensures IsGrid(r) && r[x][y] == v
    ensures forall i, j :: 0 <= i < 8 && 0 <= j < 8 && (i, j) != (x, y) ==> r[i][j] == c[i][j]
  {
    c[x := c[x][y := v]]
  }

  /**
   * The grid before after piece p went from (fx, fy) to (x, y) as MovePiece
   * does it (the old square emptied, then the new one filled) and, when it
   * took, the square (mx, my) emptied.
   */
  function Relocate(before: seq<seq<Piece?>>, p: Piece, fx: int, fy: int, x: int, y: int,
                    took: bool, mx: int, my: int): (after: seq<seq<Piece?>>)
    requires IsGrid(before) && InBounds(fx, fy) && InBounds(x, y) && InBounds(mx, my)
    ensures IsGrid(after)
    ensures took ==> after[mx][my] == null
    ensures !(took && (mx, my) == (x, y)) ==> after[x][y] == p
    ensures (fx, fy) != (x, y) ==> after[fx][fy] == null
    ensures forall i, j :: 0 <= i < 8 && 0 <= j < 8 && (i, j) != (x, y) && (i, j) != (fx, fy) && !(took && (i, j) == (mx, my)) ==>
              after[i][j] == before[i][j]
  {
    var moved := Place(Place(before, fx, fy, null), x, y, p);
    if took then Place(moved, mx, my, null) else moved
  }

  class CheckersManager {
    const pieces: array2<Piece?>
    var turn: bool
    var selectedPiece: Piece?
    /** The square the selected piece was picked up from (the x and z of `startMove`). */
    var startX: int
    var startY: int
    var gameOver: bool
    var outcome: int
    var movesSinceLastTake: int

    /** The board is 8x8 and every piece on it records the square it stands on. */
    ghost predicate Valid()
      reads pieces, PiecesOn(pieces)
    {
      && Is8x8(pieces)
      && forall i, j :: 0 <= i < 8 && 0 <= j < 8 && pieces[i, j] != null ==> pieces[i, j].x == i && pieces[i, j].y == j
    }

    /** The selected piece, if any, stands where it records and was picked up from a square on the board. */
    ghost predicate SelectionHeld()
      reads this, pieces, selectedPiece
    {
      && Is8x8(pieces)
      && InBounds(startX, startY)
      && (selectedPiece != null ==>
            InBounds(selectedPiece.x, selectedPiece.y) && pieces[selectedPiece.x, selectedPiece.y] == selectedPiece)
    }

    /** The manager's field initialisers: an empty board, white to move, nothing selected. */
    constructor ()
      ensures Valid() && SelectionHeld()
      ensures fresh(pieces) && forall i, j :: 0 <= i < 8 && 0 <= j < 8 ==> pieces[i, j] == null
      ensures turn && selectedPiece == null && !gameOver && outcome == 0 && movesSinceLastTake == 0
    {
      pieces := new Piece?[8, 8]((i, j) => null);
      turn := true;
      selectedPiece := null;
      startX, startY := 0, 0;
      gameOver := false;
      outcome := 0;
      movesSinceLastTake := 0;
    }

    /** The board as the search sees it. */
    function Snapshot(): (b: Board)
      requires Is8x8(pieces)
      reads pieces, PiecesOn(pieces)
      ensures IsBoard(b)
      ensures forall i, j {:trigger b[i][j]} :: 0 <= i < 8 && 0 <= j < 8 ==> b[i][j] == AsObject(pieces[i, j])
    {
      seq(8, i requires 0 <= i < 8 reads pieces, PiecesOn(pieces) =>
        seq(8, j requires 0 <= j < 8 reads pieces, PiecesOn(pieces) => AsObject(pieces[i, j])))
    }

    lemma SnapshotWellFormed()
      requires Valid()
      ensures WellFormed(Snapshot())
    {
    }

    /**
     * Assets/CheckersManager.cs MovePiece: nothing for a negative square;
     * otherwise the piece leaves the square it records, records and occupies
     * (x, y), and the no-progress counter goes up by one.
     */
    method MovePiece(piece: Piece, x: int, y: int)
      requires Valid() && x < 8 && y < 8
      requires InBounds(piece.x, piece.y) && pieces[piece.x, piece.y] == piece
      modifies pieces, piece`x, piece`y, this`movesSinceLastTake
      ensures Valid()
      ensures x < 0 || y < 0 ==>
                && unchanged(pieces) && piece.x == old(piece.x) && piece.y == old(piece.y)
                && movesSinceLastTake == old(movesSinceLastTake)
      ensures x >= 0 && y >= 0 ==>
                && pieces[x, y] == piece && piece.x == x && piece.y == y
                && ((x, y) != (old(piece.x), old(piece.y)) ==> pieces[old(piece.x), old(piece.y)] == null)
                && (forall i, j :: 0 <= i < 8 && 0 <= j < 8 && (i, j) != (x, y) && (i, j) != (old(piece.x), old(piece.y)) ==>
                      pieces[i, j] == old(pieces[i, j]))
                && movesSinceLastTake == old(movesSinceLastTake) + 1
    {
      if x < 0 || y < 0 {
        return;
      }
      pieces[piece.x, piece.y] := null;
      piece.x, piece.y := x, y;
      pieces[x, y] := piece;
      movesSinceLastTake := movesSinceLastTake + 1;
    }

    /** Assets/CheckersManager.cs GeneratePiece and InitPiece: a new uncrowned piece on (x, y). */
    method GeneratePiece(isWhite: bool, x: int, y: int)
      requires Valid() && InBounds(x, y)
      modifies pieces
      ensures Valid()
      ensures fresh(pieces[x, y]) && pieces[x, y].isWhite == isWhite && !pieces[x, y].isKing
      ensures forall i, j :: 0 <= i < 8 && 0 <= j < 8 && (i, j) != (x, y) ==> pieces[i, j] == old(pieces[i, j])
    {
      var p := new Piece(isWhite, x, y);
      pieces[x, y] := p;
    }

    /**
     * Assets/CheckersManager.cs Generate: white pieces on the dark squares
     * of rows 0-2 and black pieces on those of rows 5-7, each row starting at
     * x = 0 or x = 1 in turn; every other square keeps its content.
     */
    method Generate()
      requires Valid()
      modifies pieces
      ensures Valid()
      ensures forall i, j :: StartSquare(i, j) ==> fresh(pieces[i, j]) && StartPiece(pieces[i, j], i, j)
      ensures forall i, j :: 0 <= i < 8 && 0 <= j < 8 && !StartSquare(i, j) ==> pieces[i, j] == old(pieces[i, j])
    {
      var oddRow := false;
      var y := 0;
      while y <= 2
        invariant 0 <= y <= 3 && oddRow == (y % 2 == 1)
        invariant Valid()
        invariant forall i, j :: StartSquare(i, j) && j < y ==> fresh(pieces[i, j]) && StartPiece(pieces[i, j], i, j)
        invariant forall i, j :: 0 <= i < 8 && 0 <= j < 8 && !(StartSquare(i, j) && j < y) ==> pieces[i, j] == old(pieces[i, j])
      {
        GenerateRow(true, oddRow, y);
        oddRow := !oddRow;
        y := y + 1;
      }
      y := 5;
      while y <= 7
        invariant 5 <= y <= 8 && oddRow == (y % 2 == 1)
        invariant Valid()
        invariant forall i, j :: StartSquare(i, j) && (j <= 2 || j < y) ==> fresh(pieces[i, j]) && StartPiece(pieces[i, j], i, j)
        invariant forall i, j :: 0 <= i < 8 && 0 <= j < 8 && !(StartSquare(i, j) && (j <= 2 || j < y)) ==>
                    pieces[i, j] == old(pieces[i, j])
      {
        GenerateRow(false, oddRow, y);
        oddRow := !oddRow;
        y := y + 1;
      }
    }

    /** One row of Generate: pieces of one colour on x = 0, 2, 4, 6, shifted by one on an odd row. */
    method GenerateRow(isWhite: bool, oddRow: bool, y: int)
      requires Valid() && 0 <= y < 8 && oddRow == (y % 2 == 1)
      modifies pieces
      ensures Valid()
      ensures forall i :: 0 <= i < 8 && (i + y) % 2 == 0 ==>
                fresh(pieces[i, y]) && pieces[i, y].isWhite == isWhite && !pieces[i, y].isKing
                && pieces[i, y].x == i && pieces[i, y].y == y
      ensures forall i, j :: 0 <= i < 8 && 0 <= j < 8 && !(j == y && (i + y) % 2 == 0) ==> pieces[i, j] == old(pieces[i, j])
    {
      var x := 0;
      while x <= 7
        invariant 0 <= x <= 8 && x % 2 == 0
        invariant Valid()
        invariant forall i :: 0 <= i < x && (i + y) % 2 == 0 ==>
                    fresh(pieces[i, y]) && pieces[i, y].isWhite == isWhite && !pieces[i, y].isKing
                    && pieces[i, y].x == i && pieces[i, y].y == y
        invariant forall i, j :: 0 <= i < 8 && 0 <= j < 8 && !(j == y && i < x && (i + y) % 2 == 0) ==>
                    pieces[i, j] == old(pieces[i, j])
      {
        GeneratePiece(isWhite, if oddRow then x + 1 else x, y);
        x := x + 2;
      }
    }

    /**
     * Assets/CheckersManager.cs CheckForcedMoves: the pieces that have a
     * capture from their own square, column by column and row by row.
     */
    method CheckForcedMoves(gameState: array2<Piece?>) returns (forcedPieces: seq<Piece>)
      requires Is8x8(gameState)
      ensures forcedPieces == ForcedScan(gameState, 8)
      ensures forall p :: p in forcedPieces <==> exists x, y :: 0 <= x < 8 && 0 <= y < 8 && ForcedAt(gameState, p, x, y)
    {
      forcedPieces := [];
      for i := 0 to 8
        invariant forcedPieces == ForcedScan(gameState, i)
      {
        for j := 0 to 8
          invariant forcedPieces == ForcedScan(gameState, i) + ForcedInColumn(gameState, i, j)
        {
          if gameState[i, j] != null && gameState[i, j].ForcedMove(gameState, i, j) {
            forcedPieces := forcedPieces + [gameState[i, j]];
          }
        }
      }
      forall p ensures p in forcedPieces <==> exists x, y :: 0 <= x < 8 && 0 <= y < 8 && ForcedAt(gameState, p, x, y) {
        ForcedScanMembers(gameState, 8, p);
      }
    }

    /** Some piece of the given colour has a capture from where it stands. */
    ghost predicate HasForcedPiece(white: bool)
      requires Is8x8(pieces)
      reads pieces, PiecesOn(pieces)
    {
      exists x, y {:trigger ForcedAt(pieces, pieces[x, y], x, y)} ::
        0 <= x < 8 && 0 <= y < 8 && pieces[x, y] != null && pieces[x, y].isWhite == white
        && ForcedAt(pieces, pieces[x, y], x, y)
    }

    /** On a valid board, the colour filter of the scan is empty exactly when no piece of that colour has a capture. */
    lemma NoneOfColourForced(forcedPieces: seq<Piece>, white: bool)
      requires Valid()
      requires forall p :: p in forcedPieces <==> exists x, y :: 0 <= x < 8 && 0 <= y < 8 && ForcedAt(pieces, p, x, y)
      ensures |OfColour(forcedPieces, white)| == 0 <==> !HasForcedPiece(white)
    {
      if HasForcedPiece(white) {
        var x, y :| 0 <= x < 8 && 0 <= y < 8 && pieces[x, y] != null && pieces[x, y].isWhite == white
                    && ForcedAt(pieces, pieces[x, y], x, y);
        var q := pieces[x, y];
        assert q in forcedPieces;
        OfColourMembers(forcedPieces, white, q);
      }
      if |OfColour(forcedPieces, white)| != 0 {
        var q := OfColour(forcedPieces, white)[0];
        OfColourMembers(forcedPieces, white, q);
        var x, y :| 0 <= x < 8 && 0 <= y < 8 && ForcedAt(pieces, q, x, y);
        assert pieces[x, y] != null && pieces[x, y].isWhite == white && ForcedAt(pieces, pieces[x, y], x, y);
      }
    }

    /** On a valid board, the piece on (x, y) is in the scan exactly when it has a capture from (x, y). */
    lemma ForcedHere(forcedPieces: seq<Piece>, x: int, y: int)
      requires Valid() && InBounds(x, y) && pieces[x, y] != null
      requires forall p :: p in forcedPieces <==> exists x, y :: 0 <= x < 8 && 0 <= y < 8 && ForcedAt(pieces, p, x, y)
      ensures pieces[x, y] in forcedPieces <==> pieces[x, y].ForcedMove(pieces, x, y)
    {
      var p := pieces[x, y];
      if p in forcedPieces {
        var i, j :| 0 <= i < 8 && 0 <= j < 8 && ForcedAt(pieces, p, i, j);
        assert i == p.x == x && j == p.y == y;
      }
      if p.ForcedMove(pieces, x, y) {
        assert ForcedAt(pieces, p, x, y);
      }
    }

    /**
     * The piece on (x, y) may be picked up: it belongs to the side to move
     * and either has a capture itself or no piece of that side has one.
     */
    ghost predicate Selectable(x: int, y: int)
      requires Is8x8(pieces) && InBounds(x, y)
      reads this, pieces, PiecesOn(pieces)
    {
      pieces[x, y] != null && pieces[x, y].isWhite == turn
      && (pieces[x, y].ForcedMove(pieces, x, y) || !HasForcedPiece(turn))
    }

    /** The test of SelectPiece, on the list CheckForcedMoves gives. */
    method CanSelect(x: int, y: int) returns (ok: bool)
      requires Valid() && InBounds(x, y)
      ensures ok == Selectable(x, y)
    {
      var p := pieces[x, y];
      var forcedPieces := CheckForcedMoves(pieces);
      var turnForced := OfColour(forcedPieces, turn);
      NoneOfColourForced(forcedPieces, turn);
      if p != null {
        ForcedHere(forcedPieces, x, y);
      }
      ok := ((p != null && |turnForced| == 0) || p in forcedPieces) && p.isWhite == turn;
    }

    /**
     * Assets/CheckersManager.cs SelectPiece: a selectable piece on (x, y) is
     * selected and (x, y) recorded as the start of its move; otherwise, and
     * for a negative square, nothing changes.
     */
    method SelectPiece(x: int, y: int)
      requires Valid() && x < 8 && y < 8
      modifies this`selectedPiece, this`startX, this`startY
      ensures old(SelectionHeld()) ==> SelectionHeld()
      ensures x < 0 || y < 0 ==>
                selectedPiece == old(selectedPiece) && startX == old(startX) && startY == old(startY)
      ensures x >= 0 && y >= 0 ==>
                if old(Selectable(x, y)) then selectedPiece == pieces[x, y] && startX == x && startY == y
                else selectedPiece == old(selectedPiece) && startX == old(startX) && startY == old(startY)
    {
      if x < 0 || y < 0 {
        return;
      }
      ghost var selectable := Selectable(x, y);
      ghost var onBoard := PiecesOn(pieces);
      var ok := CanSelect(x, y);
      assert onBoard == PiecesOn(pieces);
      assert ok == selectable;
      if ok {
        selectedPiece := pieces[x, y];
        startX, startY := x, y;
      }
    }

    /**
     * The end-of-game record after a turn whose CheckEndGame code is r: the
     * game is over, with r as its outcome, when r is 1, 2 or 3.
     */
    predicate Recorded(prevOver: bool, prevOutcome: int, r: int)
      reads this
    {
      var ends := r == 1 || r == 2 || r == 3;
      gameOver == (prevOver || ends) && outcome == (if ends then r else prevOutcome)
    }

    /** The crowning at the start of EndTurn: the selected piece, arrived on row y, becomes a king on its far row. */
    method Promote(y: int)
      requires Valid() && SelectionHeld() && selectedPiece != null && 0 <= y < 8
      modifies selectedPiece`isKing
      ensures Valid() && SelectionHeld()
      ensures selectedPiece.isKing ==
                (old(selectedPiece.isKing) || (selectedPiece.isWhite && y == 7) || (!selectedPiece.isWhite && y == 0))
    {
      var sp := selectedPiece;
      if sp.isWhite && !sp.isKing && y == 7 {
        sp.isKing := true;
      } else if !sp.isWhite && !sp.isKing && y == 0 {
        sp.isKing := true;
      }
    }

    /** The CheckEndGame code of the board the search would see, with the search's side flag `side`. */
    method EndGameCode(side: bool) returns (r: int)
      requires Valid()
      ensures r == Rules.EndGameResult(Snapshot(), side, movesSinceLastTake)
    {
      var board := Snapshot();
      SnapshotWellFormed();
      ghost var onBoard := PiecesOn(pieces);
      r := Rules.CheckEndGame(board, side, movesSinceLastTake);
      assert PiecesOn(pieces) == onBoard;
      assert Snapshot() == board;
    }

    /**
     * The close of a turn in EndTurn: the turn passes, nothing is selected,
     * and the end of the game is recorded when the code r says so.
     */
    method PassTurn(r: int)
      modifies this`turn, this`selectedPiece, this`gameOver, this`outcome
      ensures turn == !old(turn) && selectedPiece == null
      ensures Recorded(old(gameOver), old(outcome), r)
    {
      turn := !turn;
      selectedPiece := null;
      if r == 1 || r == 2 || r == 3 {
        gameOver := true;
        outcome := r;
      }
    }

    /** The close of a turn that does not continue a capture: the turn passes and the end of the game is checked. */
    method Conclude(side: bool)
      requires Valid()
      modifies this`turn, this`selectedPiece, this`gameOver, this`outcome
      ensures Valid()
      ensures turn == !old(turn) && selectedPiece == null
      ensures Recorded(old(gameOver), old(outcome), Rules.EndGameResult(Snapshot(), side, movesSinceLastTake))
    {
      var gameResult := EndGameCode(side);
      ghost var board := Snapshot();
      ghost var onBoard := PiecesOn(pieces);
      PassTurn(gameResult);
      assert PiecesOn(pieces) == onBoard;
      assert Snapshot() == board;
    }

    /**
     * Assets/CheckersManager.cs EndTurn: the selected piece, arrived on row
     * y, is crowned on the far row (row 7 for white, row 0 for black); if it
     * captured this turn and can capture again from its square it stays
     * selected and the side keeps the turn; otherwise the turn passes,
     * nothing is selected and the end of the game is checked on the board
     * the search would see, with the search's side flag `side`.
     */
    method EndTurn(y: int, pieceTook: bool, side: bool)
      requires Valid() && SelectionHeld() && selectedPiece != null && 0 <= y < 8
      modifies selectedPiece`isKing, this`turn, this`selectedPiece, this`gameOver, this`outcome
      ensures unchanged(pieces)
      ensures Valid() && SelectionHeld()
      ensures var p := old(selectedPiece);
              p.isKing == (old(p.isKing) || (p.isWhite && y == 7) || (!p.isWhite && y == 0))
      ensures var p := old(selectedPiece);
              if pieceTook && p.ForcedMove(pieces, p.x, y) then
                turn == old(turn) && selectedPiece == p && gameOver == old(gameOver) && outcome == old(outcome)
              else
                && turn == !old(turn) && selectedPiece == null
                && Recorded(old(gameOver), old(outcome), Rules.EndGameResult(Snapshot(), side, movesSinceLastTake))
    {
      var sp := selectedPiece;
      Promote(y);
      if sp.ForcedMove(pieces, sp.x, y) && pieceTook {
        return;
      }
      Conclude(side);
    }

    /** The removal of a captured piece: square (mx, my) is emptied and the no-progress counter restarts. */
    method Capture(mx: int, my: int)
      requires Valid() && InBounds(mx, my)
      modifies pieces, this`movesSinceLastTake
      ensures Valid()
      ensures pieces[mx, my] == null && movesSinceLastTake == 0
      ensures forall i, j :: 0 <= i < 8 && 0 <= j < 8 && (i, j) != (mx, my) ==> pieces[i, j] == old(pieces[i, j])
    {
      movesSinceLastTake := 0;
      pieces[mx, my] := null;
    }

    /**
     * The board half of the human's move: MovePiece takes the selected piece
     * to (x, y), and when the move spans two columns from the square it was
     * picked up on, the piece midway is removed and the counter restarts.
     */
    method Advance(x: int, y: int) returns (pieceTook: bool)
      requires Valid() && SelectionHeld() && selectedPiece != null && InBounds(x, y)
      requires selectedPiece.ValidMove(pieces, startX, x, startY, y)
      modifies pieces, selectedPiece`x, selectedPiece`y, this`movesSinceLastTake
      ensures Valid() && SelectionHeld()
      ensures pieceTook == (Abs(x - startX) == 2)
      ensures selectedPiece.x == x && selectedPiece.y == y
      ensures var after := Relocate(old(Cells(pieces)), old(selectedPiece), old(selectedPiece.x), old(selectedPiece.y), x, y,
                                    Abs(x - old(startX)) == 2, (old(startX) + x) / 2, (old(startY) + y) / 2);
              forall i, j :: 0 <= i < 8 && 0 <= j < 8 ==> pieces[i, j] == after[i][j]
      ensures movesSinceLastTake == if pieceTook then 0 else old(movesSinceLastTake) + 1
    {
      var sp := selectedPiece;
      ghost var before, fx, fy := Cells(pieces), sp.x, sp.y;
      pieceTook := false;
      MovePiece(sp, x, y);
      if Abs(x - startX) == 2 {
        Capture((startX + x) / 2, (startY + y) / 2);
        pieceTook := true;
      }
    }

    /**
     * The human's second click, on square (x, y), in Update of
     * Assets/CheckersManager.cs: when ValidMove allows the selected piece to
     * go from the square it was picked up on to (x, y), it moves there, a
     * jumped piece is removed and the turn ends; otherwise the piece is put
     * down. A click off the board (-1) stops at the board read, so nothing
     * changes. `side` is the search's side flag, which the end-of-game check
     * uses.
     */
    method HumanMove(x: int, y: int, side: bool)
      requires Valid() && SelectionHeld() && selectedPiece != null && x < 8 && y < 8
      modifies pieces, selectedPiece`x, selectedPiece`y, selectedPiece`isKing
      modifies this`turn, this`selectedPiece, this`gameOver, this`outcome, this`movesSinceLastTake
      ensures Valid() && SelectionHeld()
      ensures x < 0 || y < 0 ==>
                && unchanged(pieces) && unchanged(old(selectedPiece)) && selectedPiece == old(selectedPiece)
                && turn == old(turn) && movesSinceLastTake == old(movesSinceLastTake)
                && gameOver == old(gameOver) && outcome == old(outcome)
      ensures x >= 0 && y >= 0 && !old(selectedPiece.ValidMove(pieces, startX, x, startY, y)) ==>
                && unchanged(pieces) && unchanged(old(selectedPiece)) && selectedPiece == null
                && turn == old(turn) && movesSinceLastTake == old(movesSinceLastTake)
                && gameOver == old(gameOver) && outcome == old(outcome)
      ensures x >= 0 && y >= 0 && old(selectedPiece.ValidMove(pieces, startX, x, startY, y)) ==>
                var p := old(selectedPiece);
                var took := Abs(x - old(startX)) == 2;
                && (var after := Relocate(old(Cells(pieces)), p, old(p.x), old(p.y), x, y, took, (old(startX) + x) / 2, (old(startY) + y) / 2);
                    forall i, j :: 0 <= i < 8 && 0 <= j < 8 ==> pieces[i, j] == after[i][j])
                && p.x == x && p.y == y
                && movesSinceLastTake == (if took then 0 else old(movesSinceLastTake) + 1)
                && p.isKing == (old(p.isKing) || (p.isWhite && y == 7) || (!p.isWhite && y == 0))
                && if took && p.ForcedMove(pieces, x, y) then
                     turn == old(turn) && selectedPiece == p && gameOver == old(gameOver) && outcome == old(outcome)
                   else
                     && turn == !old(turn) && selectedPiece == null
                     && Recorded(old(gameOver), old(outcome), Rules.EndGameResult(Snapshot(), side, movesSinceLastTake))
    {
      if x < 0 || y < 0 {
        return;
      }
      var sp := selectedPiece;
      if sp.ValidMove(pieces, startX, x, startY, y) {
        var pieceTook := Advance(x, y);
        EndTurn(y, pieceTook, side);
      } else {
        selectedPiece := null;
      }
    }


    /**
     * The board half of the search's move in MonteCarloMove: MovePiece takes
     * piece q to the end of m and the counter goes up once more; when m spans
     * two columns, the piece midway is removed and the counter restarts; the
     * piece on the end square becomes the selected one.
     */
    method Land(q: Piece, m: Move) returns (pieceTook: bool)
      requires Valid() && SelectionHeld()
      requires InBounds(m.xStart, m.yStart) && pieces[m.xStart, m.yStart] == q && InBounds(m.xEnd, m.yEnd)
      requires Abs(m.xEnd - m.xStart) == 2 ==> pieces[MidX(m), MidY(m)] != null
      modifies pieces, q`x, q`y, this`movesSinceLastTake, this`selectedPiece
      ensures Valid() && SelectionHeld()
      ensures pieceTook == (Abs(m.xEnd - m.xStart) == 2)
      ensures selectedPiece == q && q.x == m.xEnd && q.y == m.yEnd
      ensures var after := Relocate(old(Cells(pieces)), q, m.xStart, m.yStart, m.xEnd, m.yEnd,
                                    Abs(m.xEnd - m.xStart) == 2, MidX(m), MidY(m));
              forall i, j :: 0 <= i < 8 && 0 <= j < 8 ==> pieces[i, j] == after[i][j]
      ensures movesSinceLastTake == if pieceTook then 0 else old(movesSinceLastTake) + 2
    {
      pieceTook := false;
      MovePiece(q, m.xEnd, m.yEnd);
      movesSinceLastTake := movesSinceLastTake + 1;
      if Abs(m.xEnd - m.xStart) == 2 {
        Capture(MidX(m), MidY(m));
        pieceTook := true;
      }
      selectedPiece := pieces[m.xEnd, m.yEnd];
    }

    /**
     * Assets/CheckersManager.cs MonteCarloMove: the search's chosen piece p
     * makes move m, which starts on the square p stands on; a jumped piece
     * is removed, the moved piece is selected and the turn ends as in
     * EndTurn. A step counts twice towards the no-progress counter (once in
     * MovePiece and once here). `side` is the search's side flag, which the
     * end-of-game check uses.
     */
    method MonteCarloMove(p: PieceObject, m: Move, side: bool)
      requires Valid() && SelectionHeld()
      requires InBounds(p.x, p.y) && pieces[p.x, p.y] != null && m.xStart == p.x && m.yStart == p.y
      requires InBounds(m.xEnd, m.yEnd)
      requires Abs(m.xEnd - m.xStart) == 2 ==> pieces[MidX(m), MidY(m)] != null
      modifies pieces, pieces[p.x, p.y]`x, pieces[p.x, p.y]`y, pieces[p.x, p.y]`isKing
      modifies this`turn, this`selectedPiece, this`gameOver, this`outcome, this`movesSinceLastTake
      ensures Valid() && SelectionHeld()
      ensures var q := old(pieces[p.x, p.y]);
              var took := Abs(m.xEnd - m.xStart) == 2;
              && (var after := Relocate(old(Cells(pieces)), q, m.xStart, m.yStart, m.xEnd, m.yEnd, took, MidX(m), MidY(m));
                  forall i, j :: 0 <= i < 8 && 0 <= j < 8 ==> pieces[i, j] == after[i][j])
              && q.x == m.xEnd && q.y == m.yEnd
              && movesSinceLastTake == (if took then 0 else old(movesSinceLastTake) + 2)
              && q.isKing == (old(q.isKing) || (q.isWhite && m.yEnd == 7) || (!q.isWhite && m.yEnd == 0))
              && if took && q.ForcedMove(pieces, m.xEnd, m.yEnd) then
                   turn == old(turn) && selectedPiece == q && gameOver == old(gameOver) && outcome == old(outcome)
                 else
                   && turn == !old(turn) && selectedPiece == null
                   && Recorded(old(gameOver), old(outcome), Rules.EndGameResult(Snapshot(), side, movesSinceLastTake))
    {
      var q := pieces[p.x, p.y];
      var pieceTook := Land(q, m);
      EndTurn(m.yEnd, pieceTook, side);
    }
  }
}
