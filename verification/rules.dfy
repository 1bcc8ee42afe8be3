/**
 * The rules engine of Assets/MCTS.cs: per-piece move generation, the
 * mandatory-capture filter, applying a move and detecting the end of a game.
 *
 * The side to move is the explicit parameter `side`, the value the C# code
 * reads from its `isAlgorithm` field: the pieces that move are those whose
 * `isWhite` differs from `side`, and a capture jumps a piece whose `isWhite`
 * equals `side` (so `side == true` means black, the algorithm, is to move).
 */
module Rules {
  import opened Board

  // ---------------------------------------------------------------------
  // Reference definitions of single-piece moves
  // ---------------------------------------------------------------------

  /** A capture by piece p, described independently of how it is generated. */
  predicate IsCaptureFor(b: Board, p: PieceObject, side: bool, m: Move)
    requires IsBoard(b)
  {
    && m.xStart == p.x && m.yStart == p.y
    && InBounds(m.xStart, m.yStart) && InBounds(m.xEnd, m.yEnd)
    && Abs(m.xEnd - m.xStart) == 2 && Abs(m.yEnd - m.yStart) == 2
    && (m.yEnd > m.yStart ==> p.isWhite || p.isKing)
    && (m.yEnd < m.yStart ==> !p.isWhite || p.isKing)
    && b[m.xEnd][m.yEnd].None?
    && b[MidX(m)][MidY(m)].Some? && b[MidX(m)][MidY(m)].value.isWhite == side
  }

  /** A simple diagonal step by piece p onto an empty square. */
  predicate IsStepFor(b: Board, p: PieceObject, m: Move)
    requires IsBoard(b)
  {
    && m.xStart == p.x && m.yStart == p.y
    && InBounds(m.xStart, m.yStart) && InBounds(m.xEnd, m.yEnd)
    && Abs(m.xEnd - m.xStart) == 1 && Abs(m.yEnd - m.yStart) == 1
    && (m.yEnd > m.yStart ==> p.isWhite || p.isKing)
    && (m.yEnd < m.yStart ==> !p.isWhite || p.isKing)
    && b[m.xEnd][m.yEnd].None?
  }

  /** One capture direction (dx, dy each +1 or -1) as ForcedMovesFromPiece tests it. */
  function JumpIf(b: Board, p: PieceObject, side: bool, dx: int, dy: int): (r: seq<Move>)
    requires IsBoard(b) && InBounds(p.x, p.y)
    requires (dx == 1 || dx == -1) && (dy == 1 || dy == -1)
  {
    var inside := (if dx < 0 then p.x > 1 else p.x < 6) && (if dy > 0 then p.y < 6 else p.y > 1);
    if inside && (if dy > 0 then p.isWhite || p.isKing else !p.isWhite || p.isKing)
       && b[p.x + 2 * dx][p.y + 2 * dy].None? && b[p.x + dx][p.y + dy].Some?
       && b[p.x + dx][p.y + dy].value.isWhite == side
    then [Move(p.x, p.x + 2 * dx, p.y, p.y + 2 * dy)]
    else []
  }

  /** One step direction as OtherMovesFromPiece tests it. */
  function StepIf(b: Board, p: PieceObject, dx: int, dy: int): (r: seq<Move>)
    requires IsBoard(b) && InBounds(p.x, p.y)
    requires (dx == 1 || dx == -1) && (dy == 1 || dy == -1)
  {
    var inside := (if dx < 0 then p.x > 0 else p.x < 7) && (if dy > 0 then p.y < 7 else p.y > 0);
    if inside && (if dy > 0 then p.isWhite || p.isKing else !p.isWhite || p.isKing)
       && b[p.x + dx][p.y + dy].None?
    then [Move(p.x, p.x + dx, p.y, p.y + dy)]
    else []
  }

  /**
   * The captures of one piece, in the order up-left, up-right, down-left,
   * down-right: exactly the moves IsCaptureFor describes.
   */
  function ForcedMovesFromPiece(b: Board, p: PieceObject, side: bool): (r: seq<Move>)
    requires IsBoard(b) && InBounds(p.x, p.y)
    ensures |r| <= 4
  {
    JumpIf(b, p, side, -1, 1) + JumpIf(b, p, side, 1, 1) + JumpIf(b, p, side, -1, -1) + JumpIf(b, p, side, 1, -1)
  }

  lemma JumpIfExact(b: Board, p: PieceObject, side: bool, dx: int, dy: int, m: Move)
    requires IsBoard(b) && InBounds(p.x, p.y)
    requires (dx == 1 || dx == -1) && (dy == 1 || dy == -1)
    ensures m in JumpIf(b, p, side, dx, dy) <==>
              IsCaptureFor(b, p, side, m) && m.xEnd == p.x + 2 * dx && m.yEnd == p.y + 2 * dy
  {
  }

  /** The generated captures are exactly the moves IsCaptureFor describes. */
  lemma ForcedMovesExact(b: Board, p: PieceObject, side: bool)
    requires IsBoard(b) && InBounds(p.x, p.y)
    ensures forall m :: m in ForcedMovesFromPiece(b, p, side) <==> IsCaptureFor(b, p, side, m)
  {
    forall m ensures m in ForcedMovesFromPiece(b, p, side) <==> IsCaptureFor(b, p, side, m) {
      JumpIfExact(b, p, side, -1, 1, m);
      JumpIfExact(b, p, side, 1, 1, m);
      JumpIfExact(b, p, side, -1, -1, m);
      JumpIfExact(b, p, side, 1, -1, m);
    }
  }

  /** The simple steps of one piece, in the same direction order. */
  function OtherMovesFromPiece(b: Board, p: PieceObject): (r: seq<Move>)
    requires IsBoard(b) && InBounds(p.x, p.y)
    ensures |r| <= 4
  {
    StepIf(b, p, -1, 1) + StepIf(b, p, 1, 1) + StepIf(b, p, -1, -1) + StepIf(b, p, 1, -1)
  }

  lemma StepIfExact(b: Board, p: PieceObject, dx: int, dy: int, m: Move)
    requires IsBoard(b) && InBounds(p.x, p.y)
    requires (dx == 1 || dx == -1) && (dy == 1 || dy == -1)
    ensures m in StepIf(b, p, dx, dy) <==> IsStepFor(b, p, m) && m.xEnd == p.x + dx && m.yEnd == p.y + dy
  {
  }

  /** The generated steps are exactly the moves IsStepFor describes. */
  lemma OtherMovesExact(b: Board, p: PieceObject)
    requires IsBoard(b) && InBounds(p.x, p.y)
    ensures forall m :: m in OtherMovesFromPiece(b, p) <==> IsStepFor(b, p, m)
  {
    forall m ensures m in OtherMovesFromPiece(b, p) <==> IsStepFor(b, p, m) {
      StepIfExact(b, p, -1, 1, m);
      StepIfExact(b, p, 1, 1, m);
      StepIfExact(b, p, -1, -1, m);
      StepIfExact(b, p, 1, -1, m);
    }
  }

  // ---------------------------------------------------------------------
  // The whole-board scan of PossibleMoves
  // ---------------------------------------------------------------------

  /** The pieces of col[..n], in increasing y. */
  function ColumnPieces(col: Column, n: nat): seq<PieceObject>
    requires n <= |col|
  {
    if n == 0 then []
    else if col[n - 1].Some? then ColumnPieces(col, n - 1) + [col[n - 1].value]
    else ColumnPieces(col, n - 1)
  }

  /** The pieces of columns 0 .. n-1, scanned x-outer, y-inner. */
  function BoardPieces(b: Board, n: nat): seq<PieceObject>
    requires IsBoard(b) && n <= 8
  {
    if n == 0 then [] else BoardPieces(b, n - 1) + ColumnPieces(b[n - 1], 8)
  }

  /** The pieces of ps that belong to the side to move (`isWhite != side`), order kept. */
  function Movers(ps: seq<PieceObject>, side: bool): seq<PieceObject>
  {
    if ps == [] then []
    else if ps[|ps| - 1].isWhite != side then Movers(ps[..|ps| - 1], side) + [ps[|ps| - 1]]
    else Movers(ps[..|ps| - 1], side)
  }

  predicate AllInBounds(ps: seq<PieceObject>)
  {
    forall p :: p in ps ==> InBounds(p.x, p.y)
  }

  /** The captures of the pieces ps, piece by piece. */
  function CapturesOf(b: Board, ps: seq<PieceObject>, side: bool): seq<Move>
    requires IsBoard(b) && AllInBounds(ps)
  {
    if ps == [] then []
    else CapturesOf(b, ps[..|ps| - 1], side) + ForcedMovesFromPiece(b, ps[|ps| - 1], side)
  }

  /** The simple steps of the pieces ps, piece by piece. */
  function StepsOf(b: Board, ps: seq<PieceObject>): seq<Move>
    requires IsBoard(b) && AllInBounds(ps)
  {
    if ps == [] then []
    else StepsOf(b, ps[..|ps| - 1]) + OtherMovesFromPiece(b, ps[|ps| - 1])
  }

  lemma {:induction false} ColumnPiecesMembers(col: Column, n: nat, p: PieceObject)
    requires n <= |col|
    ensures p in ColumnPieces(col, n) <==> exists y :: 0 <= y < n && col[y] == Some(p)
  {
    if n > 0 {
      ColumnPiecesMembers(col, n - 1, p);
    }
  }

  lemma {:induction false} BoardPiecesMembers(b: Board, n: nat, p: PieceObject)
    requires IsBoard(b) && n <= 8
    ensures p in BoardPieces(b, n) <==> exists x, y :: 0 <= x < n && 0 <= y < 8 && b[x][y] == Some(p)
  {
    if n > 0 {
      BoardPiecesMembers(b, n - 1, p);
      ColumnPiecesMembers(b[n - 1], 8, p);
      if p in ColumnPieces(b[n - 1], 8) {
        var y :| 0 <= y < 8 && b[n - 1][y] == Some(p);
        assert b[n - 1][y] == Some(p);
      }
    }
  }

  lemma {:induction false} MoversMembers(ps: seq<PieceObject>, side: bool, p: PieceObject)
    ensures p in Movers(ps, side) <==> p in ps && p.isWhite != side
  {
    if ps != [] {
      MoversMembers(ps[..|ps| - 1], side, p);
      assert ps == ps[..|ps| - 1] + [ps[|ps| - 1]];
    }
  }

  lemma {:induction false} CapturesOfMembers(b: Board, ps: seq<PieceObject>, side: bool, m: Move)
    requires IsBoard(b) && AllInBounds(ps)
    ensures m in CapturesOf(b, ps, side) <==> exists p :: p in ps && IsCaptureFor(b, p, side, m)
  {
    if ps != [] {
      CapturesOfMembers(b, ps[..|ps| - 1], side, m);
      ForcedMovesExact(b, ps[|ps| - 1], side);
      assert ps == ps[..|ps| - 1] + [ps[|ps| - 1]];
    }
  }

  lemma {:induction false} StepsOfMembers(b: Board, ps: seq<PieceObject>, m: Move)
    requires IsBoard(b) && AllInBounds(ps)
    ensures m in StepsOf(b, ps) <==> exists p :: p in ps && IsStepFor(b, p, m)
  {
    if ps != [] {
      StepsOfMembers(b, ps[..|ps| - 1], m);
      OtherMovesExact(b, ps[|ps| - 1]);
      assert ps == ps[..|ps| - 1] + [ps[|ps| - 1]];
    }
  }

  /** The pieces of the side to move are exactly the pieces on the board whose colour differs from side. */
  lemma SidePiecesMembers(b: Board, side: bool, p: PieceObject)
    requires WellFormed(b)
    ensures p in Movers(BoardPieces(b, 8), side) <==>
            InBounds(p.x, p.y) && b[p.x][p.y] == Some(p) && p.isWhite != side
  {
    MoversMembers(BoardPieces(b, 8), side, p);
    BoardPiecesMembers(b, 8, p);
    if p in BoardPieces(b, 8) {
      var x, y :| 0 <= x < 8 && 0 <= y < 8 && b[x][y] == Some(p);
    }
  }

  /** The pieces of the side to move, in scan order. */
  ghost function SidePieces(b: Board, side: bool): (r: seq<PieceObject>)
    requires WellFormed(b)
    ensures AllInBounds(r)
  {
    var r := Movers(BoardPieces(b, 8), side);
    forall p | p in r ensures InBounds(p.x, p.y) {
      SidePiecesMembers(b, side, p);
    }
    r
  }

  /**
   * What PossibleMoves returns: every capture of the side to move if there is
   * one (mandatory capture), and otherwise every simple step.
   */
  ghost function LegalMoves(b: Board, side: bool): seq<Move>
    requires WellFormed(b)
  {
    var ps := SidePieces(b, side);
    var captures := CapturesOf(b, ps, side);
    if captures != [] then captures else StepsOf(b, ps)
  }

  /** Assets/MCTS.cs PossibleMoves: collect, filter by colour, captures first, steps only if none. */
  method PossibleMoves(b: Board, side: bool) returns (moves: seq<Move>)
    requires WellFormed(b)
    ensures moves == LegalMoves(b, side)
  {
    var piecesToMove := ScanPieces(b);
    var own := KeepMovers(piecesToMove, side);
    assert own == SidePieces(b, side);
    moves := GatherCaptures(b, own, side);
    if moves == [] {
      moves := GatherSteps(b, own);
    }
  }

  /** The first loop of PossibleMoves: every piece on the board, column by column. */
  method ScanPieces(b: Board) returns (piecesToMove: seq<PieceObject>)
    requires IsBoard(b)
    ensures piecesToMove == BoardPieces(b, 8)
  {
    piecesToMove := [];
    for x := 0 to 8
      invariant piecesToMove == BoardPieces(b, x)
    {
      for y := 0 to 8
        invariant piecesToMove == BoardPieces(b, x) + ColumnPieces(b[x], y)
      {
        if b[x][y].Some? {
          piecesToMove := piecesToMove + [b[x][y].value];
        }
      }
    }
  }

  /** The colour filter of PossibleMoves: the pieces whose colour differs from side, in order. */
  method KeepMovers(ps: seq<PieceObject>, side: bool) returns (own: seq<PieceObject>)
    ensures own == Movers(ps, side)
  {
    own := [];
    for i := 0 to |ps|
      invariant own == Movers(ps[..i], side)
    {
      assert ps[..i + 1][..i] == ps[..i];
      if ps[i].isWhite != side {
        own := own + [ps[i]];
      }
    }
    assert ps[..|ps|] == ps;
  }

  /** The capture loop of PossibleMoves: ForcedMovesFromPiece of each piece, concatenated. */
  method GatherCaptures(b: Board, ps: seq<PieceObject>, side: bool) returns (moves: seq<Move>)
    requires IsBoard(b) && AllInBounds(ps)
    ensures moves == CapturesOf(b, ps, side)
  {
    moves := [];
    for i := 0 to |ps|
      invariant moves == CapturesOf(b, ps[..i], side)
    {
      assert ps[..i + 1][..i] == ps[..i];
      moves := moves + ForcedMovesFromPiece(b, ps[i], side);
    }
    assert ps[..|ps|] == ps;
  }

  /** The step loop of PossibleMoves: OtherMovesFromPiece of each piece, concatenated. */
  method GatherSteps(b: Board, ps: seq<PieceObject>) returns (moves: seq<Move>)
    requires IsBoard(b) && AllInBounds(ps)
    ensures moves == StepsOf(b, ps)
  {
    moves := [];
    for i := 0 to |ps|
      invariant moves == StepsOf(b, ps[..i])
    {
      assert ps[..i + 1][..i] == ps[..i];
      moves := moves + OtherMovesFromPiece(b, ps[i]);
    }
    assert ps[..|ps|] == ps;
  }

  // ---------------------------------------------------------------------
  // Properties of the generated moves
  // ---------------------------------------------------------------------

  /** (x, y) holds a piece of the side to move. */
  ghost predicate OwnPieceAt(b: Board, side: bool, x: int, y: int)
    requires IsBoard(b)
  {
    InBounds(x, y) && b[x][y].Some? && b[x][y].value.isWhite != side
  }

  /** m is a capture by a piece of the side to move, standing on m's start square. */
  ghost predicate LegalCapture(b: Board, side: bool, m: Move)
    requires IsBoard(b)
  {
    OwnPieceAt(b, side, m.xStart, m.yStart) && IsCaptureFor(b, b[m.xStart][m.yStart].value, side, m)
  }

  /** m is a simple step by a piece of the side to move, standing on m's start square. */
  ghost predicate LegalStep(b: Board, side: bool, m: Move)
    requires IsBoard(b)
  {
    OwnPieceAt(b, side, m.xStart, m.yStart) && IsStepFor(b, b[m.xStart][m.yStart].value, m)
  }

  ghost predicate CaptureAvailable(b: Board, side: bool)
    requires IsBoard(b)
  {
    exists m :: LegalCapture(b, side, m)
  }

  /**
   * The move rule stated directly: a capture of the side to move when one is
   * available, and otherwise a simple step of the side to move.
   */
  ghost predicate IsLegal(b: Board, side: bool, m: Move)
    requires IsBoard(b)
  {
    if CaptureAvailable(b, side) then LegalCapture(b, side, m) else LegalStep(b, side, m)
  }

  lemma CapturesAreLegalCaptures(b: Board, side: bool, m: Move)
    requires WellFormed(b)
    ensures m in CapturesOf(b, SidePieces(b, side), side) <==> LegalCapture(b, side, m)
  {
    var ps := SidePieces(b, side);
    CapturesOfMembers(b, ps, side, m);
    if LegalCapture(b, side, m) {
      SidePiecesMembers(b, side, b[m.xStart][m.yStart].value);
    }
    if m in CapturesOf(b, ps, side) {
      var p :| p in ps && IsCaptureFor(b, p, side, m);
      SidePiecesMembers(b, side, p);
    }
  }

  lemma StepsAreLegalSteps(b: Board, side: bool, m: Move)
    requires WellFormed(b)
    ensures m in StepsOf(b, SidePieces(b, side)) <==> LegalStep(b, side, m)
  {
    var ps := SidePieces(b, side);
    StepsOfMembers(b, ps, m);
    if LegalStep(b, side, m) {
      SidePiecesMembers(b, side, b[m.xStart][m.yStart].value);
    }
    if m in StepsOf(b, ps) {
      var p :| p in ps && IsStepFor(b, p, m);
      SidePiecesMembers(b, side, p);
    }
  }

  /**
   * Mandatory capture, both ways: when a piece of the side to move can
   * capture, the legal moves are exactly the captures of the side's pieces;
   * otherwise they are exactly its simple steps.
   */
  lemma {:induction false} LegalMovesCharacterized(b: Board, side: bool, m: Move)
    requires WellFormed(b)
    ensures m in LegalMoves(b, side) <==>
            if CaptureAvailable(b, side) then LegalCapture(b, side, m) else LegalStep(b, side, m)
  {
    var captures := CapturesOf(b, SidePieces(b, side), side);
    CapturesAreLegalCaptures(b, side, m);
    StepsAreLegalSteps(b, side, m);
    if CaptureAvailable(b, side) {
      var c :| LegalCapture(b, side, c);
      CapturesAreLegalCaptures(b, side, c);
    } else if captures != [] {
      CapturesAreLegalCaptures(b, side, captures[0]);
    }
  }

  /**
   * Every legal move starts on a piece of the side to move, lands on an empty
   * square on the board, goes one square diagonally exactly when no capture
   * is available and two otherwise, and a non-king moves only forwards
   * (white towards y = 7, black towards y = 0).
   */
  lemma LegalMoveShape(b: Board, side: bool, m: Move)
    requires WellFormed(b) && m in LegalMoves(b, side)
    ensures OwnPieceAt(b, side, m.xStart, m.yStart)
    ensures InBounds(m.xEnd, m.yEnd) && b[m.xEnd][m.yEnd].None?
    ensures CaptureAvailable(b, side) ==> Abs(m.xEnd - m.xStart) == 2 && Abs(m.yEnd - m.yStart) == 2
    ensures !CaptureAvailable(b, side) ==> Abs(m.xEnd - m.xStart) == 1 && Abs(m.yEnd - m.yStart) == 1
    ensures Abs(m.yEnd - m.yStart) == 2 ==>
              b[MidX(m)][MidY(m)].Some? && b[MidX(m)][MidY(m)].value.isWhite == side
    ensures !b[m.xStart][m.yStart].value.isKing && b[m.xStart][m.yStart].value.isWhite ==> m.yEnd > m.yStart
    ensures !b[m.xStart][m.yStart].value.isKing && !b[m.xStart][m.yStart].value.isWhite ==> m.yEnd < m.yStart
  {
    LegalMovesCharacterized(b, side, m);
  }

  /** PossibleMoves is empty exactly when the side to move has neither a capture nor a simple step. */
  lemma NoLegalMoves(b: Board, side: bool)
    requires WellFormed(b)
    ensures LegalMoves(b, side) == [] <==>
            !CaptureAvailable(b, side) && forall m :: !LegalStep(b, side, m)
  {
    if LegalMoves(b, side) != [] {
      LegalMovesCharacterized(b, side, LegalMoves(b, side)[0]);
    }
    if CaptureAvailable(b, side) {
      var c :| LegalCapture(b, side, c);
      LegalMovesCharacterized(b, side, c);
    } else if exists m :: LegalStep(b, side, m) {
      var s :| LegalStep(b, side, s);
      LegalMovesCharacterized(b, side, s);
    }
  }

  // ---------------------------------------------------------------------
  // Applying a move: CreateStateFromMove
  // ---------------------------------------------------------------------

  /** A square as the copy in CreateStateFromMove rebuilds it: a new piece of the same colour and kingship, recording (x, y). */
  function Relabel(c: Option<PieceObject>, x: int, y: int): Option<PieceObject>
  {
    if c.Some? then Some(PieceObject(c.value.isWhite, c.value.isKing, x, y)) else None
  }

  function CopyColumn(col: Column, x: int): Column
    requires |col| == 8
  {
    seq(8, y requires 0 <= y < 8 => Relabel(col[y], x, y))
  }

  /** The duplicate of the board made before the move. */
  function CopyBoard(b: Board): (r: Board)
    requires IsBoard(b)
    ensures WellFormed(r)
    ensures forall x, y :: 0 <= x < 8 && 0 <= y < 8 ==> r[x][y] == Relabel(b[x][y], x, y)
  {
    seq(8, x requires 0 <= x < 8 => CopyColumn(b[x], x))
  }

  /** What CreateStateFromMove needs to index its arrays and dereference the moved piece. */
  predicate Applicable(b: Board, m: Move)
  {
    && IsBoard(b)
    && InBounds(m.xStart, m.yStart) && InBounds(m.xEnd, m.yEnd)
    && b[m.xStart][m.yStart].Some?
    && (m.xStart != m.xEnd || m.yStart != m.yEnd)
  }

  /** A move is treated as a capture when it changes y by two (the test of CreateStateFromMove). */
  predicate IsJump(m: Move)
  {
    Abs(m.yStart - m.yEnd) == 2
  }

  /** The updates CreateStateFromMove makes to its copy, in the source's order. */
  function MoveOnCopy(copy: Board, m: Move): Board
    requires Applicable(copy, m)
  {
    var pieceToMove := copy[m.xStart][m.yStart].value;
    var placed := Put(copy, m.xEnd, m.yEnd, Some(pieceToMove));
    var vacated := Put(placed, m.xStart, m.yStart, None);
    var relocated := Put(vacated, m.xEnd, m.yEnd, Some(pieceToMove.(x := m.xEnd, y := m.yEnd)));
    var taken := if IsJump(m) then Put(relocated, MidX(m), MidY(m), None) else relocated;
    var p := taken[m.xEnd][m.yEnd].value;
    if (m.yEnd == 7 && p.isWhite) || (m.yEnd == 0 && !p.isWhite)
    then Put(taken, m.xEnd, m.yEnd, Some(p.(isKing := true)))
    else taken
  }

  /**
   * Square (x, y) after move m: the end square holds the moved piece,
   * recording its new square and promoted on reaching its far row (never
   * demoted); the start square and, for a jump, the square jumped over are
   * empty; every other square keeps its piece, relabelled with its square.
   */
  function MovedCell(b: Board, m: Move, x: int, y: int): Option<PieceObject>
    requires Applicable(b, m) && InBounds(x, y)
  {
    var p := b[m.xStart][m.yStart].value;
    if x == m.xEnd && y == m.yEnd then
      Some(PieceObject(p.isWhite, p.isKing || (p.isWhite && m.yEnd == 7) || (!p.isWhite && m.yEnd == 0), m.xEnd, m.yEnd))
    else if (x == m.xStart && y == m.yStart) || (IsJump(m) && x == MidX(m) && y == MidY(m)) then None
    else Relabel(b[x][y], x, y)
  }

  /** The board after move m, square by square. */
  function ApplyMove(b: Board, m: Move): (r: Board)
    requires Applicable(b, m)
    ensures WellFormed(r)
  {
    seq(8, x requires 0 <= x < 8 => seq(8, y requires 0 <= y < 8 => MovedCell(b, m, x, y)))
  }

  /**
   * The source's update sequence on the copy (place, vacate, relabel, clear
   * the jumped square, promote) yields exactly the board ApplyMove describes.
   */
  lemma MoveOnCopyApplies(b: Board, m: Move)
    requires Applicable(b, m)
    ensures MoveOnCopy(CopyBoard(b), m) == ApplyMove(b, m)
  {
    var r := MoveOnCopy(CopyBoard(b), m);
    var a := ApplyMove(b, m);
    forall x | 0 <= x < 8 ensures r[x] == a[x] {
      forall y | 0 <= y < 8 ensures r[x][y] == a[x][y] {
        MoveOnCopyCell(b, m, x, y);
      }
    }
  }

  lemma MoveOnCopyCell(b: Board, m: Move, x: int, y: int)
    requires Applicable(b, m) && InBounds(x, y)
    ensures MoveOnCopy(CopyBoard(b), m)[x][y] == MovedCell(b, m, x, y)
  {
  }

  /** On a well-formed board the copy changes nothing, so all other squares are literally unchanged. */
  lemma ApplyMoveFrame(b: Board, m: Move, x: int, y: int)
    requires WellFormed(b) && Applicable(b, m)
    requires InBounds(x, y)
    requires (x != m.xStart || y != m.yStart) && (x != m.xEnd || y != m.yEnd)
    requires !IsJump(m) || x != MidX(m) || y != MidY(m)
    ensures ApplyMove(b, m)[x][y] == b[x][y]
  {
  }

  /**
   * Assets/MCTS.cs CreateStateFromMove: copies the board square by square,
   * then makes the move on the copy; the input board is a value and is left
   * as it was. The no-progress counter is reset by a jump and otherwise
   * incremented.
   */
  method CreateStateFromMove(gameState: Board, move: Move, movesSinceLastTake: int)
    returns (gameStateNew: Board, counter: int)
    requires Applicable(gameState, move)
    ensures gameStateNew == ApplyMove(gameState, move)
    ensures counter == if IsJump(move) then 0 else movesSinceLastTake + 1
  {
    var copy: Board := [];
    for x := 0 to 8
      invariant |copy| == x
      invariant forall i :: 0 <= i < x ==> copy[i] == CopyColumn(gameState[i], i)
    {
      var column: Column := [];
      for y := 0 to 8
        invariant |column| == y
        invariant forall j :: 0 <= j < y ==> column[j] == Relabel(gameState[x][j], x, j)
      {
        column := column + [Relabel(gameState[x][y], x, y)];
      }
      copy := copy + [column];
    }
    assert copy == CopyBoard(gameState);
    gameStateNew := MoveOnCopy(copy, move);
    MoveOnCopyApplies(gameState, move);
    counter := if IsJump(move) then 0 else movesSinceLastTake + 1;
  }

  // ---------------------------------------------------------------------
  // Piece count: every move keeps it or, by a capture, lowers it by one
  // ---------------------------------------------------------------------

  /** The number of pieces on the board. */
  function Occupancy(b: Board): nat
    requires IsBoard(b)
  {
    |BoardPieces(b, 8)|
  }

  function Ind(c: bool): nat { if c then 1 else 0 }

  lemma {:induction false} ColumnCountUpdate(col: Column, n: nat, y: nat, v: Option<PieceObject>)
    requires n <= |col| && y < |col|
    ensures |ColumnPieces(col[y := v], n)| + Ind(y < n && col[y].Some?) == |ColumnPieces(col, n)| + Ind(y < n && v.Some?)
  {
    if n > 0 {
      ColumnCountUpdate(col, n - 1, y, v);
    }
  }

  lemma {:induction false} BoardCountPut(b: Board, n: nat, x: int, y: int, v: Option<PieceObject>)
    requires IsBoard(b) && n <= 8 && InBounds(x, y)
    ensures |BoardPieces(Put(b, x, y, v), n)| + Ind(x < n && b[x][y].Some?) == |BoardPieces(b, n)| + Ind(x < n && v.Some?)
  {
    if n > 0 {
      BoardCountPut(b, n - 1, x, y, v);
      var r := Put(b, x, y, v);
      if x == n - 1 {
        assert r[n - 1] == b[n - 1][y := v];
        ColumnCountUpdate(b[n - 1], 8, y, v);
      } else {
        assert r[n - 1] == b[n - 1];
      }
    }
  }

  lemma PutCount(b: Board, x: int, y: int, v: Option<PieceObject>)
    requires IsBoard(b) && InBounds(x, y)
    ensures Occupancy(Put(b, x, y, v)) + Ind(b[x][y].Some?) == Occupancy(b) + Ind(v.Some?)
  {
    BoardCountPut(b, 8, x, y, v);
  }

  lemma {:induction false} CopyColumnCount(col: Column, x: int, n: nat)
    requires |col| == 8 && n <= 8
    ensures |ColumnPieces(CopyColumn(col, x), n)| == |ColumnPieces(col, n)|
  {
    if n > 0 {
      CopyColumnCount(col, x, n - 1);
    }
  }

  lemma {:induction false} CopyBoardCount(b: Board, n: nat)
    requires IsBoard(b) && n <= 8
    ensures |BoardPieces(CopyBoard(b), n)| == |BoardPieces(b, n)|
  {
    if n > 0 {
      CopyBoardCount(b, n - 1);
      CopyColumnCount(b[n - 1], n - 1, 8);
    }
  }

  /**
   * Applying a move onto an empty square keeps the number of pieces, except
   * that a jump over an occupied square removes exactly one.
   */
  lemma ApplyMoveCount(b: Board, m: Move)
    requires Applicable(b, m) && b[m.xEnd][m.yEnd].None?
    ensures Occupancy(ApplyMove(b, m)) + Ind(IsJump(m) && b[MidX(m)][MidY(m)].Some?) == Occupancy(b)
  {
    MoveOnCopyApplies(b, m);
    var copy: Board := CopyBoard(b);
    CopyBoardCount(b, 8);
    var pieceToMove := copy[m.xStart][m.yStart].value;
    var placed := Put(copy, m.xEnd, m.yEnd, Some(pieceToMove));
    PutCount(copy, m.xEnd, m.yEnd, Some(pieceToMove));
    var vacated := Put(placed, m.xStart, m.yStart, None);
    PutCount(placed, m.xStart, m.yStart, None);
    var relocated := Put(vacated, m.xEnd, m.yEnd, Some(pieceToMove.(x := m.xEnd, y := m.yEnd)));
    PutCount(vacated, m.xEnd, m.yEnd, Some(pieceToMove.(x := m.xEnd, y := m.yEnd)));
    var taken: Board := if IsJump(m) then Put(relocated, MidX(m), MidY(m), None) else relocated;
    if IsJump(m) {
      PutCount(relocated, MidX(m), MidY(m), None);
    }
    var p := taken[m.xEnd][m.yEnd].value;
    if (m.yEnd == 7 && p.isWhite) || (m.yEnd == 0 && !p.isWhite) {
      PutCount(taken, m.xEnd, m.yEnd, Some(p.(isKing := true)));
    }
  }

  /** A legal move is applicable, and the position after it has one piece fewer after a capture and as many otherwise. */
  lemma LegalMoveCount(b: Board, side: bool, m: Move)
    requires WellFormed(b) && m in LegalMoves(b, side)
    ensures Applicable(b, m)
    ensures Occupancy(ApplyMove(b, m)) == Occupancy(b) - Ind(IsJump(m))
  {
    LegalMoveShape(b, side, m);
    ApplyMoveCount(b, m);
  }

  // ---------------------------------------------------------------------
  // End of game: CheckEndGame
  // ---------------------------------------------------------------------

  /** Some piece of the given colour is on the board. */
  ghost predicate HasColour(b: Board, white: bool)
    requires IsBoard(b)
  {
    exists x, y :: 0 <= x < 8 && 0 <= y < 8 && b[x][y].Some? && b[x][y].value.isWhite == white
  }

  /**
   * The result codes of CheckEndGame: 2 when no white piece is left (black,
   * the algorithm, wins), else 1 when no black piece is left, else 3 (draw)
   * when the side to move cannot move or more than 40 moves were made since
   * the last capture, else 0 (the game goes on).
   */
  ghost function EndGameResult(b: Board, side: bool, movesSinceLastTake: int): int
    requires WellFormed(b)
  {
    if !HasColour(b, true) then 2
    else if !HasColour(b, false) then 1
    else if LegalMoves(b, side) == [] || movesSinceLastTake > 40 then 3
    else 0
  }

  /** A well-formed position on which CheckEndGame reports a result. */
  ghost predicate GameOver(b: Board, side: bool, movesSinceLastTake: int)
  {
    WellFormed(b) && EndGameResult(b, side, movesSinceLastTake) != 0
  }

  /** A game that goes on has a move to make, is within the no-progress limit and has both colours. */
  lemma OngoingHasMoves(b: Board, side: bool, movesSinceLastTake: int)
    requires WellFormed(b) && EndGameResult(b, side, movesSinceLastTake) == 0
    ensures LegalMoves(b, side) != [] && movesSinceLastTake <= 40
    ensures HasColour(b, true) && HasColour(b, false)
  {
  }

  /** A piece of the given colour stands on a square scanned before (i, j) in column-major order. */
  ghost predicate ColourBefore(b: Board, white: bool, i: int, j: int)
    requires IsBoard(b)
  {
    exists x, y :: 0 <= x < 8 && 0 <= y < 8 && (x < i || (x == i && y < j)) &&
                   b[x][y].Some? && b[x][y].value.isWhite == white
  }

  /** The scan of CheckEndGame: whether any white and any black piece is on the board. */
  method ColoursRemaining(gameState: Board) returns (whiteRemaining: bool, blackRemaining: bool)
    requires IsBoard(gameState)
    ensures whiteRemaining == HasColour(gameState, true)
    ensures blackRemaining == HasColour(gameState, false)
  {
    whiteRemaining := false;
    blackRemaining := false;
    for i := 0 to 8
      invariant whiteRemaining == ColourBefore(gameState, true, i, 0)
      invariant blackRemaining == ColourBefore(gameState, false, i, 0)
    {
      for j := 0 to 8
        invariant whiteRemaining == ColourBefore(gameState, true, i, j)
        invariant blackRemaining == ColourBefore(gameState, false, i, j)
      {
        if gameState[i][j].Some? {
          if gameState[i][j].value.isWhite {
            whiteRemaining := true;
          } else {
            blackRemaining := true;
          }
        }
      }
    }
  }

  /** Assets/MCTS.cs CheckEndGame: scans for both colours, then asks PossibleMoves. */
  method CheckEndGame(gameState: Board, side: bool, mslt: int) returns (r: int)
    requires WellFormed(gameState)
    ensures r == EndGameResult(gameState, side, mslt)
    ensures 0 <= r <= 3
  {
    var whiteRemaining, blackRemaining := ColoursRemaining(gameState);
    if !whiteRemaining {
      return 2;
    } else if !blackRemaining {
      return 1;
    }
    var moves := PossibleMoves(gameState, side);
    if |moves| == 0 || mslt > 40 {
      return 3;
    }
    return 0;
  }
}
