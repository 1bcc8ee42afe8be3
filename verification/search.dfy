/**
 * The search engine of Assets/MCTS.cs: the tree of nodes, the root build of
 * StartMCTS, one iteration of selection, expansion, simulation and
 * backpropagation, and the final choice of MakeBestMove.
 *
 * Random choices are nondeterministic (`:|`), the UCB1 score is an abstract
 * function `ucb(wins, simulations, totalSimulations)`, and the wall-clock
 * budget is a number of iterations.
 */
module Search {
  import opened Board
  import opened Rules

  /** A node of the search tree: a position and its statistics. */
  class Node {
    const boardState: Board
    var simulations: int
    var wins: int
    var childNodes: seq<Node>
    const moveFromParent: Option<Move>
    const parentNode: Node?
    const lastMovedPiece: Option<PieceObject>

    constructor (boardState: Board, simulations: int, wins: int, moveFromParent: Option<Move>,
                 parentNode: Node?, lastMovedPiece: Option<PieceObject>)
      ensures this.boardState == boardState && this.simulations == simulations && this.wins == wins
      ensures this.childNodes == [] && this.moveFromParent == moveFromParent
      ensures this.parentNode == parentNode && this.lastMovedPiece == lastMovedPiece
    {
      this.boardState := boardState;
      this.simulations := simulations;
      this.wins := wins;
      this.childNodes := [];
      this.moveFromParent := moveFromParent;
      this.parentNode := parentNode;
      this.lastMovedPiece := lastMovedPiece;
    }
  }

  /** Unity's Random.Range(0, count - 1) on integers: the upper bound is exclusive, and Range(0, 0) gives 0. */
  predicate RangeIndex(k: int, count: int)
  {
    0 <= k < (if count > 1 then count - 1 else 1)
  }

  /**
   * Assets/MCTS.cs RandomMove: a move drawn from PossibleMoves with the index
   * range above, so with two or more moves the last one is never drawn.
   * None stands for the empty list, where the source's indexing fails.
   */
  method RandomMove(gameState: Board, side: bool) returns (move: Option<Move>)
    requires WellFormed(gameState)
    ensures move.None? <==> LegalMoves(gameState, side) == []
    ensures move.Some? ==>
              exists k :: RangeIndex(k, |LegalMoves(gameState, side)|) && k < |LegalMoves(gameState, side)| &&
                          move.value == LegalMoves(gameState, side)[k]
  {
    var possibleMoves := PossibleMoves(gameState, side);
    if |possibleMoves| == 0 {
      return None;
    }
    var count := |possibleMoves|;
    assert RangeIndex(0, count);
    var k :| RangeIndex(k, count) && k < count;
    assert RangeIndex(k, count);
    return Some(possibleMoves[k]);
  }

  /**
   * The side to move after m: it stays when the moved piece can capture
   * again, and flips otherwise.
   */
  function NextSide(after: Board, m: Move, side: bool): bool
    requires IsBoard(after) && InBounds(m.xEnd, m.yEnd) && after[m.xEnd][m.yEnd].Some?
    requires InBounds(after[m.xEnd][m.yEnd].value.x, after[m.xEnd][m.yEnd].value.y)
  {
    if ForcedMovesFromPiece(after, after[m.xEnd][m.yEnd].value, side) == [] then !side else side
  }

  /** The side keeps the turn exactly when the moved piece has a capture from its new square. */
  lemma NextSideExact(after: Board, m: Move, side: bool)
    requires IsBoard(after) && InBounds(m.xEnd, m.yEnd) && after[m.xEnd][m.yEnd].Some?
    requires InBounds(after[m.xEnd][m.yEnd].value.x, after[m.xEnd][m.yEnd].value.y)
    ensures NextSide(after, m, side) == side <==> exists c :: IsCaptureFor(after, after[m.xEnd][m.yEnd].value, side, c)
  {
    var piece := after[m.xEnd][m.yEnd].value;
    var captures := ForcedMovesFromPiece(after, piece, side);
    ForcedMovesExact(after, piece, side);
    if captures != [] {
      assert IsCaptureFor(after, piece, side, captures[0]);
    }
  }

  /**
   * The moves RandomMove can draw from a list: Random.Range(0, count - 1)
   * leaves out the last of two or more.
   */
  function Drawable(moves: seq<Move>): seq<Move>
  {
    moves[..if |moves| > 1 then |moves| - 1 else |moves|]
  }

  /** A move is drawable exactly when an index in RandomMove's range holds it. */
  lemma DrawableExact(moves: seq<Move>, m: Move)
    ensures m in Drawable(moves) <==> exists k :: RangeIndex(k, |moves|) && k < |moves| && m == moves[k]
  {
    var d := Drawable(moves);
    if m in d {
      var k :| 0 <= k < |d| && d[k] == m;
      assert RangeIndex(k, |moves|) && m == moves[k];
    }
    if exists k :: RangeIndex(k, |moves|) && k < |moves| && m == moves[k] {
      var k :| RangeIndex(k, |moves|) && k < |moves| && m == moves[k];
      assert d[k] == m;
    }
  }

  /** `after` is `before` with m made on it, where m is a legal move of `side`. */
  ghost predicate MoveMade(before: Board, m: Option<Move>, after: Board, side: bool)
  {
    && WellFormed(before)
    && m.Some?
    && IsLegal(before, side, m.value)
    && Applicable(before, m.value)
    && after == ApplyMove(before, m.value)
  }

  /**
   * MoveMade, `next` is the side to move after it, as NextSide gives, and
   * `nextCount` the no-progress counter after it, which a jump resets and any
   * other move raises by one from `count`.
   */
  ghost predicate TurnMade(before: Board, m: Option<Move>, after: Board, side: bool, next: bool, count: int, nextCount: int)
  {
    && MoveMade(before, m, after, side)
    && var mv := m.value;
       && IsBoard(after) && InBounds(mv.xEnd, mv.yEnd) && after[mv.xEnd][mv.yEnd].Some?
       && InBounds(after[mv.xEnd][mv.yEnd].value.x, after[mv.xEnd][mv.yEnd].value.y)
       && next == NextSide(after, mv, side)
       && nextCount == (if IsJump(mv) then 0 else count + 1)
  }

  /** The move that made child is one RandomMove can draw from parent's moves for `side`. */
  ghost predicate Drawn(parent: Node, child: Node, side: bool)
  {
    && WellFormed(parent.boardState)
    && child.moveFromParent.Some?
    && child.moveFromParent.value in Drawable(LegalMoves(parent.boardState, side))
  }

  /** child was made from parent by a drawable legal move of `side`. */
  ghost predicate Follows(parent: Node, child: Node, side: bool)
  {
    MoveMade(parent.boardState, child.moveFromParent, child.boardState, side) && Drawn(parent, child, side)
  }

  /**
   * child was made from parent by a legal move of `side`; `next` is the side
   * to move and `nextCount` the counter after it.
   */
  ghost predicate Turn(parent: Node, child: Node, side: bool, next: bool, count: int, nextCount: int)
  {
    TurnMade(parent.boardState, child.moveFromParent, child.boardState, side, next, count, nextCount)
  }

  /** child is a new leaf under parent: one simulation, no win, no children. */
  ghost predicate SimStep(parent: Node, child: Node)
    reads child`simulations, child`wins, child`childNodes
  {
    && child.parentNode == parent
    && child.simulations == 1 && child.wins == 0 && child.childNodes == []
  }

  /** A position where CheckEndGame reports 0: the game goes on. */
  ghost predicate Ongoing(b: Board, side: bool, count: int)
  {
    WellFormed(b) && EndGameResult(b, side, count) == 0
  }

  /**
   * A simulated line of play: every node after the first is a new leaf under
   * the one before it, made from an ongoing position (sides[k - 1] to move,
   * counts[k - 1] moves since the last capture) by a move of sides[k - 1]
   * that RandomMove can draw, after which sides[k] is to move with counter
   * counts[k].
   */
  ghost predicate Line(ns: seq<Node>, sides: seq<bool>, counts: seq<int>)
    reads ns`simulations, ns`wins, ns`childNodes
  {
    && |sides| == |ns| && |counts| == |ns|
    && Steps(ns, sides, counts) && Draws(ns, sides) && Continuing(ns, sides, counts)
  }

  /** Each node of ns after the first is a new leaf made by a turn from the one before it. */
  ghost predicate Steps(ns: seq<Node>, sides: seq<bool>, counts: seq<int>)
    requires |sides| == |ns| && |counts| == |ns|
    reads ns`simulations, ns`wins, ns`childNodes
  {
    forall k :: 1 <= k < |ns| ==>
      SimStep(ns[k - 1], ns[k]) && Turn(ns[k - 1], ns[k], sides[k - 1], sides[k], counts[k - 1], counts[k])
  }

  /** Each move of ns is one RandomMove can draw for the side to move before it. */
  ghost predicate Draws(ns: seq<Node>, sides: seq<bool>)
    requires |sides| == |ns|
  {
    forall k :: 1 <= k < |ns| ==> Drawn(ns[k - 1], ns[k], sides[k - 1])
  }

  /** The game goes on at every node of ns but the last. */
  ghost predicate Continuing(ns: seq<Node>, sides: seq<bool>, counts: seq<int>)
    requires |sides| == |ns| && |counts| == |ns|
  {
    forall k :: 0 <= k < |ns| - 1 ==> Ongoing(ns[k].boardState, sides[k], counts[k])
  }

  lemma LineExtend(ns: seq<Node>, sides: seq<bool>, counts: seq<int>, n: Node, next: bool, nextCount: int)
    requires |ns| >= 1 && Line(ns, sides, counts)
    requires SimStep(ns[|ns| - 1], n)
    requires Turn(ns[|ns| - 1], n, sides[|sides| - 1], next, counts[|counts| - 1], nextCount)
    requires Drawn(ns[|ns| - 1], n, sides[|sides| - 1])
    requires Ongoing(ns[|ns| - 1].boardState, sides[|sides| - 1], counts[|counts| - 1])
    ensures Line(ns + [n], sides + [next], counts + [nextCount])
  {
    StepsExtend(ns, sides, counts, n, next, nextCount);
    DrawsExtend(ns, sides, n, next);
    ContinuingExtend(ns, sides, counts, next, nextCount, n);
  }

  lemma StepsExtend(ns: seq<Node>, sides: seq<bool>, counts: seq<int>, n: Node, next: bool, nextCount: int)
    requires |ns| >= 1 && |sides| == |ns| && |counts| == |ns| && Steps(ns, sides, counts)
    requires SimStep(ns[|ns| - 1], n)
    requires Turn(ns[|ns| - 1], n, sides[|sides| - 1], next, counts[|counts| - 1], nextCount)
    ensures Steps(ns + [n], sides + [next], counts + [nextCount])
  {
    var ms, ss, cs := ns + [n], sides + [next], counts + [nextCount];
    forall k | 1 <= k < |ms|
      ensures SimStep(ms[k - 1], ms[k]) && Turn(ms[k - 1], ms[k], ss[k - 1], ss[k], cs[k - 1], cs[k])
    {
      if k < |ns| {
        assert ms[k - 1] == ns[k - 1] && ms[k] == ns[k] && ss[k - 1] == sides[k - 1] && ss[k] == sides[k];
        assert cs[k - 1] == counts[k - 1] && cs[k] == counts[k];
      }
    }
  }

  lemma DrawsExtend(ns: seq<Node>, sides: seq<bool>, n: Node, next: bool)
    requires |ns| >= 1 && |sides| == |ns| && Draws(ns, sides)
    requires Drawn(ns[|ns| - 1], n, sides[|sides| - 1])
    ensures Draws(ns + [n], sides + [next])
  {
    var ms, ss := ns + [n], sides + [next];
    forall k | 1 <= k < |ms|
      ensures Drawn(ms[k - 1], ms[k], ss[k - 1])
    {
      assert ms[k - 1] == ns[k - 1] && ss[k - 1] == sides[k - 1];
      if k < |ns| {
        assert ms[k] == ns[k];
      }
    }
  }

  lemma ContinuingExtend(ns: seq<Node>, sides: seq<bool>, counts: seq<int>, next: bool, nextCount: int, n: Node)
    requires |ns| >= 1 && |sides| == |ns| && |counts| == |ns| && Continuing(ns, sides, counts)
    requires Ongoing(ns[|ns| - 1].boardState, sides[|sides| - 1], counts[|counts| - 1])
    ensures Continuing(ns + [n], sides + [next], counts + [nextCount])
  {
    var ms, ss, cs := ns + [n], sides + [next], counts + [nextCount];
    forall k | 0 <= k < |ms| - 1
      ensures Ongoing(ms[k].boardState, ss[k], cs[k])
    {
      assert ms[k] == ns[k] && ss[k] == sides[k] && cs[k] == counts[k];
      if k < |ns| - 1 {
        assert Ongoing(ns[k].boardState, sides[k], counts[k]);
      } else {
        assert k == |ns| - 1;
      }
    }
  }

  /**
   * The counter at the end of a line of two or more nodes is at most 41:
   * the position before it was ongoing, so its counter was at most 40.
   */
  lemma {:induction false} LineCounterBound(ns: seq<Node>, sides: seq<bool>, counts: seq<int>)
    requires |ns| >= 2 && Line(ns, sides, counts)
    ensures counts[|counts| - 1] <= 41
  {
    var k := |ns| - 2;
    assert Ongoing(ns[k].boardState, sides[k], counts[k]);
    OngoingHasMoves(ns[k].boardState, sides[k], counts[k]);
  }

  /**
   * The game played out from sel: a first drawable move of `side` (with
   * counter `count` before it) on a new leaf under sel, then a line of moves, each by
   * the side the move before hands the turn to and each from a game still
   * going on, up to the first finished position.
   */
  ghost predicate PlayedOut(sel: Node, side: bool, count: int, line: seq<Node>, sides: seq<bool>, counts: seq<int>)
    reads line`simulations, line`wins, line`childNodes
  {
    && |line| >= 1 && Line(line, sides, counts)
    && SimStep(sel, line[0]) && Turn(sel, line[0], side, sides[0], count, counts[0]) && Drawn(sel, line[0], side)
    && GameOver(line[|line| - 1].boardState, sides[|sides| - 1], counts[|counts| - 1])
  }

  /** The CheckEndGame code at the end of a line, with the side then to move and the counter then. */
  ghost function FinalCode(line: seq<Node>, sides: seq<bool>, counts: seq<int>): int
  {
    if |line| == 0 || |sides| != |line| || |counts| != |line| || !WellFormed(line[|line| - 1].boardState) then 0
    else EndGameResult(line[|line| - 1].boardState, sides[|sides| - 1], counts[|counts| - 1])
  }

  /** The simulation counts of ns, in order. */
  function SimulationCounts(ns: seq<Node>): (r: seq<int>)
    reads ns`simulations
    ensures |r| == |ns|
    ensures forall i :: 0 <= i < |ns| ==> r[i] == ns[i].simulations
  {
    if ns == [] then [] else SimulationCounts(ns[..|ns| - 1]) + [ns[|ns| - 1].simulations]
  }

  /** The first index holding the least value: the child that `OrderBy(...).First()` yields (the sort is stable). */
  function FirstMinIndex(s: seq<int>): (k: nat)
    requires |s| > 0
    ensures k < |s|
    ensures forall j :: 0 <= j < |s| ==> s[k] <= s[j]
    ensures forall j :: 0 <= j < k ==> s[k] < s[j]
  {
    if |s| == 1 then 0
    else
      var k := FirstMinIndex(s[..|s| - 1]);
      if s[|s| - 1] < s[k] then |s| - 1 else k
  }

  /** The first index holding the greatest value: the most-simulated child. */
  function FirstMaxIndex(s: seq<int>): (k: nat)
    requires |s| > 0
    ensures k < |s|
    ensures forall j :: 0 <= j < |s| ==> s[j] <= s[k]
    ensures forall j :: 0 <= j < k ==> s[j] < s[k]
  {
    if |s| == 1 then 0
    else
      var k := FirstMaxIndex(s[..|s| - 1]);
      if s[|s| - 1] > s[k] then |s| - 1 else k
  }

  /**
   * What MakeBestMove chooses disagrees with its intent whenever the counts
   * differ: the child it takes has strictly fewer simulations than the
   * most-simulated one.
   */
  lemma LeastIsNotMost(s: seq<int>, i: nat, j: nat)
    requires i < |s| && j < |s| && s[i] != s[j]
    ensures s[FirstMinIndex(s)] < s[FirstMaxIndex(s)]
  {
  }

  /** A concrete case: with counts [1, 2] the code takes child 0, the intent child 1. */
  lemma LeastVersusMostExample()
    ensures FirstMinIndex([1, 2]) == 0 && FirstMaxIndex([1, 2]) == 1
  {
  }

  /** k is the first of ns with the fewest simulations. */
  ghost predicate FirstLeastSimulated(ns: seq<Node>, k: int)
    reads ns`simulations
  {
    && 0 <= k < |ns|
    && (forall j :: 0 <= j < |ns| ==> ns[k].simulations <= ns[j].simulations)
    && (forall j :: 0 <= j < k ==> ns[k].simulations < ns[j].simulations)
  }

  /** k is the first of ns with the most simulations. */
  ghost predicate FirstMostSimulated(ns: seq<Node>, k: int)
    reads ns`simulations
  {
    && 0 <= k < |ns|
    && (forall j :: 0 <= j < |ns| ==> ns[j].simulations <= ns[k].simulations)
    && (forall j :: 0 <= j < k ==> ns[j].simulations < ns[k].simulations)
  }

  /**
   * pm is what the search hands to the manager for child c of root: c's
   * move, and the piece standing on its start square in root's position.
   */
  ghost predicate HandsOver(root: Node, c: Node, pm: (PieceObject, Move))
  {
    && c.moveFromParent == Some(pm.1)
    && IsBoard(root.boardState)
    && InBounds(pm.1.xStart, pm.1.yStart)
    && root.boardState[pm.1.xStart][pm.1.yStart] == Some(pm.0)
  }

  /**
   * The choice of Selection over nonnegative scores s (first-found
   * tie-break, and the `currentMax == 0` test of the source): the first
   * greatest score when some score is positive, and the last child when all
   * scores are zero.
   */
  ghost predicate SelectionChoice(s: seq<real>, k: int)
  {
    && 0 <= k < |s|
    && ((exists j :: 0 <= j < |s| && s[j] > 0.0) ==>
          (forall j :: 0 <= j < |s| ==> s[j] <= s[k]) && (forall j :: 0 <= j < k ==> s[j] < s[k]))
    && ((forall j :: 0 <= j < |s| ==> s[j] == 0.0) ==> k == |s| - 1)
  }

  /** The total simulations of ns, as `Sum` computes it. */
  ghost function TotalSimulations(ns: seq<Node>): int
    reads ns`simulations
  {
    if ns == [] then 0 else TotalSimulations(ns[..|ns| - 1]) + ns[|ns| - 1].simulations
  }

  /** The `Sum` over the children's simulations in Selection. */
  method SumSimulations(ns: seq<Node>) returns (total: int)
    ensures total == TotalSimulations(ns)
  {
    total := 0;
    for i := 0 to |ns|
      invariant total == TotalSimulations(ns[..i])
    {
      assert ns[..i + 1][..i] == ns[..i];
      total := total + ns[i].simulations;
    }
    assert ns[..|ns|] == ns;
  }

  /** A score never below zero, as UCB1 (an average win rate plus a square-root bonus) is. */
  type Score = r: real | r >= 0.0

  /**
   * The selection score of a child from its wins, its simulations and the
   * parent's total simulations. The source's UCB1 works in floating point; it
   * is a parameter of the model.
   */
  type Ucb = (int, int, int) -> Score

  /** The UCB scores of ns for a given total. */
  ghost function Scores(ucb: Ucb, ns: seq<Node>, total: int): (r: seq<real>)
    reads ns`wins, ns`simulations
    ensures |r| == |ns|
  {
    if ns == [] then [] else Scores(ucb, ns[..|ns| - 1], total) + [ucb(ns[|ns| - 1].wins, ns[|ns| - 1].simulations, total)]
  }

  lemma {:induction false} ScoresAt(ucb: Ucb, ns: seq<Node>, total: int, i: nat)
    requires i < |ns|
    ensures Scores(ucb, ns, total)[i] == ucb(ns[i].wins, ns[i].simulations, total)
  {
    if i < |ns| - 1 {
      ScoresAt(ucb, ns[..|ns| - 1], total, i);
    }
  }

  /** Every move the generator gives can be applied to the position it was generated on. */
  lemma LegalMovesApplicable(b: Board, side: bool)
    requires WellFormed(b)
    ensures forall m :: m in LegalMoves(b, side) ==> Applicable(b, m)
  {
    forall m | m in LegalMoves(b, side) ensures Applicable(b, m) {
      LegalMoveCount(b, side, m);
    }
  }

  /** c hangs under root and holds the position root's position reaches by c's move. */
  ghost predicate ChildOf(root: Node, c: Node)
  {
    && c.parentNode == root
    && c.moveFromParent.Some?
    && Applicable(root.boardState, c.moveFromParent.value)
    && c.boardState == ApplyMove(root.boardState, c.moveFromParent.value)
  }

  /**
   * The child-building loop of Assets/MCTS.cs StartMCTS: one fresh node per
   * move, on the position CreateStateFromMove gives, with one simulation and
   * no win; the move counter is threaded through as the source does.
   */
  method NewChildren(root: Node, pieces: Board, moves: seq<Move>, counter: int)
    returns (children: seq<Node>, counterOut: int)
    requires root.boardState == pieces
    requires forall m :: m in moves ==> Applicable(pieces, m)
    ensures |children| == |moves|
    ensures forall c :: c in children ==> fresh(c) && c != root && ChildOf(root, c)
    ensures forall c :: c in children ==> c.simulations == 1 && c.wins == 0 && c.childNodes == []
    ensures forall i :: 0 <= i < |moves| ==> children[i].moveFromParent == Some(moves[i])
    ensures forall i, j :: 0 <= i < j < |moves| ==> children[i] != children[j]
  {
    children := [];
    counterOut := counter;
    for x := 0 to |moves|
      invariant |children| == x
      invariant forall c :: c in children ==> fresh(c) && c != root && ChildOf(root, c)
      invariant forall c :: c in children ==> c.simulations == 1 && c.wins == 0 && c.childNodes == []
      invariant forall i :: 0 <= i < x ==> children[i].moveFromParent == Some(moves[i])
      invariant forall i, j :: 0 <= i < j < x ==> children[i] != children[j]
    {
      var move := moves[x];
      var boardState;
      boardState, counterOut := CreateStateFromMove(pieces, move, counterOut);
      var child := new Node(boardState, 1, 0, Some(move), root, None);
      children := children + [child];
    }
  }

  /**
   * The tree StartMCTS builds: a fresh root on the given position, with one
   * child per move PossibleMoves gives for `side`, in that order.
   */
  method NewTree(pieces: Board, side: bool, counter: int) returns (root: Node, counterOut: int)
    requires WellFormed(pieces)
    ensures fresh(root) && root.boardState == pieces && root.simulations == 0 && root.wins == 0
    ensures |root.childNodes| == |LegalMoves(pieces, side)|
    ensures forall i :: 0 <= i < |root.childNodes| ==>
              root.childNodes[i].moveFromParent == Some(LegalMoves(pieces, side)[i])
    ensures forall c :: c in root.childNodes ==>
              fresh(c) && c != root && ChildOf(root, c) && c.simulations == 1 && c.wins == 0 && c.childNodes == []
    ensures forall i, j :: 0 <= i < j < |root.childNodes| ==> root.childNodes[i] != root.childNodes[j]
  {
    root := new Node(pieces, 0, 0, None, null, None);
    var possibleMoves := PossibleMoves(pieces, side);
    LegalMovesApplicable(pieces, side);
    var children;
    children, counterOut := NewChildren(root, pieces, possibleMoves, counter);
    root.childNodes := children;
  }

  /** The state of the search. */
  class Mcts {
    var rootNode: Node
    var algorithmRunning: bool
    var isAlgorithm: bool
    var movesSinceLastTake: int

    /** The tree: a well-formed root position and distinct children, each made from it by its move. */
    ghost predicate Shape()
      reads this`rootNode, rootNode`childNodes
    {
      && WellFormed(rootNode.boardState)
      && (forall i, j :: 0 <= i < j < |rootNode.childNodes| ==> rootNode.childNodes[i] != rootNode.childNodes[j])
      && (forall c :: c in rootNode.childNodes ==> c != rootNode && ChildOf(rootNode, c))
    }

    /** Every child has won at most the games it has simulated. */
    ghost predicate Counts()
      reads this`rootNode, rootNode`childNodes, rootNode.childNodes`wins, rootNode.childNodes`simulations
    {
      forall c :: c in rootNode.childNodes ==> 0 <= c.wins <= c.simulations
    }

    ghost predicate Valid()
      reads this`rootNode, rootNode`childNodes
      reads rootNode.childNodes`wins, rootNode.childNodes`simulations
    {
      Shape() && Counts()
    }

    /** The MCTS component before its first turn: no tree yet (an empty root), the algorithm's flag set. */
    constructor ()
      ensures Valid() && rootNode.childNodes == []
      ensures isAlgorithm && movesSinceLastTake == 0 && !algorithmRunning
    {
      rootNode := new Node(seq(8, _ => seq(8, _ => None)), 0, 0, None, null, None);
      algorithmRunning := false;
      isAlgorithm := true;
      movesSinceLastTake := 0;
    }

    /**
     * Assets/MCTS.cs StartMCTS: a fresh root on the given position with one
     * child per move PossibleMoves gives for the current flag, each child on
     * the position after its move with one simulation and no win; then the
     * counter is reset, the flag cleared and the algorithm marked running.
     */
    method StartMCTS(pieces: Board)
      requires WellFormed(pieces)
      modifies this
      ensures Valid() && fresh(rootNode)
      ensures rootNode.boardState == pieces && rootNode.simulations == 0 && rootNode.wins == 0
      ensures |rootNode.childNodes| == |LegalMoves(pieces, old(isAlgorithm))|
      ensures forall i :: 0 <= i < |rootNode.childNodes| ==>
                rootNode.childNodes[i].moveFromParent == Some(LegalMoves(pieces, old(isAlgorithm))[i])
      ensures forall c :: c in rootNode.childNodes ==>
                fresh(c) && c.simulations == 1 && c.wins == 0 && c.childNodes == []
      ensures movesSinceLastTake == 0 && !isAlgorithm && algorithmRunning
    {
      rootNode, movesSinceLastTake := NewTree(pieces, isAlgorithm, movesSinceLastTake);
      movesSinceLastTake := 0;
      isAlgorithm := false;
      algorithmRunning := true;
    }

    /**
     * Assets/MCTS.cs Selection: scores every child of the root with ucb and
     * keeps a child when its score beats the best so far or the best so far
     * is zero. None stands for a root without children, where the source
     * returns an empty node.
     */
    method Selection(ucb: Ucb) returns (selected: Option<nat>)
      ensures selected.None? <==> rootNode.childNodes == []
      ensures selected.Some? ==>
                SelectionChoice(Scores(ucb, rootNode.childNodes, TotalSimulations(rootNode.childNodes)), selected.value)
    {
      var children := rootNode.childNodes;
      var totalSimulations := SumSimulations(children);
      ghost var s := Scores(ucb, children, totalSimulations);
      var currentMax := 0.0;
      selected := None;
      for i := 0 to |children|
        invariant currentMax >= 0.0
        invariant i == 0 ==> selected.None? && currentMax == 0.0
        invariant i > 0 ==> selected.Some? && selected.value < i && currentMax == s[selected.value]
        invariant currentMax > 0.0 ==>
                    (selected.Some? &&
                     (forall j :: 0 <= j < i ==> s[j] <= currentMax) &&
                     (forall j :: 0 <= j < selected.value ==> s[j] < currentMax))
        invariant currentMax == 0.0 ==> (forall j :: 0 <= j < i ==> s[j] == 0.0) && (i > 0 ==> selected == Some(i - 1))
      {
        var x := ucb(children[i].wins, children[i].simulations, totalSimulations);
        ScoresAt(ucb, children, totalSimulations, i);
        if x > currentMax || currentMax == 0.0 {
          currentMax := x;
          selected := Some(i);
        }
      }
    }

    /**
     * Assets/MCTS.cs SimulateMove: a random move of the side the flag names,
     * one RandomMove can draw, made on a new node under currentNode; the flag flips unless the moved
     * piece can capture again. None stands for a position without moves,
     * where the source's RandomMove fails.
     */
    method SimulateMove(currentNode: Node) returns (simNode: Option<Node>)
      requires WellFormed(currentNode.boardState)
      modifies this`isAlgorithm, this`movesSinceLastTake
      ensures simNode.None? <==> LegalMoves(currentNode.boardState, old(isAlgorithm)) == []
      ensures simNode.None? ==> isAlgorithm == old(isAlgorithm) && movesSinceLastTake == old(movesSinceLastTake)
      ensures simNode.Some? ==>
                var n := simNode.value;
                && fresh(n) && n.parentNode == currentNode
                && n.simulations == 1 && n.wins == 0 && n.childNodes == []
                && Follows(currentNode, n, old(isAlgorithm))
                && var m := n.moveFromParent.value;
                   && n.lastMovedPiece == n.boardState[m.xEnd][m.yEnd]
                   && movesSinceLastTake == (if IsJump(m) then 0 else old(movesSinceLastTake) + 1)
                   && isAlgorithm == NextSide(n.boardState, m, old(isAlgorithm))
                   && Occupancy(n.boardState) + Ind(IsJump(m)) == Occupancy(currentNode.boardState)
    {
      var randMove := RandomMove(currentNode.boardState, isAlgorithm);
      if randMove.None? {
        return None;
      }
      var m := randMove.value;
      DrawableExact(LegalMoves(currentNode.boardState, isAlgorithm), m);
      LegalMoveCount(currentNode.boardState, isAlgorithm, m);
      LegalMovesCharacterized(currentNode.boardState, isAlgorithm, m);
      var newState;
      newState, movesSinceLastTake := CreateStateFromMove(currentNode.boardState, m, movesSinceLastTake);
      var movedPiece := newState[m.xEnd][m.yEnd];
      var n := new Node(newState, 1, 0, Some(m), currentNode, movedPiece);
      if ForcedMovesFromPiece(newState, movedPiece.value, isAlgorithm) == [] {
        isAlgorithm := !isAlgorithm;
      }
      return Some(n);
    }

    /**
     * Assets/MCTS.cs Expansion: the same random move as SimulateMove, with the
     * new node appended to currentNode's children.
     */
    method Expansion(currentNode: Node) returns (expanded: Option<Node>)
      requires WellFormed(currentNode.boardState)
      modifies this`isAlgorithm, this`movesSinceLastTake, currentNode`childNodes
      ensures expanded.None? <==> LegalMoves(currentNode.boardState, old(isAlgorithm)) == []
      ensures expanded.None? ==>
                isAlgorithm == old(isAlgorithm) && movesSinceLastTake == old(movesSinceLastTake) &&
                currentNode.childNodes == old(currentNode.childNodes)
      ensures expanded.Some? ==>
                var n := expanded.value;
                && currentNode.childNodes == old(currentNode.childNodes) + [n]
                && fresh(n) && n.parentNode == currentNode
                && n.simulations == 1 && n.wins == 0 && n.childNodes == []
                && Follows(currentNode, n, old(isAlgorithm))
                && var m := n.moveFromParent.value;
                   && n.lastMovedPiece == n.boardState[m.xEnd][m.yEnd]
                   && movesSinceLastTake == (if IsJump(m) then 0 else old(movesSinceLastTake) + 1)
                   && isAlgorithm == NextSide(n.boardState, m, old(isAlgorithm))
    {
      expanded := SimulateMove(currentNode);
      if expanded.Some? {
        currentNode.childNodes := currentNode.childNodes + [expanded.value];
      }
    }

    /**
     * One pass of the loop of Assets/MCTS.cs Simulation: SimulateMove on a
     * position where the game goes on always finds a move, and the result
     * either has one piece fewer, or as many pieces and a higher counter that
     * is still at most 41.
     */
    method SimulationStep(top: Node) returns (n: Node)
      requires WellFormed(top.boardState)
      requires EndGameResult(top.boardState, isAlgorithm, movesSinceLastTake) == 0
      modifies this`isAlgorithm, this`movesSinceLastTake
      ensures fresh(n) && SimStep(top, n) && WellFormed(n.boardState)
      ensures Turn(top, n, old(isAlgorithm), isAlgorithm, old(movesSinceLastTake), movesSinceLastTake)
      ensures Drawn(top, n, old(isAlgorithm))
      ensures || Occupancy(n.boardState) < Occupancy(top.boardState)
              || (&& Occupancy(n.boardState) == Occupancy(top.boardState)
                  && old(movesSinceLastTake) < movesSinceLastTake <= 41)
    {
      OngoingHasMoves(top.boardState, isAlgorithm, movesSinceLastTake);
      var sn := SimulateMove(top);
      n := sn.value;
    }

    /**
     * Assets/MCTS.cs Simulation: random moves from currentNode, each on a new
     * node stacked on the last, until CheckEndGame reports a finished game.
     * The loop ends: a capture removes a piece and any other move raises the
     * counter, which cannot pass 40 while the game goes on. The ghost sides
     * and counts record the flag and the counter at each node: every move is
     * made by the side the flag names from a game still going on, the flag
     * then follows NextSide and the counter CreateStateFromMove, and the loop
     * stops at the first finished position.
     */
    method Simulation(currentNode: Node) returns (nodeStack: seq<Node>, ghost sides: seq<bool>, ghost counts: seq<int>)
      requires WellFormed(currentNode.boardState)
      modifies this`isAlgorithm, this`movesSinceLastTake
      ensures |nodeStack| >= 1 && nodeStack[0] == currentNode
      ensures forall k :: 1 <= k < |nodeStack| ==> fresh(nodeStack[k])
      ensures Line(nodeStack, sides, counts)
      ensures sides[0] == old(isAlgorithm) && isAlgorithm == sides[|sides| - 1]
      ensures counts[0] == old(movesSinceLastTake) && movesSinceLastTake == counts[|counts| - 1]
      ensures GameOver(nodeStack[|nodeStack| - 1].boardState, isAlgorithm, movesSinceLastTake)
    {
      nodeStack := [currentNode];
      sides := [isAlgorithm];
      counts := [movesSinceLastTake];
      var result := CheckEndGame(currentNode.boardState, isAlgorithm, movesSinceLastTake);
      while result == 0
        invariant |nodeStack| >= 1 && nodeStack[0] == currentNode
        invariant forall k :: 1 <= k < |nodeStack| ==> fresh(nodeStack[k])
        invariant Line(nodeStack, sides, counts)
        invariant sides[0] == old(isAlgorithm) && isAlgorithm == sides[|sides| - 1]
        invariant counts[0] == old(movesSinceLastTake) && movesSinceLastTake == counts[|counts| - 1]
        invariant WellFormed(nodeStack[|nodeStack| - 1].boardState)
        invariant result == EndGameResult(nodeStack[|nodeStack| - 1].boardState, isAlgorithm, movesSinceLastTake)
        decreases Occupancy(nodeStack[|nodeStack| - 1].boardState), 41 - movesSinceLastTake
      {
        var n;
        n, result := SimulationRound(nodeStack, sides, counts);
        nodeStack := nodeStack + [n];
        sides := sides + [isAlgorithm];
        counts := counts + [movesSinceLastTake];
      }
    }

    /**
     * One pass of the loop of Assets/MCTS.cs Simulation on the stack: a new
     * node pushed by a move of the side to move, and the end-of-game check on
     * it. The position loses a piece, or the counter rises and stays at most 41.
     */
    method SimulationRound(nodeStack: seq<Node>, ghost sides: seq<bool>, ghost counts: seq<int>)
      returns (n: Node, result: int)
      requires |nodeStack| >= 1 && Line(nodeStack, sides, counts)
      requires isAlgorithm == sides[|sides| - 1] && movesSinceLastTake == counts[|counts| - 1]
      requires WellFormed(nodeStack[|nodeStack| - 1].boardState)
      requires EndGameResult(nodeStack[|nodeStack| - 1].boardState, isAlgorithm, movesSinceLastTake) == 0
      modifies this`isAlgorithm, this`movesSinceLastTake
      ensures fresh(n) && Line(nodeStack + [n], sides + [isAlgorithm], counts + [movesSinceLastTake])
      ensures WellFormed(n.boardState) && result == EndGameResult(n.boardState, isAlgorithm, movesSinceLastTake)
      ensures || Occupancy(n.boardState) < Occupancy(nodeStack[|nodeStack| - 1].boardState)
              || (&& Occupancy(n.boardState) == Occupancy(nodeStack[|nodeStack| - 1].boardState)
                  && old(movesSinceLastTake) < movesSinceLastTake <= 41)
    {
      var top := nodeStack[|nodeStack| - 1];
      n := SimulationStep(top);
      result := CheckEndGame(n.boardState, isAlgorithm, movesSinceLastTake);
      LineExtend(nodeStack, sides, counts, n, isAlgorithm, movesSinceLastTake);
    }

    /**
     * Assets/MCTS.cs Backpropogation: the result of the finished game on top
     * of the stack is credited to the parent of the stack's bottom node (the
     * selected child of the root): one more simulation, one more win if the
     * algorithm (black) won, and its subtree dropped. Afterwards the flag is
     * set back to the algorithm's side.
     */
    method Backpropogation(nodeStack: seq<Node>, ghost parent: Node)
      requires |nodeStack| >= 1 && nodeStack[0].parentNode == parent
      requires WellFormed(nodeStack[|nodeStack| - 1].boardState)
      modifies parent`simulations, parent`wins, parent`childNodes, this`isAlgorithm
      ensures var r := old(EndGameResult(nodeStack[|nodeStack| - 1].boardState, isAlgorithm, movesSinceLastTake));
              && parent.simulations == old(parent.simulations) + (if r == 0 then 0 else 1)
              && parent.wins == old(parent.wins) + (if r == 2 then 1 else 0)
              && parent.childNodes == (if r == 0 then old(parent.childNodes) else [])
      ensures isAlgorithm
    {
      var gameResult := CheckEndGame(nodeStack[|nodeStack| - 1].boardState, isAlgorithm, movesSinceLastTake);
      var stack := nodeStack;
      if gameResult == 1 || gameResult == 3 {
        while |stack| > 1
          invariant 1 <= |stack| && stack[0] == nodeStack[0]
        {
          stack := stack[..|stack| - 1];
        }
        var n := stack[0];
        n.parentNode.simulations := n.parentNode.simulations + 1;
        n.parentNode.childNodes := [];
      } else if gameResult == 2 {
        while |stack| > 1
          invariant 1 <= |stack| && stack[0] == nodeStack[0]
        {
          stack := stack[..|stack| - 1];
        }
        var n := stack[0];
        n.parentNode.simulations := n.parentNode.simulations + 1;
        n.parentNode.wins := n.parentNode.wins + 1;
        n.parentNode.childNodes := [];
      }
      isAlgorithm := true;
    }

    /**
     * Assets/MCTS.cs ExecuteAlgorithm, one iteration of the search: the
     * counter is set to 1, Selection picks a child of the root, Expansion adds
     * a random move under it, Simulation plays the game out and
     * Backpropogation credits the result to the selected child. The tree
     * keeps its shape: the root and its children stay, the selected child
     * gains one simulation, and one win exactly when the game played out
     * (line, with the sides to move) ends in code 2, and loses its subtree;
     * every other child is as it was. The flag the game starts from is the
     * one the iteration finds, and afterwards it is set (black to move).
     * None stands for the two cases where the source fails (no child to
     * select, or no move from the selected child), in which no node changes.
     */
    method ExecuteAlgorithm(ucb: Ucb)
      returns (selected: Option<nat>, ghost line: seq<Node>, ghost sides: seq<bool>, ghost counts: seq<int>)
      requires Valid()
      modifies this`isAlgorithm, this`movesSinceLastTake
      modifies rootNode.childNodes`simulations, rootNode.childNodes`wins, rootNode.childNodes`childNodes
      ensures Valid() && rootNode.childNodes == old(rootNode.childNodes)
      ensures rootNode.childNodes == [] ==> selected.None?
      ensures selected.Some? ==>
                && selected.value < |rootNode.childNodes|
                && old(SelectionChoice(Scores(ucb, rootNode.childNodes, TotalSimulations(rootNode.childNodes)),
                                       selected.value))
                && PlayedOut(old(rootNode.childNodes)[selected.value], old(isAlgorithm), 1, line, sides, counts)
                && isAlgorithm && movesSinceLastTake == counts[|counts| - 1]
      ensures selected.None? ==> isAlgorithm == old(isAlgorithm) && movesSinceLastTake == 1
      ensures forall i :: 0 <= i < |old(rootNode.childNodes)| ==>
                var c := old(rootNode.childNodes)[i];
                if selected == Some(i) then
                  && c.simulations == old(c.simulations) + 1
                  && c.wins == old(c.wins) + Ind(FinalCode(line, sides, counts) == 2)
                  && c.childNodes == []
                else
                  && c.simulations == old(c.simulations) && c.wins == old(c.wins)
                  && c.childNodes == old(c.childNodes)
    {
      ghost var scores := Scores(ucb, rootNode.childNodes, TotalSimulations(rootNode.childNodes));
      // The source resets the counter before Selection, which does not read
      // it; PlayOutChild resets it here.
      selected := Selection(ucb);
      assert selected.Some? ==> SelectionChoice(scores, selected.value);
      if selected.None? {
        movesSinceLastTake := 1;
        return selected, [], [], [];
      }
      selected, line, sides, counts := PlayOutChild(selected.value);
    }

    /**
     * The rest of an iteration once the k-th child of the root is selected:
     * the counter is set to 1 and the child is played out. The tree keeps its
     * shape and counts stay consistent; only that child may change.
     */
    method PlayOutChild(k: nat)
      returns (chosen: Option<nat>, ghost line: seq<Node>, ghost sides: seq<bool>, ghost counts: seq<int>)
      requires Valid() && k < |rootNode.childNodes|
      modifies this`isAlgorithm, this`movesSinceLastTake
      modifies rootNode.childNodes`simulations, rootNode.childNodes`wins, rootNode.childNodes`childNodes
      ensures Valid() && rootNode.childNodes == old(rootNode.childNodes)
      ensures chosen == None || chosen == Some(k)
      ensures chosen.Some? ==>
                && PlayedOut(old(rootNode.childNodes)[k], old(isAlgorithm), 1, line, sides, counts)
                && isAlgorithm && movesSinceLastTake == counts[|counts| - 1]
      ensures chosen.None? ==> isAlgorithm == old(isAlgorithm) && movesSinceLastTake == 1
      ensures forall i :: 0 <= i < |old(rootNode.childNodes)| ==>
                var c := old(rootNode.childNodes)[i];
                if chosen == Some(i) then
                  && c.simulations == old(c.simulations) + 1
                  && c.wins == old(c.wins) + Ind(FinalCode(line, sides, counts) == 2)
                  && c.childNodes == []
                else
                  && c.simulations == old(c.simulations) && c.wins == old(c.wins)
                  && c.childNodes == old(c.childNodes)
    {
      movesSinceLastTake := 1;
      chosen, line, sides, counts := PlayOutAt(k);
    }

    /** PlayOut on the k-th child of the root, with the counter as it stands. */
    method PlayOutAt(k: nat)
      returns (chosen: Option<nat>, ghost line: seq<Node>, ghost sides: seq<bool>, ghost counts: seq<int>)
      requires Valid() && k < |rootNode.childNodes|
      modifies this`isAlgorithm, this`movesSinceLastTake
      modifies rootNode.childNodes`simulations, rootNode.childNodes`wins, rootNode.childNodes`childNodes
      ensures Valid() && rootNode.childNodes == old(rootNode.childNodes)
      ensures chosen == None || chosen == Some(k)
      ensures chosen.Some? ==>
                && PlayedOut(old(rootNode.childNodes)[k], old(isAlgorithm), old(movesSinceLastTake), line, sides, counts)
                && isAlgorithm && movesSinceLastTake == counts[|counts| - 1]
      ensures chosen.None? ==> isAlgorithm == old(isAlgorithm) && movesSinceLastTake == old(movesSinceLastTake)
      ensures forall i :: 0 <= i < |old(rootNode.childNodes)| ==>
                var c := old(rootNode.childNodes)[i];
                if chosen == Some(i) then
                  && c.simulations == old(c.simulations) + 1
                  && c.wins == old(c.wins) + Ind(FinalCode(line, sides, counts) == 2)
                  && c.childNodes == []
                else
                  && c.simulations == old(c.simulations) && c.wins == old(c.wins)
                  && c.childNodes == old(c.childNodes)
    {
      ghost var children := rootNode.childNodes;
      var selectedNode := rootNode.childNodes[k];
      assert ChildOf(rootNode, selectedNode);
      var ok;
      ok, line, sides, counts := PlayOut(selectedNode);
      chosen := if ok then Some(k) else None;
      forall i | 0 <= i < |children| && i != k
        ensures children[i].simulations == old(children[i].simulations)
        ensures children[i].wins == old(children[i].wins)
        ensures children[i].childNodes == old(children[i].childNodes)
      {
        assert children[i] != selectedNode by {
          if i < k { assert old(rootNode.childNodes[i] != rootNode.childNodes[k]); }
          else { assert old(rootNode.childNodes[k] != rootNode.childNodes[i]); }
        }
      }
      assert Shape();
      assert Counts() by {
        forall c | c in children
          ensures 0 <= c.wins <= c.simulations
        {
          if c != selectedNode {
            assert old(0 <= c.wins <= c.simulations);
          }
        }
      }
    }

    /**
     * Expansion, Simulation and Backpropogation of Assets/MCTS.cs
     * ExecuteAlgorithm on the selected child: a random move of the flag's side
     * under it starts a line of play that ends at the first finished game;
     * the child gains one simulation, and one win exactly when that game ends
     * in code 2, and loses its subtree, the flag is set and the counter is
     * the one the game ended with. false stands for a child without moves for
     * the current flag, where the source fails and nothing changes.
     */
    method PlayOut(selectedNode: Node)
      returns (played: bool, ghost line: seq<Node>, ghost sides: seq<bool>, ghost counts: seq<int>)
      requires WellFormed(selectedNode.boardState)
      modifies this`isAlgorithm, this`movesSinceLastTake
      modifies selectedNode`simulations, selectedNode`wins, selectedNode`childNodes
      ensures played <==> LegalMoves(selectedNode.boardState, old(isAlgorithm)) != []
      ensures played ==>
                && (forall k :: 0 <= k < |line| ==> fresh(line[k]))
                && PlayedOut(selectedNode, old(isAlgorithm), old(movesSinceLastTake), line, sides, counts)
                && selectedNode.simulations == old(selectedNode.simulations) + 1
                && selectedNode.wins == old(selectedNode.wins) + Ind(FinalCode(line, sides, counts) == 2)
                && selectedNode.childNodes == []
                && isAlgorithm && movesSinceLastTake == counts[|counts| - 1]
      ensures !played ==>
                && selectedNode.simulations == old(selectedNode.simulations)
                && selectedNode.wins == old(selectedNode.wins)
                && selectedNode.childNodes == old(selectedNode.childNodes)
                && isAlgorithm == old(isAlgorithm) && movesSinceLastTake == old(movesSinceLastTake)
    {
      var stack;
      stack, sides, counts := Rollout(selectedNode);
      line := stack;
      if stack == [] {
        return false, line, sides, counts;
      }
      assert selectedNode !in line;
      Credit(stack, selectedNode, old(isAlgorithm), old(movesSinceLastTake), sides, counts);
      return true, line, sides, counts;
    }

    /**
     * Backpropogation of a game played out from selectedNode: the node gains
     * one simulation, and one win exactly when the game ended in code 2, and
     * loses its subtree; the flag is set. The played-out line is untouched.
     */
    method Credit(stack: seq<Node>, selectedNode: Node, ghost side: bool, ghost count: int,
                  ghost sides: seq<bool>, ghost counts: seq<int>)
      requires selectedNode !in stack && PlayedOut(selectedNode, side, count, stack, sides, counts)
      requires isAlgorithm == sides[|sides| - 1] && movesSinceLastTake == counts[|counts| - 1]
      requires WellFormed(stack[|stack| - 1].boardState)
      modifies selectedNode`simulations, selectedNode`wins, selectedNode`childNodes, this`isAlgorithm
      ensures PlayedOut(selectedNode, side, count, stack, sides, counts)
      ensures selectedNode.simulations == old(selectedNode.simulations) + 1
      ensures selectedNode.wins == old(selectedNode.wins) + Ind(FinalCode(stack, sides, counts) == 2)
      ensures selectedNode.childNodes == [] && isAlgorithm
    {
      ghost var code := FinalCode(stack, sides, counts);
      Backpropogation(stack, selectedNode);
      assert PlayedOut(selectedNode, side, count, stack, sides, counts);
    }

    /**
     * Expansion then Simulation of Assets/MCTS.cs ExecuteAlgorithm: the stack
     * of the game played out from a random move under selectedNode, empty
     * when the flag's side has no move there.
     */
    method Rollout(selectedNode: Node)
      returns (stack: seq<Node>, ghost sides: seq<bool>, ghost counts: seq<int>)
      requires WellFormed(selectedNode.boardState)
      modifies this`isAlgorithm, this`movesSinceLastTake, selectedNode`childNodes
      ensures stack == [] <==> LegalMoves(selectedNode.boardState, old(isAlgorithm)) == []
      ensures stack == [] ==>
                && selectedNode.childNodes == old(selectedNode.childNodes)
                && isAlgorithm == old(isAlgorithm) && movesSinceLastTake == old(movesSinceLastTake)
      ensures stack != [] ==>
                && (forall k :: 0 <= k < |stack| ==> fresh(stack[k]))
                && PlayedOut(selectedNode, old(isAlgorithm), old(movesSinceLastTake), stack, sides, counts)
                && isAlgorithm == sides[|sides| - 1] && movesSinceLastTake == counts[|counts| - 1]
                && WellFormed(stack[|stack| - 1].boardState)
                && stack[0].parentNode == selectedNode
    {
      sides, counts := [], [];
      ghost var side, count := isAlgorithm, movesSinceLastTake;
      ghost var legal := LegalMoves(selectedNode.boardState, side);
      var expandedNode := Expansion(selectedNode);
      if expandedNode.None? {
        return [], sides, counts;
      }
      assert legal != [];
      stack, sides, counts := SimulationFrom(selectedNode, expandedNode.value, side, count);
    }

    /**
     * Simulation from n, the new leaf Expansion made under selectedNode by a
     * move of `side` from counter `count`: the line it plays out completes
     * the game played out from selectedNode.
     */
    method SimulationFrom(selectedNode: Node, n: Node, ghost side: bool, ghost count: int)
      returns (stack: seq<Node>, ghost sides: seq<bool>, ghost counts: seq<int>)
      requires WellFormed(n.boardState) && SimStep(selectedNode, n)
      requires Turn(selectedNode, n, side, isAlgorithm, count, movesSinceLastTake) && Drawn(selectedNode, n, side)
      modifies this`isAlgorithm, this`movesSinceLastTake
      ensures stack != [] && stack[0] == n && (forall k :: 1 <= k < |stack| ==> fresh(stack[k]))
      ensures PlayedOut(selectedNode, side, count, stack, sides, counts)
      ensures isAlgorithm == sides[|sides| - 1] && movesSinceLastTake == counts[|counts| - 1]
      ensures WellFormed(stack[|stack| - 1].boardState)
    {
      stack, sides, counts := Simulation(n);
    }

    /**
     * Assets/MCTS.cs MakeBestMove as written: `OrderBy(simulations).First()`
     * takes the first child with the FEWEST simulations, and its move and
     * the piece on the move's start square go to the manager. None stands for
     * a root without children, where `First` fails.
     */
    method MakeBestMove() returns (best: Option<(PieceObject, Move)>)
      requires Valid()
      ensures best.None? <==> rootNode.childNodes == []
      ensures best.Some? ==>
                exists k :: FirstLeastSimulated(rootNode.childNodes, k) &&
                            HandsOver(rootNode, rootNode.childNodes[k], best.value)
      ensures best.Some? ==>
                && Applicable(rootNode.boardState, best.value.1)
                && best.value.0.x == best.value.1.xStart && best.value.0.y == best.value.1.yStart
    {
      var children := rootNode.childNodes;
      if children == [] {
        return None;
      }
      var k := FirstMinIndex(SimulationCounts(children));
      assert ChildOf(rootNode, children[k]);
      var bestMove := children[k].moveFromParent.value;
      var p := rootNode.boardState[bestMove.xStart][bestMove.yStart].value;
      best := Some((p, bestMove));
      assert FirstLeastSimulated(children, k) && HandsOver(rootNode, children[k], best.value);
    }

    /**
     * What MakeBestMove evidently intends ("the most simulated move is
     * likeliest to be the best move"): the first child with the MOST
     * simulations.
     */
    method MostSimulatedMove() returns (best: Option<(PieceObject, Move)>)
      requires Valid()
      ensures best.None? <==> rootNode.childNodes == []
      ensures best.Some? ==>
                exists k :: FirstMostSimulated(rootNode.childNodes, k) &&
                            HandsOver(rootNode, rootNode.childNodes[k], best.value)
      ensures best.Some? ==>
                && Applicable(rootNode.boardState, best.value.1)
                && best.value.0.x == best.value.1.xStart && best.value.0.y == best.value.1.yStart
    {
      var children := rootNode.childNodes;
      if children == [] {
        return None;
      }
      var k := FirstMaxIndex(SimulationCounts(children));
      assert ChildOf(rootNode, children[k]);
      var bestMove := children[k].moveFromParent.value;
      var p := rootNode.boardState[bestMove.xStart][bestMove.yStart].value;
      best := Some((p, bestMove));
      assert FirstMostSimulated(children, k) && HandsOver(rootNode, children[k], best.value);
    }

    /**
     * The search phase of Assets/MCTS.cs CalculateBestMove with the Update
     * polling of the running algorithm: the search iterates (a given number
     * of times instead of for a wall-clock period) and then stops. The tree
     * keeps its root and children throughout.
     */
    method Search(iterations: nat, ucb: Ucb)
      requires Valid()
      modifies this`isAlgorithm, this`movesSinceLastTake, this`algorithmRunning
      modifies rootNode.childNodes`simulations, rootNode.childNodes`wins, rootNode.childNodes`childNodes
      ensures Valid() && !algorithmRunning
      ensures rootNode == old(rootNode) && rootNode.childNodes == old(rootNode.childNodes)
    {
      for n := 0 to iterations
        invariant Valid()
        invariant rootNode == old(rootNode) && rootNode.childNodes == old(rootNode.childNodes)
      {
        var _, _, _, _ := ExecuteAlgorithm(ucb);
      }
      algorithmRunning := false;
    }

    /**
     * Assets/MCTS.cs CalculateBestMove as written: after the search, the
     * move handed to the manager is MakeBestMove's, the first child with the
     * fewest simulations.
     */
    method CalculateBestMove(iterations: nat, ucb: Ucb) returns (best: Option<(PieceObject, Move)>)
      requires Valid()
      modifies this`isAlgorithm, this`movesSinceLastTake, this`algorithmRunning
      modifies rootNode.childNodes`simulations, rootNode.childNodes`wins, rootNode.childNodes`childNodes
      ensures Valid() && !algorithmRunning
      ensures rootNode == old(rootNode) && rootNode.childNodes == old(rootNode.childNodes)
      ensures best.None? <==> rootNode.childNodes == []
      ensures best.Some? ==>
                exists k :: FirstLeastSimulated(rootNode.childNodes, k) &&
                            HandsOver(rootNode, rootNode.childNodes[k], best.value)
    {
      Search(iterations, ucb);
      best := MakeBestMove();
    }

    /**
     * CalculateBestMove as its comment intends: after the search, the move
     * of the first child with the most simulations.
     */
    method CalculateBestMoveIntended(iterations: nat, ucb: Ucb) returns (best: Option<(PieceObject, Move)>)
      requires Valid()
      modifies this`isAlgorithm, this`movesSinceLastTake, this`algorithmRunning
      modifies rootNode.childNodes`simulations, rootNode.childNodes`wins, rootNode.childNodes`childNodes
      ensures Valid() && !algorithmRunning
      ensures rootNode == old(rootNode) && rootNode.childNodes == old(rootNode.childNodes)
      ensures best.None? <==> rootNode.childNodes == []
      ensures best.Some? ==>
                exists k :: FirstMostSimulated(rootNode.childNodes, k) &&
                            HandsOver(rootNode, rootNode.childNodes[k], best.value)
    {
      Search(iterations, ucb);
      best := MostSimulatedMove();
    }
  }
}
