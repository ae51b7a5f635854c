/**
 * The board object the program plays on, updated in place: making and undoing moves, the depth-first
 * move generator with its shared path stack, and the three game-tree searches, each proved against the
 * functions of the Search module and each leaving the board as it found it.
 */
module Game {
  import opened Torus
  import opened Rules
  import opened Search

  datatype Option<T> = None | Some(value: T)

  /** The grid of the fixed demonstration board, row by row, and its two pawns. */
  const DemoCards: seq<nat> := [1, 2, 2, 3, 4, 1, 2, 0, 3, 1, 2, 3, 0, 3, 1, 4]
  const DemoPawns: seq<Point> := [Point(1, 3), Point(3, 0)]

  /** The stack of cells on the current path of the depth-first walk, shared by every level of the walk. */
  class Trail {
    var cells: seq<Point>

    constructor ()
      ensures cells == []
    {
      cells := [];
    }
  }

  class Board {
    /** The 4×4 card grid; 0 marks a cell whose card has been used. */
    const cards: array2<nat>
    /** `pawns[i]` is the cell of side i's pawn. */
    const pawns: array<Point>
    /** The side to move, 0 or 1. */
    var turn: nat
    /** The history stack: per move, the card under the moving pawn and the cell it left. */
    var moves: seq<Entry>
    /** The value the board holds, with the grid laid out row by row as the Rules module expects. */
    ghost var model: Position

    ghost predicate Valid()
      reads this, cards, pawns
    {
      && cards.Length0 == Size && cards.Length1 == Size && pawns.Length == 2
      && WellFormed(model)
      && (forall p {:trigger cards[p.x, p.y]} | InGrid(p) :: cards[p.x, p.y] == model.cards[Index(p)])
      && pawns[..] == model.pawns
      && turn == model.turn && moves == model.moves
    }

    /** A board holding the value `pos`, the way the deal enumerator builds its boards. */
    constructor Init(pos: Position)
      requires WellFormed(pos)
      ensures Valid() && model == pos
      ensures fresh(cards) && fresh(pawns)
    {
      cards := new nat[Size, Size]((x: nat, y: nat) requires x < Size && y < Size => pos.cards[x * Size + y]);
      pawns := new Point[2]((i: nat) requires i < 2 => pos.pawns[i]);
      turn := pos.turn;
      moves := pos.moves;
      model := pos;
    }

    /** The fixed demonstration board: the grid and pawns above, side 0 to move, no history. */
    constructor ()
      ensures Valid() && model == Position(DemoCards, DemoPawns, 0, [])
      ensures fresh(cards) && fresh(pawns)
    {
      cards := new nat[Size, Size]((x: nat, y: nat) requires x < Size && y < Size => DemoCards[x * Size + y]);
      pawns := new Point[2]((i: nat) requires i < 2 => DemoPawns[i]);
      turn := 0;
      moves := [];
      model := Position(DemoCards, DemoPawns, 0, []);
    }

    /** The card on cell `p`. */
    function Card(p: Point): (c: nat)
      reads this, cards, pawns
      requires Valid() && InGrid(p)
      ensures c == Rules.Card(model, p)
    {
      cards[p.x, p.y]
    }

    /** Puts card `dist` on cell `p`, leaving every other cell, the pawns, the turn and the history alone. */
    method SetCard(p: Point, dist: nat)
      requires Valid() && InGrid(p)
      modifies this, cards
      ensures Valid() && model == old(model).(cards := old(model).cards[Index(p) := dist])
      ensures turn == old(turn) && moves == old(moves)
    {
      cards[p.x, p.y] := dist;
      model := model.(cards := model.cards[Index(p) := dist]);
      forall q | InGrid(q) && q != p
        ensures Index(q) != Index(p)
      {
        IndexInjective(q, p);
      }
    }

    /** Records the mover's card and cell, empties that cell, moves the pawn to `point` and passes the turn. */
    method MakeMove(point: Point)
      requires Valid() && InGrid(point)
      modifies this, cards, pawns
      ensures Valid() && model == Apply(old(model), point)
    {
      var from := pawns[turn];
      moves := moves + [Entry(Card(from), from)];
      model := model.(moves := moves);
      SetCard(from, 0);
      pawns[turn] := point;
      turn := 1 - turn;
      model := model.(pawns := model.pawns[model.turn := point], turn := turn);
    }

    /** Pops the last history entry and puts that side's pawn and card back; the history must not be empty. */
    method UndoMove()
      requires Valid() && |moves| > 0
      modifies this, cards, pawns
      ensures Valid() && model == Undo(old(model))
    {
      var last := moves[|moves| - 1];
      moves := moves[..|moves| - 1];
      turn := 1 - turn;
      pawns[turn] := last.from;
      model := model.(moves := moves, turn := turn, pawns := model.pawns[turn := last.from]);
      SetCard(last.from, last.card);
    }

    /**
     * The cells a walk of exactly `dist` more steps from `point` can end on, avoiding the cells on the
     * path stack `visited`; the stack is pushed and popped around each step and ends as it began.
     */
    method Reachable(point: Point, dist: nat, visited: Trail) returns (out: set<Point>)
      requires Valid() && InGrid(point)
      modifies visited
      ensures visited.cells == old(visited.cells)
      ensures out == ReachFrom(model, point, dist, old(visited.cells))
      decreases dist
    {
      if point in visited.cells || Card(point) == 0 {
        return {};
      } else if dist == 0 {
        return {point};
      }
      out := {};
      var neighbors := Neighbors(point);
      for i := 0 to 4
        invariant visited.cells == old(visited.cells)
        invariant out == ReachVia(model, point, dist, old(visited.cells), i)
      {
        visited.cells := visited.cells + [point];
        var more := Reachable(neighbors[i], dist - 1, visited);
        out := out + more;
        visited.cells := visited.cells[..|visited.cells| - 1];
      }
    }

    /** The destinations open to the side to move. */
    method LegalMoves() returns (legal: set<Point>)
      requires Valid()
      ensures legal == Rules.LegalMoves(model)
    {
      var origin := pawns[turn];
      var dist := Card(origin);
      if dist == 0 {
        legal := set x: nat, y: nat | x < Size && y < Size && Card(Point(x, y)) != 0 && Point(x, y) !in pawns[..]
          :: Point(x, y);
        return;
      }
      var visited := new Trail();
      legal := Reachable(origin, dist, visited);
      legal := legal - {pawns[0], pawns[1]};
    }

    /**
     * A move after which the opponent has no winning move, if the side to move has one; the board is
     * restored before returning.
     */
    method WinningMove() returns (win: Option<Point>)
      requires Valid()
      modifies this, cards, pawns
      ensures Valid() && model == old(model)
      ensures win.None? <==> !Wins(old(model))
      ensures win.Some? ==> win.value in Rules.LegalMoves(old(model)) && !Wins(Apply(old(model), win.value))
      decreases Potential(model)
    {
      ghost var pos := model;
      var legal := LegalMoves();
      var rest := legal;
      while rest != {}
        invariant Valid() && model == pos
        invariant rest <= legal
        invariant forall m | m in legal - rest :: Wins(Apply(pos, m))
        decreases rest
      {
        var m :| m in rest;
        MakeMove(m);
        PotentialDecreases(pos, m);
        var reply := WinningMove();
        UndoMove();
        UndoApply(pos, m);
        if reply.None? {
          return Some(m);
        }
        rest := rest - {m};
      }
      win := None;
      assert legal - rest == legal;
    }

    /**
     * Alpha-beta search for the score by cards remaining, within the window (atLeast, atMost): the result
     * is exact inside the window and a bound on the far side of it outside. The board is restored on every
     * path, including the cut-offs.
     */
    method BestMoveBounded(atLeast: int, atMost: int) returns (best: Option<Point>, score: int)
      requires Valid() && atLeast < atMost
      modifies this, cards, pawns
      ensures Valid() && model == old(model)
      ensures FailSoft(Minimax(old(model)), score, atLeast, atMost)
      ensures best.None? <==> Rules.LegalMoves(old(model)) == {}
      ensures Rules.LegalMoves(old(model)) == {} ==> score == TerminalScore(|old(model).moves|)
      ensures best.Some? && score != Worst(old(model).turn) ==> best.value in Rules.LegalMoves(old(model))
      ensures best.Some? && score != Worst(old(model).turn) && atLeast < score < atMost
          ==> Minimax(Apply(old(model), best.value)) == score
      decreases Potential(model), 1
    {
      ghost var pos := model;
      var legal := LegalMoves();
      if legal == {} {
        var remaining := 16 - |moves|;
        if TruncRem(remaining, 2) == 1 {
          score := remaining;
        } else {
          score := -remaining;
        }
        TerminalMinimax(pos);
        return None, score;
      }
      var lo, hi := atLeast, atMost;
      score := if turn == 0 then -16 else 16;
      var bestMove := Point(0, 0);
      var rest := legal;
      ScanStarts(pos, legal, bestMove, atLeast, atMost);
      ghost var cut := false;
      while rest != {}
        invariant Valid() && model == pos
        invariant rest <= legal && !cut && WellFormed(pos) && legal == Rules.LegalMoves(pos)
        invariant Scanned(pos, legal, rest, score, bestMove, lo, hi, atLeast, atMost)
        decreases rest
      {
        var m :| m in rest;
        ghost var score0, best0, lo0, hi0 := score, bestMove, lo, hi;
        var cutoff;
        ghost var s;
        score, bestMove, lo, hi, cutoff, s := SearchMove(m, score, bestMove, lo, hi);
        ScanMove(pos, legal, rest, m, s, score0, best0, lo0, hi0, score, bestMove, lo, hi, cutoff, atLeast, atMost);
        if cutoff {
          cut := true;
          break;
        }
        rest := rest - {m};
      }
      if !cut {
        ScanDone(pos, legal, rest, score, bestMove, lo, hi, atLeast, atMost);
      }
      best := Some(bestMove);
    }

    /**
     * One pass of the alpha-beta move loop: plays `m`, searches the child with the running window (lo, hi),
     * undoes the move, and folds the child's result `s` into the running best. A result that beats the running
     * best replaces it, with `m` as the best move; if it reaches the far edge of the window for the mover the
     * loop is cut off, and otherwise the mover's near edge moves up to it.
     */
    method SearchMove(m: Point, score: int, bestMove: Point, lo: int, hi: int)
      returns (newScore: int, newBest: Point, newLo: int, newHi: int, cutoff: bool, ghost s: int)
      requires Valid() && m in Rules.LegalMoves(model) && lo < hi
      modifies this, cards, pawns
      ensures Valid() && model == old(model)
      ensures FailSoft(Minimax(Apply(old(model), m)), s, lo, hi)
      ensures Folded(old(model).turn, m, s, score, bestMove, lo, hi, newScore, newBest, newLo, newHi, cutoff)
      decreases Potential(model), 0
    {
      ghost var pos := model;
      newScore, newBest, newLo, newHi, cutoff := score, bestMove, lo, hi, false;
      MakeMove(m);
      PotentialDecreases(pos, m);
      var _, result := BestMoveBounded(lo, hi);
      s := result;
      if turn == 1 {
        // side 0 made the move
        if result > newScore {
          newScore, newBest := result, m;
          if newScore >= newHi {
            UndoMove();
            UndoApply(pos, m);
            return newScore, newBest, newLo, newHi, true, s;
          }
          if newScore > newLo {
            newLo := newScore;
          }
        }
      } else {
        // side 1 made the move
        if result < newScore {
          newScore, newBest := result, m;
          if newScore <= newLo {
            UndoMove();
            UndoApply(pos, m);
            return newScore, newBest, newLo, newHi, true, s;
          }
          if newScore < newHi {
            newHi := newScore;
          }
        }
      }
      UndoMove();
      UndoApply(pos, m);
    }

    /**
     * The score by cards remaining and a move achieving it, searched with the window (-16, 16). On a sound
     * board the score is the exact minimax score, and the move is legal and leads to a board of that score.
     */
    method BestMove() returns (best: Option<Point>, score: int)
      requires Valid()
      modifies this, cards, pawns
      ensures Valid() && model == old(model)
      ensures FailSoft(Minimax(old(model)), score, -16, 16)
      ensures best.None? <==> Rules.LegalMoves(old(model)) == {}
      ensures Rules.LegalMoves(old(model)) == {} ==> score == TerminalScore(|old(model).moves|)
      ensures Sound(old(model)) ==> score == Minimax(old(model))
      ensures Sound(old(model)) && best.Some?
          ==> best.value in Rules.LegalMoves(old(model)) && Minimax(Apply(old(model), best.value)) == score
    {
      ghost var pos := model;
      best, score := BestMoveBounded(-16, 16);
      if Sound(pos) {
        MinimaxSign(pos);
      }
    }
  }

  /** Adds to `counter` the number of finished games below the board, restoring the board afterwards. */
  method TraverseGameTree(board: Board, counter: nat) returns (total: nat)
    requires board.Valid()
    modifies board, board.cards, board.pawns
    ensures board.Valid() && board.model == old(board.model)
    ensures total == counter + Leaves(old(board.model))
    decreases Potential(board.model)
  {
    ghost var pos := board.model;
    var legal := board.LegalMoves();
    total := counter;
    if legal == {} {
      total := total + 1;
    }
    LeavesSum(pos);
    var rest := legal;
    while rest != {}
      invariant board.Valid() && board.model == pos
      invariant rest <= legal
      invariant total + SumFrom(pos, rest, 0) == counter + Leaves(pos)
      decreases rest
    {
      var m :| m in rest;
      board.MakeMove(m);
      PotentialDecreases(pos, m);
      total := TraverseGameTree(board, total);
      board.UndoMove();
      UndoApply(pos, m);
      SumFromRemove(pos, rest, m);
      rest := rest - {m};
    }
    SumFromBelow(pos, rest, 0);
  }
}
