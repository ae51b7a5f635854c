/**
 * What the three searches compute, as functions of the board: who can force a win, the minimax score by
 * cards remaining, and the number of finished games below a board.
 */
module Search {
  import opened Torus
  import opened Rules

  /** The side to move can force a win: some legal move leaves the opponent without a forced win. */
  ghost predicate Wins(pos: Position)
    requires WellFormed(pos)
    decreases Potential(pos)
  {
    exists m | m in LegalMoves(pos) :: (PotentialDecreases(pos, m); !Wins(Apply(pos, m)))
  }

  /**
   * Score of a finished game after `n` moves: with 16 - n cards remaining, that count when it is odd
   * (side 0 made the last move), minus it otherwise.
   */
  function TerminalScore(n: nat): int {
    var left := 16 - n;
    if left > 0 && left % 2 == 1 then left else -left
  }

  /** The truncated remainder of signed machine integers: rounded toward zero, taking the sign of `a`. */
  function TruncRem(a: int, b: int): (r: int)
    requires b > 0
    ensures a >= 0 ==> r == a % b
    ensures a < 0 ==> -b < r <= 0
  {
    if a >= 0 then a % b else -((-a) % b)
  }

  /** The score the running best of side `turn` starts from: the worst the bound of 16 cards allows. */
  function Worst(turn: nat): int {
    if turn == 0 then -16 else 16
  }

  /** `a` is at least as good as `b` for side `turn`: side 0 maximises, side 1 minimises. */
  predicate Prefers(turn: nat, a: int, b: int) {
    if turn == 0 then a >= b else a <= b
  }

  /**
   * The full-width minimax score: a finished game scores its terminal score; otherwise the side to move takes
   * its best child score, starting from Worst(turn).
   */
  function Minimax(pos: Position): int
    requires WellFormed(pos)
    decreases Potential(pos), 1, 0
  {
    if LegalMoves(pos) == {} then TerminalScore(|pos.moves|) else BestFrom(pos, 0)
  }

  /** Best child score over the legal moves to cells of index `k` and above. */
  function BestFrom(pos: Position, k: nat): int
    requires WellFormed(pos) && k <= CellCount
    decreases Potential(pos), 0, CellCount - k
  {
    if k == CellCount then Worst(pos.turn)
    else
      var rest := BestFrom(pos, k + 1);
      if Cell(k) in LegalMoves(pos) then
        PotentialDecreases(pos, Cell(k));
        var child := Minimax(Apply(pos, Cell(k)));
        if Prefers(pos.turn, child, rest) && child != rest then child else rest
      else rest
  }

  lemma {:induction false} BestFromBounds(pos: Position, k: nat)
    requires WellFormed(pos) && k <= CellCount
    ensures Prefers(pos.turn, BestFrom(pos, k), Worst(pos.turn))
    ensures forall m | m in LegalMoves(pos) && Index(m) >= k :: Prefers(pos.turn, BestFrom(pos, k), Minimax(Apply(pos, m)))
    ensures BestFrom(pos, k) == Worst(pos.turn)
         || exists m | m in LegalMoves(pos) && Index(m) >= k :: Minimax(Apply(pos, m)) == BestFrom(pos, k)
    decreases CellCount - k
  {
    if k < CellCount {
      BestFromBounds(pos, k + 1);
      var rest := BestFrom(pos, k + 1);
      var legal := LegalMoves(pos);
      IndexCell(k);
      if Cell(k) in legal {
        var child := Minimax(Apply(pos, Cell(k)));
        assert BestFrom(pos, k) == if Prefers(pos.turn, child, rest) && child != rest then child else rest;
        forall m | m in legal && Index(m) >= k
          ensures Prefers(pos.turn, BestFrom(pos, k), Minimax(Apply(pos, m)))
        {
          if Index(m) == k {
            CellIndex(m);
          }
        }
      } else {
        assert BestFrom(pos, k) == rest;
        forall m | m in legal && Index(m) >= k
          ensures Index(m) > k
        {
          CellIndex(m);
        }
      }
    }
  }

  /**
   * A side with a move scores the best of its children: at least as good as each child, no worse than its
   * starting bound, and equal to that bound or to some child's score.
   */
  lemma MinimaxOfChildren(pos: Position)
    requires WellFormed(pos) && LegalMoves(pos) != {}
    ensures forall m | m in LegalMoves(pos) :: Prefers(pos.turn, Minimax(pos), Minimax(Apply(pos, m)))
    ensures Prefers(pos.turn, Minimax(pos), Worst(pos.turn))
    ensures Minimax(pos) == Worst(pos.turn) || exists m | m in LegalMoves(pos) :: Minimax(Apply(pos, m)) == Minimax(pos)
  {
    BestFromBounds(pos, 0);
  }

  lemma ParityOfLeft(n: nat)
    requires n <= 14
    ensures TerminalScore(n) == (if n % 2 == 1 then 16 - n else n - 16)
  {
  }

  /** On a finished board the score computed with the signed remainder, as the search does, is the minimax score. */
  lemma TerminalMinimax(pos: Position)
    requires WellFormed(pos) && LegalMoves(pos) == {}
    ensures var left := 16 - |pos.moves|; Minimax(pos) == if TruncRem(left, 2) == 1 then left else -left
  {
  }

  /**
   * On a sound board, the minimax score is never 0, its size is at most the cards remaining, and its sign
   * says who wins: the side to move can force a win exactly when the score favours that side.
   */
  lemma {:induction false} MinimaxSign(pos: Position)
    requires Sound(pos)
    ensures Minimax(pos) != 0
    ensures -(16 - |pos.moves|) <= Minimax(pos) <= 16 - |pos.moves|
    ensures LegalMoves(pos) != {} ==> -(15 - |pos.moves|) <= Minimax(pos) <= 15 - |pos.moves|
    ensures Wins(pos) <==> (if pos.turn == 0 then Minimax(pos) > 0 else Minimax(pos) < 0)
    decreases Potential(pos)
  {
    SoundRemaining(pos);
    var legal := LegalMoves(pos);
    if legal == {} {
      ParityOfLeft(|pos.moves|);
    } else {
      forall m | m in legal
        ensures Sound(Apply(pos, m))
        ensures Minimax(Apply(pos, m)) != 0
        ensures -(15 - |pos.moves|) <= Minimax(Apply(pos, m)) <= 15 - |pos.moves|
        ensures Wins(Apply(pos, m)) <==> (if pos.turn == 1 then Minimax(Apply(pos, m)) > 0 else Minimax(Apply(pos, m)) < 0)
      {
        ApplySound(pos, m);
        PotentialDecreases(pos, m);
        MinimaxSign(Apply(pos, m));
      }
      MinimaxOfChildren(pos);
      var some :| some in legal;
      assert Minimax(pos) != Worst(pos.turn) by {
        assert Prefers(pos.turn, Minimax(pos), Minimax(Apply(pos, some)));
      }
      var best :| best in legal && Minimax(Apply(pos, best)) == Minimax(pos);
      if Wins(pos) {
        var m :| m in legal && !Wins(Apply(pos, m));
        assert Prefers(pos.turn, Minimax(pos), Minimax(Apply(pos, m)));
      } else {
        assert Wins(Apply(pos, best));
      }
    }
  }

  /** The number of finished games reachable from `pos`, counting `pos` itself when it is finished. */
  function Leaves(pos: Position): nat
    requires WellFormed(pos)
    decreases Potential(pos), 1, 0
  {
    if LegalMoves(pos) == {} then 1 else SumFrom(pos, LegalMoves(pos), 0)
  }

  /** The finished games below the moves of `ms` to cells of index `k` and above. */
  function SumFrom(pos: Position, ms: set<Point>, k: nat): nat
    requires WellFormed(pos) && ms <= LegalMoves(pos) && k <= CellCount
    decreases Potential(pos), 0, CellCount - k
  {
    if k == CellCount then 0
    else
      var here := if Cell(k) in ms then (PotentialDecreases(pos, Cell(k)); Leaves(Apply(pos, Cell(k)))) else 0;
      here + SumFrom(pos, ms, k + 1)
  }

  /** Moves to cells below index `k` contribute nothing to the sum from `k` on. */
  lemma {:induction false} SumFromBelow(pos: Position, ms: set<Point>, k: nat)
    requires WellFormed(pos) && ms <= LegalMoves(pos) && k <= CellCount
    requires forall q | q in ms :: Index(q) < k
    ensures SumFrom(pos, ms, k) == 0
    decreases CellCount - k
  {
    if k < CellCount {
      IndexCell(k);
      SumFromBelow(pos, ms, k + 1);
    }
  }

  /** Adding one more move to the set adds exactly the finished games below that move, whatever the order. */
  lemma {:induction false} SumFromInsert(pos: Position, ms: set<Point>, m: Point, k: nat)
    requires WellFormed(pos) && m in LegalMoves(pos) && m !in ms && ms <= LegalMoves(pos) && k <= CellCount
    ensures SumFrom(pos, ms + {m}, k) == SumFrom(pos, ms, k) + (if Index(m) >= k then Leaves(Apply(pos, m)) else 0)
    decreases CellCount - k
  {
    if k < CellCount {
      SumFromInsert(pos, ms, m, k + 1);
      CellIndex(m);
      IndexCell(k);
    }
  }

  /** Taking one move out of the set takes away exactly the finished games below it. */
  lemma SumFromRemove(pos: Position, ms: set<Point>, m: Point)
    requires WellFormed(pos) && ms <= LegalMoves(pos) && m in ms
    ensures SumFrom(pos, ms, 0) == SumFrom(pos, ms - {m}, 0) + Leaves(Apply(pos, m))
  {
    var rest := ms - {m};
    assert rest + {m} == ms;
    SumFromInsert(pos, rest, m, 0);
  }

  /**
   * The finished games below a board are the board itself when it is finished, plus those below each
   * legal move: the sum is the same whatever order the moves are taken in.
   */
  lemma LeavesSum(pos: Position)
    requires WellFormed(pos)
    ensures Leaves(pos) == (if LegalMoves(pos) == {} then 1 else 0) + SumFrom(pos, LegalMoves(pos), 0)
    ensures forall m | m in LegalMoves(pos) :: Leaves(pos) >= Leaves(Apply(pos, m))
  {
    var legal := LegalMoves(pos);
    if legal == {} {
      SumFromBelow(pos, legal, 0);
    }
    forall m | m in legal
      ensures Leaves(pos) >= Leaves(Apply(pos, m))
    {
      SumFromRemove(pos, legal, m);
    }
  }

  /** Every board has at least one finished game below it. */
  lemma {:induction false} LeavesPositive(pos: Position)
    requires WellFormed(pos)
    ensures Leaves(pos) >= 1
    decreases Potential(pos)
  {
    var legal := LegalMoves(pos);
    if legal != {} {
      var m :| m in legal;
      PotentialDecreases(pos, m);
      LeavesPositive(Apply(pos, m));
      LeavesSum(pos);
    }
  }

  /** How an alpha-beta result `s`, searched with the window (lo, hi), bounds the minimax score `v`. */
  predicate FailSoft(v: int, s: int, lo: int, hi: int) {
    && (s <= lo ==> v <= s)
    && (s >= hi ==> v >= s)
    && (lo < s < hi ==> v == s)
  }

  /** `score` is short of the window's far edge for side `turn`: below `hi` for side 0, above `lo` for side 1. */
  predicate Short(turn: nat, score: int, lo: int, hi: int) {
    if turn == 0 then score < hi else score > lo
  }

  /** No move of `done` leads to a child that the side to move prefers strictly to `score`. */
  ghost predicate NoneBetter(pos: Position, done: set<Point>, score: int)
    requires WellFormed(pos)
  {
    forall m | m in done && InGrid(m) :: Prefers(pos.turn, score, Minimax(Apply(pos, m)))
  }

  /** A score that no child of a board with moves beats, and that is no worse than the starting bound, is no worse than the minimax score. */
  lemma NoChildBetter(pos: Position, score: int)
    requires WellFormed(pos) && LegalMoves(pos) != {}
    requires Prefers(pos.turn, score, Worst(pos.turn))
    requires NoneBetter(pos, LegalMoves(pos), score)
    ensures Prefers(pos.turn, score, Minimax(pos))
  {
    MinimaxOfChildren(pos);
    if Minimax(pos) != Worst(pos.turn) {
      var m :| m in LegalMoves(pos) && Minimax(Apply(pos, m)) == Minimax(pos);
    }
  }

  /**
   * The state of the alpha-beta move loop of side `pos.turn`, called with the window (atLeast, atMost),
   * once the moves of `legal` outside `rest` have been searched. The running window (lo, hi) has moved
   * only at the mover's near edge and only to the running best `score`, which is the starting bound or
   * short of the running window's far edge. While `score` is short of the caller's far edge, no searched
   * move beats it; once `score` is not the starting bound, `best` is a searched move, and its child scores
   * exactly `score` whenever `score` lies inside the caller's window.
   */
  ghost predicate Scanned(pos: Position, legal: set<Point>, rest: set<Point>, score: int, best: Point,
                          lo: int, hi: int, atLeast: int, atMost: int)
    requires WellFormed(pos) && legal == LegalMoves(pos)
  {
    && atLeast <= lo < hi <= atMost
    && (pos.turn == 0 ==> hi == atMost && (lo == atLeast || lo == score) && (score == Worst(0) || score < hi))
    && (pos.turn == 1 ==> lo == atLeast && (hi == atMost || hi == score) && (score == Worst(1) || score > lo))
    && Prefers(pos.turn, score, Worst(pos.turn))
    && (Short(pos.turn, score, atLeast, atMost) ==> NoneBetter(pos, legal - rest, score))
    && (score != Worst(pos.turn) ==>
          best in legal - rest && (atLeast < score < atMost ==> Minimax(Apply(pos, best)) == score))
  }

  /** Before the first move is searched, the running best is the starting bound and the window is the caller's. */
  lemma ScanStarts(pos: Position, legal: set<Point>, best: Point, atLeast: int, atMost: int)
    requires WellFormed(pos) && legal == LegalMoves(pos) && atLeast < atMost
    ensures Scanned(pos, legal, legal, Worst(pos.turn), best, atLeast, atMost, atLeast, atMost)
  {
    assert legal - legal == {};
  }

  /**
   * How one pass of the move loop of side `turn` folds the result `s` of the child of `m`, searched with the
   * running window (lo, hi), into the running best `score` and its move `best`. A result that beats the
   * running best replaces it (score1), with `m` as the best move (best1); the loop is cut off exactly when it
   * reaches the far edge of the window for the mover, and otherwise the mover's near edge moves up to it.
   * A result that does not beat the running best changes nothing.
   */
  predicate Folded(turn: nat, m: Point, s: int, score: int, best: Point, lo: int, hi: int,
                   score1: int, best1: Point, lo1: int, hi1: int, cutoff: bool)
  {
    && (turn == 0 ==>
          if s > score then score1 == s && best1 == m && cutoff == (s >= hi) && hi1 == hi
                            && (!cutoff ==> lo1 == (if s > lo then s else lo))
          else score1 == score && best1 == best && !cutoff && lo1 == lo && hi1 == hi)
    && (turn == 1 ==>
          if s < score then score1 == s && best1 == m && cutoff == (s <= lo) && lo1 == lo
                            && (!cutoff ==> hi1 == (if s < hi then s else hi))
          else score1 == score && best1 == best && !cutoff && lo1 == lo && hi1 == hi)
  }

  /**
   * One pass of the move loop. Without a cut-off it keeps the loop state, with `m` now searched. With a
   * cut-off the child's result beats the running best and reaches the far edge of the window for the mover;
   * then the minimax score is at least as far out, so `s` is a correct fail-soft result and lies outside the
   * caller's window.
   */
  lemma {:induction false} ScanMove(pos: Position, legal: set<Point>, rest: set<Point>, m: Point, s: int,
                                    score: int, best: Point, lo: int, hi: int,
                                    score1: int, best1: Point, lo1: int, hi1: int, cutoff: bool,
                                    atLeast: int, atMost: int)
    requires WellFormed(pos) && legal == LegalMoves(pos) && rest <= legal && m in rest
    requires Scanned(pos, legal, rest, score, best, lo, hi, atLeast, atMost)
    requires FailSoft(Minimax(Apply(pos, m)), s, lo, hi)
    requires Folded(pos.turn, m, s, score, best, lo, hi, score1, best1, lo1, hi1, cutoff)
    ensures !cutoff ==> Scanned(pos, legal, rest - {m}, score1, best1, lo1, hi1, atLeast, atMost)
    ensures cutoff ==> FailSoft(Minimax(pos), s, atLeast, atMost) && !(atLeast < s < atMost)
  {
    if cutoff {
      MinimaxOfChildren(pos);
    } else {
      if Short(pos.turn, score1, atLeast, atMost) {
        forall x | x in legal - (rest - {m}) && InGrid(x)
          ensures Prefers(pos.turn, score1, Minimax(Apply(pos, x)))
        {
          if x != m {
            assert x in legal - rest;
          }
        }
      }
      if score1 != Worst(pos.turn) && best1 != m {
        assert best1 in legal - (rest - {m});
      }
    }
  }

  /**
   * Alpha-beta after searching every move without a cut-off: the running best bounds the minimax score as
   * FailSoft says.
   */
  lemma ScanDone(pos: Position, legal: set<Point>, rest: set<Point>, score: int, best: Point,
                 lo: int, hi: int, atLeast: int, atMost: int)
    requires WellFormed(pos) && legal == LegalMoves(pos) && legal != {} && rest == {}
    requires Scanned(pos, legal, rest, score, best, lo, hi, atLeast, atMost)
    ensures FailSoft(Minimax(pos), score, atLeast, atMost)
  {
    assert legal - rest == legal;
    MinimaxOfChildren(pos);
    if Short(pos.turn, score, atLeast, atMost) {
      NoChildBetter(pos, score);
    }
  }
}