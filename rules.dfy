/**
 * The rules as functions on board values: the card grid, the two pawns, the side to move and the history;
 * the legal destinations of the side to move; making and undoing a move.
 */
module Rules {
  import opened Torus

  /** One history entry: the card that lay under the moving pawn, and the cell the pawn left. */
  datatype Entry = Entry(card: nat, from: Point)

  /**
   * The value of a board. `cards` lists the 4×4 grid row by row (the card of cell p is at Index(p)),
   * `pawns[i]` is the pawn of side i, `turn` is the side to move and `moves` the history stack.
   */
  datatype Position = Position(cards: seq<nat>, pawns: seq<Point>, turn: nat, moves: seq<Entry>)

  /** The shape every board has: 16 cards, two pawns on the grid, side 0 or 1 to move, history cells on the grid. */
  predicate WellFormed(pos: Position) {
    && |pos.cards| == CellCount
    && |pos.pawns| == 2
    && InGrid(pos.pawns[0]) && InGrid(pos.pawns[1])
    && pos.turn < 2
    && forall k | 0 <= k < |pos.moves| :: InGrid(pos.moves[k].from)
  }

  /** The card on cell `p`. */
  function Card(pos: Position, p: Point): nat
    requires WellFormed(pos) && InGrid(p)
  {
    pos.cards[Index(p)]
  }

  /** Making a move to `m`: record the mover's card and cell, empty that cell, move the pawn, pass the turn. */
  function Apply(pos: Position, m: Point): (r: Position)
    requires WellFormed(pos) && InGrid(m)
    ensures WellFormed(r)
  {
    var from := pos.pawns[pos.turn];
    Position(pos.cards[Index(from) := 0], pos.pawns[pos.turn := m], 1 - pos.turn,
             pos.moves + [Entry(Card(pos, from), from)])
  }

  /** Undoing the last move: pop the history, pass the turn back, return that side's pawn and card. */
  function Undo(pos: Position): (r: Position)
    requires WellFormed(pos) && |pos.moves| > 0
    ensures WellFormed(r)
  {
    var last := pos.moves[|pos.moves| - 1];
    var side := 1 - pos.turn;
    Position(pos.cards[Index(last.from) := last.card], pos.pawns[side := last.from], side,
             pos.moves[..|pos.moves| - 1])
  }

  /** What a move changes, cell by cell, and what it leaves alone. */
  lemma ApplyEffect(pos: Position, m: Point)
    requires WellFormed(pos) && InGrid(m)
    ensures var r, from := Apply(pos, m), pos.pawns[pos.turn];
      && r.moves == pos.moves + [Entry(Card(pos, from), from)]
      && Card(r, from) == 0
      && (forall q | InGrid(q) && q != from :: Card(r, q) == Card(pos, q))
      && r.pawns[pos.turn] == m && r.pawns[1 - pos.turn] == pos.pawns[1 - pos.turn]
      && r.turn == 1 - pos.turn
  {
    var from := pos.pawns[pos.turn];
    forall q | InGrid(q) && q != from
      ensures Card(Apply(pos, m), q) == Card(pos, q)
    {
      IndexInjective(q, from);
    }
  }

  /** Undo is the exact inverse of a move: grid, pawns, turn and history all come back. */
  lemma UndoApply(pos: Position, m: Point)
    requires WellFormed(pos) && InGrid(m)
    ensures Undo(Apply(pos, m)) == pos
  {
    var from := pos.pawns[pos.turn];
    var r := Apply(pos, m);
    assert r.moves[..|r.moves| - 1] == pos.moves;
    assert r.cards[Index(from) := Card(pos, from)] == pos.cards;
    assert r.pawns[pos.turn := from] == pos.pawns;
  }

  // ---------------------------------------------------------------------------------------------
  // Reachability: the depth-first walk of the move generator

  /**
   * The cells a walk of exactly `dist` further steps can end on, starting at `p`, when the cells of `visited`
   * are already on the path. A cell on the path or holding no card stops the walk.
   */
  function ReachFrom(pos: Position, p: Point, dist: nat, visited: seq<Point>): (r: set<Point>)
    requires WellFormed(pos) && InGrid(p)
    ensures forall q | q in r :: InGrid(q) && Card(pos, q) != 0 && q !in visited
    decreases dist, 5
  {
    if p in visited || Card(pos, p) == 0 then {}
    else if dist == 0 then {p}
    else ReachVia(pos, p, dist, visited, 4)
  }

  /** The union of the walks that continue from `p` through its first `i` neighbours. */
  function ReachVia(pos: Position, p: Point, dist: nat, visited: seq<Point>, i: nat): (r: set<Point>)
    requires WellFormed(pos) && InGrid(p) && 0 < dist && i <= 4
    ensures forall q | q in r :: InGrid(q) && Card(pos, q) != 0 && q !in visited
    decreases dist, i
  {
    if i == 0 then {}
    else ReachVia(pos, p, dist, visited, i - 1) + ReachFrom(pos, Neighbors(p)[i - 1], dist - 1, visited + [p])
  }

  /**
   * A walk the depth-first search can take: it starts on a cell that holds a card and is not on the path
   * stack, and each further step goes to an adjacent cell with the starting cell pushed on the stack.
   */
  ghost predicate IsWalk(pos: Position, path: seq<Point>, visited: seq<Point>)
    requires WellFormed(pos)
    decreases |path|
  {
    && |path| > 0
    && InGrid(path[0]) && Card(pos, path[0]) != 0 && path[0] !in visited
    && (|path| > 1 ==> Adjacent(path[0], path[1]) && IsWalk(pos, path[1..], visited + [path[0]]))
  }

  /** A path of single toroidal steps over cells holding cards, never repeating a cell and avoiding `visited`. */
  ghost predicate SimplePath(pos: Position, path: seq<Point>, visited: seq<Point>)
    requires WellFormed(pos)
  {
    && |path| > 0
    && (forall i | 0 <= i < |path| :: InGrid(path[i]) && Card(pos, path[i]) != 0 && path[i] !in visited)
    && (forall i | 0 <= i < |path| - 1 :: Adjacent(path[i], path[i + 1]))
    && (forall i, j | 0 <= i < j < |path| :: path[i] != path[j])
  }

  lemma {:induction false} ReachViaMembers(pos: Position, p: Point, dist: nat, visited: seq<Point>, i: nat, q: Point)
    requires WellFormed(pos) && InGrid(p) && 0 < dist && i <= 4
    ensures q in ReachVia(pos, p, dist, visited, i)
        <==> exists j | 0 <= j < i :: q in ReachFrom(pos, Neighbors(p)[j], dist - 1, visited + [p])
  {
    if i > 0 {
      ReachViaMembers(pos, p, dist, visited, i - 1, q);
    }
  }

  lemma {:induction false} WalkOfReach(pos: Position, p: Point, dist: nat, visited: seq<Point>, q: Point)
    returns (path: seq<Point>)
    requires WellFormed(pos) && InGrid(p) && q in ReachFrom(pos, p, dist, visited)
    ensures |path| == dist + 1 && path[0] == p && path[dist] == q && IsWalk(pos, path, visited)
    decreases dist
  {
    if dist == 0 {
      path := [p];
    } else {
      ReachViaMembers(pos, p, dist, visited, 4, q);
      var j :| 0 <= j < 4 && q in ReachFrom(pos, Neighbors(p)[j], dist - 1, visited + [p]);
      var tail := WalkOfReach(pos, Neighbors(p)[j], dist - 1, visited + [p], q);
      NeighborsAdjacent(p);
      path := [p] + tail;
      assert path[1..] == tail;
    }
  }

  lemma {:induction false} ReachOfWalk(pos: Position, path: seq<Point>, visited: seq<Point>)
    requires WellFormed(pos) && IsWalk(pos, path, visited)
    ensures path[|path| - 1] in ReachFrom(pos, path[0], |path| - 1, visited)
    decreases |path|
  {
    if |path| > 1 {
      var p, tail := path[0], path[1..];
      NeighborsComplete(p, tail[0]);
      var j :| 0 <= j < 4 && Neighbors(p)[j] == tail[0];
      var q, dist := path[|path| - 1], |path| - 1;
      ReachOfWalk(pos, tail, visited + [p]);
      assert tail[|tail| - 1] == q;
      assert q in ReachFrom(pos, Neighbors(p)[j], dist - 1, visited + [p]);
      ReachViaMembers(pos, p, dist, visited, 4, q);
      assert ReachFrom(pos, p, dist, visited) == ReachVia(pos, p, dist, visited, 4);
    }
  }

  /** The walk ends exactly at the cells some walk of `dist` steps from `p` can reach. */
  lemma ReachFromIsWalks(pos: Position, p: Point, dist: nat, visited: seq<Point>, q: Point)
    requires WellFormed(pos) && InGrid(p)
    ensures q in ReachFrom(pos, p, dist, visited)
        <==> exists path :: |path| == dist + 1 && path[0] == p && path[dist] == q && IsWalk(pos, path, visited)
  {
    if q in ReachFrom(pos, p, dist, visited) {
      var path := WalkOfReach(pos, p, dist, visited, q);
    }
    if path :| |path| == dist + 1 && path[0] == p && path[dist] == q && IsWalk(pos, path, visited) {
      ReachOfWalk(pos, path, visited);
    }
  }

  /** A path longer than one cell is simple exactly when its first step is and the rest is, with the first cell pushed. */
  lemma SimpleCons(pos: Position, path: seq<Point>, visited: seq<Point>)
    requires WellFormed(pos) && |path| > 1
    ensures SimplePath(pos, path, visited) <==>
      && InGrid(path[0]) && Card(pos, path[0]) != 0 && path[0] !in visited
      && Adjacent(path[0], path[1])
      && SimplePath(pos, path[1..], visited + [path[0]])
  {
    var p, tail := path[0], path[1..];
    assert forall i | 0 < i < |path| :: path[i] == tail[i - 1];
    if SimplePath(pos, path, visited) {
      forall i | 0 <= i < |tail|
        ensures tail[i] !in visited + [p]
      {
        assert path[i + 1] != path[0];
      }
      forall i, j | 0 <= i < j < |tail|
        ensures tail[i] != tail[j]
      {
        assert path[i + 1] != path[j + 1];
      }
    }
    if && InGrid(p) && Card(pos, p) != 0 && p !in visited && Adjacent(p, path[1])
       && SimplePath(pos, tail, visited + [p]) {
      forall i | 0 < i < |path|
        ensures path[i] != p && path[i] !in visited
      {
        assert tail[i - 1] !in visited + [p];
      }
      forall i | 0 <= i < |path| - 1
        ensures Adjacent(path[i], path[i + 1])
      {
        if i > 0 {
          assert path[i] == tail[i - 1] && path[i + 1] == tail[i];
        }
      }
    }
  }

  /** The walks of the depth-first search are exactly the simple paths. */
  lemma {:induction false} WalkIsSimple(pos: Position, path: seq<Point>, visited: seq<Point>)
    requires WellFormed(pos)
    ensures IsWalk(pos, path, visited) <==> SimplePath(pos, path, visited)
    decreases |path|
  {
    if |path| > 1 {
      WalkIsSimple(pos, path[1..], visited + [path[0]]);
      SimpleCons(pos, path, visited);
    }
  }

  // ---------------------------------------------------------------------------------------------
  // Legal moves

  /** The cells with a card and no pawn: where a pawn standing on an empty cell may go. */
  function FirstMoves(pos: Position): (r: set<Point>)
    requires WellFormed(pos)
    ensures forall q | q in r :: InGrid(q) && Card(pos, q) != 0 && q !in pos.pawns
  {
    set x: nat, y: nat | x < Size && y < Size && pos.cards[Index(Point(x, y))] != 0 && Point(x, y) !in pos.pawns
      :: Point(x, y)
  }

  /** The destinations open to the side to move. */
  function LegalMoves(pos: Position): (r: set<Point>)
    requires WellFormed(pos)
    ensures forall q | q in r :: InGrid(q) && Card(pos, q) != 0 && q !in pos.pawns
  {
    var origin := pos.pawns[pos.turn];
    var dist := Card(pos, origin);
    if dist == 0 then FirstMoves(pos)
    else
      assert pos.pawns == [pos.pawns[0], pos.pawns[1]];
      ReachFrom(pos, origin, dist, []) - {pos.pawns[0], pos.pawns[1]}
  }

  /** From an empty cell the side to move may go to exactly the unoccupied cells that hold a card. */
  lemma LegalFirstMove(pos: Position, q: Point)
    requires WellFormed(pos) && Card(pos, pos.pawns[pos.turn]) == 0
    ensures q in LegalMoves(pos) <==> InGrid(q) && Card(pos, q) != 0 && q !in pos.pawns
  {
    if InGrid(q) && Card(pos, q) != 0 && q !in pos.pawns {
      assert q == Point(q.x, q.y);
    }
  }

  /**
   * From a card of value d the side to move may go to exactly the cells, other than the two pawns' cells,
   * that end a simple path of d steps over cells holding cards.
   */
  lemma LegalWalkMove(pos: Position, q: Point)
    requires WellFormed(pos) && Card(pos, pos.pawns[pos.turn]) != 0
    ensures var origin := pos.pawns[pos.turn]; var d := Card(pos, origin);
      q in LegalMoves(pos) <==>
        q !in pos.pawns && exists path :: |path| == d + 1 && path[0] == origin && path[d] == q && SimplePath(pos, path, [])
  {
    var origin := pos.pawns[pos.turn];
    var d := Card(pos, origin);
    ReachFromIsWalks(pos, origin, d, [], q);
    if path :| |path| == d + 1 && path[0] == origin && path[d] == q && IsWalk(pos, path, []) {
      WalkIsSimple(pos, path, []);
    }
    if path :| |path| == d + 1 && path[0] == origin && path[d] == q && SimplePath(pos, path, []) {
      WalkIsSimple(pos, path, []);
    }
  }

  // ---------------------------------------------------------------------------------------------
  // Counting cards: termination of the searches and the "cards remaining" score

  /** Number of cells that still hold a card. */
  function Live(s: seq<nat>): (n: nat)
    ensures n <= |s|
  {
    if s == [] then 0 else (if s[0] != 0 then 1 else 0) + Live(s[1..])
  }

  lemma {:induction false} LiveUpdate(s: seq<nat>, k: nat, v: nat)
    requires k < |s|
    ensures Live(s[k := v]) + (if s[k] != 0 then 1 else 0) == Live(s) + (if v != 0 then 1 else 0)
  {
    if k > 0 {
      assert s[k := v][1..] == s[1..][k - 1 := v];
      LiveUpdate(s[1..], k - 1, v);
    } else {
      assert s[k := v][1..] == s[1..];
    }
  }

  lemma {:induction false} LiveAppend(a: seq<nat>, b: seq<nat>)
    ensures Live(a + b) == Live(a) + Live(b)
  {
    if a != [] {
      assert (a + b)[1..] == a[1..] + b;
      LiveAppend(a[1..], b);
    } else {
      assert a + b == b;
    }
  }

  /** Number of pawns standing on an empty cell, that is, pawns that have not moved yet. */
  function Stranded(pos: Position): nat
    requires WellFormed(pos)
  {
    (if Card(pos, pos.pawns[0]) == 0 then 1 else 0) + (if Card(pos, pos.pawns[1]) == 0 then 1 else 0)
  }

  /** Cards still in play, counting the empty starting cell of a pawn that has not moved yet. */
  function Remaining(pos: Position): nat
    requires WellFormed(pos)
  {
    Live(pos.cards) + Stranded(pos)
  }

  /** A measure every legal move decreases, whatever the board. */
  function Potential(pos: Position): nat
    requires WellFormed(pos)
  {
    Live(pos.cards) + Remaining(pos)
  }

  /** Every legal move lowers the potential, so every line of play is finite. */
  lemma PotentialDecreases(pos: Position, m: Point)
    requires WellFormed(pos) && m in LegalMoves(pos)
    ensures Potential(Apply(pos, m)) < Potential(pos)
  {
    var from := pos.pawns[pos.turn];
    IndexInjective(m, from);
    LiveUpdate(pos.cards, Index(from), 0);
    var other := pos.pawns[1 - pos.turn];
    if other != from {
      IndexInjective(other, from);
    }
  }

  /**
   * The invariants of every board the program builds and plays on: the pawns stand on different cells,
   * each move uses up exactly one of 16 cards in play, and the sides alternate starting with side 0.
   */
  ghost predicate Sound(pos: Position) {
    && WellFormed(pos)
    && pos.pawns[0] != pos.pawns[1]
    && |pos.moves| + Remaining(pos) == CellCount
    && pos.turn == |pos.moves| % 2
  }

  /** A legal move keeps a sound board sound. */
  lemma ApplySound(pos: Position, m: Point)
    requires Sound(pos) && m in LegalMoves(pos)
    ensures Sound(Apply(pos, m))
  {
    MoveToCardSound(pos, m);
  }

  lemma MoveToCardSound(pos: Position, m: Point)
    requires Sound(pos) && InGrid(m) && Card(pos, m) != 0 && m !in pos.pawns
    ensures Sound(Apply(pos, m))
  {
    var r := Apply(pos, m);
    MoveUsesOneCard(pos, m);
    assert r.pawns[0] != r.pawns[1];
    assert |r.moves| == |pos.moves| + 1;
    NextParity(|pos.moves|);
  }

  lemma NextParity(n: nat)
    ensures (n + 1) % 2 == 1 - n % 2
  {
  }

  /** Moving onto an unoccupied card uses up exactly one card in play, when the pawns stand apart. */
  lemma MoveUsesOneCard(pos: Position, m: Point)
    requires WellFormed(pos) && pos.pawns[0] != pos.pawns[1]
    requires InGrid(m) && Card(pos, m) != 0 && m !in pos.pawns
    ensures Remaining(Apply(pos, m)) + 1 == Remaining(pos)
  {
    var from, other := pos.pawns[pos.turn], pos.pawns[1 - pos.turn];
    var r := Apply(pos, m);
    IndexInjective(m, from);
    IndexInjective(other, from);
    assert Card(r, m) == Card(pos, m);
    assert Card(r, other) == Card(pos, other);
    assert Stranded(r) + (if Card(pos, from) == 0 then 1 else 0) == Stranded(pos) by {
      assert r.pawns[pos.turn] == m && r.pawns[1 - pos.turn] == other;
    }
    LiveUpdate(pos.cards, Index(from), 0);
  }

  lemma {:induction false} LiveAtLeast(s: seq<nat>, i: nat, j: nat)
    requires i < |s| && j < |s| && s[i] != 0
    ensures Live(s) >= (if i != j && s[j] != 0 then 2 else 1)
  {
    LiveUpdate(s, i, 0);
    if i != j && s[j] != 0 {
      LiveUpdate(s[i := 0], j, 0);
    }
  }

  /** On a sound board both pawns' cells are still in play, so at most 14 moves have been made. */
  lemma SoundRemaining(pos: Position)
    requires Sound(pos)
    ensures Remaining(pos) >= 2 && |pos.moves| <= 14
  {
    var i, j := Index(pos.pawns[0]), Index(pos.pawns[1]);
    IndexInjective(pos.pawns[0], pos.pawns[1]);
    if pos.cards[i] != 0 {
      LiveAtLeast(pos.cards, i, j);
    } else if pos.cards[j] != 0 {
      LiveAtLeast(pos.cards, j, i);
    }
  }
}
