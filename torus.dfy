/** Coordinates on the 4×4 toroidal grid: wrap-around addition and the four orthogonal neighbours. */
module Torus {

  /** Side length of the grid. */
  const Size: nat := 4

  /** Number of cells of the grid. */
  const CellCount: nat := 16

  /** A cell, row `x` and column `y`. The program stores machine words; every point it builds lies in the grid. */
  datatype Point = Point(x: nat, y: nat)

  predicate InGrid(p: Point) {
    p.x < Size && p.y < Size
  }

  /** Component-wise addition modulo the side length. */
  function Add(a: Point, b: Point): (r: Point)
    ensures InGrid(r)
    ensures InGrid(a) && b == Point(0, 0) ==> r == a
  {
    Point((a.x + b.x) % Size, (a.y + b.y) % Size)
  }

  /** `b` is one step from `a` around a cycle of length 4. */
  predicate CyclicStep(a: nat, b: nat) {
    b == a + 1 || a == b + 1 || (a == 0 && b == 3) || (a == 3 && b == 0)
  }

  /** `q` is an orthogonal neighbour of `p` on the torus: one coordinate equal, the other one step away. */
  predicate Adjacent(p: Point, q: Point) {
    (p.x == q.x && CyclicStep(p.y, q.y)) || (p.y == q.y && CyclicStep(p.x, q.x))
  }

  /** Down, up, right, left, written as offsets modulo the side length. */
  const Directions: seq<Point> := [Point(1, 0), Point(Size - 1, 0), Point(0, 1), Point(0, Size - 1)]

  /** The four neighbours of `p`, one per direction. */
  function Neighbors(p: Point): (r: seq<Point>)
    ensures |r| == 4
    ensures forall i | 0 <= i < 4 :: InGrid(r[i])
  {
    [Add(p, Directions[0]), Add(p, Directions[1]), Add(p, Directions[2]), Add(p, Directions[3])]
  }

  /** One step forward and one step back around a cycle of length 4, without the remainder. */
  lemma Wrap(a: nat)
    requires a < Size
    ensures (a + 1) % Size == (if a == Size - 1 then 0 else a + 1)
    ensures (a + (Size - 1)) % Size == (if a == 0 then Size - 1 else a - 1)
  {
  }

  /** The four neighbours of a cell are adjacent to it and pairwise distinct. */
  lemma NeighborsAdjacent(p: Point)
    requires InGrid(p)
    ensures forall i | 0 <= i < 4 :: Adjacent(p, Neighbors(p)[i])
    ensures forall i, j | 0 <= i < j < 4 :: Neighbors(p)[i] != Neighbors(p)[j]
  {
    Wrap(p.x);
    Wrap(p.y);
  }

  /** Every neighbour of a cell is one of the four that `Neighbors` lists. */
  lemma NeighborsComplete(p: Point, q: Point)
    requires InGrid(p) && InGrid(q) && Adjacent(p, q)
    ensures q in Neighbors(p)
  {
    Wrap(p.x);
    Wrap(p.y);
    var n := Neighbors(p);
    if p.x == q.x && CyclicStep(p.y, q.y) {
      if q.y == p.y + 1 || (p.y == 3 && q.y == 0) {
        assert q == n[2];
      } else {
        assert q == n[3];
      }
    } else {
      if q.x == p.x + 1 || (p.x == 3 && q.x == 0) {
        assert q == n[0];
      } else {
        assert q == n[1];
      }
    }
  }

  /** Row-major index of a cell, as the deal enumerator lays out the cards. */
  function Index(p: Point): (k: nat)
    requires InGrid(p)
    ensures k < CellCount
  {
    p.x * Size + p.y
  }

  /** The cell with row-major index `k`. */
  function Cell(k: nat): (p: Point)
    requires k < CellCount
    ensures InGrid(p)
  {
    Point(k / Size, k % Size)
  }

  lemma CellIndex(p: Point)
    requires InGrid(p)
    ensures Cell(Index(p)) == p
  {
  }

  lemma IndexCell(k: nat)
    requires k < CellCount
    ensures Index(Cell(k)) == k
  {
  }

  /** Distinct cells have distinct indices. */
  lemma IndexInjective(p: Point, q: Point)
    requires InGrid(p) && InGrid(q) && p != q
    ensures Index(p) != Index(q)
  {
  }

  /** Reflection of a coordinate through 0 around the cycle of length 4. */
  function Mirror(a: nat): (r: nat)
    requires a < Size
    ensures r < Size && (r == 0 <==> a == 0)
  {
    (Size - a) % Size
  }

  /**
   * One of the eight rotations and reflections of the grid that fix (0, 0): optionally swap row and column,
   * then mirror either one. The torus has further adjacency-preserving maps fixing (0, 0) that are not of this form.
   */
  datatype Sym = Sym(swap: bool, mirrorRow: bool, mirrorColumn: bool)

  /** The image of a cell under a rotation or reflection. */
  function Transform(g: Sym, p: Point): (q: Point)
    requires InGrid(p)
    ensures InGrid(q)
  {
    var a, b := if g.swap then p.y else p.x, if g.swap then p.x else p.y;
    Point(if g.mirrorRow then Mirror(a) else a, if g.mirrorColumn then Mirror(b) else b)
  }

  /** One step around the cycle stays one step once both ends are mirrored. */
  lemma MirrorStep(a: nat, b: nat)
    requires a < Size && b < Size
    ensures CyclicStep(a, b) <==> CyclicStep(Mirror(a), Mirror(b))
    ensures Mirror(a) == Mirror(b) <==> a == b
  {
  }

  /** The rotations and reflections map neighbours to neighbours and non-neighbours to non-neighbours, and fix (0, 0). */
  lemma TransformAdjacent(g: Sym, p: Point, q: Point)
    requires InGrid(p) && InGrid(q)
    ensures Adjacent(p, q) <==> Adjacent(Transform(g, p), Transform(g, q))
    ensures Transform(g, Point(0, 0)) == Point(0, 0)
  {
    MirrorStep(p.x, q.x);
    MirrorStep(p.y, q.y);
  }
}
