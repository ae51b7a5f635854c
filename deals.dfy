/**
 * The deal enumerator: every distinct ordering of a multiset of card values, and the boards dealt with the first
 * pawn on (0, 0) and the second on one cell from each class of the eight rotations and reflections fixing (0, 0),
 * with every card layout for it, each weighted by the class size.
 */
module Deals {
  import opened Torus
  import opened Rules

  /**
   * The card values that a count vector stands for: `remaining[v]` copies of each value v from 1 to 4.
   * Entry 0 is never read, since the enumerator only places values 1 to 4.
   */
  function Bag(remaining: seq<nat>): (b: multiset<nat>)
    requires |remaining| == 5
    ensures forall v :: b[v] == if 1 <= v <= 4 then remaining[v] else 0
  {
    multiset{}[1 := remaining[1]][2 := remaining[2]][3 := remaining[3]][4 := remaining[4]]
  }

  /** How many values a count vector stands for. */
  function Total(remaining: seq<nat>): nat
    requires |remaining| == 5
  {
    remaining[1] + remaining[2] + remaining[3] + remaining[4]
  }

  /**
   * `p` is an ordering of exactly the values that `remaining` counts: empty when nothing is left, and
   * otherwise a value still available followed by an ordering of what is left once one copy of it is taken.
   */
  ghost predicate IsArrangement(p: seq<nat>, remaining: seq<nat>)
    requires |remaining| == 5
    decreases |p|
  {
    if p == [] then Total(remaining) == 0
    else 1 <= p[0] <= 4 && remaining[p[0]] > 0 && IsArrangement(p[1..], remaining[p[0] := remaining[p[0]] - 1])
  }

  /** Taking one copy of an available value v out of the count vector takes v out of the values it stands for. */
  lemma BagTake(remaining: seq<nat>, v: nat)
    requires |remaining| == 5 && 1 <= v <= 4 && remaining[v] > 0
    ensures Bag(remaining) == Bag(remaining[v := remaining[v] - 1]) + multiset{v}
  {
    var rest := remaining[v := remaining[v] - 1];
    forall x
      ensures Bag(remaining)[x] == (Bag(rest) + multiset{v})[x]
    {
    }
  }

  /** Every ordering holds each value v from 1 to 4 `remaining[v]` times, and nothing else. */
  lemma {:induction false} ArrangementHasBag(p: seq<nat>, remaining: seq<nat>)
    requires |remaining| == 5 && IsArrangement(p, remaining)
    ensures multiset(p) == Bag(remaining)
    decreases |p|
  {
    if p == [] {
      assert Bag(remaining) == multiset{};
    } else {
      var v := p[0];
      var rest := remaining[v := remaining[v] - 1];
      ArrangementHasBag(p[1..], rest);
      BagTake(remaining, v);
      assert p == [v] + p[1..];
    }
  }

  /** Every sequence holding each value v from 1 to 4 `remaining[v]` times, and nothing else, is an ordering. */
  lemma {:induction false} BagHasArrangement(p: seq<nat>, remaining: seq<nat>)
    requires |remaining| == 5 && multiset(p) == Bag(remaining)
    ensures IsArrangement(p, remaining)
    decreases |p|
  {
    if p == [] {
      assert Bag(remaining)[1] == 0 && Bag(remaining)[2] == 0 && Bag(remaining)[3] == 0 && Bag(remaining)[4] == 0;
    } else {
      var v := p[0];
      assert p == [v] + p[1..];
      assert multiset(p)[v] > 0;
      var rest := remaining[v := remaining[v] - 1];
      BagTake(remaining, v);
      assert multiset(p[1..]) == Bag(rest) by {
        forall x
          ensures multiset(p[1..])[x] == Bag(rest)[x]
        {
          assert multiset(p)[x] == Bag(remaining)[x];
        }
      }
      BagHasArrangement(p[1..], rest);
    }
  }

  /** The orderings are exactly the sequences holding each value v from 1 to 4 `remaining[v]` times, and nothing else. */
  lemma ArrangementMultiset(p: seq<nat>, remaining: seq<nat>)
    requires |remaining| == 5
    ensures IsArrangement(p, remaining) <==> multiset(p) == Bag(remaining)
  {
    if IsArrangement(p, remaining) {
      ArrangementHasBag(p, remaining);
    }
    if multiset(p) == Bag(remaining) {
      BagHasArrangement(p, remaining);
    }
  }

  /** With nothing left to place, the empty ordering is the only ordering. */
  lemma ArrangementEmpty(p: seq<nat>, remaining: seq<nat>)
    requires |remaining| == 5 && IsArrangement(p, remaining) && Total(remaining) == 0
    ensures p == []
  {
  }

  /** `q` is `start` followed by an ordering of the values that `remaining` counts. */
  ghost predicate Extends(q: seq<nat>, start: seq<nat>, remaining: seq<nat>)
    requires |remaining| == 5
  {
    |start| <= |q| && q[..|start|] == start && IsArrangement(q[|start|..], remaining)
  }

  /** Extending `start + [v]` by an ordering of what is left after taking one v extends `start`, with v next. */
  lemma ExtendsCons(q: seq<nat>, start: seq<nat>, v: nat, remaining: seq<nat>)
    requires |remaining| == 5 && 1 <= v <= 4 && remaining[v] > 0
    requires Extends(q, start + [v], remaining[v := remaining[v] - 1])
    ensures Extends(q, start, remaining) && |start| < |q| && q[|start|] == v
  {
    var n := |start|;
    assert q[..n] == q[..n + 1][..n];
    assert q[n..][1..] == q[n + 1..];
  }

  /**
   * Every ordering of the values counted by `remaining`, each once, each prefixed by `start`. The values are
   * tried in increasing order, and when nothing is left the result is `start` alone.
   */
  method UniquePermutations(start: seq<nat>, remaining: seq<nat>) returns (out: seq<seq<nat>>)
    requires |remaining| == 5
    ensures |out| > 0
    ensures forall q | q in out :: Extends(q, start, remaining)
    ensures forall i, j | 0 <= i < j < |out| :: out[i] != out[j]
    ensures forall p | IsArrangement(p, remaining) :: start + p in out
    decreases Total(remaining)
  {
    out := [];
    EnumerationStarts(start, remaining);
    for value := 1 to 5
      invariant Enumerated(start, remaining, value, out)
    {
      if remaining[value] > 0 {
        var remNew := remaining[value := remaining[value] - 1];
        var startNew := start + [value];
        var perms := UniquePermutations(startNew, remNew);
        ghost var before := out;
        for i := 0 to |perms|
          invariant out == before + perms[..i]
        {
          PushOne(before, perms, i);
          out := out + [perms[i]];
        }
        assert perms[..|perms|] == perms;
        SearchedValue(start, value, remaining, before, perms, out);
      } else {
        SkippedValue(start, value, remaining, out);
      }
    }
    if out == [] {
      out := [start];
      NothingLeft(start, remaining);
    } else {
      EveryFirstValue(start, remaining, out);
    }
  }

  /** Pushing the next item extends the pushed prefix by one. */
  lemma PushOne<T>(before: seq<T>, items: seq<T>, i: nat)
    requires i < |items|
    ensures before + items[..i] + [items[i]] == before + items[..i + 1]
  {
    assert items[..i + 1] == items[..i] + [items[i]];
  }

  /**
   * The enumerator's loop state once the first values below `value` have been tried: every result is
   * `start` followed by an ordering whose first value is below `value`; the results are distinct; every such
   * ordering is among them; and there are results exactly when some value below `value` was available.
   */
  ghost predicate Enumerated(start: seq<nat>, remaining: seq<nat>, value: nat, out: seq<seq<nat>>)
    requires |remaining| == 5 && value <= 5
  {
    && (forall q | q in out :: Extends(q, start, remaining) && |start| < |q| && q[|start|] < value)
    && (forall i, j | 0 <= i < j < |out| :: out[i] != out[j])
    && (forall p | IsArrangement(p, remaining) && p != [] && 1 <= p[0] < value :: start + p in out)
    && (out == [] <==> forall v | 1 <= v < value :: remaining[v] == 0)
  }

  lemma EnumerationStarts(start: seq<nat>, remaining: seq<nat>)
    requires |remaining| == 5
    ensures Enumerated(start, remaining, 1, [])
  {
  }

  /** A value with no copies left adds no results, and no ordering starts with it. */
  lemma SkippedValue(start: seq<nat>, value: nat, remaining: seq<nat>, out: seq<seq<nat>>)
    requires |remaining| == 5 && 1 <= value <= 4 && remaining[value] == 0
    requires Enumerated(start, remaining, value, out)
    ensures Enumerated(start, remaining, value + 1, out)
  {
  }

  /** With no values left to place, `start` itself is the only result. */
  lemma NothingLeft(start: seq<nat>, remaining: seq<nat>)
    requires |remaining| == 5 && Enumerated(start, remaining, 5, [])
    ensures forall q | q in [start] :: Extends(q, start, remaining)
    ensures forall p | IsArrangement(p, remaining) :: start + p in [start]
  {
    forall p | IsArrangement(p, remaining)
      ensures start + p in [start]
    {
      ArrangementEmpty(p, remaining);
      assert start + p == start;
    }
    assert start[|start|..] == [];
  }

  /** Once every first value has been tried and some value was available, every ordering has been found. */
  lemma EveryFirstValue(start: seq<nat>, remaining: seq<nat>, out: seq<seq<nat>>)
    requires |remaining| == 5 && out != [] && Enumerated(start, remaining, 5, out)
    ensures forall q | q in out :: Extends(q, start, remaining)
    ensures forall i, j | 0 <= i < j < |out| :: out[i] != out[j]
    ensures forall p | IsArrangement(p, remaining) :: start + p in out
  {
    assert Total(remaining) > 0;
    forall p | IsArrangement(p, remaining)
      ensures start + p in out
    {
      assert p != [] && 1 <= p[0] < 5;
    }
  }

  /**
   * The loop step of the enumerator: appending the results for `value`, which all extend `start + [value]`,
   * keeps the results sound, distinct, and complete for every first value up to `value`.
   */
  lemma SearchedValue(start: seq<nat>, value: nat, remaining: seq<nat>, before: seq<seq<nat>>,
                      perms: seq<seq<nat>>, after: seq<seq<nat>>)
    requires |remaining| == 5 && 1 <= value <= 4 && remaining[value] > 0
    requires after == before + perms && |perms| > 0
    requires Enumerated(start, remaining, value, before)
    requires forall q | q in perms :: Extends(q, start + [value], remaining[value := remaining[value] - 1])
    requires forall i, j | 0 <= i < j < |perms| :: perms[i] != perms[j]
    requires forall p | IsArrangement(p, remaining[value := remaining[value] - 1]) :: start + [value] + p in perms
    ensures Enumerated(start, remaining, value + 1, after)
  {
    forall q | q in perms
      ensures Extends(q, start, remaining) && |start| < |q| && q[|start|] == value
    {
      ExtendsCons(q, start, value, remaining);
    }
    AppendedDistinct(start, value, before, perms, after);
    AppendedComplete(start, value, remaining, before, perms, after);
  }

  /** Results that differ at the first free place, and are distinct on each side, stay distinct when joined. */
  lemma AppendedDistinct(start: seq<nat>, value: nat, before: seq<seq<nat>>, perms: seq<seq<nat>>,
                         after: seq<seq<nat>>)
    requires after == before + perms
    requires forall q | q in before :: |start| < |q| && q[|start|] < value
    requires forall q | q in perms :: |start| < |q| && q[|start|] == value
    requires forall i, j | 0 <= i < j < |before| :: before[i] != before[j]
    requires forall i, j | 0 <= i < j < |perms| :: perms[i] != perms[j]
    ensures forall i, j | 0 <= i < j < |after| :: after[i] != after[j]
  {
    forall i, j | 0 <= i < j < |after|
      ensures after[i] != after[j]
    {
      if j >= |before| {
        assert after[j] == perms[j - |before|];
        if i < |before| {
          assert after[i] == before[i];
        } else {
          assert after[i] == perms[i - |before|];
        }
      } else {
        assert after[i] == before[i] && after[j] == before[j];
      }
    }
  }

  /** After the results for `value` are appended, every ordering whose first value is at most `value` is found. */
  lemma AppendedComplete(start: seq<nat>, value: nat, remaining: seq<nat>, before: seq<seq<nat>>,
                         perms: seq<seq<nat>>, after: seq<seq<nat>>)
    requires |remaining| == 5 && 1 <= value <= 4 && remaining[value] > 0
    requires after == before + perms
    requires forall p | IsArrangement(p, remaining) && p != [] && 1 <= p[0] < value :: start + p in before
    requires forall p | IsArrangement(p, remaining[value := remaining[value] - 1]) :: start + [value] + p in perms
    ensures forall p | IsArrangement(p, remaining) && p != [] && 1 <= p[0] < value + 1 :: start + p in after
  {
    forall p | IsArrangement(p, remaining) && p != [] && 1 <= p[0] < value + 1
      ensures start + p in after
    {
      if p[0] == value {
        assert start + [value] + p[1..] == start + p;
        assert start + p in perms;
      } else {
        assert start + p in before;
      }
    }
  }

  /**
   * The cells the second pawn starts on, one from each class of cells that the eight rotations and reflections fixing
   * cell (0, 0) map onto each other, each with the size of its class.
   */
  const Representatives: seq<(nat, nat)> := [(1, 4), (2, 2), (5, 4), (6, 4), (10, 1)]

  /** The cards dealt outside the two starting cells: four each of the values 1, 2 and 3, and two 4s. */
  const Deck: seq<nat> := [0, 4, 4, 4, 2]

  /** Every ordering is as long as the count vector says. */
  lemma {:induction false} ArrangementLength(p: seq<nat>, remaining: seq<nat>)
    requires |remaining| == 5 && IsArrangement(p, remaining)
    ensures |p| == Total(remaining)
    decreases |p|
  {
    if p != [] {
      ArrangementLength(p[1..], remaining[p[0] := remaining[p[0]] - 1]);
    }
  }

  /** An ordering of the deck: the 14 cards outside the starting cells, in the order they are laid out. */
  ghost predicate IsShuffle(p: seq<nat>) {
    |p| == CellCount - 2 && IsArrangement(p, Deck)
  }

  /** Every ordering of the deck has the length of a shuffle and holds no blank. */
  lemma ShuffleOfArrangement(p: seq<nat>)
    requires IsArrangement(p, Deck)
    ensures IsShuffle(p)
    ensures forall i | 0 <= i < |p| :: 1 <= p[i] <= 4
  {
    ArrangementLength(p, Deck);
    ArrangementHasBag(p, Deck);
    forall i | 0 <= i < |p|
      ensures 1 <= p[i] <= 4
    {
      assert p[i] in multiset(p);
    }
  }

  /**
   * The board dealt with the second pawn on the cell with row-major index `pawn2` and the other cards laid
   * out in the order `perm`: cell (0, 0) and the second pawn's cell are blank, the first pawn is on (0, 0),
   * side 0 is to move and nothing has been played.
   */
  function Deal(pawn2: nat, perm: seq<nat>): Position
    requires 1 <= pawn2 < CellCount && |perm| == CellCount - 2
  {
    Position([0] + perm[..pawn2 - 1] + [0] + perm[pawn2 - 1..], [Point(0, 0), Cell(pawn2)], 0, [])
  }

  /** Where each card of the shuffle lands, and that the two starting cells are the only blanks. */
  lemma DealLayout(pawn2: nat, perm: seq<nat>)
    requires 1 <= pawn2 < CellCount && |perm| == CellCount - 2
    ensures var cards := Deal(pawn2, perm).cards;
      && |cards| == CellCount && cards[0] == 0 && cards[pawn2] == 0
      && cards[1..pawn2] == perm[..pawn2 - 1] && cards[pawn2 + 1..] == perm[pawn2 - 1..]
      && (forall k | 0 < k < pawn2 :: cards[k] == perm[k - 1])
      && (forall k | pawn2 < k < CellCount :: cards[k] == perm[k - 2])
  {
    var cards := Deal(pawn2, perm).cards;
    var a, b := perm[..pawn2 - 1], perm[pawn2 - 1..];
    assert cards == [0] + a + [0] + b;
    assert cards[1..pawn2] == a;
    assert cards[pawn2 + 1..] == b;
  }

  /** A blank-free sequence is all live cards. */
  lemma {:induction false} LiveNoBlank(s: seq<nat>)
    requires forall i | 0 <= i < |s| :: s[i] != 0
    ensures Live(s) == |s|
  {
    if s != [] {
      LiveNoBlank(s[1..]);
    }
  }

  /** A dealt board holds 14 live cards when the shuffle has no blank. */
  lemma DealLive(pawn2: nat, perm: seq<nat>)
    requires 1 <= pawn2 < CellCount && |perm| == CellCount - 2
    requires forall i | 0 <= i < |perm| :: perm[i] != 0
    ensures Live(Deal(pawn2, perm).cards) == CellCount - 2
  {
    var a, b := perm[..pawn2 - 1], perm[pawn2 - 1..];
    assert Deal(pawn2, perm).cards == [0] + a + [0] + b;
    LiveNoBlank(a);
    LiveNoBlank(b);
    LiveAppend([0], a);
    LiveAppend([0] + a, [0]);
    LiveAppend([0] + a + [0], b);
    assert Live([0]) == 0;
  }

  /** A dealt board holds the shuffle's cards and two blanks. */
  lemma DealMultiset(pawn2: nat, perm: seq<nat>)
    requires 1 <= pawn2 < CellCount && |perm| == CellCount - 2
    ensures multiset(Deal(pawn2, perm).cards) == multiset(perm) + multiset{0, 0}
  {
    var a, b := perm[..pawn2 - 1], perm[pawn2 - 1..];
    assert perm == a + b;
    assert Deal(pawn2, perm).cards == [0] + a + [0] + b;
  }

  /**
   * Every dealt board is sound: side 0 to move with nothing played, both pawns on blank cells, and all 14 cards
   * of the deck live.
   */
  lemma DealSound(pawn2: nat, perm: seq<nat>)
    requires 1 <= pawn2 < CellCount && IsArrangement(perm, Deck)
    ensures IsShuffle(perm)
    ensures var pos := Deal(pawn2, perm);
      && Sound(pos)
      && pos.pawns == [Point(0, 0), Cell(pawn2)] && pos.turn == 0 && pos.moves == []
      && Card(pos, pos.pawns[0]) == 0 && Card(pos, pos.pawns[1]) == 0
      && Live(pos.cards) == CellCount - 2
  {
    ShuffleOfArrangement(perm);
    DealLayout(pawn2, perm);
    DealLive(pawn2, perm);
    CellZero(pawn2);
  }

  /** A dealt board holds the deck plus two blanks. */
  lemma DealHoldsDeck(pawn2: nat, perm: seq<nat>)
    requires 1 <= pawn2 < CellCount && IsArrangement(perm, Deck)
    ensures IsShuffle(perm)
    ensures multiset(Deal(pawn2, perm).cards) == Bag(Deck) + multiset{0, 0}
  {
    ShuffleOfArrangement(perm);
    ArrangementHasBag(perm, Deck);
    DealMultiset(pawn2, perm);
  }

  /** The only blanks of a dealt board are the two pawns' cells. */
  lemma DealBlanks(pawn2: nat, perm: seq<nat>)
    requires 1 <= pawn2 < CellCount && IsArrangement(perm, Deck)
    ensures IsShuffle(perm)
    ensures var pos := Deal(pawn2, perm);
      forall q | InGrid(q) && q != pos.pawns[0] && q != pos.pawns[1] :: Card(pos, q) != 0
  {
    ShuffleOfArrangement(perm);
    DealLayout(pawn2, perm);
    CellZero(pawn2);
    var pos := Deal(pawn2, perm);
    forall q | InGrid(q) && q != pos.pawns[0] && q != pos.pawns[1]
      ensures Card(pos, q) != 0
    {
      CellIndex(q);
      CellIndex(Point(0, 0));
    }
  }

  /** Boards dealt from different cells or different shuffles differ. */
  lemma DealsApart(pawn2: nat, perm: seq<nat>, pawn2': nat, perm': seq<nat>)
    requires 1 <= pawn2 < CellCount && |perm| == CellCount - 2
    requires 1 <= pawn2' < CellCount && |perm'| == CellCount - 2
    requires pawn2 != pawn2' || perm != perm'
    ensures Deal(pawn2, perm) != Deal(pawn2', perm')
  {
    if Deal(pawn2, perm) == Deal(pawn2', perm') {
      DealInjective(pawn2, perm, pawn2', perm');
    }
  }

  /** The cell with a nonzero index is not (0, 0), and its index is the one `Cell` was given. */
  lemma CellZero(k: nat)
    requires 0 < k < CellCount
    ensures Cell(k) != Point(0, 0) && Index(Cell(k)) == k
  {
    IndexCell(k);
  }

  /** Different cells or different shuffles give different boards. */
  lemma DealInjective(pawn2: nat, perm: seq<nat>, pawn2': nat, perm': seq<nat>)
    requires 1 <= pawn2 < CellCount && |perm| == CellCount - 2
    requires 1 <= pawn2' < CellCount && |perm'| == CellCount - 2
    requires Deal(pawn2, perm) == Deal(pawn2', perm')
    ensures pawn2 == pawn2' && perm == perm'
  {
    IndexCell(pawn2);
    IndexCell(pawn2');
    DealLayout(pawn2, perm);
    DealLayout(pawn2', perm');
    assert perm == perm[..pawn2 - 1] + perm[pawn2 - 1..];
    assert perm' == perm'[..pawn2 - 1] + perm'[pawn2 - 1..];
  }

  /** The representatives are cells other than (0, 0), pairwise distinct. */
  lemma RepresentativesOnGrid()
    ensures forall r | 0 <= r < |Representatives| :: 1 <= Representatives[r].0 < CellCount
    ensures forall r, r' | 0 <= r < r' < |Representatives| :: Representatives[r].0 != Representatives[r'].0
  {
    forall r | 0 <= r < |Representatives|
      ensures 1 <= Representatives[r].0 < CellCount
    {
      assert r == 0 || r == 1 || r == 2 || r == 3 || r == 4;
    }
    forall r, r' | 0 <= r < r' < |Representatives|
      ensures Representatives[r].0 != Representatives[r'].0
    {
      assert r == 0 || r == 1 || r == 2 || r == 3 || r == 4;
      assert r' == 1 || r' == 2 || r' == 3 || r' == 4;
    }
  }

  /** The cells that the eight rotations and reflections fixing (0, 0) map `c` onto. */
  function Class(c: Point): set<Point>
    requires InGrid(c)
  {
    {Transform(Sym(false, false, false), c), Transform(Sym(false, true, false), c),
     Transform(Sym(false, false, true), c), Transform(Sym(false, true, true), c),
     Transform(Sym(true, false, false), c), Transform(Sym(true, true, false), c),
     Transform(Sym(true, false, true), c), Transform(Sym(true, true, true), c)}
  }

  /** The five classes, in the order of the representatives. */
  const Classes: seq<set<Point>> := [
    {Point(0, 1), Point(0, 3), Point(1, 0), Point(3, 0)},
    {Point(0, 2), Point(2, 0)},
    {Point(1, 1), Point(1, 3), Point(3, 1), Point(3, 3)},
    {Point(1, 2), Point(3, 2), Point(2, 1), Point(2, 3)},
    {Point(2, 2)}]

  /** The class of representative `r`, written out. */
  lemma RepresentativeClass(r: nat)
    requires r < |Representatives|
    ensures 1 <= Representatives[r].0 < CellCount
    ensures Class(Cell(Representatives[r].0)) == Classes[r]
  {
    if r == 0 {
      assert Class(Point(0, 1)) == Classes[0];
    } else if r == 1 {
      assert Class(Point(0, 2)) == Classes[1];
    } else if r == 2 {
      assert Class(Point(1, 1)) == Classes[2];
    } else if r == 3 {
      assert Class(Point(1, 2)) == Classes[3];
    } else {
      assert Class(Point(2, 2)) == Classes[4];
    }
  }

  /** Four distinct cells make a set of four. */
  lemma FourCells(a: Point, b: Point, c: Point, d: Point)
    requires a != b && a != c && a != d && b != c && b != d && c != d
    ensures |{a, b, c, d}| == 4
  {
    assert {a, b, c, d} == {a, b, c} + {d};
    assert {a, b, c} == {a, b} + {c};
  }

  /** Each written-out class has the size its representative is weighted with, and leaves out (0, 0). */
  lemma ClassSize(r: nat)
    requires r < |Representatives|
    ensures |Classes[r]| == Representatives[r].1 && Point(0, 0) !in Classes[r]
  {
    if r == 0 {
      FourCells(Point(0, 1), Point(0, 3), Point(1, 0), Point(3, 0));
    } else if r == 2 {
      FourCells(Point(1, 1), Point(1, 3), Point(3, 1), Point(3, 3));
    } else if r == 3 {
      FourCells(Point(1, 2), Point(3, 2), Point(2, 1), Point(2, 3));
    } else if r == 1 {
      assert Classes[1] == {Point(0, 2)} + {Point(2, 0)};
    }
  }

  /** The written-out classes are pairwise disjoint. */
  lemma ClassesDisjoint(r: nat, r': nat)
    requires r < r' < |Representatives|
    ensures Classes[r] !! Classes[r']
  {
    assert r == 0 || r == 1 || r == 2 || r == 3;
    assert r' == 1 || r' == 2 || r' == 3 || r' == 4;
  }

  /** Every cell of the grid other than (0, 0) lies in one of the written-out classes. */
  lemma CellCovered(q: Point)
    requires InGrid(q) && q != Point(0, 0)
    ensures exists r | 0 <= r < |Classes| :: q in Classes[r]
  {
    assert q.x == 0 || q.x == 1 || q.x == 2 || q.x == 3;
    assert q.y == 0 || q.y == 1 || q.y == 2 || q.y == 3;
    if q in Classes[0] {
    } else if q in Classes[1] {
      assert q in Classes[1];
    } else if q in Classes[2] {
      assert q in Classes[2];
    } else if q in Classes[3] {
      assert q in Classes[3];
    } else {
      assert q in Classes[4];
    }
  }

  /**
   * The class of each representative has the size it is weighted with, the classes of different
   * representatives are disjoint, and together they cover every cell except (0, 0).
   */
  lemma RepresentativeClasses()
    ensures forall r | 0 <= r < |Representatives| :: 1 <= Representatives[r].0 < CellCount
    ensures forall r | 0 <= r < |Representatives| :: |Class(Cell(Representatives[r].0))| == Representatives[r].1
    ensures forall r | 0 <= r < |Representatives| :: Point(0, 0) !in Class(Cell(Representatives[r].0))
    ensures forall r, r' | 0 <= r < r' < |Representatives| ::
      Class(Cell(Representatives[r].0)) !! Class(Cell(Representatives[r'].0))
    ensures forall q | InGrid(q) && q != Point(0, 0) ::
      exists r | 0 <= r < |Representatives| :: q in Class(Cell(Representatives[r].0))
  {
    forall r | 0 <= r < |Representatives|
      ensures 1 <= Representatives[r].0 < CellCount
      ensures |Class(Cell(Representatives[r].0))| == Representatives[r].1
      ensures Point(0, 0) !in Class(Cell(Representatives[r].0))
    {
      RepresentativeClass(r);
      ClassSize(r);
    }
    forall r, r' | 0 <= r < r' < |Representatives|
      ensures Class(Cell(Representatives[r].0)) !! Class(Cell(Representatives[r'].0))
    {
      RepresentativeClass(r);
      RepresentativeClass(r');
      ClassesDisjoint(r, r');
    }
    forall q | InGrid(q) && q != Point(0, 0)
      ensures exists r | 0 <= r < |Representatives| :: q in Class(Cell(Representatives[r].0))
    {
      CellCovered(q);
      var r :| 0 <= r < |Classes| && q in Classes[r];
      RepresentativeClass(r);
    }
  }

  /** The board dealt with the second pawn on representative `r` and the shuffle `p`, paired with r's class size. */
  function Weighted(r: nat, p: seq<nat>): (Position, nat)
    requires r < |Representatives| && IsShuffle(p)
  {
    RepresentativesOnGrid();
    (Deal(Representatives[r].0, p), Representatives[r].1)
  }

  /** The sum of the class sizes of `reps`. */
  function Weight(reps: seq<(nat, nat)>): nat {
    if reps == [] then 0 else reps[0].1 + Weight(reps[1..])
  }

  /** The classes cover every cell but (0, 0): the boards of one shuffle stand for 15 deals. */
  lemma WeightsCoverCells()
    ensures Weight(Representatives) == CellCount - 1
  {
    assert Representatives[1..][1..][1..][1..][1..] == [];
  }

  /** The results of the enumerator on the deck are exactly the shuffles. */
  lemma ShufflesFound(perms: seq<seq<nat>>)
    requires forall q | q in perms :: Extends(q, [], Deck)
    requires forall p | IsArrangement(p, Deck) :: [] + p in perms
    ensures forall t | 0 <= t < |perms| :: |perms[t]| == CellCount - 2 && IsShuffle(perms[t])
    ensures forall p | IsShuffle(p) :: p in perms
  {
    forall t | 0 <= t < |perms|
      ensures IsShuffle(perms[t])
    {
      var q := perms[t];
      assert q in perms;
      assert q[0..] == q;
      ShuffleOfArrangement(q);
    }
    forall p | IsShuffle(p)
      ensures p in perms
    {
      assert [] + p == p;
    }
  }

  /** `b` is the board of one of the first `k` representatives and some shuffle, with that class's size. */
  ghost predicate DealtBy(b: (Position, nat), k: nat) {
    exists r: nat, p: seq<nat> | r < k && r < |Representatives| && IsShuffle(p) :: b == Weighted(r, p)
  }

  /**
   * All deals with the first pawn on (0, 0) and the second on a representative, each paired with the size of
   * its representative's class: every result is such a board, every such board is a result, and none twice.
   */
  method AllBoards() returns (boards: seq<(Position, nat)>)
    ensures forall j | 0 <= j < |boards| :: DealtBy(boards[j], |Representatives|)
    ensures forall r: nat, p: seq<nat> | r < |Representatives| && IsShuffle(p) :: Weighted(r, p) in boards
    ensures forall i, j | 0 <= i < j < |boards| :: boards[i] != boards[j]
  {
    RepresentativesOnGrid();
    boards := [];
    for k := 0 to |Representatives|
      invariant Dealt(boards, k)
    {
      var (pawn2, weight) := Representatives[k];
      var perms := UniquePermutations([], Deck);
      ShufflesFound(perms);
      ghost var before := boards;
      boards := PushDeals(boards, pawn2, weight, perms);
      RepresentativeAdded(before, k, perms, boards);
    }
  }

  /**
   * The inner deal loop: for each shuffle in turn, lay out the cards with blanks at index 0 and `pawn2`, put
   * the pawns on (0, 0) and the cell of `pawn2`, and append that board with `weight`.
   */
  method PushDeals(boards: seq<(Position, nat)>, pawn2: nat, weight: nat, perms: seq<seq<nat>>)
    returns (out: seq<(Position, nat)>)
    requires 1 <= pawn2 < CellCount
    requires forall t | 0 <= t < |perms| :: |perms[t]| == CellCount - 2
    ensures |out| == |boards| + |perms| && out[..|boards|] == boards
    ensures forall t | 0 <= t < |perms| :: out[|boards| + t] == (Deal(pawn2, perms[t]), weight)
  {
    out := boards;
    for i := 0 to |perms|
      invariant |out| == |boards| + i && out[..|boards|] == boards
      invariant forall t | 0 <= t < i :: out[|boards| + t] == (Deal(pawn2, perms[t]), weight)
    {
      var perm := perms[i];
      var cards := [0] + perm[..pawn2 - 1] + [0] + perm[pawn2 - 1..];
      out := out + [(Position(cards, [Point(0, 0), Point(pawn2 / Size, pawn2 % Size)], 0, []), weight)];
    }
  }

  /**
   * The state of the deal loop after the first `k` representatives: every result is a board of one of them,
   * the results are distinct, and every board of those representatives is among them.
   */
  ghost predicate Dealt(boards: seq<(Position, nat)>, k: nat) {
    && k <= |Representatives|
    && (forall j | 0 <= j < |boards| :: DealtBy(boards[j], k))
    && (forall i, j | 0 <= i < j < |boards| :: boards[i] != boards[j])
    && (forall r: nat, p: seq<nat> | r < k && IsShuffle(p) :: Weighted(r, p) in boards)
  }

  /** The loop step of the deal loop: the boards of representative `k`, one per shuffle, are appended. */
  lemma RepresentativeAdded(before: seq<(Position, nat)>, k: nat, perms: seq<seq<nat>>, after: seq<(Position, nat)>)
    requires k < |Representatives| && Dealt(before, k)
    requires forall t | 0 <= t < |perms| :: IsShuffle(perms[t])
    requires forall p | IsShuffle(p) :: p in perms
    requires forall i, j | 0 <= i < j < |perms| :: perms[i] != perms[j]
    requires |after| == |before| + |perms| && after[..|before|] == before
    requires forall t | 0 <= t < |perms| :: after[|before| + t] == Weighted(k, perms[t])
    ensures Dealt(after, k + 1)
  {
    AddedSound(before, k, perms, after);
    AddedDistinct(before, k, perms, after);
    AddedComplete(before, k, perms, after);
  }

  lemma AddedSound(before: seq<(Position, nat)>, k: nat, perms: seq<seq<nat>>, after: seq<(Position, nat)>)
    requires k < |Representatives| && Dealt(before, k)
    requires forall t | 0 <= t < |perms| :: IsShuffle(perms[t])
    requires |after| == |before| + |perms| && after[..|before|] == before
    requires forall t | 0 <= t < |perms| :: after[|before| + t] == Weighted(k, perms[t])
    ensures forall j | 0 <= j < |after| :: DealtBy(after[j], k + 1)
  {
    var n := |before|;
    forall j | 0 <= j < |after|
      ensures DealtBy(after[j], k + 1)
    {
      if j < n {
        assert after[j] == after[..n][j];
        var r: nat, p: seq<nat> :| r < k && r < |Representatives| && IsShuffle(p) && before[j] == Weighted(r, p);
        assert after[j] == Weighted(r, p);
      } else {
        var p := perms[j - n];
        assert after[j] == Weighted(k, p);
      }
    }
  }

  lemma AddedDistinct(before: seq<(Position, nat)>, k: nat, perms: seq<seq<nat>>, after: seq<(Position, nat)>)
    requires k < |Representatives| && Dealt(before, k)
    requires forall t | 0 <= t < |perms| :: IsShuffle(perms[t])
    requires forall i, j | 0 <= i < j < |perms| :: perms[i] != perms[j]
    requires |after| == |before| + |perms| && after[..|before|] == before
    requires forall t | 0 <= t < |perms| :: after[|before| + t] == Weighted(k, perms[t])
    ensures forall i, j | 0 <= i < j < |after| :: after[i] != after[j]
  {
    RepresentativesOnGrid();
    var n := |before|;
    forall i, j | 0 <= i < j < |after|
      ensures after[i] != after[j]
    {
      if j >= n {
        if i < n {
          assert after[i] == after[..n][i];
          var r: nat, p: seq<nat> :| r < k && r < |Representatives| && IsShuffle(p) && before[i] == Weighted(r, p);
          DealsApart(Representatives[r].0, p, Representatives[k].0, perms[j - n]);
        } else {
          DealsApart(Representatives[k].0, perms[i - n], Representatives[k].0, perms[j - n]);
        }
      } else {
        assert after[i] == after[..n][i] && after[j] == after[..n][j];
      }
    }
  }

  lemma AddedComplete(before: seq<(Position, nat)>, k: nat, perms: seq<seq<nat>>, after: seq<(Position, nat)>)
    requires k < |Representatives| && Dealt(before, k)
    requires forall p | IsShuffle(p) :: p in perms
    requires |after| == |before| + |perms| && after[..|before|] == before
    requires forall t | 0 <= t < |perms| :: IsShuffle(perms[t])
    requires forall t | 0 <= t < |perms| :: after[|before| + t] == Weighted(k, perms[t])
    ensures forall r: nat, p: seq<nat> | r < k + 1 && IsShuffle(p) :: Weighted(r, p) in after
  {
    var n := |before|;
    forall r: nat, p: seq<nat> | r < k + 1 && IsShuffle(p)
      ensures Weighted(r, p) in after
    {
      if r < k {
        var j :| 0 <= j < n && before[j] == Weighted(r, p);
        assert after[j] == after[..n][j];
      } else {
        var t :| 0 <= t < |perms| && perms[t] == p;
        assert after[n + t] == Weighted(k, p);
      }
    }
  }
}
