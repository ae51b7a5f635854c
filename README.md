# Collapsi solver, modelled in Dafny

Collapsi is a two-player game on a 4×4 grid whose edges wrap around (a torus). Each cell holds a card
valued 1 to 4, and the two starting cells hold blanks (0). Each side has one pawn.

On a turn, the side to move walks its pawn exactly as many orthogonal steps as the card under it shows.
The walk may not revisit a cell or cross a blank. The pawn may not end on the other pawn. The card it
leaves is then spent and becomes 0. A pawn still on its blank starting cell may instead jump to any
unoccupied cell that holds a card. A side with no legal move loses.

The solver (`src/main.rs`) puts the first pawn on (0, 0) and takes one cell for the second pawn from each
class of the eight rotations and reflections fixing (0, 0), with every card layout for it, weighted by the
class size; it then searches each game tree. This project models that core:

- **`Torus`**: wrap-around addition of points and the four neighbours of a cell. It also has the eight
  rotations and reflections of the grid that fix cell (0, 0), and proves that they preserve adjacency.
  The torus has further adjacency-preserving maps fixing (0, 0), for example one taking (0, 2) to
  (1, 1), which the program does not use.
- **`Rules`**: the board as a value (`Position`, with the grid listed row by row). It covers the legal
  destinations of the side to move, making a move (`Apply`) and undoing one (`Undo`). The depth-first
  walk is `ReachFrom`, proved equal to "the cells that end a simple path of the card's length". A
  potential measure shows that every line of play is finite. `Sound` is the invariant every dealt board
  keeps under play.
- **`Search`**: what the three searches compute, as functions of the board:
  - `Wins`: the side to move can force a win.
  - `Minimax`: the full-width score by cards remaining, starting from the source's ±16 bound.
  - `Leaves`: the number of finished games below a board.

  It also proves how the alpha-beta loop state relates to `Minimax` (`Scanned`, `Folded`, `FailSoft`).
- **`Game`**: the `Board` class, which updates its card grid (`array2`) and pawns (`array`) in place.
  - Its methods make and undo moves, run the depth-first walk with a shared path stack (`Trail`), and
    run the three searches.
  - Each method is proved against the `Rules`/`Search` functions.
  - Each search and the walk leave the board as they found it, including on the alpha-beta cut-off paths.
- **`Deals`**: the permutation enumerator for a count vector, and the list of weighted deals. Every
  result is a deal, every deal appears, and none appears twice. The weights are the sizes of the
  classes of the second pawn's cell under those eight rotations and reflections.

When a side to move has legal moves but no child beats its starting bound (-16 for side 0, +16 for
side 1), the source still returns `Some(Point(0, 0))`, and that move need not be legal. The model keeps
this behaviour: `BestMoveBounded` only promises a legal move when the score differs from the starting
bound. `MinimaxSign` shows that on a sound board with moves the score is never ±16, so `BestMove` does
return a legal move there.

## Model

| member | source | states |
|---|---|---|
| Torus.Add | src/main.rs:335-343 | Both components of a sum lie in 0..3; adding (0, 0) to a grid point changes nothing |
| Torus.Neighbors | src/main.rs:345-355 | There are four neighbours, all on the grid |
| Torus.NeighborsAdjacent | src/main.rs:345-355 | Each neighbour differs from the cell in exactly one coordinate, by one step mod 4; the four are distinct |
| Torus.NeighborsComplete | src/main.rs:345-355 | Every cell one toroidal step away is among the four neighbours |
| Torus.TransformAdjacent | src/main.rs:148 | The eight rotations and reflections behind the representative cells fix (0, 0) and preserve adjacency in both directions |
| Rules.ApplyEffect | src/main.rs:286-295 | A move pushes one entry (mover's card, mover's cell) onto the history and blanks the mover's cell; it moves the mover's pawn and flips the turn; the other pawn and every other card are unchanged |
| Rules.UndoApply | src/main.rs:297-308 | Undoing a move restores cards, pawns, turn and history exactly |
| Rules.ReachFrom | src/main.rs:247-260 | Every cell the walk returns is on the grid, holds a card and is not on the path stack |
| Rules.ReachFromIsWalks | src/main.rs:247-260 | A cell is returned if and only if some depth-first walk of exactly `dist` steps ends there |
| Rules.WalkIsSimple | src/main.rs:247-260 | The depth-first walks are exactly the simple paths over cards that avoid the path stack (both directions) |
| Rules.FirstMoves | src/main.rs:267-275 | The first-move destinations hold a card and are free of pawns |
| Rules.LegalMoves | src/main.rs:262-284 | No legal destination is a pawn's cell or a blank |
| Rules.LegalFirstMove | src/main.rs:267-275 | From a blank cell the destinations are exactly the unoccupied cells holding a card (both directions) |
| Rules.LegalWalkMove | src/main.rs:277-283 | From a card of value d the destinations are exactly the pawn-free ends of simple d-step paths (both directions) |
| Rules.PotentialDecreases | src/main.rs:286-295 | Every legal move lowers the potential, so the recursive searches terminate |
| Rules.ApplySound | src/main.rs:286-295 | A legal move keeps a sound board sound: pawns apart, history plus remaining cards equal 16, turn is history parity |
| Rules.SoundRemaining | src/main.rs:200 | On a sound board at most 14 moves have been made, so the cards remaining are at least 2 |
| Search.TruncRem | src/main.rs:201 | The signed remainder agrees with Euclidean `%` on non-negative operands and is in (-b, 0] on negative ones |
| Search.TerminalMinimax | src/main.rs:198-207 | A finished board scores +remaining when that count is odd and -remaining otherwise, computed with the signed remainder |
| Search.MinimaxOfChildren | src/main.rs:209-243 | With moves, the score is at least as good for the mover as every child and as the ±16 bound, and equals the bound or some child's score |
| Search.BestFromBounds | src/main.rs:209-243 | The running best over the moves from a cell index on dominates those children and the bound, and is attained by one of them or is the bound |
| Search.MinimaxSign | src/main.rs:177-207 | On a sound board the score is nonzero and within ±remaining, and the side to move can force a win exactly when the score favours it |
| Search.LeavesSum | src/main.rs:111-122 | The finished games below a board are 1 if it is finished, plus those below each legal move, in any order |
| Search.LeavesPositive | src/main.rs:111-122 | Every board has at least one finished game below it |
| Search.SumFromRemove | src/main.rs:116-120 | Taking one move out of the unvisited set takes exactly its finished games out of the sum |
| Search.NoChildBetter | src/main.rs:211-243 | A score that no child beats and that is no worse than the bound is no worse than the minimax score |
| Search.ScanStarts | src/main.rs:209-210 | Before the loop, the running best is the ±16 bound and the running window is the caller's |
| Search.ScanMove | src/main.rs:211-242 | Without a cut-off, one pass keeps the alpha-beta loop state. With one, the result bounds the minimax score from the far side of the caller's window |
| Search.ScanDone | src/main.rs:243 | After every move is searched, the running best is a fail-soft bound of the minimax score for the caller's window |
| Game.Board.constructor | src/main.rs:132-144 | The demonstration board holds the source's grid and pawns, side 0 to move, empty history |
| Game.Board.Init | src/main.rs:155-165 | A board object built from a dealt value holds exactly that value |
| Game.Board.Card | src/main.rs:172-175 | Reads the card of the value's grid at that cell |
| Game.Board.SetCard | src/main.rs:310-313 | Writes one cell of the grid; pawns, turn and history unchanged |
| Game.Board.MakeMove | src/main.rs:286-295 | The new state is Apply of the old one (see ApplyEffect) |
| Game.Board.UndoMove | src/main.rs:297-308 | Needs a non-empty history; the new state is Undo of the old one, so make then undo restores the board |
| Game.Board.Reachable | src/main.rs:247-260 | Returns ReachFrom for the path stack at entry, and leaves the path stack as it found it |
| Game.Board.LegalMoves | src/main.rs:262-284 | Returns the legal destinations of the board's value |
| Game.Board.WinningMove | src/main.rs:177-187 | Returns a move iff the mover can force a win; the move is legal and leaves the opponent without a forced win; board unchanged |
| Game.Board.BestMoveBounded | src/main.rs:193-245 | Fail-soft alpha-beta: exact minimax score inside the window, a bound outside. No move iff no legal moves, and then the score is the exact terminal score for any window. Unless the score is the ±16 starting bound, the move is legal, and inside the window its child scores exactly the result. Board unchanged, also after a cut-off |
| Game.Board.SearchMove | src/main.rs:211-242 | Plays one move, searches it and undoes it; folds the child's fail-soft result into the running best and window as `Folded` describes |
| Game.Board.BestMove | src/main.rs:189-191 | With the window (-16, 16) the score is a fail-soft bound of the minimax score on any board, and the exact terminal score on a finished one. On a sound board it is the exact minimax score, and the move is legal and achieves it |
| Game.TraverseGameTree | src/main.rs:111-122 | Adds to the counter exactly the number of finished games below the board, and restores the board |
| Deals.ArrangementMultiset | src/main.rs:357-375 | An ordering of a count vector is exactly a sequence holding `remaining[v]` copies of each value v from 1 to 4 |
| Deals.ArrangementLength | src/main.rs:357-375 | Every ordering is as long as the count vector's total |
| Deals.UniquePermutations | src/main.rs:357-375 | Every result is `start` plus an ordering; the results are pairwise distinct; every ordering appears; the result is never empty |
| Deals.SearchedValue | src/main.rs:360-370 | Appending the results for one more first value keeps the results sound, distinct and complete up to that value |
| Deals.NothingLeft | src/main.rs:371-373 | With nothing left to place, `start` alone is the complete result |
| Deals.EveryFirstValue | src/main.rs:360-374 | Once values 1 to 4 have been tried and some result exists, every ordering has been found |
| Deals.ShuffleOfArrangement | src/main.rs:149 | Every ordering of the deck has 14 cards, each valued 1 to 4 |
| Deals.ShufflesFound | src/main.rs:149 | The enumerator's results on the deck are exactly the shuffles |
| Deals.DealLayout | src/main.rs:150-153 | Cells 0 and `pawn2` are blank, and the shuffle fills the other cells in order |
| Deals.DealSound | src/main.rs:150-164 | A dealt board is sound: side 0 to move, empty history, pawns on (0, 0) and (pawn2 / 4, pawn2 % 4), both on blanks, 14 live cards |
| Deals.DealHoldsDeck | src/main.rs:149-153 | A dealt board holds four each of 1, 2 and 3, two 4s and two blanks |
| Deals.DealBlanks | src/main.rs:150-153 | The pawns' cells are the only blanks |
| Deals.DealInjective | src/main.rs:150-162 | Equal dealt boards come from the same pawn cell and shuffle |
| Deals.RepresentativeClasses | src/main.rs:148 | The representatives are distinct cells other than (0, 0). Under the eight rotations and reflections fixing (0, 0), each class has its weight as size; the classes are disjoint and cover every other cell |
| Deals.WeightsCoverCells | src/main.rs:148 | The weights sum to 15, the number of cells other than (0, 0) |
| Deals.PushDeals | src/main.rs:149-166 | Appends, for each shuffle in order, the dealt board with the given weight, and keeps what was there |
| Deals.RepresentativeAdded | src/main.rs:148-166 | Appending one representative's boards keeps the results dealt, distinct and complete |
| Deals.AllBoards | src/main.rs:146-170 | Every result is a weighted deal of a representative; every such deal is a result; none appears twice |

## Left out

- The command-line entry point and its usage text (src/main.rs:18-82): argument handling only.
- `simulate_game` (src/main.rs:84-109) and `Board::print` (src/main.rs:315-329): console output loops around `winning_move` and `make_move`.
- The parallel iteration, progress bars and weighted aggregation in `main`: scheduling and telemetry over boards whose per-board searches are modelled.
- The summary line printed by `all_boards` (src/main.rs:168): output only.
- HashSet iteration order: the loops pick an arbitrary unvisited move (`:|`). When scores tie, the contracts constrain the score and the move's legality, not which move is reported.
- Machine integer widths (`u8` cards, `i8` scores, `usize` coordinates, `u64` counter) are unbounded `nat`/`int`. Every value the game produces lies within ±16 and the counter is not bounded. The signed `%` of the terminal score is written out as `TruncRem`.
- Game.Board.constructor: the demonstration layout of `Board::new` is a fixture; nothing is proved about its play.
- Deals.AllBoards: it returns board values (`Position`) paired with weights rather than `Board` objects. `Game.Board.Init` builds the object for any such value.
- Deals.RepresentativeClasses: the classes are orbits of the eight rotations and reflections only. The torus has 24 adjacency-preserving maps fixing (0, 0), for example one taking (0, 2) to (1, 1); the program does not use the others, so neither does the model.
- Deals.AllBoards: it does not prove that a deal and its image under a rotation or reflection have the same game value, which justifies the weights. The model proves only that the weighted classes partition the cells other than (0, 0).
- Game.Board.SearchMove: it is the body of the alpha-beta loop (src/main.rs:211-242), written as its own method that is mutually recursive with `BestMoveBounded`. The `break` after a cut-off is the loop's exit on `cutoff`.
- Deals.PushDeals: it is the inner loop of `all_boards`, written as its own method. The row-major layout of the grid is the `cards` sequence itself.
- Game.Board.UndoMove: undoing on an empty history panics in the source; the model makes a non-empty history a precondition.
