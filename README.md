# A* 15-puzzle solver, modelled in Dafny

This project models the A* solver for the 4x4 sliding-tile puzzle in
`15-puzzle-solver/astar.py` and proves properties of the model.

- **Board helpers.**
  - `manhattan_distance` is the heuristic.
  - `find_blank` locates the 0 tile.
  - `get_neighbors` lists the cells the blank may move to, up, down, left, right.
  - `swap` builds a new board with two cells exchanged.
- **The search (`a_star_15_puzzle`).**
  - It keeps a min-priority frontier of `(f, board)` pairs.
  - It keeps a best-cost table `g_score` and a predecessor map `parent_track`.
  - When the goal is popped, it rebuilds the path by following predecessors and reversing.

## Modules

- `Wrappers`: `Option`.
- `Puzzle` (`puzzle.dfy`).
  - A board is a row-major `seq<int>` of length 16, with 0 for the blank.
  - It holds `find_blank` (`BlankOf`, `FindBlank`), `get_neighbors` (`GetNeighbors`) and `swap` (`Swap`).
  - It defines the move relation `Successors`: the first blank swapped with each neighbour in `get_neighbors` order.
    The scan for the blank is folded into the move generator; `SuccessorsOfBlank` proves this equal to using `find_blank`'s result.
  - It defines paths (`ValidPath`) and reachability (`Reaches`).
- `Heuristic` (`heuristic.dfy`).
  - `Manhattan` is the specification of `manhattan_distance`.
  - The method `ManhattanDistance` has the source's nested loops.
  - Lemmas show the distance is zero exactly when every non-blank tile stands on its canonical cell.
  - The heuristic is consistent (one move changes it by at most 1) and admissible towards the canonical goal.
- `Frontier` (`frontier.dfy`).
  - Python's tuple and list order is `EntryLe` and `LexLe`, proved to be a total order.
  - `PopMin` removes the least entry, which is exactly the entry `heappop` returns.
- `Search` (`search.dfy`).
  - `AStar15Puzzle` is the main loop.
  - `Expand` is one expansion and `Relax` is one relaxation.
  - `Reconstruct` rebuilds the path.
  - `CostTableOk` and `SearchOk` are the invariants they keep.

The main results:

- **A returned path is valid.** It starts at the start, ends at the goal, and each step is one move.
- **"No solution" is correct.** The search reports it only when no sequence of moves leads from start to goal.
- **Start equal to goal.** The search returns `[start]`.
- **Cost-table invariants.**
  - The start keeps cost 0 and never gets a predecessor.
  - Costs only decrease.
  - Every predecessor has a strictly smaller cost and is one move away.
  - Every recorded board holds the same tiles as the start.

## Model

| member | source | states |
|---|---|---|
| Puzzle.FirstZeroFrom | 15-puzzle-solver/astar.py:43-47 | the scan from cell `i` stops only at a cell at or after `i` that holds 0, and finds nothing only when no cell from `i` on holds 0 |
| Puzzle.FirstZeroFromSpec | 15-puzzle-solver/astar.py:43-47 | scanning from cell `i`, the result is a 0 with no 0 between `i` and it, or none when no cell from `i` on is 0 |
| Puzzle.BlankOf | 15-puzzle-solver/astar.py:41-47 | a reported blank is an on-grid cell holding 0, and `None` is returned exactly when the board holds no 0 |
| Puzzle.BlankOfSpec | 15-puzzle-solver/astar.py:41-47 | a reported blank is inside the grid, holds 0, and has no 0 before it in row-major order; `None` is returned exactly when the board has no 0 |
| Puzzle.FindBlank | 15-puzzle-solver/astar.py:41-47 | the nested row/column scan with early return computes exactly `BlankOf` |
| Puzzle.GetNeighbors | 15-puzzle-solver/astar.py:49-61 | for an on-grid position there are between 2 and 4 neighbours, each on the grid at taxicab distance 1 |
| Puzzle.GetNeighborsSpec | 15-puzzle-solver/astar.py:49-61 | neighbours come strictly in the order up, down, left, right; inside the grid they lie on the grid at distance 1; every on-grid cell at distance 1 is listed; there are 2 at a corner, 3 on an edge and 4 inside |
| Puzzle.NeighborsInGrid | 15-puzzle-solver/astar.py:49-61 | every neighbour of an on-grid cell is on the grid |
| Puzzle.Swap | 15-puzzle-solver/astar.py:63-70 | the new board holds at `p1` what the old one held at `p2`, and the other way round |
| Puzzle.SwapSpec | 15-puzzle-solver/astar.py:63-70 | the two named cells are exchanged, every other cell is unchanged, and the multiset of tiles is preserved |
| Puzzle.SwapInvolutive | 15-puzzle-solver/astar.py:63-70 | swapping the same two cells twice gives back the original board |
| Puzzle.SwapSymmetric | 15-puzzle-solver/astar.py:66-69 | the order of the two positions does not matter |
| Puzzle.Successors | 15-puzzle-solver/astar.py:92-94 | a board has at most four moves |
| Puzzle.MovesFromFirstZero | 15-puzzle-solver/astar.py:92-94 | the moves generated while scanning from cell `i` are those of the first blank at or after `i`, and there are none without one |
| Puzzle.SuccessorsOfBlank | 15-puzzle-solver/astar.py:92-94 | the moves of a board swap its `find_blank` position with each neighbour; a board without a blank has no moves |
| Puzzle.SuccessorCount | 15-puzzle-solver/astar.py:92-93 | a board with a blank has exactly one move per neighbour of the blank |
| Puzzle.SuccessorAt | 15-puzzle-solver/astar.py:93-94 | the `k`-th move is `swap(board, blank, neighbors[k])` |
| Puzzle.MoveIndex | 15-puzzle-solver/astar.py:93-94 | every move is `swap(board, blank, neighbors[k])` for some index `k` |
| Puzzle.MoveSwapsBlank | 15-puzzle-solver/astar.py:92-94 | a move exists only from a board with a blank; it swaps the blank with an on-grid tile at distance 1 and keeps every tile |
| Puzzle.SingleBlankFound | 15-puzzle-solver/astar.py:41-47 | on a board with exactly one 0, any cell holding 0 is the one `find_blank` reports |
| Puzzle.MoveReversible | 15-puzzle-solver/astar.py:92-94 | on a board with one blank, every move can be undone by a move |
| Heuristic.Manhattan | 15-puzzle-solver/astar.py:29-39 | the distance of a board is at least the taxicab distance of each single tile to its canonical cell |
| Heuristic.DistanceUpToBounds | 15-puzzle-solver/astar.py:31-39 | after the first `k` cells the running sum is at least the contribution of each of those cells |
| Heuristic.ManhattanDistance | 15-puzzle-solver/astar.py:29-39 | the nested loops compute `Manhattan(puzzle)`, the sum of each tile's taxicab distance to its canonical target `divmod(v - 1, 4)`; the `goal` argument has no effect |
| Heuristic.TileDistanceZero | 15-puzzle-solver/astar.py:34-38 | a cell contributes 0 exactly when it is the blank or holds the tile whose canonical home it is |
| Heuristic.DistanceUpToZero | 15-puzzle-solver/astar.py:31-39 | the partial sum over the first `k` cells is 0 exactly when each non-blank among them stands on its canonical cell |
| Heuristic.ManhattanZero | 15-puzzle-solver/astar.py:29-39 | the distance is 0 exactly when every non-blank tile stands on its canonical cell, wherever the blank is |
| Heuristic.CanonicalGoalIsZero | 15-puzzle-solver/astar.py:29-39 | the canonical goal board has distance 0, whatever goal is passed |
| Heuristic.DistanceUpToTwoCells | 15-puzzle-solver/astar.py:31-39 | changing two cells changes the partial sum by exactly the change of their two contributions |
| Heuristic.TileStep | 15-puzzle-solver/astar.py:37-38 | moving one tile to an adjacent cell changes its contribution by at most 1 |
| Heuristic.ManhattanConsistent | 15-puzzle-solver/astar.py:29-39 | one move changes the heuristic by at most 1 (consistency) |
| Heuristic.ManhattanAdmissible | 15-puzzle-solver/astar.py:29-39 | no path to the canonical goal has fewer moves than the heuristic of its first board (admissibility) |
| Frontier.LexLeReflexive | 15-puzzle-solver/astar.py:81 | Python's list order on boards is reflexive |
| Frontier.LexLeTotal | 15-puzzle-solver/astar.py:81 | any two boards are comparable |
| Frontier.LexLeTransitive | 15-puzzle-solver/astar.py:81 | the board order is transitive |
| Frontier.LexLeAntisymmetric | 15-puzzle-solver/astar.py:81 | two boards each `<=` the other are equal |
| Frontier.EntryLeTotal | 15-puzzle-solver/astar.py:81 | any two `(f, board)` entries are comparable under tuple order |
| Frontier.EntryLeTransitive | 15-puzzle-solver/astar.py:81 | tuple order on entries is transitive |
| Frontier.LeastEntryUnique | 15-puzzle-solver/astar.py:81 | the least entry of a frontier is unique, so the pop does not depend on how the heap is laid out |
| Frontier.PopMin | 15-puzzle-solver/astar.py:81 | the popped entry is in the frontier and `<=` every entry; the rest is the frontier minus exactly that one entry |
| Frontier.BoardsAfterPop | 15-puzzle-solver/astar.py:81 | after a pop, every board of the old frontier is still on the frontier or is the popped board |
| Search.RecordedKeepsTiles | 15-puzzle-solver/astar.py:95-102 | every board in the cost table holds the same multiset of tiles as the start, so it has a blank whenever the start does |
| Search.RelaxKeepsCostTable | 15-puzzle-solver/astar.py:98-102 | recording a strictly better cost `g[cur] + 1` and predecessor `cur` for a successor keeps the cost table consistent; the start and `cur` themselves are never updated |
| Search.Relax | 15-puzzle-solver/astar.py:95-102 | the successor gets cost `g[cur] + 1`, predecessor `cur` and an entry with priority cost plus heuristic when it is new or strictly cheaper; otherwise nothing changes; the table stays consistent and the successor is recorded afterwards |
| Search.RelaxKeepsExpandedSoFar | 15-puzzle-solver/astar.py:93-102 | each relaxation keeps the expansion invariant: no cost rises, `cur` keeps its cost, a board changes only when it is new or `g[cur] + 1` is strictly below its cost on entry, and then it gets cost `g[cur] + 1` and predecessor `cur` and is pushed |
| Search.RelaxKeepsPushedOnce | 15-puzzle-solver/astar.py:98-101 | after each relaxation, every entry pushed while expanding `cur` is for a board that was new or strictly cheaper and now costs `g[cur] + 1`, and no board has two entries |
| Search.RelaxKeepsCovered | 15-puzzle-solver/astar.py:93-102 | after relaxing the `k`-th move of `cur`, each of the first `k + 1` moves is recorded at cost at most `g[cur] + 1` |
| Search.Expand | 15-puzzle-solver/astar.py:92-102 | after expanding `cur`: the table is consistent; costs only decrease; every move out of `cur` is recorded with cost at most `g[cur] + 1`; a board changes only when it is new or `g[cur] + 1` is strictly below its old cost, and then it has cost `g[cur] + 1` and predecessor `cur` and was pushed; every pushed entry is a recorded move of `cur` with priority cost plus heuristic, for a board that was new or strictly cheaper and now costs `g[cur] + 1`; no board is pushed twice, so exactly one entry goes on the frontier per updated board |
| Search.Reconstruct | 15-puzzle-solver/astar.py:84-90 | the rebuilt path runs from start to goal one move at a time; it is `[start]` when the goal has no predecessor; its number of moves is at most the goal's recorded cost; each board after the first is recorded in the predecessor map with the board before it as its predecessor, so the path is the predecessor chain from the goal, reversed |
| Search.ClosedSetHoldsPath | 15-puzzle-solver/astar.py:80-104 | a set of boards closed under moves that holds the start of a path holds its end |
| Search.ExpansionKeepsSearchOk | 15-puzzle-solver/astar.py:80-102 | popping a non-goal board and expanding it keeps the main-loop invariant, with that board now expanded |
| Search.AStar15Puzzle | 15-puzzle-solver/astar.py:72-104 | a returned path is valid from start to goal; "no solution" is returned only when the goal is unreachable; start equal to goal gives `[start]`, with or without a blank |

## Left out

- `get_puzzle_input`, the `__main__` block and `app.py` are left out. They are console, HTTP and file I/O.
- `heapq` internals are left out.
  - The frontier is a sequence. A push appends, and a pop removes the least `(f, board)` entry in Python's tuple order.
  - That entry is the one `heappop` returns (`Frontier.LeastEntryUnique`).
  - The array layout of the heap is not modelled.
- Boards are keyed by value, not by `str(board)`. For 4x4 integer boards the two keyings agree.
- Boards are flat 16-cell sequences, so the 4x4 shape is enforced by the type.
  - The source accepts any nested list. A start of another shape makes it fail or search a different space.
  - A goal of another shape does neither: it is only compared with the popped board, and the heuristic ignores it. No 4x4 board equals it, so the source empties the frontier and returns `None`.
- AStar15Puzzle: takes an extra `budget` on the number of expansions and returns `LimitExceeded` when it runs out.
  - The source's loop has no bound. Its termination rests on the finite state space, which is not modelled.
  - The budget is checked after the goal test, so a start equal to the goal is still returned at once.
- AStar15Puzzle: requires the start to hold a 0 or to equal the goal.
  - A start equal to the goal is returned before `find_blank` is called, so it needs no blank.
  - Otherwise, without a blank, `find_blank` returns `None` and `get_neighbors(None)` raises an error in the source; that error path is not modelled.
- AStar15Puzzle: optimality of the returned path is not stated or proved.
  - The start is pushed with priority 0, stale frontier entries are re-expanded, and the heuristic always measures against the canonical goal.
  - Consistency and admissibility are proved only towards the canonical goal (`Heuristic.ManhattanConsistent`, `Heuristic.ManhattanAdmissible`).
- Python integers are unbounded, like Dafny's, and the tile values are not validated in either. Python's `divmod` by 4 agrees with Dafny's Euclidean `/` and `%` for every integer, negative ones included.
