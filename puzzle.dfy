/**
 * The 4x4 sliding-tile board and the grid helpers of astar.py:
 * `find_blank`, `get_neighbors` and `swap`, and the move relation they
 * define together.
 */
module Puzzle {
  import opened Wrappers

  /** Number of rows and of columns: every loop bound in astar.py is 4. */
  const Side: int := 4

  /** Number of cells of a board. */
  const Cells: int := 16

  /**
   * A configuration in row-major order: the tile in row `r`, column `c`
   * is at index `4 * r + c`, and 0 stands for the blank. Python compares
   * nested lists row by row, which for two 4x4 boards is the same as
   * comparing these flat sequences.
   */
  type Board = b: seq<int> | |b| == 16
    witness [0, 0, 0, 0, 0, 0, 0, 0, 0, 0, 0, 0, 0, 0, 0, 0]

  /** A (row, column) coordinate. */
  datatype Pos = Pos(row: int, col: int)

  predicate InGrid(p: Pos) {
    0 <= p.row < Side && 0 <= p.col < Side
  }

  function Index(p: Pos): int {
    Side * p.row + p.col
  }

  /** The cell at a row-major index, as the nested loops of astar.py visit it. */
  function PosOf(i: int): Pos {
    Pos(i / Side, i % Side)
  }

  function At(b: Board, p: Pos): int
    requires InGrid(p)
  {
    b[Index(p)]
  }

  function Abs(x: int): nat {
    if x < 0 then -x else x
  }

  /** Taxicab distance between two positions. */
  function Distance(p: Pos, q: Pos): nat {
    Abs(p.row - q.row) + Abs(p.col - q.col)
  }

  lemma IndexInRange(p: Pos)
    requires InGrid(p)
    ensures 0 <= Index(p) < Cells && PosOf(Index(p)) == p
  {
  }

  lemma PosOfInGrid(i: int)
    requires 0 <= i < Cells
    ensures InGrid(PosOf(i)) && Index(PosOf(i)) == i
  {
  }

  // ---------------------------------------------------------------------
  // find_blank
  // ---------------------------------------------------------------------

  /** The first index at or after `i` holding a 0, scanning in row-major order. */
  function FirstZeroFrom(b: Board, i: nat): (r: Option<nat>)
    requires i <= Cells
    ensures r.Some? ==> i <= r.value < Cells && b[r.value] == 0
    ensures r.None? ==> 0 !in b[i..]
    decreases Cells - i
  {
    if i == Cells then None
    else if b[i] == 0 then Some(i)
    else FirstZeroFrom(b, i + 1)
  }

  lemma {:induction false} FirstZeroFromSpec(b: Board, i: nat)
    requires i <= Cells
    ensures var r := FirstZeroFrom(b, i);
      && (r.Some? ==> i <= r.value < Cells && b[r.value] == 0)
      && (r.Some? ==> forall j :: i <= j < r.value ==> b[j] != 0)
      && (r.None? <==> forall j :: i <= j < Cells ==> b[j] != 0)
    decreases Cells - i
  {
    if i < Cells && b[i] != 0 {
      FirstZeroFromSpec(b, i + 1);
    }
  }

  /** What `find_blank` computes: the first blank cell in row-major order. */
  function BlankOf(b: Board): (r: Option<Pos>)
    ensures r.Some? ==> InGrid(r.value) && At(b, r.value) == 0
    ensures r.None? <==> 0 !in b
  {
    match FirstZeroFrom(b, 0)
    case None => assert b[0..] == b; None
    case Some(i) => PosOfInGrid(i); Some(PosOf(i))
  }

  /**
   * The blank `find_blank` reports is a 0 inside the grid with no 0 before
   * it in row-major order, and there is none exactly when the board holds
   * no 0.
   */
  lemma BlankOfSpec(b: Board)
    ensures BlankOf(b).Some? ==> InGrid(BlankOf(b).value) && At(b, BlankOf(b).value) == 0
    ensures BlankOf(b).Some? ==> forall j :: 0 <= j < Index(BlankOf(b).value) ==> b[j] != 0
    ensures BlankOf(b).None? <==> 0 !in b
  {
    FirstZeroFromSpec(b, 0);
    if BlankOf(b).Some? {
      PosOfInGrid(FirstZeroFrom(b, 0).value);
    }
  }

  /** `find_blank`: the row loop and the column loop, returning at the first 0. */
  method FindBlank(puzzle: Board) returns (r: Option<Pos>)
    ensures r == BlankOf(puzzle)
  {
    FirstZeroFromSpec(puzzle, 0);
    for row := 0 to Side
      invariant forall j :: 0 <= j < Side * row ==> puzzle[j] != 0
    {
      for col := 0 to Side
        invariant forall j :: 0 <= j < Side * row + col ==> puzzle[j] != 0
      {
        if puzzle[Index(Pos(row, col))] == 0 {
          IndexInRange(Pos(row, col));
          return Some(Pos(row, col));
        }
      }
    }
    return None;
  }

  // ---------------------------------------------------------------------
  // get_neighbors
  // ---------------------------------------------------------------------

  /** The direction of `q` seen from `p`: 0 up, 1 down, 2 left, 3 right. */
  function Direction(p: Pos, q: Pos): int {
    if q.row < p.row then 0
    else if q.row > p.row then 1
    else if q.col < p.col then 2
    else 3
  }

  /** `get_neighbors`: the bounds-checked moves of the blank at `p`. */
  function GetNeighbors(p: Pos): (r: seq<Pos>)
    ensures InGrid(p) ==> 2 <= |r| <= 4
    ensures InGrid(p) ==> forall k :: 0 <= k < |r| ==> InGrid(r[k]) && Distance(p, r[k]) == 1
  {
    (if p.row > 0 then [Pos(p.row - 1, p.col)] else [])
    + (if p.row < Side - 1 then [Pos(p.row + 1, p.col)] else [])
    + (if p.col > 0 then [Pos(p.row, p.col - 1)] else [])
    + (if p.col < Side - 1 then [Pos(p.row, p.col + 1)] else [])
  }

  /**
   * The neighbours come in the order up, down, left, right. Inside the
   * grid they are exactly the cells at distance 1: two at a corner, three
   * on an edge, four inside.
   */
  lemma GetNeighborsSpec(p: Pos)
    ensures var ns := GetNeighbors(p);
      forall i, j :: 0 <= i < j < |ns| ==> Direction(p, ns[i]) < Direction(p, ns[j])
    ensures var ns := GetNeighbors(p);
      InGrid(p) ==> forall k :: 0 <= k < |ns| ==> InGrid(ns[k]) && Distance(p, ns[k]) == 1
    ensures InGrid(p) ==> forall q :: InGrid(q) && Distance(p, q) == 1 ==> q in GetNeighbors(p)
    ensures InGrid(p) ==>
      |GetNeighbors(p)| == 2 + (if 0 < p.row < Side - 1 then 1 else 0) + (if 0 < p.col < Side - 1 then 1 else 0)
  {
    var ns := GetNeighbors(p);
    var up := if p.row > 0 then [Pos(p.row - 1, p.col)] else [];
    var down := if p.row < Side - 1 then [Pos(p.row + 1, p.col)] else [];
    var left := if p.col > 0 then [Pos(p.row, p.col - 1)] else [];
    assert ns == up + down + left + (if p.col < Side - 1 then [Pos(p.row, p.col + 1)] else []);
    if InGrid(p) {
      forall q | InGrid(q) && Distance(p, q) == 1
        ensures q in ns
      {
        if q.row < p.row {
          assert ns[0] == q;
        } else if q.row > p.row {
          assert ns[|up|] == q;
        } else if q.col < p.col {
          assert ns[|up| + |down|] == q;
        } else {
          assert ns[|up| + |down| + |left|] == q;
        }
      }
    }
  }

  // ---------------------------------------------------------------------
  // swap
  // ---------------------------------------------------------------------

  /**
   * `swap`: a new board with the tiles at `p1` and `p2` exchanged. Boards
   * are values, so the argument is left as it was, as the deep copy in
   * the source guarantees.
   */
  function Swap(b: Board, p1: Pos, p2: Pos): (r: Board)
    requires InGrid(p1) && InGrid(p2)
    ensures At(r, p1) == At(b, p2) && At(r, p2) == At(b, p1)
  {
    b[Index(p1) := b[Index(p2)]][Index(p2) := b[Index(p1)]]
  }

  /**
   * The two named cells are exchanged, every other cell is unchanged, and
   * so the board keeps its tiles: a board with one blank still has one.
   */
  lemma SwapSpec(b: Board, p1: Pos, p2: Pos)
    requires InGrid(p1) && InGrid(p2)
    ensures At(Swap(b, p1, p2), p1) == At(b, p2) && At(Swap(b, p1, p2), p2) == At(b, p1)
    ensures forall i :: 0 <= i < Cells && i != Index(p1) && i != Index(p2) ==> Swap(b, p1, p2)[i] == b[i]
    ensures multiset(Swap(b, p1, p2)) == multiset(b)
  {
  }

  lemma {:induction false} SwapInvolutive(b: Board, p1: Pos, p2: Pos)
    requires InGrid(p1) && InGrid(p2)
    ensures Swap(Swap(b, p1, p2), p1, p2) == b
  {
    var r := Swap(Swap(b, p1, p2), p1, p2);
    forall i | 0 <= i < Cells
      ensures r[i] == b[i]
    {
    }
  }

  lemma {:induction false} SwapSymmetric(b: Board, p1: Pos, p2: Pos)
    requires InGrid(p1) && InGrid(p2)
    ensures Swap(b, p1, p2) == Swap(b, p2, p1)
  {
    var r, s := Swap(b, p1, p2), Swap(b, p2, p1);
    forall i | 0 <= i < Cells
      ensures r[i] == s[i]
    {
    }
  }

  // ---------------------------------------------------------------------
  // Moves and paths
  // ---------------------------------------------------------------------

  /**
   * The boards one move away, in the order the search generates them:
   * the first blank swapped with each position `get_neighbors` returns.
   * The scan for the blank is folded into the definition (`MovesFrom`);
   * `SuccessorsOfBlank` states it in terms of `BlankOf`.
   */
  function Successors(b: Board): (r: seq<Board>)
    ensures |r| <= 4
  {
    MovesFrom(b, 0)
  }

  /** The moves of `b`, given that no cell before `i` holds the blank. */
  function MovesFrom(b: Board, i: nat): (r: seq<Board>)
    requires i <= Cells
    ensures |r| <= 4
    decreases Cells - i
  {
    if i == Cells then []
    else if b[i] == 0 then PosOfInGrid(i); MovesAt(b, PosOf(i))
    else MovesFrom(b, i + 1)
  }

  /** The boards obtained by swapping the blank at `p` with each of its neighbours in turn. */
  function MovesAt(b: Board, p: Pos): (r: seq<Board>)
    requires InGrid(p)
    ensures 2 <= |r| <= 4
  {
    NeighborsInGrid(p);
    SwapEach(b, p, GetNeighbors(p))
  }

  /** Scanning from `i`, the moves are those of the first blank at or after `i`, if any. */
  lemma {:induction false} MovesFromFirstZero(b: Board, i: nat)
    requires i <= Cells
    ensures match FirstZeroFrom(b, i)
      case None => MovesFrom(b, i) == []
      case Some(j) => j < Cells && InGrid(PosOf(j)) && MovesFrom(b, i) == MovesAt(b, PosOf(j))
    decreases Cells - i
  {
    if i < Cells && b[i] != 0 {
      MovesFromFirstZero(b, i + 1);
    } else if i < Cells {
      PosOfInGrid(i);
    }
  }

  /** The moves of a board are those of its first blank, and there are none without a blank. */
  lemma SuccessorsOfBlank(b: Board)
    ensures BlankOf(b).None? ==> Successors(b) == []
    ensures BlankOf(b).Some? ==> InGrid(BlankOf(b).value) && Successors(b) == MovesAt(b, BlankOf(b).value)
  {
    MovesFromFirstZero(b, 0);
  }

  /** Neighbours of a cell on the grid lie on the grid. */
  lemma NeighborsInGrid(p: Pos)
    requires InGrid(p)
    ensures forall k :: 0 <= k < |GetNeighbors(p)| ==> InGrid(GetNeighbors(p)[k])
  {
    GetNeighborsSpec(p);
  }

  /** The board with the tile at `p` swapped with each of `ns` in turn. */
  function SwapEach(b: Board, p: Pos, ns: seq<Pos>): (r: seq<Board>)
    requires InGrid(p) && forall k :: 0 <= k < |ns| ==> InGrid(ns[k])
    ensures |r| == |ns|
  {
    if ns == [] then [] else [Swap(b, p, ns[0])] + SwapEach(b, p, ns[1..])
  }

  lemma {:induction false} SwapEachAt(b: Board, p: Pos, ns: seq<Pos>, k: int)
    requires InGrid(p) && forall j :: 0 <= j < |ns| ==> InGrid(ns[j])
    requires 0 <= k < |ns|
    ensures SwapEach(b, p, ns)[k] == Swap(b, p, ns[k])
  {
    if k > 0 {
      SwapEachAt(b, p, ns[1..], k - 1);
    }
  }

  /** A board with a blank has one move per neighbour of the blank. */
  lemma SuccessorCount(b: Board)
    ensures BlankOf(b).Some? ==> |Successors(b)| == |GetNeighbors(BlankOf(b).value)|
  {
    SuccessorsOfBlank(b);
  }

  /** The `k`-th move from a board with a blank at `p`. */
  lemma SuccessorAt(b: Board, k: int)
    requires BlankOf(b).Some? && 0 <= k < |GetNeighbors(BlankOf(b).value)|
    ensures InGrid(BlankOf(b).value) && InGrid(GetNeighbors(BlankOf(b).value)[k])
    ensures |Successors(b)| == |GetNeighbors(BlankOf(b).value)|
    ensures Successors(b)[k] == Swap(b, BlankOf(b).value, GetNeighbors(BlankOf(b).value)[k])
  {
    SuccessorsOfBlank(b);
    GetNeighborsSpec(BlankOf(b).value);
    SwapEachAt(b, BlankOf(b).value, GetNeighbors(BlankOf(b).value), k);
  }

  /** A non-empty sequence of boards, each one move from the one before. */
  ghost predicate ValidPath(path: seq<Board>) {
    |path| >= 1 && forall i :: 0 <= i < |path| - 1 ==> path[i + 1] in Successors(path[i])
  }

  /** Some sequence of moves leads from `a` to `b`. */
  ghost predicate Reaches(a: Board, b: Board) {
    exists path :: ValidPath(path) && path[0] == a && path[|path| - 1] == b
  }

  /**
   * A move exchanges the first blank with a tile at distance 1 and keeps
   * every tile value.
   */
  lemma MoveSwapsBlank(x: Board, y: Board)
    requires y in Successors(x)
    ensures BlankOf(x).Some? && InGrid(BlankOf(x).value)
    ensures exists n :: InGrid(n) && Distance(BlankOf(x).value, n) == 1 && y == Swap(x, BlankOf(x).value, n)
    ensures multiset(y) == multiset(x)
  {
    var k := MoveIndex(x, y);
    BlankOfSpec(x);
    GetNeighborsSpec(BlankOf(x).value);
    var n := GetNeighbors(BlankOf(x).value)[k];
    assert InGrid(n) && Distance(BlankOf(x).value, n) == 1;
    SwapSpec(x, BlankOf(x).value, n);
  }

  /** Where a move stands in the list of moves: the neighbour it swaps the blank with. */
  lemma MoveIndex(x: Board, y: Board) returns (k: nat)
    requires y in Successors(x)
    ensures BlankOf(x).Some? && InGrid(BlankOf(x).value)
    ensures k < |GetNeighbors(BlankOf(x).value)| && InGrid(GetNeighbors(BlankOf(x).value)[k])
    ensures y == Swap(x, BlankOf(x).value, GetNeighbors(BlankOf(x).value)[k])
  {
    SuccessorsOfBlank(x);
    var ss := Successors(x);
    k :| 0 <= k < |ss| && ss[k] == y;
    SuccessorAt(x, k);
  }

  /** On a board with a single blank, a 0 anywhere is the one `find_blank` reports. */
  lemma SingleBlankFound(y: Board, n: Pos)
    requires multiset(y)[0] == 1
    requires InGrid(n) && At(y, n) == 0
    ensures BlankOf(y) == Some(n)
  {
    BlankOfSpec(y);
    var q := BlankOf(y).value;
    if q != n {
      IndexInRange(q);
      IndexInRange(n);
      SubMultiset(y, Index(q), Index(n));
      assert false;
    }
  }

  /**
   * On a board with a single blank, every move can be undone by the move
   * that sends the blank back.
   */
  lemma MoveReversible(x: Board, y: Board)
    requires multiset(x)[0] == 1
    requires y in Successors(x)
    ensures x in Successors(y)
  {
    var k := MoveIndex(x, y);
    var p := BlankOf(x).value;
    BlankOfSpec(x);
    GetNeighborsSpec(p);
    var n := GetNeighbors(p)[k];
    assert InGrid(n) && Distance(p, n) == 1;
    SwapSpec(x, p, n);
    IndexInRange(p);
    IndexInRange(n);
    SingleBlankFound(y, n);
    assert Distance(n, p) == 1;
    GetNeighborsSpec(n);
    var ms := GetNeighbors(n);
    var m :| 0 <= m < |ms| && ms[m] == p;
    SwapSymmetric(x, p, n);
    SwapInvolutive(x, n, p);
    SuccessorAt(y, m);
    assert Successors(y)[m] == x;
  }

  /** Two distinct cells contribute both their values to the board's multiset. */
  lemma SubMultiset(b: Board, i: int, j: int)
    requires 0 <= i < Cells && 0 <= j < Cells && i != j
    ensures multiset{b[i], b[j]} <= multiset(b)
  {
    var lo, hi := if i < j then i else j, if i < j then j else i;
    assert b == b[..lo] + [b[lo]] + b[lo + 1..hi] + [b[hi]] + b[hi + 1..];
  }
}
