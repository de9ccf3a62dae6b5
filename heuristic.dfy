/**
 * `manhattan_distance` of astar.py: the sum, over the non-blank cells, of
 * the taxicab distance from a tile to the cell it has on the canonical goal
 * board. The goal board passed in is never consulted.
 */
module Heuristic {
  import opened Puzzle

  /** The goal the distance is always measured against: 1..15 in row-major order, blank last. */
  const CanonicalGoal: Board := [1, 2, 3, 4, 5, 6, 7, 8, 9, 10, 11, 12, 13, 14, 15, 0]

  /**
   * The contribution of tile `v` standing at index `i`. Its target cell is
   * `divmod(v - 1, 4)`; Python's floor division and Dafny's Euclidean
   * division agree for a positive divisor, so tiles outside 1..15 get the
   * same target as in the source.
   */
  function TileDistance(v: int, i: int): nat {
    if v == 0 then 0 else Distance(PosOf(i), PosOf(v - 1))
  }

  /** The sum of the contributions of the first `k` cells in row-major order. */
  function DistanceUpTo(b: Board, k: nat): nat
    requires k <= Cells
  {
    if k == 0 then 0 else DistanceUpTo(b, k - 1) + TileDistance(b[k - 1], k - 1)
  }

  /** The heuristic value of a board: no tile's own distance exceeds it. */
  function Manhattan(b: Board): (r: nat)
    ensures forall i :: 0 <= i < Cells ==> TileDistance(b[i], i) <= r
  {
    DistanceUpToBounds(b, Cells);
    DistanceUpTo(b, Cells)
  }

  /** Every contribution among the first `k` cells is at most their sum. */
  lemma {:induction false} DistanceUpToBounds(b: Board, k: nat)
    requires k <= Cells
    ensures forall i :: 0 <= i < k ==> TileDistance(b[i], i) <= DistanceUpTo(b, k)
  {
    if k > 0 {
      DistanceUpToBounds(b, k - 1);
    }
  }

  /**
   * `manhattan_distance`: the two nested loops accumulating the distance.
   * The result does not depend on `goal`.
   */
  method ManhattanDistance(puzzle: Board, goal: Board) returns (distance: int)
    ensures distance == Manhattan(puzzle)
  {
    distance := 0;
    for row := 0 to Side
      invariant distance == DistanceUpTo(puzzle, Side * row)
    {
      for col := 0 to Side
        invariant distance == DistanceUpTo(puzzle, Side * row + col)
      {
        IndexInRange(Pos(row, col));
        var value := puzzle[Index(Pos(row, col))];
        if value != 0 {
          var targetRow, targetCol := (value - 1) / Side, (value - 1) % Side;
          distance := distance + Abs(row - targetRow) + Abs(col - targetCol);
        }
      }
    }
  }

  /** A tile contributes nothing exactly when it is the blank or stands on its goal cell. */
  lemma TileDistanceZero(v: int, i: int)
    requires 0 <= i < Cells
    ensures TileDistance(v, i) == 0 <==> v == 0 || v == i + 1
  {
    if v != 0 && TileDistance(v, i) == 0 {
      assert (v - 1) / Side == i / Side && (v - 1) % Side == i % Side;
      assert v - 1 == Side * ((v - 1) / Side) + (v - 1) % Side;
      assert i == Side * (i / Side) + i % Side;
    }
  }

  lemma {:induction false} DistanceUpToZero(b: Board, k: nat)
    requires k <= Cells
    ensures DistanceUpTo(b, k) == 0 <==> forall i :: 0 <= i < k && b[i] != 0 ==> b[i] == i + 1
  {
    if k > 0 {
      DistanceUpToZero(b, k - 1);
      TileDistanceZero(b[k - 1], k - 1);
    }
  }

  /**
   * The distance is 0 exactly on boards whose every tile stands on its
   * canonical goal cell, wherever the blank is.
   */
  lemma ManhattanZero(b: Board)
    ensures Manhattan(b) == 0 <==> forall i :: 0 <= i < Cells && b[i] != 0 ==> b[i] == i + 1
  {
    DistanceUpToZero(b, Cells);
  }

  /** The canonical goal board has distance 0, whatever goal board the caller names. */
  lemma CanonicalGoalIsZero()
    ensures Manhattan(CanonicalGoal) == 0
  {
    assert forall i :: 0 <= i < Cells && CanonicalGoal[i] != 0 ==> CanonicalGoal[i] == i + 1;
    ManhattanZero(CanonicalGoal);
  }

  /** Changing two cells changes the running sum by the change of their two contributions. */
  lemma {:induction false} DistanceUpToTwoCells(a: Board, b: Board, i: int, j: int, k: nat)
    requires k <= Cells && 0 <= i < Cells && 0 <= j < Cells && i != j
    requires forall m :: 0 <= m < Cells && m != i && m != j ==> a[m] == b[m]
    ensures DistanceUpTo(b, k) - DistanceUpTo(a, k)
         == (if i < k then TileDistance(b[i], i) - TileDistance(a[i], i) else 0)
          + (if j < k then TileDistance(b[j], j) - TileDistance(a[j], j) else 0)
  {
    if k > 0 {
      DistanceUpToTwoCells(a, b, i, j, k - 1);
    }
  }

  /** Moving one tile to an adjacent cell changes its contribution by at most 1. */
  lemma TileStep(v: int, p: Pos, n: Pos)
    requires InGrid(p) && InGrid(n) && Distance(p, n) == 1
    ensures Abs(TileDistance(v, Index(p)) - TileDistance(v, Index(n))) <= 1
  {
    IndexInRange(p);
    IndexInRange(n);
  }

  /**
   * Consistency: one move changes the distance by at most 1, since it
   * moves a single tile one cell.
   */
  lemma ManhattanConsistent(x: Board, y: Board)
    requires y in Successors(x)
    ensures Abs(Manhattan(y) - Manhattan(x)) <= 1
  {
    var k := MoveIndex(x, y);
    var p := BlankOf(x).value;
    BlankOfSpec(x);
    GetNeighborsSpec(p);
    var n := GetNeighbors(p)[k];
    assert InGrid(n) && Distance(p, n) == 1;
    IndexInRange(p);
    IndexInRange(n);
    SwapSpec(x, p, n);
    var v := At(x, n);
    assert At(y, p) == v && At(y, n) == 0 && At(x, p) == 0;
    DistanceUpToTwoCells(x, y, Index(p), Index(n), Cells);
    assert Manhattan(y) - Manhattan(x) == TileDistance(v, Index(p)) - TileDistance(v, Index(n));
    TileStep(v, p, n);
  }

  /**
   * Admissibility towards the canonical goal: no sequence of moves that
   * reaches it is shorter than the distance of the board it starts from.
   */
  lemma {:induction false} ManhattanAdmissible(path: seq<Board>)
    requires ValidPath(path) && path[|path| - 1] == CanonicalGoal
    ensures Manhattan(path[0]) <= |path| - 1
  {
    if |path| == 1 {
      CanonicalGoalIsZero();
    } else {
      var rest := path[1..];
      assert ValidPath(rest) by {
        forall i | 0 <= i < |rest| - 1
          ensures rest[i + 1] in Successors(rest[i])
        {
          assert rest[i] == path[i + 1] && rest[i + 1] == path[i + 2];
        }
      }
      ManhattanAdmissible(rest);
      assert path[1] in Successors(path[0]);
      ManhattanConsistent(path[0], path[1]);
    }
  }
}
