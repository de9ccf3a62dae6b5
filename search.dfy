/**
 * `a_star_15_puzzle` of astar.py: best-first search over boards with a
 * min-priority frontier, a best-cost table `g_score`, a predecessor map
 * `parent_track`, and path reconstruction by following predecessors back
 * to the start and reversing.
 */
module Search {
  import opened Wrappers
  import opened Puzzle
  import opened Heuristic
  import opened Frontier

  /**
   * The outcome of a search: the boards from start to goal, the frontier
   * running empty (`None` in the source), or the expansion budget running
   * out, which the source does not have.
   */
  datatype Outcome = Found(path: seq<Board>) | NoSolution | LimitExceeded

  /**
   * What the cost table and the predecessor map keep true throughout the
   * search: the start costs 0 and has no predecessor, every other recorded
   * board has one, and every predecessor is recorded with a strictly
   * smaller cost and is one move away.
   */
  ghost predicate CostTableOk(start: Board, g: map<Board, nat>, parent: map<Board, Board>) {
    && start in g && g[start] == 0 && start !in parent
    && (forall x :: x in g ==> x == start || x in parent)
    && (forall x {:trigger parent[x]} :: x in parent ==>
          x in g && parent[x] in g && g[parent[x]] < g[x] && x in Successors(parent[x]))
  }

  /** Every recorded board holds the same tiles as the start: follow its predecessors back. */
  lemma {:induction false} RecordedKeepsTiles(start: Board, g: map<Board, nat>, parent: map<Board, Board>, x: Board)
    requires CostTableOk(start, g, parent) && x in g
    ensures multiset(x) == multiset(start)
    decreases g[x]
  {
    if x != start {
      RecordedKeepsTiles(start, g, parent, parent[x]);
      MoveSwapsBlank(parent[x], x);
    }
  }

  /** Every move out of `x` leads to a board in `s`. */
  ghost predicate MovesInto(x: Board, s: set<Board>) {
    forall y :: y in Successors(x) ==> y in s
  }

  /**
   * Recording cost `g[cur] + 1` and predecessor `cur` for a board one move
   * from `cur`, when it is new or that cost is strictly lower, keeps the
   * table consistent. The start is never updated, as no candidate cost is
   * below 1.
   */
  lemma RelaxKeepsCostTable(start: Board, g: map<Board, nat>, parent: map<Board, Board>, cur: Board, y: Board)
    requires CostTableOk(start, g, parent) && cur in g
    requires y in Successors(cur)
    requires y !in g || g[cur] + 1 < g[y]
    ensures y != start && y != cur
    ensures CostTableOk(start, g[y := g[cur] + 1], parent[y := cur])
  {
    var g', parent' := g[y := g[cur] + 1], parent[y := cur];
    forall x | x in parent'
      ensures x in g' && parent'[x] in g' && g'[parent'[x]] < g'[x] && x in Successors(parent'[x])
    {
      if x != y {
        assert x in parent && parent'[x] == parent[x];
      }
    }
  }

  /**
   * The relaxation step of `a_star_15_puzzle`: record `y`, one move from
   * `cur`, with cost `g[cur] + 1`, predecessor `cur` and a frontier entry
   * prioritised by that cost plus its Manhattan distance, when it is new
   * or that cost is strictly lower than its recorded one; otherwise change
   * nothing.
   */
  method Relax(start: Board, goal: Board, cur: Board, y: Board,
               g: map<Board, nat>, parent: map<Board, Board>, pushed: seq<Entry>)
    returns (g': map<Board, nat>, parent': map<Board, Board>, pushed': seq<Entry>)
    requires CostTableOk(start, g, parent) && cur in g && y in Successors(cur)
    ensures CostTableOk(start, g', parent') && y in g'
    ensures if y !in g || g[cur] + 1 < g[y] then
        && g' == g[y := g[cur] + 1] && parent' == parent[y := cur]
        && pushed' == pushed + [Entry(g[cur] + 1 + Manhattan(y), y)]
      else g' == g && parent' == parent && pushed' == pushed
  {
    g', parent', pushed' := g, parent, pushed;
    var tentative := g[cur] + 1;
    if y !in g || tentative < g[y] {
      RelaxKeepsCostTable(start, g, parent, cur, y);
      g' := g[y := tentative];
      var h := ManhattanDistance(y, goal);
      pushed' := pushed + [Entry(tentative + h, y)];
      parent' := parent[y := cur];
    }
  }

  /**
   * Part way through expanding `cur` from table `g`, `parent` to `g'`,
   * `parent'` with entries `pushed`: the table is consistent, no cost has
   * risen, `cur` keeps its cost, and every recorded board either is
   * unchanged or was given cost `g[cur] + 1`, predecessor `cur` and an
   * entry whose priority is that cost plus its Manhattan distance.
   */
  ghost predicate ExpandedSoFar(start: Board, cur: Board, g: map<Board, nat>, parent: map<Board, Board>,
                                g': map<Board, nat>, parent': map<Board, Board>, pushed: seq<Entry>)
    requires cur in g
  {
    && CostTableOk(start, g', parent')
    && (forall x :: x in g ==> x in g' && g'[x] <= g[x])
    && cur in g' && g'[cur] == g[cur]
    && (forall x :: x in g' ==>
      || (x in g && g'[x] == g[x] && (x in parent ==> x in parent' && parent'[x] == parent[x]))
      || ((x !in g || g[cur] + 1 < g[x])
          && g'[x] == g[cur] + 1 && x in parent' && parent'[x] == cur && x in BoardsOf(pushed)))
    && (forall e :: e in pushed ==>
      e.board in g' && e.board in Successors(cur) && e.f == g[cur] + 1 + Manhattan(e.board))
  }

  /**
   * The entries pushed so far while expanding `cur` are exactly one per
   * board whose cost was lowered to `g[cur] + 1` or recorded for the
   * first time: no board is pushed twice, and none is pushed unchanged.
   */
  ghost predicate PushedOncePerUpdate(cur: Board, g: map<Board, nat>, g': map<Board, nat>, pushed: seq<Entry>)
    requires cur in g
  {
    && (forall e :: e in pushed ==>
      e.board in g' && (e.board !in g || g[cur] + 1 < g[e.board]) && g'[e.board] == g[cur] + 1)
    && (forall i, j :: 0 <= i < j < |pushed| ==> pushed[i].board != pushed[j].board)
  }

  /** One relaxation step keeps `PushedOncePerUpdate`. */
  lemma RelaxKeepsPushedOnce(cur: Board, g: map<Board, nat>, g1: map<Board, nat>, pushed1: seq<Entry>,
                             y: Board, g2: map<Board, nat>, pushed2: seq<Entry>)
    requires cur in g && cur in g1 && g1[cur] == g[cur]
    requires forall x :: x in g ==> x in g1 && g1[x] <= g[x]
    requires PushedOncePerUpdate(cur, g, g1, pushed1)
    requires if y !in g1 || g1[cur] + 1 < g1[y] then
        g2 == g1[y := g1[cur] + 1] && pushed2 == pushed1 + [Entry(g1[cur] + 1 + Manhattan(y), y)]
      else g2 == g1 && pushed2 == pushed1
    ensures PushedOncePerUpdate(cur, g, g2, pushed2)
  {
    if y !in g1 || g1[cur] + 1 < g1[y] {
      // An earlier entry for `y` would already hold cost `g[cur] + 1`, which blocks the update.
      forall i | 0 <= i < |pushed1|
        ensures pushed1[i].board != y
      {
        assert pushed1[i] in pushed1;
      }
      forall e | e in pushed2
        ensures e.board in g2 && (e.board !in g || g[cur] + 1 < g[e.board]) && g2[e.board] == g[cur] + 1
      {
        if e !in pushed1 {
          assert e == pushed2[|pushed1|];
        }
      }
    }
  }

  /** One relaxation step keeps `ExpandedSoFar`. */
  lemma RelaxKeepsExpandedSoFar(start: Board, cur: Board, g: map<Board, nat>, parent: map<Board, Board>,
                                g1: map<Board, nat>, parent1: map<Board, Board>, pushed1: seq<Entry>,
                                y: Board, g2: map<Board, nat>, parent2: map<Board, Board>, pushed2: seq<Entry>)
    requires cur in g && ExpandedSoFar(start, cur, g, parent, g1, parent1, pushed1)
    requires y in Successors(cur) && CostTableOk(start, g2, parent2)
    requires if y !in g1 || g1[cur] + 1 < g1[y] then
        && g2 == g1[y := g1[cur] + 1] && parent2 == parent1[y := cur]
        && pushed2 == pushed1 + [Entry(g1[cur] + 1 + Manhattan(y), y)]
      else g2 == g1 && parent2 == parent1 && pushed2 == pushed1
    ensures ExpandedSoFar(start, cur, g, parent, g2, parent2, pushed2)
  {
    if y !in g1 || g1[cur] + 1 < g1[y] {
      var e := Entry(g1[cur] + 1 + Manhattan(y), y);
      BoardsOfAppend(pushed1, [e]);
      assert y in BoardsOf([e]);
      assert y != cur;
      forall x | x in g2
        ensures || (x in g && g2[x] == g[x] && (x in parent ==> x in parent2 && parent2[x] == parent[x]))
                || ((x !in g || g[cur] + 1 < g[x])
                    && g2[x] == g[cur] + 1 && x in parent2 && parent2[x] == cur && x in BoardsOf(pushed2))
      {
        if x != y {
          assert x in g1;
        }
      }
    }
  }

  /** The first `k` moves of `cur` are recorded at cost at most `g[cur] + 1`. */
  ghost predicate CoveredUpTo(cur: Board, g: map<Board, nat>, g': map<Board, nat>, moves: seq<Board>, k: nat)
    requires cur in g && k <= |moves|
  {
    forall j :: 0 <= j < k ==> moves[j] in g' && g'[moves[j]] <= g[cur] + 1
  }

  /** Relaxing the `k`-th move records it and keeps the earlier ones recorded. */
  lemma RelaxKeepsCovered(cur: Board, g: map<Board, nat>, moves: seq<Board>, k: nat,
                          g1: map<Board, nat>, g2: map<Board, nat>)
    requires cur in g && k < |moves| && CoveredUpTo(cur, g, g1, moves, k)
    requires cur in g1 && g1[cur] == g[cur]
    requires if moves[k] !in g1 || g1[cur] + 1 < g1[moves[k]] then g2 == g1[moves[k] := g1[cur] + 1] else g2 == g1
    ensures CoveredUpTo(cur, g, g2, moves, k + 1)
  {
    forall j | 0 <= j < k + 1
      ensures moves[j] in g2 && g2[moves[j]] <= g[cur] + 1
    {
      if j < k {
        assert moves[j] in g1;
      }
    }
  }

  /**
   * One expansion, the loop over `get_neighbors` of the blank of `cur`:
   * each board one move from `cur` gets cost `g[cur] + 1`, predecessor
   * `cur` and a frontier entry when it is new or that cost is strictly
   * lower than its recorded one; nothing else changes. Afterwards every
   * board one move from `cur` is recorded at cost at most `g[cur] + 1`.
   */
  method Expand(start: Board, goal: Board, cur: Board, g: map<Board, nat>, parent: map<Board, Board>)
    returns (g': map<Board, nat>, parent': map<Board, Board>, pushed: seq<Entry>)
    requires 0 in start
    requires CostTableOk(start, g, parent) && cur in g
    ensures CostTableOk(start, g', parent')
    ensures forall x :: x in g ==> x in g' && g'[x] <= g[x]
    ensures MovesInto(cur, g'.Keys)
    ensures forall y :: y in Successors(cur) ==> y in g' && g'[y] <= g[cur] + 1
    ensures forall x :: x in g' ==>
      || (x in g && g'[x] == g[x] && (x in parent ==> x in parent' && parent'[x] == parent[x]))
      || ((x !in g || g[cur] + 1 < g[x])
          && g'[x] == g[cur] + 1 && x in parent' && parent'[x] == cur && x in BoardsOf(pushed))
    ensures forall e :: e in pushed ==>
      e.board in g' && e.board in Successors(cur) && e.f == g[cur] + 1 + Manhattan(e.board)
    ensures forall e :: e in pushed ==> (e.board !in g || g[cur] + 1 < g[e.board]) && g'[e.board] == g[cur] + 1
    ensures forall i, j :: 0 <= i < j < |pushed| ==> pushed[i].board != pushed[j].board
  {
    RecordedKeepsTiles(start, g, parent, cur);
    assert 0 in multiset(cur);
    var blank := FindBlank(cur);
    BlankOfSpec(cur);
    var p := blank.value;
    var neighbors := GetNeighbors(p);
    ghost var moves := Successors(cur);
    SuccessorCount(cur);
    assert |moves| == |neighbors|;
    g', parent', pushed := g, parent, [];
    for k := 0 to |neighbors|
      invariant |moves| == |neighbors|
      invariant ExpandedSoFar(start, cur, g, parent, g', parent', pushed)
      invariant CoveredUpTo(cur, g, g', moves, k)
      invariant PushedOncePerUpdate(cur, g, g', pushed)
    {
      ghost var before := g';
      ghost var before', pushedBefore := parent', pushed;
      SuccessorAt(cur, k);
      var newPuzzle := Swap(cur, p, neighbors[k]);
      assert moves[k] == newPuzzle;
      g', parent', pushed := Relax(start, goal, cur, newPuzzle, g', parent', pushed);
      RelaxKeepsExpandedSoFar(start, cur, g, parent, before, before', pushedBefore, newPuzzle, g', parent', pushed);
      RelaxKeepsCovered(cur, g, moves, k, before, g');
      RelaxKeepsPushedOnce(cur, g, before, pushedBefore, newPuzzle, g', pushed);
    }
    forall y | y in moves
      ensures y in g' && g'[y] <= g[cur] + 1
    {
      var j :| 0 <= j < |moves| && moves[j] == y;
    }
  }

  /**
   * Path reconstruction when the goal is popped: collect boards from `goal` back
   * through their predecessors, append the start, and reverse. The moves
   * taken never exceed the recorded cost of `goal`.
   */
  method Reconstruct(start: Board, goal: Board, g: map<Board, nat>, parent: map<Board, Board>)
    returns (path: seq<Board>)
    requires CostTableOk(start, g, parent) && goal in g
    ensures ValidPath(path) && path[0] == start && path[|path| - 1] == goal
    ensures goal !in parent ==> path == [start]
    ensures |path| - 1 <= g[goal]
    ensures forall i :: 1 <= i < |path| ==> path[i] in parent && parent[path[i]] == path[i - 1]
  {
    var cur := goal;
    var back: seq<Board> := [];
    while cur in parent
      invariant cur in g
      invariant back == [] ==> cur == goal
      invariant back != [] ==> back[0] == goal && back[|back| - 1] in Successors(cur)
      invariant forall i :: 0 <= i < |back| - 1 ==> back[i] in Successors(back[i + 1])
      invariant back != [] ==> back[|back| - 1] in parent && parent[back[|back| - 1]] == cur
      invariant forall i :: 0 <= i < |back| - 1 ==> back[i] in parent && parent[back[i]] == back[i + 1]
      invariant |back| + g[cur] <= g[goal]
      decreases g[cur]
    {
      back := back + [cur];
      cur := parent[cur];
    }
    assert cur == start;
    back := back + [start];
    path := seq(|back|, i requires 0 <= i < |back| => back[|back| - 1 - i]);
    assert forall i :: 0 <= i < |path| - 1 ==> path[i + 1] in Successors(path[i]) by {
      forall i | 0 <= i < |path| - 1
        ensures path[i + 1] in Successors(path[i])
      {
        assert path[i] == back[|back| - 1 - i] && path[i + 1] == back[|back| - 2 - i];
      }
    }
    forall i | 1 <= i < |path|
      ensures path[i] in parent && parent[path[i]] == path[i - 1]
    {
      assert path[i] == back[|back| - 1 - i] && path[i - 1] == back[|back| - i];
    }
  }

  /** A set of boards that contains the start of a path and is closed under moves contains its end. */
  lemma {:induction false} ClosedSetHoldsPath(s: set<Board>, path: seq<Board>)
    requires forall x :: x in s ==> MovesInto(x, s)
    requires ValidPath(path) && path[0] in s
    ensures path[|path| - 1] in s
  {
    if |path| > 1 {
      var init := path[..|path| - 1];
      assert ValidPath(init) by {
        forall i | 0 <= i < |init| - 1
          ensures init[i + 1] in Successors(init[i])
        {
          assert init[i] == path[i] && init[i + 1] == path[i + 1];
        }
      }
      ClosedSetHoldsPath(s, init);
      assert path[|path| - 1] in Successors(path[|path| - 2]);
    }
  }

  /**
   * What the main loop keeps true: the cost table is consistent, every
   * frontier entry is recorded, every recorded board is either expanded or
   * still on the frontier, every move out of an expanded board leads to a
   * recorded board, and the goal has not been expanded.
   */
  ghost predicate SearchOk(start: Board, goal: Board, open: seq<Entry>, g: map<Board, nat>,
                           parent: map<Board, Board>, expanded: set<Board>) {
    && CostTableOk(start, g, parent)
    && (forall e :: e in open ==> e.board in g)
    && (forall x :: x in g ==> x in expanded || x in BoardsOf(open))
    && (forall x :: x in expanded ==> x in g && MovesInto(x, g.Keys))
    && goal !in expanded
  }

  /**
   * Popping a board other than the goal, expanding it and pushing the new
   * entries keeps `SearchOk`, with the popped board now expanded.
   */
  lemma ExpansionKeepsSearchOk(start: Board, goal: Board, open: seq<Entry>, e: Entry, rest: seq<Entry>,
                               g: map<Board, nat>, parent: map<Board, Board>, expanded: set<Board>,
                               g': map<Board, nat>, parent': map<Board, Board>, pushed: seq<Entry>)
    requires SearchOk(start, goal, open, g, parent, expanded)
    requires e in open && BoardsOf(open) <= BoardsOf(rest) + {e.board} && e.board != goal
    requires forall x :: x in rest ==> x in open
    requires CostTableOk(start, g', parent')
    requires forall x :: x in g ==> x in g'
    requires forall x :: x in g' ==> x in g || x in BoardsOf(pushed)
    requires MovesInto(e.board, g'.Keys)
    requires forall x :: x in pushed ==> x.board in g'
    ensures SearchOk(start, goal, rest + pushed, g', parent', expanded + {e.board})
  {
    BoardsOfAppend(rest, pushed);
    forall x | x in expanded
      ensures MovesInto(x, g'.Keys)
    {
      assert MovesInto(x, g.Keys);
    }
  }

  /**
   * `a_star_15_puzzle`, with the frontier seeded by the start at priority 0
   * and no check for stale entries when popping. `budget` caps the number
   * of expansions; it is not in the source, whose loop has no bound.
   * A returned path runs from start to goal one move at a time; the
   * search reports no solution only when no sequence of moves reaches the
   * goal; a start equal to the goal is returned on its own.
   */
  method AStar15Puzzle(start: Board, goal: Board, budget: nat) returns (r: Outcome)
    requires start == goal || 0 in start
    ensures r.Found? ==> ValidPath(r.path) && r.path[0] == start && r.path[|r.path| - 1] == goal
    ensures r.NoSolution? ==> !Reaches(start, goal)
    ensures start == goal ==> r == Found([start])
  {
    var open := [Entry(0, start)];
    var g: map<Board, nat> := map[start := 0];
    var parent: map<Board, Board> := map[];
    ghost var expanded: set<Board> := {};
    var expansions := 0;
    while open != []
      invariant SearchOk(start, goal, open, g, parent, expanded)
      invariant expansions <= budget
      invariant expansions == 0 ==> open == [Entry(0, start)] && parent == map[]
      invariant start == goal ==> expansions == 0
      decreases budget - expansions
    {
      var e, rest := PopMin(open);
      BoardsAfterPop(open, e, rest);
      var cur := e.board;
      if cur == goal {
        var path := Reconstruct(start, cur, g, parent);
        return Found(path);
      }
      if expansions == budget {
        return LimitExceeded;
      }
      assert 0 in start;
      var g', parent', pushed := Expand(start, goal, cur, g, parent);
      ExpansionKeepsSearchOk(start, goal, open, e, rest, g, parent, expanded, g', parent', pushed);
      open, g, parent := rest + pushed, g', parent';
      expanded := expanded + {cur};
      expansions := expansions + 1;
    }
    forall path | ValidPath(path) && path[0] == start
      ensures path[|path| - 1] != goal
    {
      ClosedSetHoldsPath(g.Keys, path);
    }
    return NoSolution;
  }
}
