/**
 * The open list of astar.py: a binary heap (`heapq`) of `(f_score, board)`
 * tuples. Here it is a sequence treated as a multiset; pushing appends and
 * popping removes a least entry in Python's tuple order.
 */
module Frontier {
  import opened Puzzle

  /** A frontier entry: a priority and the board it was pushed with. */
  datatype Entry = Entry(f: int, board: Board)

  /**
   * Python's `<=` on lists of integers: lexicographic, a proper prefix
   * coming first.
   */
  predicate LexLe(a: seq<int>, b: seq<int>)
    decreases |a|
  {
    a == [] || (b != [] && (a[0] < b[0] || (a[0] == b[0] && LexLe(a[1..], b[1..]))))
  }

  /** Python's `<=` on `(f_score, board)` tuples: priority first, ties broken by the boards. */
  predicate EntryLe(x: Entry, y: Entry) {
    x.f < y.f || (x.f == y.f && LexLe(x.board, y.board))
  }

  lemma {:induction false} LexLeReflexive(a: seq<int>)
    ensures LexLe(a, a)
    decreases |a|
  {
    if a != [] {
      LexLeReflexive(a[1..]);
    }
  }

  lemma {:induction false} LexLeTotal(a: seq<int>, b: seq<int>)
    ensures LexLe(a, b) || LexLe(b, a)
    decreases |a|
  {
    if a != [] && b != [] && a[0] == b[0] {
      LexLeTotal(a[1..], b[1..]);
    }
  }

  lemma {:induction false} LexLeTransitive(a: seq<int>, b: seq<int>, c: seq<int>)
    requires LexLe(a, b) && LexLe(b, c)
    ensures LexLe(a, c)
    decreases |a|
  {
    if a != [] && a[0] == b[0] && b[0] == c[0] {
      LexLeTransitive(a[1..], b[1..], c[1..]);
    }
  }

  lemma {:induction false} LexLeAntisymmetric(a: seq<int>, b: seq<int>)
    requires LexLe(a, b) && LexLe(b, a)
    ensures a == b
    decreases |a|
  {
    if a != [] {
      LexLeAntisymmetric(a[1..], b[1..]);
      assert a == [a[0]] + a[1..] && b == [b[0]] + b[1..];
    }
  }

  /** The tuple order is total, so some entry of a non-empty frontier is least. */
  lemma EntryLeTotal(x: Entry, y: Entry)
    ensures EntryLe(x, y) || EntryLe(y, x)
  {
    LexLeTotal(x.board, y.board);
  }

  lemma EntryLeTransitive(x: Entry, y: Entry, z: Entry)
    requires EntryLe(x, y) && EntryLe(y, z)
    ensures EntryLe(x, z)
  {
    if x.f == y.f == z.f {
      LexLeTransitive(x.board, y.board, z.board);
    }
  }

  /**
   * Ties are broken deterministically: two least entries of the same
   * frontier are the same entry.
   */
  lemma LeastEntryUnique(open: seq<Entry>, e1: Entry, e2: Entry)
    requires e1 in open && e2 in open
    requires forall x :: x in open ==> EntryLe(e1, x)
    requires forall x :: x in open ==> EntryLe(e2, x)
    ensures e1 == e2
  {
    assert EntryLe(e1, e2) && EntryLe(e2, e1);
    LexLeAntisymmetric(e1.board, e2.board);
  }

  /**
   * `heapq.heappop`: removes and returns a least entry. Only called on a
   * non-empty frontier, as the `while open_list` guard ensures.
   */
  method PopMin(open: seq<Entry>) returns (e: Entry, rest: seq<Entry>)
    requires open != []
    ensures e in open
    ensures forall x :: x in open ==> EntryLe(e, x)
    ensures multiset(rest) + multiset{e} == multiset(open)
    ensures forall x :: x in rest ==> x in open
  {
    var k := 0;
    LexLeReflexive(open[0].board);
    for i := 1 to |open|
      invariant 0 <= k < |open|
      invariant forall j :: 0 <= j < i ==> EntryLe(open[k], open[j])
    {
      if !EntryLe(open[k], open[i]) {
        EntryLeTotal(open[k], open[i]);
        forall j | 0 <= j < i
          ensures EntryLe(open[i], open[j])
        {
          EntryLeTransitive(open[i], open[k], open[j]);
        }
        LexLeReflexive(open[i].board);
        k := i;
      }
    }
    e := open[k];
    rest := open[..k] + open[k + 1..];
    assert open == open[..k] + [e] + open[k + 1..];
  }

  /** The boards that have an entry in the frontier. */
  ghost function BoardsOf(open: seq<Entry>): set<Board> {
    set e | e in open :: e.board
  }

  lemma BoardsOfAppend(a: seq<Entry>, b: seq<Entry>)
    ensures BoardsOf(a + b) == BoardsOf(a) + BoardsOf(b)
  {
  }

  /** After a pop, every board still has an entry, except perhaps the popped one. */
  lemma BoardsAfterPop(open: seq<Entry>, e: Entry, rest: seq<Entry>)
    requires multiset(rest) + multiset{e} == multiset(open)
    ensures BoardsOf(open) <= BoardsOf(rest) + {e.board}
  {
    forall x | x in open
      ensures x in rest || x == e
    {
      assert x in multiset(open);
    }
  }
}
