/**
 * The flood-fill primitive behind `depth_first_search`: an explicit stack of
 * cells, a visited set (the returned mask), and an acceptance test. A popped
 * cell is marked visited; only accepted cells push their unvisited in-window
 * neighbours.
 */
module FloodFill {
  import opened Grid

  /** `p` leads from `start` to `c` through accepted cells (the last one may be rejected). */
  ghost predicate Trail(adj: Adjacency, accept: set<Cell>, start: Cell, p: seq<Cell>, c: Cell)
  {
    |p| > 0 && p[0] == start && p[|p| - 1] == c &&
    (forall i :: 0 <= i < |p| - 1 ==> p[i] in accept) &&
    (forall i :: 0 <= i < |p| - 1 ==> Adjacent(adj, p[i], p[i + 1]))
  }

  /** Every cell on the stack lies in the window and has a trail from `start`. */
  ghost predicate StackOk(d: Dims, adj: Adjacency, accept: set<Cell>, start: Cell,
                          stack: seq<Cell>, wit: map<Cell, seq<Cell>>)
  {
    forall i :: 0 <= i < |stack| ==>
      InBox(d, stack[i]) && stack[i] in wit && Trail(adj, accept, start, wit[stack[i]], stack[i])
  }

  /** Every visited cell lies in the window and has a trail from `start`. */
  ghost predicate VisitedOk(d: Dims, adj: Adjacency, accept: set<Cell>, start: Cell,
                            visited: set<Cell>, wit: map<Cell, seq<Cell>>)
  {
    forall c :: c in visited ==> InBox(d, c) && c in wit && Trail(adj, accept, start, wit[c], c)
  }

  /** Every neighbour of an accepted visited cell is visited or still waiting on the stack. */
  ghost predicate Frontier(d: Dims, adj: Adjacency, accept: set<Cell>, visited: set<Cell>, stack: seq<Cell>)
  {
    forall c, n :: c in visited && c in accept && InBox(d, n) && Adjacent(adj, c, n) ==>
      n in visited || n in stack
  }

  /** The found cells are the accepted visited cells, each once, `start` first when it is one of them. */
  ghost predicate FoundOk(accept: set<Cell>, start: Cell, visited: set<Cell>, found: seq<Cell>)
  {
    (forall c :: c in found <==> c in visited && c in accept) && NoDup(found) &&
    (start in visited && start in accept ==> |found| > 0 && found[0] == start)
  }

  /** Visiting a new cell appends it to the found cells exactly when it is accepted. */
  lemma FoundVisit(accept: set<Cell>, start: Cell, visited: set<Cell>, found: seq<Cell>, p: Cell)
    requires FoundOk(accept, start, visited, found) && p !in visited
    requires start !in visited ==> found == []
    ensures FoundOk(accept, start, visited + {p}, if p in accept then found + [p] else found)
  {
    if p in accept {
      var f := found + [p];
      forall i, j | 0 <= i < j < |f|
        ensures f[i] != f[j]
      {
        if j == |found| {
          assert f[i] in found;
        }
      }
    }
  }

  /** The top of the stack has a trail, so it may join the visited cells; the rest of the stack keeps its trails. */
  lemma PopOk(d: Dims, adj: Adjacency, accept: set<Cell>, start: Cell, visited: set<Cell>,
              stack: seq<Cell>, wit: map<Cell, seq<Cell>>)
    requires stack != []
    requires StackOk(d, adj, accept, start, stack, wit) && VisitedOk(d, adj, accept, start, visited, wit)
    ensures StackOk(d, adj, accept, start, stack[..|stack| - 1], wit)
    ensures VisitedOk(d, adj, accept, start, visited + {stack[|stack| - 1]}, wit)
  {
    var rest := stack[..|stack| - 1];
    forall i | 0 <= i < |rest|
      ensures InBox(d, rest[i]) && rest[i] in wit && Trail(adj, accept, start, wit[rest[i]], rest[i])
    {
      assert rest[i] == stack[i];
    }
  }

  /**
   * Popping `p` keeps every accepted visited cell's neighbours covered: an
   * accepted `p` visited for the first time has pushed its own neighbours.
   */
  lemma FrontierStep(d: Dims, adj: Adjacency, accept: set<Cell>, v0: set<Cell>, popped: seq<Cell>, p: Cell,
                     visited: set<Cell>, stack: seq<Cell>)
    requires Frontier(d, adj, accept, v0, popped + [p]) && visited == v0 + {p}
    requires forall n :: n in popped ==> n in stack
    requires p in accept && p !in v0 ==> forall n :: InBox(d, n) && Adjacent(adj, p, n) ==> n in visited || n in stack
    ensures Frontier(d, adj, accept, visited, stack)
  {
    forall c, n | c in visited && c in accept && InBox(d, n) && Adjacent(adj, c, n)
      ensures n in visited || n in stack
    {
      if c in v0 {
        assert n in v0 || n in popped + [p];
      }
    }
  }

  lemma TrailExtend(adj: Adjacency, accept: set<Cell>, start: Cell, w: seq<Cell>, p: Cell, n: Cell)
    requires Trail(adj, accept, start, w, p) && p in accept && Adjacent(adj, p, n)
    ensures Trail(adj, accept, start, w + [n], n)
  {
    var w' := w + [n];
    assert forall i :: 0 <= i < |w'| - 1 ==> w'[i] == w[i];
    assert w'[|w'| - 2] == p;
  }

  /** Pushes every in-window, unvisited neighbour `Add(p, o)` of the accepted cell `p`, o ranging over `offs`. */
  method PushNeighbours(d: Dims, adj: Adjacency, offs: seq<Cell>, accept: set<Cell>, ghost start: Cell,
                        visited: set<Cell>, p: Cell, stack0: seq<Cell>, ghost wit0: map<Cell, seq<Cell>>)
      returns (stack: seq<Cell>, ghost wit: map<Cell, seq<Cell>>)
    requires forall o :: o in offs <==> IsOffset(adj, o)
    requires p in visited && p in accept
    requires StackOk(d, adj, accept, start, stack0, wit0)
    requires VisitedOk(d, adj, accept, start, visited, wit0)
    ensures StackOk(d, adj, accept, start, stack, wit)
    ensures VisitedOk(d, adj, accept, start, visited, wit)
    ensures |stack| >= |stack0| && stack[..|stack0|] == stack0
    ensures forall n :: InBox(d, n) && Adjacent(adj, p, n) ==> n in visited || n in stack
  {
    stack, wit := stack0, wit0;
    var t := 0;
    while t < |offs|
      invariant 0 <= t <= |offs|
      invariant StackOk(d, adj, accept, start, stack, wit)
      invariant VisitedOk(d, adj, accept, start, visited, wit)
      invariant |stack| >= |stack0| && stack[..|stack0|] == stack0
      invariant forall u :: 0 <= u < t && InBox(d, Add(p, offs[u])) ==>
        Add(p, offs[u]) in visited || Add(p, offs[u]) in stack
    {
      var n := Add(p, offs[t]);
      assert offs[t] in offs;
      assert Delta(p, n) == offs[t];
      if InBox(d, n) && n !in visited {
        TrailExtend(adj, accept, start, wit[p], p, n);
        stack := stack + [n];
        wit := wit[n := wit[p] + [n]];
      }
      t := t + 1;
    }
    forall n | InBox(d, n) && Adjacent(adj, p, n)
      ensures n in visited || n in stack
    {
      var u :| 0 <= u < |offs| && offs[u] == Delta(p, n);
      assert Add(p, offs[u]) == n;
    }
  }

  /**
   * Depth-first search from `start`. `found` lists the accepted cells in the
   * order they were accepted (what the callback records); `visited` is the
   * mask of every cell the search popped, accepted or not.
   */
  method DepthFirstSearch(d: Dims, adj: Adjacency, accept: set<Cell>, start: Cell)
      returns (visited: set<Cell>, found: seq<Cell>)
    requires InBox(d, start)
    requires forall c :: c in accept ==> InBox(d, c)
    ensures start in visited
    ensures forall c :: c in visited ==> InBox(d, c)
    ensures forall c :: c in found <==> c in visited && c in accept
    ensures forall c :: c in found <==> Reach(adj, accept, start, c)
    ensures NoDup(found)
    ensures start in accept ==> |found| > 0 && found[0] == start
  {
    visited := {};
    found := [];
    var stack := [start];
    ghost var wit: map<Cell, seq<Cell>> := map[start := [start]];
    while stack != []
      invariant StackOk(d, adj, accept, start, stack, wit)
      invariant VisitedOk(d, adj, accept, start, visited, wit)
      invariant start in visited || start in stack
      invariant visited == {} ==> stack == [start] && found == []
      invariant visited != {} ==> start in visited
      invariant FoundOk(accept, start, visited, found)
      invariant Frontier(d, adj, accept, visited, stack)
      decreases Cells(d) - visited, |stack|
    {
      var p := stack[|stack| - 1];
      ghost var before, v0 := stack, visited;
      PopOk(d, adj, accept, start, v0, before, wit);
      stack := stack[..|stack| - 1];
      ghost var popped := stack;
      assert before == popped + [p];
      if p !in visited {
        FoundVisit(accept, start, visited, found, p);
        visited := visited + {p};
        if p in accept {
          found := found + [p];
          OffsetsAll(adj);
          stack, wit := PushNeighbours(d, adj, Offsets(adj), accept, start, visited, p, stack, wit);
          assert forall n :: n in popped ==> n in stack;
        }
      }
      FrontierStep(d, adj, accept, v0, popped, p, visited, stack);
    }
    Finish(d, adj, accept, start, visited, found, wit);
  }

  /** At the end of the search the found cells are exactly the cells reachable from `start`. */
  lemma Finish(d: Dims, adj: Adjacency, accept: set<Cell>, start: Cell,
               visited: set<Cell>, found: seq<Cell>, wit: map<Cell, seq<Cell>>)
    requires forall c :: c in accept ==> InBox(d, c)
    requires start in visited
    requires VisitedOk(d, adj, accept, start, visited, wit)
    requires forall c :: c in found <==> c in visited && c in accept
    requires Frontier(d, adj, accept, visited, [])
    ensures forall c :: c in found <==> Reach(adj, accept, start, c)
  {
    assert Closed(adj, accept, visited);
    forall c | Reach(adj, accept, start, c)
      ensures c in found
    {
      ClosedReach(adj, accept, visited, start, c);
      ReachInOk(adj, accept, start, c);
    }
    forall c | c in found
      ensures Reach(adj, accept, start, c)
    {
      var w := wit[c];
      assert IsPath(adj, accept, w);
    }
  }
}
