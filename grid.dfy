/** Integer lattice cells, dense 3D windows, adjacency schemes and paths. */
module Grid {

  datatype Option<T> = None | Some(value: T)

  /** A cell of a local window, or a world position: (a, b, c). */
  type Cell = (int, int, int)

  /** The shape of a dense 3D window. */
  datatype Dims = Dims(n0: nat, n1: nat, n2: nat)

  predicate InBox(d: Dims, c: Cell)
  {
    0 <= c.0 < d.n0 && 0 <= c.1 < d.n1 && 0 <= c.2 < d.n2
  }

  /** Every cell of the window. */
  function Cells(d: Dims): (s: set<Cell>)
    ensures forall c :: c in s <==> InBox(d, c)
  {
    set i, j, k | 0 <= i < d.n0 && 0 <= j < d.n1 && 0 <= k < d.n2 :: (i, j, k)
  }

  /** A dense array of the given shape, indexed g[i][j][k]. */
  predicate Shaped<T>(g: seq<seq<seq<T>>>, d: Dims)
  {
    |g| == d.n0 &&
    forall i :: 0 <= i < |g| ==>
      |g[i]| == d.n1 && forall j :: 0 <= j < |g[i]| ==> |g[i][j]| == d.n2
  }

  function At<T>(g: seq<seq<seq<T>>>, d: Dims, c: Cell): T
    requires Shaped(g, d) && InBox(d, c)
  {
    g[c.0][c.1][c.2]
  }

  /** Strict lexicographic order on cells: the order of a nested (i, j, k) scan. */
  predicate LexLess(a: Cell, b: Cell)
  {
    a.0 < b.0 || (a.0 == b.0 && (a.1 < b.1 || (a.1 == b.1 && a.2 < b.2)))
  }

  predicate NoDup<T(==)>(s: seq<T>)
  {
    forall p, q :: 0 <= p < q < |s| ==> s[p] != s[q]
  }

  /** The concatenation of a sequence of sequences, in order. */
  function Flatten<T>(ss: seq<seq<T>>): seq<T>
  {
    if ss == [] then [] else Flatten(ss[..|ss| - 1]) + ss[|ss| - 1]
  }

  /** An element of the concatenation is an element of one of the parts. */
  lemma {:induction false} FlattenMember<T>(ss: seq<seq<T>>, x: T)
    ensures x in Flatten(ss) <==> exists k :: 0 <= k < |ss| && x in ss[k]
  {
    if ss != [] {
      var init := ss[..|ss| - 1];
      FlattenMember(init, x);
      if x in Flatten(ss) && x !in ss[|ss| - 1] {
        var k :| 0 <= k < |init| && x in init[k];
        assert ss[k] == init[k];
      }
      if exists k :: 0 <= k < |ss| && x in ss[k] {
        var k :| 0 <= k < |ss| && x in ss[k];
        if k < |init| {
          assert init[k] == ss[k];
        }
      }
    }
  }

  /** Two repeat-free sequences with no common element concatenate to a repeat-free one. */
  lemma NoDupConcat<T>(a: seq<T>, b: seq<T>)
    requires NoDup(a) && NoDup(b)
    requires forall x :: x in a ==> x !in b
    ensures NoDup(a + b)
  {
    var s := a + b;
    forall p, q | 0 <= p < q < |s|
      ensures s[p] != s[q]
    {
      if p < |a| && q >= |a| {
        assert s[p] in a && s[q] == b[q - |a|];
      }
    }
  }

  /** Face adjacency (6 neighbours) or face, edge and corner adjacency (26 neighbours). */
  datatype Adjacency = Face | Diagonal

  function Abs(x: int): nat { if x < 0 then -x else x }

  function Max3(a: nat, b: nat, c: nat): nat
  {
    if a >= b && a >= c then a else if b >= c then b else c
  }

  predicate IsOffset(adj: Adjacency, o: Cell)
  {
    match adj
    case Face => Abs(o.0) + Abs(o.1) + Abs(o.2) == 1
    case Diagonal => Max3(Abs(o.0), Abs(o.1), Abs(o.2)) == 1
  }

  /** The neighbour offsets, in the order the search pushes them. */
  function Offsets(adj: Adjacency): seq<Cell>
  {
    match adj
    case Face => [(1, 0, 0), (-1, 0, 0), (0, 1, 0), (0, -1, 0), (0, 0, 1), (0, 0, -1)]
    case Diagonal =>
      [(-1, -1, -1), (-1, -1, 0), (-1, -1, 1), (-1, 0, -1), (-1, 0, 0), (-1, 0, 1),
       (-1, 1, -1), (-1, 1, 0), (-1, 1, 1), (0, -1, -1), (0, -1, 0), (0, -1, 1),
       (0, 0, -1), (0, 0, 1), (0, 1, -1), (0, 1, 0), (0, 1, 1),
       (1, -1, -1), (1, -1, 0), (1, -1, 1), (1, 0, -1), (1, 0, 0), (1, 0, 1),
       (1, 1, -1), (1, 1, 0), (1, 1, 1)]
  }

  function Add(c: Cell, o: Cell): Cell
  {
    (c.0 + o.0, c.1 + o.1, c.2 + o.2)
  }

  function Delta(a: Cell, b: Cell): Cell
  {
    (b.0 - a.0, b.1 - a.1, b.2 - a.2)
  }

  predicate Adjacent(adj: Adjacency, a: Cell, b: Cell)
  {
    IsOffset(adj, Delta(a, b))
  }

  /** The offset list holds exactly the offsets of the scheme. */
  lemma OffsetsExact(adj: Adjacency, o: Cell)
    ensures o in Offsets(adj) <==> IsOffset(adj, o)
  {
    if IsOffset(adj, o) {
      assert -1 <= o.0 <= 1 && -1 <= o.1 <= 1 && -1 <= o.2 <= 1;
      match adj
      case Face =>
      case Diagonal =>
        assert o != (0, 0, 0);
    }
  }

  lemma OffsetsAll(adj: Adjacency)
    ensures forall o :: o in Offsets(adj) <==> IsOffset(adj, o)
  {
    forall o {
      OffsetsExact(adj, o);
    }
  }

  lemma AdjacentSymmetric(adj: Adjacency, a: Cell, b: Cell)
    ensures Adjacent(adj, a, b) <==> Adjacent(adj, b, a)
  {
  }

  /** A path inside `ok` whose consecutive cells are adjacent. */
  ghost predicate IsPath(adj: Adjacency, ok: set<Cell>, p: seq<Cell>)
  {
    |p| > 0 &&
    (forall i :: 0 <= i < |p| ==> p[i] in ok) &&
    (forall i :: 0 <= i < |p| - 1 ==> Adjacent(adj, p[i], p[i + 1]))
  }

  /** b can be reached from a without leaving `ok`. */
  ghost predicate Reach(adj: Adjacency, ok: set<Cell>, a: Cell, b: Cell)
  {
    exists p :: IsPath(adj, ok, p) && p[0] == a && p[|p| - 1] == b
  }

  /** `s` is closed under stepping to an adjacent cell of `ok`. */
  ghost predicate Closed(adj: Adjacency, ok: set<Cell>, s: set<Cell>)
  {
    forall c, n :: c in s && c in ok && n in ok && Adjacent(adj, c, n) ==> n in s
  }

  lemma {:induction false} ReachInOk(adj: Adjacency, ok: set<Cell>, a: Cell, b: Cell)
    requires Reach(adj, ok, a, b)
    ensures a in ok && b in ok
  {
    var p :| IsPath(adj, ok, p) && p[0] == a && p[|p| - 1] == b;
    assert p[0] in ok && p[|p| - 1] in ok;
  }

  lemma ReachStep(adj: Adjacency, ok: set<Cell>, a: Cell, b: Cell, n: Cell)
    requires Reach(adj, ok, a, b) && n in ok && Adjacent(adj, b, n)
    ensures Reach(adj, ok, a, n)
  {
    var p :| IsPath(adj, ok, p) && p[0] == a && p[|p| - 1] == b;
    var q := p + [n];
    assert IsPath(adj, ok, q);
  }

  function Reverse<T>(s: seq<T>): (r: seq<T>)
    ensures |r| == |s| && forall i :: 0 <= i < |s| ==> r[i] == s[|s| - 1 - i]
  {
    if s == [] then [] else Reverse(s[1..]) + [s[0]]
  }

  lemma ReachSym(adj: Adjacency, ok: set<Cell>, a: Cell, b: Cell)
    requires Reach(adj, ok, a, b)
    ensures Reach(adj, ok, b, a)
  {
    var p :| IsPath(adj, ok, p) && p[0] == a && p[|p| - 1] == b;
    var q := Reverse(p);
    forall i | 0 <= i < |q| - 1
      ensures Adjacent(adj, q[i], q[i + 1])
    {
      assert q[i] == p[|p| - 1 - i] && q[i + 1] == p[|p| - 2 - i];
      assert Adjacent(adj, p[|p| - 2 - i], p[|p| - 1 - i]);
      AdjacentSymmetric(adj, p[|p| - 2 - i], p[|p| - 1 - i]);
    }
    assert IsPath(adj, ok, q);
  }

  lemma ReachTrans(adj: Adjacency, ok: set<Cell>, a: Cell, b: Cell, c: Cell)
    requires Reach(adj, ok, a, b) && Reach(adj, ok, b, c)
    ensures Reach(adj, ok, a, c)
  {
    var p :| IsPath(adj, ok, p) && p[0] == a && p[|p| - 1] == b;
    var q :| IsPath(adj, ok, q) && q[0] == b && q[|q| - 1] == c;
    var r := p + q[1..];
    forall i | 0 <= i < |r| - 1
      ensures Adjacent(adj, r[i], r[i + 1])
    {
      if i < |p| - 1 {
        assert r[i] == p[i] && r[i + 1] == p[i + 1];
      } else {
        assert r[i] == q[i - |p| + 1] && r[i + 1] == q[i - |p| + 2];
      }
    }
    assert IsPath(adj, ok, r);
  }

  /** A closed set that holds the start of a path holds every cell of it. */
  lemma {:induction false} ClosedPath(adj: Adjacency, ok: set<Cell>, s: set<Cell>, p: seq<Cell>)
    requires Closed(adj, ok, s) && IsPath(adj, ok, p) && p[0] in s
    ensures forall i :: 0 <= i < |p| ==> p[i] in s
    decreases |p|
  {
    if |p| > 1 {
      var q := p[..|p| - 1];
      assert IsPath(adj, ok, q);
      ClosedPath(adj, ok, s, q);
      assert q[|q| - 1] == p[|p| - 2] && p[|p| - 2] in s;
      assert Adjacent(adj, p[|p| - 2], p[|p| - 1]);
    }
  }

  lemma ClosedReach(adj: Adjacency, ok: set<Cell>, s: set<Cell>, a: Cell, b: Cell)
    requires Closed(adj, ok, s) && a in s && Reach(adj, ok, a, b)
    ensures b in s
  {
    var p :| IsPath(adj, ok, p) && p[0] == a && p[|p| - 1] == b;
    ClosedPath(adj, ok, s, p);
  }
}
