/**
 * The hole finder (`get_all_nearby_holes`): a surface height map of the
 * square window around a location, a min-heap sweep that floods same-height
 * regions layer by layer, acceptance of regions walled in from above, merging
 * of holes that stack, and a final filter keeping only air coordinates.
 *
 * The world is an oracle from a world position (x, y, z) to its (id, meta).
 * Columns of the window are (x, z) pairs relative to the window corner;
 * heights and hole coordinates are absolute.
 */
module Holes {
  import opened Grid
  import opened Locators

  /** A column of the height map: (x, z) relative to the window corner. */
  type Column = (int, int)

  /** A heap entry (h, (x, y, z)), with x and z relative and y absolute. */
  type Entry = (int, Cell)

  /** A hole: its absolute coordinates and the (id, meta) of a wall block next to it. */
  type Hole = (seq<Cell>, IdMeta)

  /** The id of mobile blocks (agents, speakers, mobs), never taken as ground. */
  const MobileId: int := 383
  /** How far above the location the surface scan starts. */
  const Headroom: int := 5
  /** What `dfs` returns as soon as an explored column touches the window edge. */
  const EdgeSentinel: int := -100000
  /** What `dfs` returns for an already visited cell, and its starting minimum. */
  const VisitedSentinel: int := 100000
  /** The wall (id, meta) of a hole before any wall is seen. */
  const DefaultIdm: IdMeta := (2, 0)
  /** The slot left behind by a hole merged into a later one. */
  const VoidHole: Hole := ([], (0, 0))

  /** Row offsets of the four neighbour directions. */
  const GX: seq<int> := [0, 0, -1, 1]
  /** Column offsets of the four neighbour directions. */
  const GZ: seq<int> := [1, -1, 0, 0]

  /** The neighbour of column `c` in direction `d`. */
  function Nbr(c: Column, d: int): Column
    requires 0 <= d < 4
  {
    (c.0 + GX[d], c.1 + GZ[d])
  }

  predicate InWin(size: int, c: Column)
  {
    0 <= c.0 < size && 0 <= c.1 < size
  }

  /** A square `size` by `size` map. */
  predicate Square<T>(m: seq<seq<T>>, size: int)
  {
    |m| == size && forall i :: 0 <= i < |m| ==> |m[i]| == size
  }

  /** The map entry of column `c`, or `dflt` outside the map. */
  function Get<T>(m: seq<seq<T>>, c: Column, dflt: T): T
  {
    if 0 <= c.0 < |m| && 0 <= c.1 < |m[c.0]| then m[c.0][c.1] else dflt
  }

  /** `m` with the entry of column `c` replaced by `v`. */
  function Set<T(!new)>(m: seq<seq<T>>, c: Column, v: T): (m': seq<seq<T>>)
    requires 0 <= c.0 < |m| && 0 <= c.1 < |m[c.0]|
    ensures |m'| == |m| && forall i :: 0 <= i < |m| ==> |m'[i]| == |m[i]|
    ensures forall c', dflt :: Get(m', c', dflt) == if c' == c then v else Get(m, c', dflt)
  {
    m[c.0 := m[c.0][c.1 := v]]
  }

  // ---------------------------------------------------------------- surface

  /** The surface scan accepts the block at (x, h, z): not air, not the location, not the agent, not mobile. */
  predicate Solid(world: World, location: Cell, agentPos: Cell, x: int, h: int, z: int)
  {
    world((x, h, z)).0 != 0 && (x, h, z) != location && (x, h, z) != agentPos && world((x, h, z)).0 != MobileId
  }

  /** `h` is the highest accepted height at or below `top` in column (x, z). */
  ghost predicate Surface(world: World, location: Cell, agentPos: Cell, x: int, z: int, top: int, h: int)
  {
    h <= top && Solid(world, location, agentPos, x, h, z) &&
    forall h' :: h < h' <= top ==> !Solid(world, location, agentPos, x, h', z)
  }

  /**
   * Scans column (x, z) downward from `top` for the first accepted block and
   * returns its height and (id, meta). The scan has no lower bound, so an
   * accepted block must exist at or below `top`.
   */
  method GetBlockInfo(world: World, location: Cell, agentPos: Cell, x: int, z: int, top: int)
    returns (height: int, idm: IdMeta)
    requires exists h :: h <= top && Solid(world, location, agentPos, x, h, z)
    ensures Surface(world, location, agentPos, x, z, top, height)
    ensures idm == world((x, height, z))
  {
    ghost var floor :| floor <= top && Solid(world, location, agentPos, x, floor, z);
    height := top;
    while true
      invariant floor <= height <= top
      invariant forall h' :: height < h' <= top ==> !Solid(world, location, agentPos, x, h', z)
      decreases height - floor
    {
      var b := world((x, height, z));
      if b.0 != 0 && (x, height, z) != location && (x, height, z) != agentPos && b.0 != MobileId {
        return height, b;
      }
      height := height - 1;
    }
  }

  // ---------------------------------------------------------------- heap

  /** The order `heapq` uses on entries: by h, then lexicographically by (x, y, z). */
  predicate EntryLe(a: Entry, b: Entry)
  {
    a.0 < b.0 || (a.0 == b.0 && (LexLess(a.1, b.1) || a.1 == b.1))
  }

  /** `heapq`'s order is transitive. */
  lemma EntryLeTrans(a: Entry, b: Entry, c: Entry)
    requires EntryLe(a, b) && EntryLe(b, c)
    ensures EntryLe(a, c)
  {
  }

  /** Every non-empty heap has a least entry. */
  lemma {:induction false} MinExists(m: multiset<Entry>)
    requires |m| > 0
    ensures exists e :: e in m && forall e' :: e' in m ==> EntryLe(e, e')
    decreases |m|
  {
    var x :| x in m;
    var rest := m - multiset{x};
    assert m == rest + multiset{x};
    if |rest| == 0 {
      assert rest == multiset{};
      assert forall e' :: e' in m ==> EntryLe(x, e');
      assert x in m;
    } else {
      MinExists(rest);
      var y :| y in rest && forall e' :: e' in rest ==> EntryLe(y, e');
      if EntryLe(x, y) {
        forall e' | e' in m
          ensures EntryLe(x, e')
        {
          if e' != x {
            EntryLeTrans(x, y, e');
          }
        }
        assert x in m;
      } else {
        forall e' | e' in m
          ensures EntryLe(y, e')
        {
        }
        assert y in m;
      }
    }
  }

  // ---------------------------------------------------------------- hole lists

  /** The coordinates of a hole list, hole after hole. */
  function AllCoords(hs: seq<Hole>): seq<Cell>
  {
    if hs == [] then [] else AllCoords(hs[..|hs| - 1]) + hs[|hs| - 1].0
  }

  /** All coordinates of a hole list, with multiplicity. */
  function Coords(hs: seq<Hole>): multiset<Cell>
  {
    multiset(AllCoords(hs))
  }

  lemma CoordsAppend(hs: seq<Hole>, h: Hole)
    ensures Coords(hs + [h]) == Coords(hs) + multiset(h.0)
  {
    assert (hs + [h])[..|hs|] == hs;
  }

  /** Replacing one hole changes the coordinates by exactly that hole's. */
  lemma {:induction false} CoordsUpdate(hs: seq<Hole>, j: nat, h: Hole)
    requires j < |hs|
    ensures Coords(hs[j := h]) + multiset(hs[j].0) == Coords(hs) + multiset(h.0)
    decreases |hs|
  {
    var n := |hs| - 1;
    var hs' := hs[j := h];
    if j == n {
      assert hs'[..n] == hs[..n];
    } else {
      assert hs'[..n] == hs[..n][j := h];
      assert hs'[n] == hs[n] && hs[..n][j] == hs[j];
      CoordsUpdate(hs[..n], j, h);
      assert Coords(hs') == Coords(hs'[..n]) + multiset(hs[n].0);
      assert Coords(hs) == Coords(hs[..n]) + multiset(hs[n].0);
      assert Coords(hs') + multiset(hs[j].0) == (Coords(hs'[..n]) + multiset(hs[j].0)) + multiset(hs[n].0);
    }
  }

  /** The air coordinates of `xs`, in order (the filter of `util.fill_idmeta`'s pairs on id 0). */
  function AirOnly(world: World, xs: seq<Cell>): (r: seq<Cell>)
    ensures forall c :: c in r <==> c in xs && world(c).0 == 0
  {
    if xs == [] then []
    else AirOnly(world, xs[..|xs| - 1]) + (if world(xs[|xs| - 1]).0 == 0 then [xs[|xs| - 1]] else [])
  }

  lemma {:induction false} AirOnlyConcat(world: World, a: seq<Cell>, b: seq<Cell>)
    ensures AirOnly(world, a + b) == AirOnly(world, a) + AirOnly(world, b)
    decreases |b|
  {
    if b != [] {
      var n := |b| - 1;
      assert (a + b)[..|a + b| - 1] == a + b[..n];
      AirOnlyConcat(world, a, b[..n]);
    } else {
      assert a + b == a;
    }
  }

  /** Each hole with only its air coordinates kept. */
  function AirHoles(world: World, hs: seq<Hole>): (r: seq<Hole>)
    ensures |r| == |hs|
  {
    seq(|hs|, k requires 0 <= k < |hs| => (AirOnly(world, hs[k].0), hs[k].1))
  }

  /** The holes with at least one coordinate, in order. */
  function DropEmpty(hs: seq<Hole>): (r: seq<Hole>)
    ensures |r| <= |hs|
    ensures forall h :: h in r <==> h in hs && h.0 != []
  {
    if hs == [] then []
    else DropEmpty(hs[..|hs| - 1]) + (if hs[|hs| - 1].0 != [] then [hs[|hs| - 1]] else [])
  }

  lemma {:induction false} DropEmptyCoords(hs: seq<Hole>)
    ensures AllCoords(DropEmpty(hs)) == AllCoords(hs)
    decreases |hs|
  {
    if hs != [] {
      var n := |hs| - 1;
      var d := DropEmpty(hs[..n]);
      DropEmptyCoords(hs[..n]);
      assert AllCoords(hs) == AllCoords(hs[..n]) + hs[n].0;
      if hs[n].0 != [] {
        assert DropEmpty(hs) == d + [hs[n]];
        assert (d + [hs[n]])[..|d|] == d;
        assert AllCoords(d + [hs[n]]) == AllCoords(d) + hs[n].0;
      } else {
        assert DropEmpty(hs) == d + [];
        assert d + [] == d && AllCoords(hs[..n]) + hs[n].0 == AllCoords(hs[..n]);
      }
    }
  }

  lemma {:induction false} AirHolesCoords(world: World, hs: seq<Hole>)
    ensures AllCoords(AirHoles(world, hs)) == AirOnly(world, AllCoords(hs))
    decreases |hs|
  {
    if hs != [] {
      var n := |hs| - 1;
      AirHolesCoords(world, hs[..n]);
      assert AirHoles(world, hs)[..n] == AirHoles(world, hs[..n]);
      AirOnlyConcat(world, AllCoords(hs[..n]), hs[n].0);
    }
  }

  /**
   * The final clean-up: each hole keeps only the coordinates the world reports
   * as air, then holes left empty are dropped. The kept coordinates, read hole
   * after hole, are exactly the air coordinates of the input in the same order.
   */
  method PostFilter(world: World, holes: seq<Hole>) returns (r: seq<Hole>)
    ensures |r| <= |holes|
    ensures forall k :: 0 <= k < |r| ==> r[k].0 != [] && forall c :: c in r[k].0 ==> world(c).0 == 0
    ensures AllCoords(r) == AirOnly(world, AllCoords(holes))
    ensures r == DropEmpty(AirHoles(world, holes))
  {
    var hs := holes;
    var i := 0;
    while i < |hs|
      invariant 0 <= i <= |hs| == |holes|
      invariant forall k :: 0 <= k < i ==> hs[k] == (AirOnly(world, holes[k].0), holes[k].1)
      invariant forall k :: i <= k < |hs| ==> hs[k] == holes[k]
    {
      hs := hs[i := (AirOnly(world, hs[i].0), hs[i].1)];
      i := i + 1;
    }
    assert hs == AirHoles(world, holes);
    r := DropEmpty(hs);
    forall k | 0 <= k < |r|
      ensures r[k].0 != [] && forall c :: c in r[k].0 ==> world(c).0 == 0
    {
      assert r[k] in r;
      var j :| 0 <= j < |hs| && hs[j] == r[k];
    }
    DropEmptyCoords(hs);
    AirHolesCoords(world, holes);
  }

  // ---------------------------------------------------------------- exploration

  /** Direction `e` of column `c` has been examined, when column `start` has examined its directions below `dl`. */
  predicate Done(c: Column, e: int, start: Column, dl: int)
  {
    0 <= e < 4 && (c != start || e < dl)
  }

  /** No examined direction of an explored column leaves the window. */
  ghost predicate EdgeFree(size: int, ex: seq<Column>, start: Column, dl: int)
  {
    forall c, e :: c in ex && Done(c, e, start, dl) ==> InWin(size, Nbr(c, e))
  }

  /** `v` is at most the height of every examined neighbour whose height differs. */
  ghost predicate WallsAtLeast(heights: seq<seq<int>>, size: int, ex: seq<Column>, start: Column, dl: int, v: int)
  {
    forall c, e ::
      (c in ex && Done(c, e, start, dl) && InWin(size, Nbr(c, e)) && Get(heights, Nbr(c, e), 0) != Get(heights, c, 0))
      ==> v <= Get(heights, Nbr(c, e), 0)
  }

  /** Every examined neighbour of the same height is visited at layer `y`. */
  ghost predicate SameHeightVisited(heights: seq<seq<int>>, size: int, ex: seq<Column>, start: Column, dl: int,
                                    visited: set<Cell>, y: int)
  {
    forall c, e ::
      (c in ex && Done(c, e, start, dl) && InWin(size, Nbr(c, e)) && Get(heights, Nbr(c, e), 0) == Get(heights, c, 0))
      ==> (Nbr(c, e).0, y, Nbr(c, e).1) in visited
  }

  /** `idm` is the (id, meta) of some examined neighbour whose height differs. */
  ghost predicate WallIdm(heights: seq<seq<int>>, idms: seq<seq<IdMeta>>, size: int, ex: seq<Column>, start: Column,
                          dl: int, idm: IdMeta)
  {
    exists c, e :: c in ex && Done(c, e, start, dl) && InWin(size, Nbr(c, e)) &&
      Get(heights, Nbr(c, e), 0) != Get(heights, c, 0) && idm == Get(idms, Nbr(c, e), (0, 0))
  }

  /** Examining a same-height neighbour `n` of `start` adds what the exploration from `n` found. */
  lemma ExamineSame(heights: seq<seq<int>>, idms: seq<seq<IdMeta>>, size: int, ex: seq<Column>, ex': seq<Column>,
                    start: Column, d: int, n: Column, before: set<Cell>, after: set<Cell>, y: int)
    requires 0 <= d < 4 && n == Nbr(start, d) && InWin(size, n)
    requires Get(heights, n, 0) == Get(heights, start, 0)
    requires start !in ex'
    ensures EdgeFree(size, ex + ex', start, d + 1) <==> EdgeFree(size, ex, start, d) && EdgeFree(size, ex', n, 4)
    ensures forall v :: WallsAtLeast(heights, size, ex + ex', start, d + 1, v) <==>
      WallsAtLeast(heights, size, ex, start, d, v) && WallsAtLeast(heights, size, ex', n, 4, v)
    ensures (SameHeightVisited(heights, size, ex, start, d, before, y) && before <= after &&
      SameHeightVisited(heights, size, ex', n, 4, after, y) && (n.0, y, n.1) in after) ==>
      SameHeightVisited(heights, size, ex + ex', start, d + 1, after, y)
    ensures forall idm :: WallIdm(heights, idms, size, ex, start, d, idm) || WallIdm(heights, idms, size, ex', n, 4, idm) ==>
      WallIdm(heights, idms, size, ex + ex', start, d + 1, idm)
  {
    forall idm | WallIdm(heights, idms, size, ex', n, 4, idm)
      ensures WallIdm(heights, idms, size, ex + ex', start, d + 1, idm)
    {
      var c, e :| c in ex' && Done(c, e, n, 4) && InWin(size, Nbr(c, e)) &&
        Get(heights, Nbr(c, e), 0) != Get(heights, c, 0) && idm == Get(idms, Nbr(c, e), (0, 0));
      assert c in ex + ex' && Done(c, e, start, d + 1);
    }
    forall idm | WallIdm(heights, idms, size, ex, start, d, idm)
      ensures WallIdm(heights, idms, size, ex + ex', start, d + 1, idm)
    {
      var c, e :| c in ex && Done(c, e, start, d) && InWin(size, Nbr(c, e)) &&
        Get(heights, Nbr(c, e), 0) != Get(heights, c, 0) && idm == Get(idms, Nbr(c, e), (0, 0));
      assert c in ex + ex' && Done(c, e, start, d + 1);
    }
  }

  /** Examining a different-height neighbour `n` of `start` adds one wall. */
  lemma ExamineWall(heights: seq<seq<int>>, idms: seq<seq<IdMeta>>, size: int, ex: seq<Column>,
                    start: Column, d: int, n: Column, visited: set<Cell>, y: int)
    requires 0 <= d < 4 && n == Nbr(start, d) && InWin(size, n)
    requires Get(heights, n, 0) != Get(heights, start, 0)
    requires start in ex
    ensures EdgeFree(size, ex, start, d + 1) <==> EdgeFree(size, ex, start, d)
    ensures forall v :: WallsAtLeast(heights, size, ex, start, d + 1, v) <==>
      WallsAtLeast(heights, size, ex, start, d, v) && v <= Get(heights, n, 0)
    ensures SameHeightVisited(heights, size, ex, start, d, visited, y) ==>
      SameHeightVisited(heights, size, ex, start, d + 1, visited, y)
    ensures WallIdm(heights, idms, size, ex, start, d + 1, Get(idms, n, (0, 0)))
    ensures forall idm :: WallIdm(heights, idms, size, ex, start, d, idm) ==>
      WallIdm(heights, idms, size, ex, start, d + 1, idm)
  {
    assert Done(start, d, start, d + 1);
    forall idm | WallIdm(heights, idms, size, ex, start, d, idm)
      ensures WallIdm(heights, idms, size, ex, start, d + 1, idm)
    {
      var c, e :| c in ex && Done(c, e, start, d) && InWin(size, Nbr(c, e)) &&
        Get(heights, Nbr(c, e), 0) != Get(heights, c, 0) && idm == Get(idms, Nbr(c, e), (0, 0));
      assert Done(c, e, start, d + 1);
    }
  }

  /** A direction of `start` leaving the window makes the exploration touch the edge. */
  lemma ExamineEdge(size: int, ex: seq<Column>, start: Column, d: int)
    requires 0 <= d < 4 && !InWin(size, Nbr(start, d)) && start in ex
    ensures !EdgeFree(size, ex, start, 4)
  {
    assert Done(start, d, start, 4);
  }

  /**
   * What an exploration from `start`, having examined the directions of
   * `start` below `dl`, has established about its result `r`, the visited set
   * and the wall (id, meta) `idm` (which was `idm0` before it began).
   */
  ghost predicate Explored(heights: seq<seq<int>>, idms: seq<seq<IdMeta>>, size: int, ex: seq<Column>, start: Column,
                           dl: int, r: int, visited: set<Cell>, y: int, idm0: IdMeta, idm: IdMeta)
  {
    (!EdgeFree(size, ex, start, dl) ==> r <= EdgeSentinel) &&
    (EdgeFree(size, ex, start, dl) ==>
      r <= VisitedSentinel && WallsAtLeast(heights, size, ex, start, dl, r) &&
      (forall v :: v <= VisitedSentinel && WallsAtLeast(heights, size, ex, start, dl, v) ==> v <= r) &&
      SameHeightVisited(heights, size, ex, start, dl, visited, y)) &&
    (idm == idm0 || WallIdm(heights, idms, size, ex, start, dl, idm))
  }

  function Min(a: int, b: int): int
  {
    if a < b then a else b
  }

  lemma ExploredStart(heights: seq<seq<int>>, idms: seq<seq<IdMeta>>, size: int, start: Column,
                      visited: set<Cell>, y: int, idm: IdMeta)
    ensures Explored(heights, idms, size, [start], start, 0, VisitedSentinel, visited, y, idm, idm)
  {
  }

  /** The exploration from a same-height neighbour folds into the exploration from `start`. */
  lemma SameStep(heights: seq<seq<int>>, idms: seq<seq<IdMeta>>, size: int, ex: seq<Column>, ex': seq<Column>,
                 start: Column, d: int, n: Column, r: int, sub: int, before: set<Cell>, after: set<Cell>, y: int,
                 idm0: IdMeta, idm1: IdMeta, idm2: IdMeta)
    requires 0 <= d < 4 && n == Nbr(start, d) && InWin(size, n)
    requires Get(heights, n, 0) == Get(heights, start, 0)
    requires start !in ex'
    requires Explored(heights, idms, size, ex, start, d, r, before, y, idm0, idm1)
    requires Explored(heights, idms, size, ex', n, 4, sub, after, y, idm1, idm2)
    requires before <= after && (n.0, y, n.1) in after
    ensures Explored(heights, idms, size, ex + ex', start, d + 1, Min(r, sub), after, y, idm0, idm2)
  {
    ExamineSame(heights, idms, size, ex, ex', start, d, n, before, after, y);
    var m := Min(r, sub);
    if EdgeFree(size, ex + ex', start, d + 1) {
      assert EdgeFree(size, ex, start, d) && EdgeFree(size, ex', n, 4);
      WallsMono(heights, size, ex, start, d, r, m);
      WallsMono(heights, size, ex', n, 4, sub, m);
      assert WallsAtLeast(heights, size, ex + ex', start, d + 1, m);
      var all, d1 := ex + ex', d + 1;
      forall v | v <= VisitedSentinel && WallsAtLeast(heights, size, all, start, d1, v)
        ensures v <= m
      {
        assert WallsAtLeast(heights, size, ex, start, d, v) && WallsAtLeast(heights, size, ex', n, 4, v);
      }
      assert SameHeightVisited(heights, size, ex + ex', start, d + 1, after, y);
    } else {
      assert !EdgeFree(size, ex, start, d) || !EdgeFree(size, ex', n, 4);
    }
    if idm2 != idm0 {
      assert WallIdm(heights, idms, size, ex, start, d, idm2) || WallIdm(heights, idms, size, ex', n, 4, idm2);
    }
  }

  /** A lower bound on the walls stays one when lowered. */
  lemma WallsMono(heights: seq<seq<int>>, size: int, ex: seq<Column>, start: Column, dl: int, v: int, w: int)
    requires WallsAtLeast(heights, size, ex, start, dl, v) && w <= v
    ensures WallsAtLeast(heights, size, ex, start, dl, w)
  {
  }

  /** A different-height neighbour of `start` is one more wall. */
  lemma WallStep(heights: seq<seq<int>>, idms: seq<seq<IdMeta>>, size: int, ex: seq<Column>,
                 start: Column, d: int, n: Column, r: int, visited: set<Cell>, y: int, idm0: IdMeta, idm1: IdMeta)
    requires 0 <= d < 4 && n == Nbr(start, d) && InWin(size, n)
    requires Get(heights, n, 0) != Get(heights, start, 0)
    requires start in ex
    requires Explored(heights, idms, size, ex, start, d, r, visited, y, idm0, idm1)
    ensures Explored(heights, idms, size, ex, start, d + 1, Min(r, Get(heights, n, 0)), visited, y, idm0,
                     Get(idms, n, (0, 0)))
  {
    ExamineWall(heights, idms, size, ex, start, d, n, visited, y);
    var m := Min(r, Get(heights, n, 0));
    if EdgeFree(size, ex, start, d + 1) {
      WallsMono(heights, size, ex, start, d, r, m);
      assert WallsAtLeast(heights, size, ex, start, d + 1, m);
      var d1 := d + 1;
      forall v | v <= VisitedSentinel && WallsAtLeast(heights, size, ex, start, d1, v)
        ensures v <= m
      {
        assert WallsAtLeast(heights, size, ex, start, d, v);
      }
    }
  }

  /** A direction of `start` leaving the window ends the exploration with the edge sentinel. */
  lemma EdgeStep(heights: seq<seq<int>>, idms: seq<seq<IdMeta>>, size: int, ex: seq<Column>,
                 start: Column, d: int, r: int, visited: set<Cell>, y: int, idm0: IdMeta, idm: IdMeta)
    requires 0 <= d < 4 && !InWin(size, Nbr(start, d)) && start in ex
    requires Explored(heights, idms, size, ex, start, d, r, visited, y, idm0, idm)
    ensures Explored(heights, idms, size, ex, start, 4, EdgeSentinel, visited, y, idm0, idm)
  {
    ExamineEdge(size, ex, start, d);
    if idm != idm0 {
      var c, e :| c in ex && Done(c, e, start, d) && InWin(size, Nbr(c, e)) &&
        Get(heights, Nbr(c, e), 0) != Get(heights, c, 0) && idm == Get(idms, Nbr(c, e), (0, 0));
      assert Done(c, e, start, 4);
    }
  }

  /** Regrouping two appends, as one step of `Examine`'s bookkeeping. */
  lemma SeqRegroup<T>(o: seq<T>, a: seq<T>, b: seq<T>, mid: seq<T>, last: seq<T>)
    requires mid == o + a && last == mid + b
    ensures last == o + (a + b)
  {
  }

  /** Regrouping two unions, as one step of `Examine`'s bookkeeping. */
  lemma SetRegroup<T>(o: set<T>, a: set<T>, b: set<T>, mid: set<T>, last: set<T>)
    requires mid == o + a && last == mid + b
    ensures last == o + (a + b)
  {
  }

  /** The cells of layer `y` above the explored columns. */
  function LayerOf(ex: seq<Column>, y: int): set<Cell>
  {
    if ex == [] then {} else LayerOf(ex[..|ex| - 1], y) + {(ex[|ex| - 1].0, y, ex[|ex| - 1].1)}
  }

  lemma {:induction false} LayerOfMember(ex: seq<Column>, y: int, c: Cell)
    ensures c in LayerOf(ex, y) <==> c.1 == y && (c.0, c.2) in ex
  {
    if ex != [] {
      LayerOfMember(ex[..|ex| - 1], y, c);
      assert ex == ex[..|ex| - 1] + [ex[|ex| - 1]];
    }
  }

  lemma {:induction false} LayerOfConcat(a: seq<Column>, b: seq<Column>, y: int)
    ensures LayerOf(a + b, y) == LayerOf(a, y) + LayerOf(b, y)
    decreases |b|
  {
    if b != [] {
      var b' := b[..|b| - 1];
      assert (a + b)[..|a + b| - 1] == a + b';
      LayerOfConcat(a, b', y);
    } else {
      assert a + b == a;
    }
  }

  /** Explored columns at layer `y` in absolute coordinates. */
  function Absolute(ex: seq<Column>, y: int, radius: int, location: Cell): seq<Cell>
  {
    if ex == [] then []
    else
      var c := ex[|ex| - 1];
      Absolute(ex[..|ex| - 1], y, radius, location) + [(c.0 - radius + location.0, y, c.1 - radius + location.2)]
  }

  lemma {:induction false} AbsoluteConcat(a: seq<Column>, b: seq<Column>, y: int, radius: int, location: Cell)
    ensures Absolute(a + b, y, radius, location) == Absolute(a, y, radius, location) + Absolute(b, y, radius, location)
    decreases |b|
  {
    if b != [] {
      var b' := b[..|b| - 1];
      assert (a + b)[..|a + b| - 1] == a + b';
      assert (a + b)[|a + b| - 1] == b[|b| - 1];
      AbsoluteConcat(a, b', y, radius, location);
    } else {
      assert a + b == a;
    }
  }

  /** Absolute cells are the explored columns shifted by the window corner. */
  lemma {:induction false} AbsoluteAt(ex: seq<Column>, n: nat, y: int, radius: int, location: Cell)
    requires n < |ex|
    ensures |Absolute(ex, y, radius, location)| == |ex|
    ensures Absolute(ex, y, radius, location)[n] == (ex[n].0 - radius + location.0, y, ex[n].1 - radius + location.2)
    decreases |ex|
  {
    var init := ex[..|ex| - 1];
    if n < |init| {
      AbsoluteAt(init, n, y, radius, location);
    } else if init != [] {
      AbsoluteAt(init, 0, y, radius, location);
    }
  }

  /** The entries an accepted region at layer `y` pushes: one at `y + 1` per column. */
  function Pushes(ex: seq<Column>, y: int): multiset<Entry>
  {
    if ex == [] then multiset{}
    else
      var c := ex[|ex| - 1];
      Pushes(ex[..|ex| - 1], y) + multiset{(y + 1, (c.0, y + 1, c.1))}
  }

  /** Hole `k` is the hole last joined by one of the columns `cols`. */
  ghost predicate Tagged(hids: seq<seq<int>>, cols: seq<Column>, k: int)
  {
    exists c :: c in cols && Get(hids, c, -1) == k
  }

  lemma TaggedStep(hids: seq<seq<int>>, ex: seq<Column>, n: nat, k: int)
    requires n < |ex|
    ensures Tagged(hids, ex[..n + 1], k) <==> Tagged(hids, ex[..n], k) || Get(hids, ex[n], -1) == k
  {
    assert ex[..n + 1] == ex[..n] + [ex[n]];
    if Get(hids, ex[n], -1) == k {
      assert ex[n] in ex[..n + 1];
    }
    if Tagged(hids, ex[..n], k) {
      var c :| c in ex[..n] && Get(hids, c, -1) == k;
      assert c in ex[..n + 1];
    }
  }

  lemma MultisetCancel<T>(x: multiset<T>, y: multiset<T>, a: multiset<T>)
    requires x + a == y + a
    ensures x == y
  {
    forall o
      ensures x[o] == y[o]
    {
      assert (x + a)[o] == (y + a)[o];
    }
  }

  /** Merging hole `j` into hole `i` and voiding slot `j` keeps every coordinate. */
  lemma MergeCoords(hs: seq<Hole>, i: nat, j: nat)
    requires i < |hs| && j < |hs| && i != j
    ensures Coords(hs[i := (hs[i].0 + hs[j].0, hs[i].1)][j := VoidHole]) == Coords(hs)
  {
    var h1 := hs[i := (hs[i].0 + hs[j].0, hs[i].1)];
    CoordsUpdate(hs, i, (hs[i].0 + hs[j].0, hs[i].1));
    assert multiset(hs[i].0 + hs[j].0) == multiset(hs[i].0) + multiset(hs[j].0);
    assert Coords(h1) + multiset(hs[i].0) == (Coords(hs) + multiset(hs[j].0)) + multiset(hs[i].0);
    MultisetCancel(Coords(h1), Coords(hs) + multiset(hs[j].0), multiset(hs[i].0));
    assert h1[j] == hs[j];
    CoordsUpdate(h1, j, VoidHole);
    assert multiset(VoidHole.0) == multiset{};
    MultisetCancel(Coords(h1[j := VoidHole]), Coords(hs), multiset(hs[j].0));
  }

  /** Removing one more cell of `a` strictly shrinks what is left of `a`. */
  lemma CardDecrease(a: set<Cell>, v0: set<Cell>, v1: set<Cell>, p: Cell)
    requires p in a && p !in v0 && v0 + {p} <= v1
    ensures |a - v1| < |a - v0|
  {
    var rest := a - v0;
    assert a - v1 <= rest - {p};
    assert rest == (rest - {p}) + {p};
    SubsetCard(a - v1, rest - {p});
  }

  lemma SubsetCard(s: set<Cell>, t: set<Cell>)
    requires s <= t
    ensures |s| <= |t|
  {
    assert t == s + (t - s);
  }

  /**
   * The coordinates the new hole gathers after its own region: for each
   * member column in turn, those of the hole it was tagged with, unless an
   * earlier column already brought that hole in (whose slot is then void).
   */
  ghost function Merged(hs0: seq<Hole>, hd0: seq<seq<int>>, cols: seq<Column>): seq<Cell>
  {
    if cols == [] then []
    else
      var init, hid := cols[..|cols| - 1], Get(hd0, cols[|cols| - 1], -1);
      Merged(hs0, hd0, init) + (if 0 <= hid < |hs0| && hid !in Tags(hd0, init) then hs0[hid].0 else [])
  }

  /** The tags of the columns `cols`, in order. */
  function Tags(hd0: seq<seq<int>>, cols: seq<Column>): seq<int>
  {
    if cols == [] then [] else Tags(hd0, cols[..|cols| - 1]) + [Get(hd0, cols[|cols| - 1], -1)]
  }

  /** A tag occurs in `Tags` exactly when some column carries it. */
  lemma {:induction false} TagsTagged(hd0: seq<seq<int>>, cols: seq<Column>, k: int)
    ensures k in Tags(hd0, cols) <==> Tagged(hd0, cols, k)
    decreases |cols|
  {
    if cols != [] {
      var init, last := cols[..|cols| - 1], cols[|cols| - 1];
      TagsTagged(hd0, init, k);
      assert forall c :: c in cols <==> c in init || c == last;
    }
  }

  /**
   * The state after accepting the region `comp` (the columns `ex` at layer
   * `y`, wall (id, meta) `idm`): a new hole opens with `comp` at its front and
   * the coordinates of every hole a column was tagged with appended, in the
   * order of the columns; those
   * holes' slots are voided and every other hole is unchanged, so no
   * coordinate is lost or duplicated; each column of `ex` rises by exactly one,
   * gets one heap entry at `y + 1` and is tagged with the new hole; every
   * other column keeps its height and tag.
   */
  ghost predicate Accepted(size: int, y: int, ex: seq<Column>, comp: seq<Cell>, idm: IdMeta,
                           hs0: seq<Hole>, ht0: seq<seq<int>>, hd0: seq<seq<int>>, hp0: multiset<Entry>,
                           hs: seq<Hole>, ht: seq<seq<int>>, hd: seq<seq<int>>, hp: multiset<Entry>)
  {
    MapsAccepted(size, ex, |hs0|, ht0, hd0, ht, hd) &&
    HolesAccepted(ex, comp, idm, hs0, hd0, hs) &&
    hp == hp0 + Pushes(ex, y)
  }

  /** The height and tag maps after accepting the columns `ex` as hole number `cur`. */
  ghost predicate MapsAccepted(size: int, ex: seq<Column>, cur: int,
                               ht0: seq<seq<int>>, hd0: seq<seq<int>>, ht: seq<seq<int>>, hd: seq<seq<int>>)
  {
    Square(ht, size) && Square(hd, size) &&
    (forall c :: InWin(size, c) ==> Get(ht, c, 0) == Get(ht0, c, 0) + (if c in ex then 1 else 0)) &&
    (forall c :: InWin(size, c) ==> Get(hd, c, -1) == (if c in ex then cur else Get(hd0, c, -1)))
  }

  /** The hole list after accepting the region `comp` over the columns `ex`. */
  ghost predicate HolesAccepted(ex: seq<Column>, comp: seq<Cell>, idm: IdMeta, hs0: seq<Hole>, hd0: seq<seq<int>>, hs: seq<Hole>)
  {
    |hs| == |hs0| + 1 && hs[|hs0|].0 == comp + Merged(hs0, hd0, ex) && hs[|hs0|].1 == idm &&
    (forall k :: 0 <= k < |hs0| ==> hs[k] == (if Tagged(hd0, ex, k) then VoidHole else hs0[k])) &&
    Coords(hs) == Coords(hs0) + multiset(comp)
  }

  /** The acceptance loop over the region's cells, on the hole list, height map, tag map and heap. */
  method AcceptRegion(size: int, y: int, ghost ex: seq<Column>, comp: seq<Cell>, idm: IdMeta,
                      hs0: seq<Hole>, ht0: seq<seq<int>>, hd0: seq<seq<int>>, hp0: multiset<Entry>,
                      radius: int, location: Cell)
    returns (hs: seq<Hole>, ht: seq<seq<int>>, hd: seq<seq<int>>, hp: multiset<Entry>)
    requires Square(ht0, size) && Square(hd0, size)
    requires forall c :: InWin(size, c) ==> -1 <= Get(hd0, c, -1) < |hs0|
    requires comp == Absolute(ex, y, radius, location) && NoDup(ex)
    requires forall c :: c in ex ==> InWin(size, c)
    ensures Accepted(size, y, ex, comp, idm, hs0, ht0, hd0, hp0, hs, ht, hd, hp)
  {
    var cur := |hs0|;
    hs := hs0 + [(comp, idm)];
    CoordsAppend(hs0, (comp, idm));
    ht, hd, hp := ht0, hd0, hp0;
    if ex != [] {
      AbsoluteAt(ex, 0, y, radius, location);
    } else {
      assert comp == [];
    }
    var n := 0;
    assert ex[..0] == [] && comp + Merged(hs0, hd0, []) == comp;
    assert HolesAccepted([], comp, idm, hs0, hd0, hs) by {
      assert forall k :: 0 <= k < |hs0| ==> !Tagged(hd0, [], k);
    }
    assert MapsAccepted(size, [], cur, ht0, hd0, ht, hd);
    while n < |comp|
      invariant 0 <= n <= |comp| == |ex|
      invariant Accepted(size, y, ex[..n], comp, idm, hs0, ht0, hd0, hp0, hs, ht, hd, hp)
    {
      hs, ht, hd, hp := AcceptCell(size, y, ex, n, cur, comp, idm, hs0, ht0, hd0, hp0, hs, ht, hd, hp, radius, location);
      n := n + 1;
      assert Accepted(size, y, ex[..n], comp, idm, hs0, ht0, hd0, hp0, hs, ht, hd, hp);
    }
    assert ex[..n] == ex;
  }

  /** One iteration of the acceptance loop: the region's cell `n`. */
  method AcceptCell(size: int, y: int, ghost ex: seq<Column>, n: nat, cur: int, comp: seq<Cell>, ghost idm: IdMeta,
                    ghost hs0: seq<Hole>, ghost ht0: seq<seq<int>>, ghost hd0: seq<seq<int>>, ghost hp0: multiset<Entry>,
                    hs: seq<Hole>, ht: seq<seq<int>>, hd: seq<seq<int>>, hp: multiset<Entry>,
                    radius: int, location: Cell)
    returns (hs': seq<Hole>, ht': seq<seq<int>>, hd': seq<seq<int>>, hp': multiset<Entry>)
    requires forall c :: InWin(size, c) ==> -1 <= Get(hd0, c, -1) < |hs0|
    requires comp == Absolute(ex, y, radius, location) && NoDup(ex)
    requires forall c :: c in ex ==> InWin(size, c)
    requires n < |comp| == |ex| && cur == |hs0|
    requires Accepted(size, y, ex[..n], comp, idm, hs0, ht0, hd0, hp0, hs, ht, hd, hp)
    ensures Accepted(size, y, ex[..n + 1], comp, idm, hs0, ht0, hd0, hp0, hs', ht', hd', hp')
  {
    var p := comp[n];
    AbsoluteAt(ex, n, y, radius, location);
    var rx, ry, rz := p.0 - location.0 + radius, p.1 + 1, p.2 - location.2 + radius;
    assert (rx, rz) == ex[n] && ry == y + 1 && InWin(size, ex[n]);
    assert ex[n] !in ex[..n];
    hp' := hp + multiset{(ry, (rx, ry, rz))};
    ht' := Set(ht, (rx, rz), ht[rx][rz] + 1);
    var hid := hd[rx][rz];
    assert hid == Get(hd0, ex[n], -1);
    hs' := hs;
    if hid != -1 {
      hs' := hs'[cur := (hs'[cur].0 + hs'[hid].0, hs'[cur].1)];
      hs' := hs'[hid := VoidHole];
    }
    hd' := Set(hd, (rx, rz), cur);
    CellAccepted(size, y, ex, n, comp, idm, hs0, ht0, hd0, hp0, hs, ht, hd, hp, hs', ht', hd', hp');
  }

  /** The acceptance of column `ex[n]` extends the accepted state from `ex[..n]` to `ex[..n + 1]`. */
  lemma CellAccepted(size: int, y: int, ex: seq<Column>, n: nat, comp: seq<Cell>, idm: IdMeta,
                     hs0: seq<Hole>, ht0: seq<seq<int>>, hd0: seq<seq<int>>, hp0: multiset<Entry>,
                     hs: seq<Hole>, ht: seq<seq<int>>, hd: seq<seq<int>>, hp: multiset<Entry>,
                     hs': seq<Hole>, ht': seq<seq<int>>, hd': seq<seq<int>>, hp': multiset<Entry>)
    requires forall c :: InWin(size, c) ==> -1 <= Get(hd0, c, -1) < |hs0|
    requires n < |ex| && ex[n] !in ex[..n] && InWin(size, ex[n])
    requires Accepted(size, y, ex[..n], comp, idm, hs0, ht0, hd0, hp0, hs, ht, hd, hp)
    requires hp' == hp + multiset{(y + 1, (ex[n].0, y + 1, ex[n].1))}
    requires ht' == Set(ht, ex[n], ht[ex[n].0][ex[n].1] + 1)
    requires hd' == Set(hd, ex[n], |hs0|)
    requires var hid := Get(hd0, ex[n], -1);
      hs' == if hid == -1 then hs
             else hs[|hs0| := (hs[|hs0|].0 + hs[hid].0, hs[|hs0|].1)][hid := VoidHole]
    ensures Accepted(size, y, ex[..n + 1], comp, idm, hs0, ht0, hd0, hp0, hs', ht', hd', hp')
  {
    var ex' := ex[..n + 1];
    assert ex'[..n] == ex[..n];
    assert Pushes(ex', y) == Pushes(ex[..n], y) + multiset{(y + 1, (ex[n].0, y + 1, ex[n].1))};
    MapsCell(size, ex, n, |hs0|, ht0, hd0, ht, hd);
    HolesCell(ex, n, comp, idm, hs0, hd0, hs, hs');
  }

  /** Raising and tagging column `ex[n]` extends the maps from `ex[..n]` to `ex[..n + 1]`. */
  lemma MapsCell(size: int, ex: seq<Column>, n: nat, cur: int,
                 ht0: seq<seq<int>>, hd0: seq<seq<int>>, ht: seq<seq<int>>, hd: seq<seq<int>>)
    requires n < |ex| && ex[n] !in ex[..n] && InWin(size, ex[n])
    requires MapsAccepted(size, ex[..n], cur, ht0, hd0, ht, hd)
    ensures MapsAccepted(size, ex[..n + 1], cur, ht0, hd0, Set(ht, ex[n], ht[ex[n].0][ex[n].1] + 1), Set(hd, ex[n], cur))
  {
    RaiseStep(size, ht0, ht, ex, n);
    TagStep(size, hd0, hd, ex, n, cur);
  }

  /** Merging the hole column `ex[n]` was tagged with extends the hole list from `ex[..n]` to `ex[..n + 1]`. */
  lemma HolesCell(ex: seq<Column>, n: nat, comp: seq<Cell>, idm: IdMeta, hs0: seq<Hole>, hd0: seq<seq<int>>,
                  hs: seq<Hole>, hs': seq<Hole>)
    requires n < |ex| && -1 <= Get(hd0, ex[n], -1) < |hs0|
    requires HolesAccepted(ex[..n], comp, idm, hs0, hd0, hs)
    requires var hid := Get(hd0, ex[n], -1);
      hs' == if hid == -1 then hs
             else hs[|hs0| := (hs[|hs0|].0 + hs[hid].0, hs[|hs0|].1)][hid := VoidHole]
    ensures HolesAccepted(ex[..n + 1], comp, idm, hs0, hd0, hs')
  {
    MergeStep(hs0, hs, hs', hd0, ex, n, comp);
    var hid := Get(hd0, ex[n], -1);
    var added := if 0 <= hid < |hs0| && hid !in Tags(hd0, ex[..n]) then hs0[hid].0 else [];
    MergedStep(hs0, hd0, ex, n);
    TagsTagged(hd0, ex[..n], hid);
    FrontStep(hs0, hs, hs', hid, comp, Merged(hs0, hd0, ex[..n]), added);
  }

  /** Raising column `ex[n]` extends the raised columns from `ex[..n]` to `ex[..n + 1]`. */
  lemma RaiseStep(size: int, ht0: seq<seq<int>>, ht: seq<seq<int>>, ex: seq<Column>, n: nat)
    requires n < |ex| && ex[n] !in ex[..n] && InWin(size, ex[n]) && Square(ht, size)
    requires forall c :: InWin(size, c) ==> Get(ht, c, 0) == Get(ht0, c, 0) + (if c in ex[..n] then 1 else 0)
    ensures forall c :: InWin(size, c) ==>
      Get(Set(ht, ex[n], ht[ex[n].0][ex[n].1] + 1), c, 0) == Get(ht0, c, 0) + (if c in ex[..n + 1] then 1 else 0)
  {
    assert ex[..n + 1] == ex[..n] + [ex[n]];
  }

  /** Tagging column `ex[n]` extends the tagged columns from `ex[..n]` to `ex[..n + 1]`. */
  lemma TagStep(size: int, hd0: seq<seq<int>>, hd: seq<seq<int>>, ex: seq<Column>, n: nat, cur: int)
    requires n < |ex| && InWin(size, ex[n]) && Square(hd, size)
    requires forall c :: InWin(size, c) ==> Get(hd, c, -1) == (if c in ex[..n] then cur else Get(hd0, c, -1))
    ensures forall c :: InWin(size, c) ==>
      Get(Set(hd, ex[n], cur), c, -1) == (if c in ex[..n + 1] then cur else Get(hd0, c, -1))
  {
    assert ex[..n + 1] == ex[..n] + [ex[n]];
  }

  /**
   * Merging the hole column `ex[n]` was tagged with (if any) into the new hole
   * extends the merged holes from the tags of `ex[..n]` to those of `ex[..n + 1]`.
   */
  lemma MergeStep(hs0: seq<Hole>, hs: seq<Hole>, hs': seq<Hole>, hd0: seq<seq<int>>, ex: seq<Column>, n: nat,
                  comp: seq<Cell>)
    requires n < |ex| && -1 <= Get(hd0, ex[n], -1) < |hs0| && |hs| == |hs0| + 1
    requires forall k :: 0 <= k < |hs0| ==> hs[k] == (if Tagged(hd0, ex[..n], k) then VoidHole else hs0[k])
    requires Coords(hs) == Coords(hs0) + multiset(comp)
    requires var hid := Get(hd0, ex[n], -1);
      hs' == if hid == -1 then hs
             else hs[|hs0| := (hs[|hs0|].0 + hs[hid].0, hs[|hs0|].1)][hid := VoidHole]
    ensures |hs'| == |hs0| + 1 && hs'[|hs0|].1 == hs[|hs0|].1
    ensures forall k :: 0 <= k < |hs0| ==> hs'[k] == (if Tagged(hd0, ex[..n + 1], k) then VoidHole else hs0[k])
    ensures Coords(hs') == Coords(hs0) + multiset(comp)
  {
    var hid := Get(hd0, ex[n], -1);
    if hid != -1 {
      MergeCoords(hs, |hs0|, hid);
    }
    forall k | 0 <= k < |hs0|
      ensures hs'[k] == (if Tagged(hd0, ex[..n + 1], k) then VoidHole else hs0[k])
    {
      TaggedStep(hd0, ex, n, k);
    }
  }

  /** The new hole's coordinates grow by those of the hole being merged, and by nothing when there is none. */
  lemma FrontStep(hs0: seq<Hole>, hs: seq<Hole>, hs': seq<Hole>, hid: int, comp: seq<Cell>, front: seq<Cell>, added: seq<Cell>)
    requires -1 <= hid < |hs0| && |hs| == |hs0| + 1 && hs[|hs0|].0 == comp + front
    requires hid == -1 ==> added == []
    requires hid != -1 ==> hs[hid].0 == added
    requires hs' == if hid == -1 then hs
                    else hs[|hs0| := (hs[|hs0|].0 + hs[hid].0, hs[|hs0|].1)][hid := VoidHole]
    ensures hs'[|hs0|].0 == comp + (front + added)
  {
    assert (comp + front) + added == comp + (front + added);
    if hid == -1 {
      assert front + added == front;
    }
  }

  /** The member column `ex[n]` adds its tagged hole to the merged coordinates, unless already brought in. */
  lemma MergedStep(hs0: seq<Hole>, hd0: seq<seq<int>>, ex: seq<Column>, n: nat)
    requires n < |ex|
    ensures var hid := Get(hd0, ex[n], -1);
      Merged(hs0, hd0, ex[..n + 1]) ==
      Merged(hs0, hd0, ex[..n]) + (if 0 <= hid < |hs0| && hid !in Tags(hd0, ex[..n]) then hs0[hid].0 else [])
  {
    assert ex[..n + 1][..n] == ex[..n];
  }

  // ---------------------------------------------------------------- survey

  /** Column (x, z) of the world has an accepted block at or below `top`. */
  ghost predicate HasGround(world: World, location: Cell, agentPos: Cell, x: int, z: int, top: int)
  {
    exists h :: h <= top && Solid(world, location, agentPos, x, h, z)
  }

  /** Every column of the window has an accepted block at or below the scan start. */
  ghost predicate GroundBelow(world: World, location: Cell, agentPos: Cell, radius: nat)
  {
    forall c :: InWin(2 * radius + 1, c) ==>
      HasGround(world, location, agentPos, c.0 - radius + location.0, c.1 - radius + location.2, location.1 + Headroom)
  }

  /** Column `c` of the height and (id, meta) maps holds its surface block. */
  ghost predicate Surveyed(world: World, location: Cell, agentPos: Cell, radius: nat,
                           ht: seq<seq<int>>, im: seq<seq<IdMeta>>, c: Column)
  {
    var x, z := c.0 - radius + location.0, c.1 - radius + location.2;
    Surface(world, location, agentPos, x, z, location.1 + Headroom, Get(ht, c, 0)) &&
    Get(im, c, (0, 0)) == world((x, Get(ht, c, 0), z))
  }

  /** Column (i, j) of the window, whose surface is at `h` with block `idm`. */
  ghost predicate ColumnOk(world: World, location: Cell, agentPos: Cell, radius: nat, i: int, j: int, h: int, idm: IdMeta)
  {
    var x, z := i - radius + location.0, j - radius + location.2;
    Surface(world, location, agentPos, x, z, location.1 + Headroom, h) && idm == world((x, h, z))
  }

  /** The heap entries pushed for row `i`, whose surface heights are `row`: one above each surface. */
  function RowPushes(i: int, row: seq<int>): multiset<Entry>
  {
    if row == [] then multiset{}
    else
      var j := |row| - 1;
      RowPushes(i, row[..j]) + multiset{(row[j] + 1, (i, row[j] + 1, j))}
  }

  /** The heap entries pushed for the rows of `ht`. */
  function Entries(ht: seq<seq<int>>): multiset<Entry>
  {
    if ht == [] then multiset{}
    else
      var i := |ht| - 1;
      Entries(ht[..i]) + RowPushes(i, ht[i])
  }

  lemma {:induction false} RowPushesOk(i: int, row: seq<int>, e: Entry)
    requires e in RowPushes(i, row)
    ensures e.1.0 == i && 0 <= e.1.2 < |row| && e.0 == e.1.1 == row[e.1.2] + 1
  {
    var j := |row| - 1;
    if e != (row[j] + 1, (i, row[j] + 1, j)) {
      RowPushesOk(i, row[..j], e);
    }
  }

  /** Every survey entry lies in the map, has `h == y`, and sits one above its column's surface. */
  lemma {:induction false} EntriesOk(ht: seq<seq<int>>, e: Entry)
    requires e in Entries(ht)
    ensures 0 <= e.1.0 < |ht| && 0 <= e.1.2 < |ht[e.1.0]| && e.0 == e.1.1 == Get(ht, (e.1.0, e.1.2), 0) + 1
  {
    var i := |ht| - 1;
    if e in RowPushes(i, ht[i]) {
      RowPushesOk(i, ht[i], e);
    } else {
      EntriesOk(ht[..i], e);
    }
  }

  /** Every entry of `heap` has `h == y`, lies in the window and is one above its column. */
  ghost predicate SeededBy(size: int, ht: seq<seq<int>>, heap: multiset<Entry>)
  {
    forall e :: e in heap ==>
      e.0 == e.1.1 && InWin(size, (e.1.0, e.1.2)) && e.0 == Get(ht, (e.1.0, e.1.2), 0) + 1
  }

  /** The survey's entries seed the heap as the sweep needs. */
  lemma EntriesSeeded(ht: seq<seq<int>>, size: int)
    requires Square(ht, size)
    ensures SeededBy(size, ht, Entries(ht))
  {
    forall e | e in Entries(ht)
      ensures e.0 == e.1.1 && InWin(size, (e.1.0, e.1.2)) && e.0 == Get(ht, (e.1.0, e.1.2), 0) + 1
    {
      EntriesOk(ht, e);
    }
  }

  lemma RowPushesSnoc(i: int, row: seq<int>, h: int)
    ensures RowPushes(i, row + [h]) == RowPushes(i, row) + multiset{(h + 1, (i, h + 1, |row|))}
  {
    assert (row + [h])[..|row|] == row;
  }

  lemma EntriesSnoc(ht: seq<seq<int>>, row: seq<int>)
    ensures Entries(ht + [row]) == Entries(ht) + RowPushes(|ht|, row)
  {
    assert (ht + [row])[..|ht|] == ht;
  }

  /** The surface of column (i, j) of the window, found by the downward scan. */
  method SurveyColumn(world: World, location: Cell, agentPos: Cell, radius: nat, i: int, j: int)
    returns (h: int, idm: IdMeta)
    requires InWin(2 * radius + 1, (i, j))
    requires GroundBelow(world, location, agentPos, radius)
    ensures ColumnOk(world, location, agentPos, radius, i, j, h, idm)
  {
    var x, z := i - radius + location.0, j - radius + location.2;
    assert HasGround(world, location, agentPos, x, z, location.1 + Headroom);
    h, idm := GetBlockInfo(world, location, agentPos, x, z, location.1 + Headroom);
  }

  /** The inner loop of the survey: row `i`, column by column, scanned and pushed. */
  method SurveyRow(world: World, location: Cell, agentPos: Cell, radius: nat, i: int, hp: multiset<Entry>)
    returns (hrow: seq<int>, irow: seq<IdMeta>, hp': multiset<Entry>)
    requires 0 <= i < 2 * radius + 1
    requires GroundBelow(world, location, agentPos, radius)
    ensures |hrow| == |irow| == 2 * radius + 1
    ensures forall j :: 0 <= j < |hrow| ==> ColumnOk(world, location, agentPos, radius, i, j, hrow[j], irow[j])
    ensures hp' == hp + RowPushes(i, hrow)
  {
    hrow, irow, hp' := [], [], hp;
    var j := 0;
    while j < 2 * radius + 1
      invariant 0 <= j <= 2 * radius + 1 && |hrow| == |irow| == j
      invariant forall j' :: 0 <= j' < j ==> ColumnOk(world, location, agentPos, radius, i, j', hrow[j'], irow[j'])
      invariant hp' == hp + RowPushes(i, hrow)
    {
      var height, idm := SurveyColumn(world, location, agentPos, radius, i, j);
      RowPushesSnoc(i, hrow, height);
      ghost var hrow0, irow0 := hrow, irow;
      hrow, irow := hrow + [height], irow + [idm];
      forall j' | 0 <= j' <= j
        ensures ColumnOk(world, location, agentPos, radius, i, j', hrow[j'], irow[j'])
      {
        if j' < j {
          assert hrow[j'] == hrow0[j'] && irow[j'] == irow0[j'];
        }
      }
      hp' := hp' + multiset{(height + 1, (i, height + 1, j))};
      j := j + 1;
    }
  }

  /** The first `n` rows of the maps are surveyed, each `size` columns wide. */
  ghost predicate RowsOk(world: World, location: Cell, agentPos: Cell, radius: nat,
                         ht: seq<seq<int>>, im: seq<seq<IdMeta>>, n: int)
  {
    0 <= n <= |ht| && n <= |im| &&
    forall k :: 0 <= k < n ==>
      |ht[k]| == |im[k]| == 2 * radius + 1 &&
      forall j :: 0 <= j < 2 * radius + 1 ==> ColumnOk(world, location, agentPos, radius, k, j, ht[k][j], im[k][j])
  }

  lemma RowsOkSnoc(world: World, location: Cell, agentPos: Cell, radius: nat,
                   ht: seq<seq<int>>, im: seq<seq<IdMeta>>, hrow: seq<int>, irow: seq<IdMeta>)
    requires |ht| == |im| && RowsOk(world, location, agentPos, radius, ht, im, |ht|)
    requires |hrow| == |irow| == 2 * radius + 1
    requires forall j :: 0 <= j < |hrow| ==> ColumnOk(world, location, agentPos, radius, |ht|, j, hrow[j], irow[j])
    ensures RowsOk(world, location, agentPos, radius, ht + [hrow], im + [irow], |ht| + 1)
  {
    var ht', im' := ht + [hrow], im + [irow];
    forall k | 0 <= k < |ht'|
      ensures |ht'[k]| == |im'[k]| == 2 * radius + 1
      ensures forall j :: 0 <= j < 2 * radius + 1 ==> ColumnOk(world, location, agentPos, radius, k, j, ht'[k][j], im'[k][j])
    {
      if k < |ht| {
        assert ht'[k] == ht[k] && im'[k] == im[k];
      }
    }
  }

  lemma RowsOkSurveyed(world: World, location: Cell, agentPos: Cell, radius: nat,
                       ht: seq<seq<int>>, im: seq<seq<IdMeta>>)
    requires |ht| == |im| == 2 * radius + 1 && RowsOk(world, location, agentPos, radius, ht, im, |ht|)
    ensures Square(ht, 2 * radius + 1) && Square(im, 2 * radius + 1)
    ensures forall c {:trigger Surveyed(world, location, agentPos, radius, ht, im, c)} :: InWin(2 * radius + 1, c) ==> Surveyed(world, location, agentPos, radius, ht, im, c)
  {
    forall c | InWin(2 * radius + 1, c)
      ensures Surveyed(world, location, agentPos, radius, ht, im, c)
    {
      assert ColumnOk(world, location, agentPos, radius, c.0, c.1, ht[c.0][c.1], im[c.0][c.1]);
    }
  }

  /**
   * The survey: every column of the window scanned row by row, its surface
   * height and block recorded, and the cell one above it pushed.
   */
  method SurveyWindow(world: World, location: Cell, agentPos: Cell, radius: nat)
    returns (ht: seq<seq<int>>, im: seq<seq<IdMeta>>, hp: multiset<Entry>)
    requires GroundBelow(world, location, agentPos, radius)
    ensures Square(ht, 2 * radius + 1) && Square(im, 2 * radius + 1)
    ensures forall c {:trigger Surveyed(world, location, agentPos, radius, ht, im, c)} :: InWin(2 * radius + 1, c) ==> Surveyed(world, location, agentPos, radius, ht, im, c)
    ensures hp == Entries(ht)
  {
    ht, im, hp := [], [], multiset{};
    var i := 0;
    while i < 2 * radius + 1
      invariant i <= 2 * radius + 1 && |ht| == |im| == i
      invariant RowsOk(world, location, agentPos, radius, ht, im, i)
      invariant hp == Entries(ht)
    {
      var hrow, irow;
      hrow, irow, hp := SurveyRow(world, location, agentPos, radius, i, hp);
      EntriesSnoc(ht, hrow);
      RowsOkSnoc(world, location, agentPos, radius, ht, im, hrow, irow);
      ht, im := ht + [hrow], im + [irow];
      i := i + 1;
    }
    RowsOkSurveyed(world, location, agentPos, radius, ht, im);
  }

  // ---------------------------------------------------------------- sweep invariants

  /** The window-relative cell of absolute cell `p`: the inverse of the shift `Absolute` applies. */
  function Rel(p: Cell, radius: int, location: Cell): Cell
  {
    (p.0 + radius - location.0, p.1, p.2 + radius - location.2)
  }

  lemma {:induction false} AbsoluteMember(ex: seq<Column>, y: int, radius: int, location: Cell, p: Cell)
    ensures p in Absolute(ex, y, radius, location) <==> Rel(p, radius, location) in LayerOf(ex, y)
  {
    if ex != [] {
      AbsoluteMember(ex[..|ex| - 1], y, radius, location, p);
    }
  }

  /** Distinct explored columns give distinct absolute cells. */
  lemma {:induction false} AbsoluteOnce(ex: seq<Column>, y: int, radius: int, location: Cell, p: Cell)
    requires NoDup(ex)
    ensures multiset(Absolute(ex, y, radius, location))[p] <= 1
  {
    if ex != [] {
      var init, c := ex[..|ex| - 1], ex[|ex| - 1];
      assert NoDup(init) by {
        forall a, b | 0 <= a < b < |init| ensures init[a] != init[b] { assert init[a] == ex[a] && init[b] == ex[b]; }
      }
      AbsoluteOnce(init, y, radius, location, p);
      var q := (c.0 - radius + location.0, y, c.1 - radius + location.2);
      assert Absolute(ex, y, radius, location) == Absolute(init, y, radius, location) + [q];
      if p == q {
        assert c !in init by {
          forall k | 0 <= k < |init| ensures init[k] != c { assert init[k] == ex[k]; }
        }
        LayerOfMember(init, y, Rel(p, radius, location));
        AbsoluteMember(init, y, radius, location, p);
      }
    }
  }

  lemma {:induction false} PushesMember(ex: seq<Column>, y: int, e: Entry)
    requires e in Pushes(ex, y)
    ensures e.0 == y + 1 == e.1.1 && (e.1.0, e.1.2) in ex
  {
    var init, c := ex[..|ex| - 1], ex[|ex| - 1];
    if e != (y + 1, (c.0, y + 1, c.1)) {
      PushesMember(init, y, e);
    }
  }

  /** The cells of the window between layers `low` and `top`. */
  ghost function Box(size: int, low: int, top: int): set<Cell>
  {
    set i, y, j | 0 <= i < size && low <= y <= top && 0 <= j < size :: (i, y, j)
  }

  /** Cell `c` lies in the window between layers `low` and `top`. */
  predicate InBand(size: int, low: int, top: int, c: Cell)
  {
    0 <= c.0 < size && low <= c.1 <= top && 0 <= c.2 < size
  }

  /** Every cell of `v` lies in the window between layers `low` and `top`. */
  ghost predicate Banded(size: int, low: int, top: int, v: set<Cell>)
  {
    forall c :: c in v ==> InBand(size, low, top, c)
  }

  /** Visiting a new cell of the band strictly shrinks the unvisited part of the box. */
  lemma BandShrinks(size: int, low: int, top: int, v0: set<Cell>, v: set<Cell>, p: Cell)
    requires Banded(size, low, top, v) && v0 <= v && p in v && p !in v0
    ensures |Box(size, low, top) - v| < |Box(size, low, top) - v0|
  {
    assert InBand(size, low, top, p);
    assert p in Box(size, low, top);
    CardDecrease(Box(size, low, top), v0, v, p);
  }

  /**
   * Every heap entry has `h == y`, lies in the window at or above `low`, and is
   * either visited or one above the current height of its column.
   */
  ghost predicate HeapOk(size: int, low: int, ht: seq<seq<int>>, visited: set<Cell>, heap: multiset<Entry>)
  {
    forall e :: e in heap ==> EntryOk(size, low, ht, visited, e)
  }

  /** Entry `e` has `h == y`, lies in the window at or above `low`, and is visited or one above its column. */
  predicate EntryOk(size: int, low: int, ht: seq<seq<int>>, visited: set<Cell>, e: Entry)
  {
    e.0 == e.1.1 && InWin(size, (e.1.0, e.1.2)) && low <= e.0 &&
    (e.1 in visited || e.0 == Get(ht, (e.1.0, e.1.2), 0) + 1)
  }

  /** Every hole coordinate is a visited cell, and no coordinate is in two holes or twice in one. */
  ghost predicate HolesOk(radius: int, location: Cell, visited: set<Cell>, holes: seq<Hole>)
  {
    forall p :: p in Coords(holes) ==> Rel(p, radius, location) in visited && Coords(holes)[p] == 1
  }

  /** An exploration keeps the invariants and visits a new cell of the box. */
  lemma ExploreStep(size: int, low: int, top: int, ht: seq<seq<int>>, radius: int, location: Cell,
                    v0: set<Cell>, v: set<Cell>, hp: multiset<Entry>, hs: seq<Hole>, ex: seq<Column>, x: int, y: int, z: int)
    requires HeapOk(size, low, ht, v0, hp) && HolesOk(radius, location, v0, hs) && Banded(size, low, top, v0)
    requires v == v0 + LayerOf(ex, y) && (x, y, z) in v && (x, y, z) !in v0
    requires forall c :: c in ex ==> InWin(size, c)
    requires low <= y <= top && InWin(size, (x, z))
    ensures HeapOk(size, low, ht, v, hp) && HolesOk(radius, location, v, hs) && Banded(size, low, top, v)
  {
    forall q | q in LayerOf(ex, y)
      ensures InBand(size, low, top, q)
    {
      LayerOfMember(ex, y, q);
    }
  }

  /** Acceptance keeps the heap invariant: raised columns get their new entry, stale ones are visited. */
  lemma AcceptHeap(size: int, low: int, y: int, ex: seq<Column>, comp: seq<Cell>, idm: IdMeta, v: set<Cell>,
                   hs0: seq<Hole>, ht0: seq<seq<int>>, hd0: seq<seq<int>>, hp0: multiset<Entry>,
                   hs: seq<Hole>, ht: seq<seq<int>>, hd: seq<seq<int>>, hp: multiset<Entry>)
    requires HeapOk(size, low, ht0, v, hp0) && low <= y
    requires forall c :: c in ex ==> InWin(size, c) && Get(ht0, c, 0) + 1 == y
    requires LayerOf(ex, y) <= v
    requires Accepted(size, y, ex, comp, idm, hs0, ht0, hd0, hp0, hs, ht, hd, hp)
    ensures HeapOk(size, low, ht, v, hp)
  {
    forall e | e in hp
      ensures e.0 == e.1.1 && InWin(size, (e.1.0, e.1.2)) && low <= e.0
      ensures e.1 in v || e.0 == Get(ht, (e.1.0, e.1.2), 0) + 1
    {
      var col := (e.1.0, e.1.2);
      if e in hp0 {
        if e.1 !in v && col in ex {
          LayerOfMember(ex, y, e.1);
        }
      } else {
        PushesMember(ex, y, e);
      }
    }
  }

  /** Acceptance keeps the hole invariant: the new region's cells are new, visited and distinct. */
  lemma AcceptHoles(size: int, y: int, ex: seq<Column>, comp: seq<Cell>, idm: IdMeta, radius: int, location: Cell,
                    v0: set<Cell>, v: set<Cell>,
                    hs0: seq<Hole>, ht0: seq<seq<int>>, hd0: seq<seq<int>>, hp0: multiset<Entry>,
                    hs: seq<Hole>, ht: seq<seq<int>>, hd: seq<seq<int>>, hp: multiset<Entry>)
    requires HolesOk(radius, location, v0, hs0)
    requires v == v0 + LayerOf(ex, y) && NoDup(ex) && comp == Absolute(ex, y, radius, location)
    requires forall c :: c in ex ==> (c.0, y, c.1) !in v0
    requires Accepted(size, y, ex, comp, idm, hs0, ht0, hd0, hp0, hs, ht, hd, hp)
    ensures HolesOk(radius, location, v, hs)
  {
    forall p | p in Coords(hs)
      ensures Rel(p, radius, location) in v && Coords(hs)[p] == 1
    {
      AbsoluteOnce(ex, y, radius, location, p);
      if p in comp {
        AbsoluteMember(ex, y, radius, location, p);
        LayerOfMember(ex, y, Rel(p, radius, location));
        assert p !in Coords(hs0);
      }
    }
  }

  /** Hole coordinates lie in the window, at most `top` high. */
  lemma HolesInBox(size: int, low: int, top: int, radius: int, location: Cell, v: set<Cell>, hs: seq<Hole>, p: Cell)
    requires HolesOk(radius, location, v, hs) && Banded(size, low, top, v) && p in Coords(hs)
    ensures InWin(size, (p.0 + radius - location.0, p.2 + radius - location.2)) && p.1 <= top
  {
    assert InBand(size, low, top, Rel(p, radius, location));
  }

  /** The post-filter drops coordinates but never adds copies of one. */
  lemma {:induction false} AirOnlyCount(world: World, xs: seq<Cell>, p: Cell)
    ensures multiset(AirOnly(world, xs))[p] <= multiset(xs)[p]
  {
    if xs != [] {
      var init := xs[..|xs| - 1];
      AirOnlyCount(world, init, p);
      assert xs == init + [xs[|xs| - 1]];
    }
  }

  /**
   * Keeping only the air coordinates of distinct in-window coordinates leaves
   * them distinct and in the window.
   */
  lemma FilteredCoords(world: World, hs: seq<Hole>, radius: int, location: Cell, top: int)
    requires forall p :: p in Coords(hs) ==>
      Coords(hs)[p] == 1 && InWin(2 * radius + 1, (p.0 + radius - location.0, p.2 + radius - location.2)) && p.1 <= top
    ensures NoDup(AirOnly(world, AllCoords(hs)))
    ensures forall p :: p in AirOnly(world, AllCoords(hs)) ==>
      InWin(2 * radius + 1, (p.0 + radius - location.0, p.2 + radius - location.2)) && p.1 <= top
  {
    var xs := AllCoords(hs);
    forall p
      ensures multiset(AirOnly(world, xs))[p] <= 1
    {
      AirOnlyCount(world, xs, p);
    }
    CountNoDup(AirOnly(world, xs));
  }

  /** A sequence in which every element occurs at most once has no duplicates. */
  lemma CountNoDup<T>(s: seq<T>)
    requires forall p :: multiset(s)[p] <= 1
    ensures NoDup(s)
  {
    forall a, b | 0 <= a < b < |s|
      ensures s[a] != s[b]
    {
      assert s == s[..b] + s[b..];
      assert s[a] in s[..b] && s[b] in s[b..];
      assert multiset(s)[s[b]] == multiset(s[..b])[s[b]] + multiset(s[b..])[s[b]];
    }
  }

  /** Every entry of `m` is at least `low` high. */
  ghost predicate Above(m: multiset<Entry>, low: int)
  {
    forall e :: e in m ==> low <= e.0
  }

  /** A finite heap has a lower bound on its heights. */
  lemma LowerBound(m: multiset<Entry>)
    ensures exists low :: Above(m, low)
  {
    if |m| > 0 {
      MinExists(m);
      var e :| e in m && forall e' :: e' in m ==> EntryLe(e, e');
      assert Above(m, e.0);
    } else {
      assert Above(m, 0);
    }
  }

  /** `e` is a least entry of `m` in the order `heapq` keeps. */
  predicate IsMin(e: Entry, m: multiset<Entry>)
  {
    forall e' :: e' in m ==> EntryLe(e, e')
  }

  /** `heappop`: removes and returns the least entry of a non-empty heap. */
  method PopMin(m: multiset<Entry>) returns (e: Entry, m': multiset<Entry>)
    requires m != multiset{}
    ensures e in m && m' == m - multiset{e}
    ensures IsMin(e, m)
  {
    MinExists(m);
    e :| e in m && forall e' :: e' in m ==> EntryLe(e, e');
    m' := m - multiset{e};
  }

  /** `heappop` on a heap that keeps the invariant: the rest keeps it too. */
  method PopEntry(m: multiset<Entry>, ghost size: int, ghost low: int, ghost ht: seq<seq<int>>, ghost v: set<Cell>)
    returns (e: Entry, m': multiset<Entry>)
    requires m != multiset{} && HeapOk(size, low, ht, v, m)
    ensures e in m && m' == m - multiset{e} && IsMin(e, m)
    ensures HeapOk(size, low, ht, v, m') && |m'| < |m| && EntryOk(size, low, ht, v, e)
  {
    e, m' := PopMin(m);
    HeapOkPop(size, low, ht, v, m, e, m');
  }

  /** Removing an entry keeps the heap invariant, and the removed entry satisfies it. */
  lemma HeapOkPop(size: int, low: int, ht: seq<seq<int>>, v: set<Cell>, m: multiset<Entry>, e: Entry, m': multiset<Entry>)
    requires HeapOk(size, low, ht, v, m) && e in m && m' == m - multiset{e}
    ensures HeapOk(size, low, ht, v, m') && |m'| < |m|
    ensures e.0 == e.1.1 && InWin(size, (e.1.0, e.1.2)) && low <= e.0
    ensures e.1 in v || e.0 == Get(ht, (e.1.0, e.1.2), 0) + 1
  {
    assert m == m' + multiset{e};
  }

  // ---------------------------------------------------------------- dfs as a function

  /** The cells of layer `y` inside the window. */
  function WindowLayer(size: int, y: int): set<Cell>
  {
    set i, j | 0 <= i < size && 0 <= j < size :: (i, y, j)
  }

  /** What `dfs` threads through its traversal: its running result, the visited cells, the region and the wall (id, meta). */
  datatype DfsState = DfsState(r: int, visited: set<Cell>, comp: seq<Cell>, idm: IdMeta)

  /**
   * `dfs(x, y, z)` on the height map `heights` and block map `idms`, starting
   * from the visited set `visited`, the region `comp` and the wall (id, meta)
   * `idm`: the state it ends in. An already visited cell returns the visited
   * sentinel and changes nothing; otherwise the cell is visited, its absolute
   * position appended to the region, and its four directions examined in turn.
   */
  function DfsSpec(heights: seq<seq<int>>, idms: seq<seq<IdMeta>>, size: int, radius: int, location: Cell,
                   y: int, x: int, z: int, visited: set<Cell>, comp: seq<Cell>, idm: IdMeta): (t: DfsState)
    requires Square(heights, size) && Square(idms, size) && InWin(size, (x, z))
    ensures visited <= t.visited && (x, y, z) in t.visited
    decreases |WindowLayer(size, y) - visited|, 0
  {
    if (x, y, z) in visited then DfsState(VisitedSentinel, visited, comp, idm)
    else
      var v := visited + {(x, y, z)};
      CardDecrease(WindowLayer(size, y), visited, v, (x, y, z));
      NbrSpec(heights, idms, size, radius, location, y, x, z, 0,
              DfsState(VisitedSentinel, v, comp + [(x - radius + location.0, y, z - radius + location.2)], idm))
  }

  /**
   * The loop of `dfs` over the directions `d` to 3 of column (x, z), from the
   * state `s`: a direction leaving the window ends it with the edge sentinel;
   * every other direction is examined in turn.
   */
  function NbrSpec(heights: seq<seq<int>>, idms: seq<seq<IdMeta>>, size: int, radius: int, location: Cell,
                   y: int, x: int, z: int, d: int, s: DfsState): (t: DfsState)
    requires Square(heights, size) && Square(idms, size) && InWin(size, (x, z)) && 0 <= d <= 4
    ensures s.visited <= t.visited
    decreases |WindowLayer(size, y) - s.visited|, 5 - d
  {
    if d == 4 then s
    else if !InWin(size, Nbr((x, z), d)) then DfsState(EdgeSentinel, s.visited, s.comp, s.idm)
    else
      var t := NbrStep(heights, idms, size, radius, location, y, x, z, d, s);
      SubsetCard(WindowLayer(size, y) - t.visited, WindowLayer(size, y) - s.visited);
      NbrSpec(heights, idms, size, radius, location, y, x, z, d + 1, t)
  }

  /**
   * Direction `d` of column (x, z), whose neighbour lies in the window, from
   * the state `s`: a same-height neighbour is explored and its result folded
   * into the minimum; a different-height neighbour lowers the minimum to its
   * height and becomes the wall (id, meta).
   */
  function NbrStep(heights: seq<seq<int>>, idms: seq<seq<IdMeta>>, size: int, radius: int, location: Cell,
                   y: int, x: int, z: int, d: int, s: DfsState): (t: DfsState)
    requires Square(heights, size) && Square(idms, size) && InWin(size, (x, z))
    requires 0 <= d < 4 && InWin(size, Nbr((x, z), d))
    ensures s.visited <= t.visited
    decreases |WindowLayer(size, y) - s.visited|, 1
  {
    var n := Nbr((x, z), d);
    if heights[x][z] == heights[n.0][n.1] then
      var t := DfsSpec(heights, idms, size, radius, location, y, n.0, n.1, s.visited, s.comp, s.idm);
      DfsState(Min(s.r, t.r), t.visited, t.comp, t.idm)
    else
      DfsState(Min(s.r, heights[n.0][n.1]), s.visited, s.comp, idms[n.0][n.1])
  }

  /**
   * The exploration from `start` at layer `y` has examined the directions of
   * `start` below `d` and explored the columns `ex`, reaching the state `s`;
   * `visited0`, `comp0` and `idm0` are the visited set, region and wall
   * (id, meta) from before it began.
   */
  ghost predicate Progress(heights: seq<seq<int>>, idms: seq<seq<IdMeta>>, size: int, radius: int, location: Cell,
                           start: Column, y: int, d: int, ex: seq<Column>,
                           visited0: set<Cell>, comp0: seq<Cell>, idm0: IdMeta, s: DfsState)
  {
    0 <= d <= 4 &&
    s.visited == visited0 + LayerOf(ex, y) &&
    s.comp == comp0 + Absolute(ex, y, radius, location) &&
    NoDup(ex) &&
    (forall c :: c in ex ==>
      (InWin(size, c) && (c.0, y, c.1) !in visited0 && Get(heights, c, 0) == Get(heights, start, 0))) &&
    Explored(heights, idms, size, ex, start, d, s.r, s.visited, y, idm0, s.idm)
  }

  /**
   * What `dfs` computes: from an unvisited cell it explores columns `ex` whose
   * exploration has the meaning `Explored` gives; from a visited cell it
   * explores nothing.
   */
  lemma DfsExplores(heights: seq<seq<int>>, idms: seq<seq<IdMeta>>, size: int, radius: int, location: Cell,
                    y: int, x: int, z: int, visited: set<Cell>, comp: seq<Cell>, idm: IdMeta)
      returns (ex: seq<Column>)
    requires Square(heights, size) && Square(idms, size) && InWin(size, (x, z))
    ensures Progress(heights, idms, size, radius, location, (x, z), y, 4, ex, visited, comp, idm,
                     DfsSpec(heights, idms, size, radius, location, y, x, z, visited, comp, idm))
    ensures (x, y, z) !in visited ==> (x, z) in ex
    decreases |WindowLayer(size, y) - visited|, 0
  {
    if (x, y, z) in visited {
      ex := [];
      ProgressNone(heights, idms, size, radius, location, (x, z), y, visited, comp, idm);
      assert DfsSpec(heights, idms, size, radius, location, y, x, z, visited, comp, idm) ==
        DfsState(VisitedSentinel, visited, comp, idm);
    } else {
      var v := visited + {(x, y, z)};
      var c := comp + [(x - radius + location.0, y, z - radius + location.2)];
      CardDecrease(WindowLayer(size, y), visited, v, (x, y, z));
      ProgressStart(heights, idms, size, radius, location, y, x, z, visited, comp, idm);
      ex := NbrExplores(heights, idms, size, radius, location, y, x, z, 0, [(x, z)], visited, comp, idm,
                        DfsState(VisitedSentinel, v, c, idm));
      assert DfsSpec(heights, idms, size, radius, location, y, x, z, visited, comp, idm) ==
        NbrSpec(heights, idms, size, radius, location, y, x, z, 0, DfsState(VisitedSentinel, v, c, idm));
    }
  }

  /** An exploration that explores nothing changes nothing and yields the visited sentinel. */
  lemma ProgressNone(heights: seq<seq<int>>, idms: seq<seq<IdMeta>>, size: int, radius: int, location: Cell,
                     start: Column, y: int, visited: set<Cell>, comp: seq<Cell>, idm: IdMeta)
    ensures Progress(heights, idms, size, radius, location, start, y, 4, [], visited, comp, idm,
                     DfsState(VisitedSentinel, visited, comp, idm))
  {
    assert LayerOf([], y) == {} && comp + Absolute([], y, radius, location) == comp;
  }

  /** Column (x, z), just visited and appended to the region, starts an exploration. */
  lemma ProgressStart(heights: seq<seq<int>>, idms: seq<seq<IdMeta>>, size: int, radius: int, location: Cell,
                      y: int, x: int, z: int, visited: set<Cell>, comp: seq<Cell>, idm: IdMeta)
    requires InWin(size, (x, z)) && (x, y, z) !in visited
    ensures Progress(heights, idms, size, radius, location, (x, z), y, 0, [(x, z)], visited, comp, idm,
                     DfsState(VisitedSentinel, visited + {(x, y, z)},
                              comp + [(x - radius + location.0, y, z - radius + location.2)], idm))
  {
    ExploredStart(heights, idms, size, (x, z), visited + {(x, y, z)}, y, idm);
    assert [(x, z)][..0] == [];
    assert Absolute([(x, z)], y, radius, location) == [(x - radius + location.0, y, z - radius + location.2)];
  }

  /** The loop of `dfs` from direction `d` completes the exploration of column (x, z). */
  lemma NbrExplores(heights: seq<seq<int>>, idms: seq<seq<IdMeta>>, size: int, radius: int, location: Cell,
                    y: int, x: int, z: int, d: int, ex: seq<Column>,
                    visited0: set<Cell>, comp0: seq<Cell>, idm0: IdMeta, s: DfsState)
      returns (ex': seq<Column>)
    requires Square(heights, size) && Square(idms, size) && InWin(size, (x, z)) && 0 <= d <= 4
    requires Progress(heights, idms, size, radius, location, (x, z), y, d, ex, visited0, comp0, idm0, s) && (x, z) in ex
    ensures Progress(heights, idms, size, radius, location, (x, z), y, 4, ex', visited0, comp0, idm0,
                     NbrSpec(heights, idms, size, radius, location, y, x, z, d, s))
    ensures (x, z) in ex'
    decreases |WindowLayer(size, y) - s.visited|, 5 - d
  {
    if d == 4 {
      ex' := ex;
    } else if !InWin(size, Nbr((x, z), d)) {
      EdgeStep(heights, idms, size, ex, (x, z), d, s.r, s.visited, y, idm0, s.idm);
      ex' := ex;
    } else {
      var t := NbrStep(heights, idms, size, radius, location, y, x, z, d, s);
      var ex1 := StepExplores(heights, idms, size, radius, location, y, x, z, d, ex, visited0, comp0, idm0, s);
      SubsetCard(WindowLayer(size, y) - t.visited, WindowLayer(size, y) - s.visited);
      ex' := NbrExplores(heights, idms, size, radius, location, y, x, z, d + 1, ex1, visited0, comp0, idm0, t);
    }
  }

  /** Examining one in-window direction of column (x, z) carries the exploration one direction further. */
  lemma StepExplores(heights: seq<seq<int>>, idms: seq<seq<IdMeta>>, size: int, radius: int, location: Cell,
                     y: int, x: int, z: int, d: int, ex: seq<Column>,
                     visited0: set<Cell>, comp0: seq<Cell>, idm0: IdMeta, s: DfsState)
      returns (ex': seq<Column>)
    requires Square(heights, size) && Square(idms, size) && InWin(size, (x, z))
    requires 0 <= d < 4 && InWin(size, Nbr((x, z), d))
    requires Progress(heights, idms, size, radius, location, (x, z), y, d, ex, visited0, comp0, idm0, s) && (x, z) in ex
    ensures Progress(heights, idms, size, radius, location, (x, z), y, d + 1, ex', visited0, comp0, idm0,
                     NbrStep(heights, idms, size, radius, location, y, x, z, d, s))
    ensures (x, z) in ex'
    decreases |WindowLayer(size, y) - s.visited|, 1
  {
    var start, n := (x, z), Nbr((x, z), d);
    assert Get(heights, n, 0) == heights[n.0][n.1] && Get(heights, start, 0) == heights[x][z];
    if heights[x][z] == heights[n.0][n.1] {
      var t := DfsSpec(heights, idms, size, radius, location, y, n.0, n.1, s.visited, s.comp, s.idm);
      LayerOfMember(ex, y, (x, y, z));
      var exn := DfsExplores(heights, idms, size, radius, location, y, n.0, n.1, s.visited, s.comp, s.idm);
      forall c | c in exn
        ensures InWin(size, c) && (c.0, y, c.1) !in visited0 && Get(heights, c, 0) == Get(heights, start, 0)
        ensures c != start
      {
        assert (c.0, y, c.1) !in s.visited;
      }
      SameStep(heights, idms, size, ex, exn, start, d, n, s.r, t.r, s.visited, t.visited, y, idm0, s.idm, t.idm);
      forall c | c in ex
        ensures c !in exn
      {
        LayerOfMember(ex, y, (c.0, y, c.1));
      }
      NoDupConcat(ex, exn);
      LayerOfConcat(ex, exn, y);
      AbsoluteConcat(ex, exn, y, radius, location);
      SeqRegroup(comp0, Absolute(ex, y, radius, location), Absolute(exn, y, radius, location), s.comp, t.comp);
      SetRegroup(visited0, LayerOf(ex, y), LayerOf(exn, y), s.visited, t.visited);
      ex' := ex + exn;
    } else {
      assert Get(idms, n, (0, 0)) == idms[n.0][n.1];
      WallStep(heights, idms, size, ex, start, d, n, s.r, s.visited, y, idm0, s.idm);
      ex' := ex;
    }
  }

  // ---------------------------------------------------------------- the sweep

  /** The state `get_all_nearby_holes` keeps while it sweeps the window. */
  class HoleSweep {
    const world: World
    const location: Cell
    const agentPos: Cell
    const radius: nat
    const size: nat
    const maxHeight: int
    /** Surface height of each column. */
    var heights: seq<seq<int>>
    /** Index of the hole each column last joined, or -1. */
    var hids: seq<seq<int>>
    /** The (id, meta) of each column's surface block. */
    var idms: seq<seq<IdMeta>>
    /** Visited (x, y, z) cells, x and z relative. */
    var visited: set<Cell>
    /** The min-heap of entries. */
    var heap: multiset<Entry>
    /** The region being explored, in absolute coordinates. */
    var comp: seq<Cell>
    /** The wall (id, meta) of the region being explored. */
    var curIdm: IdMeta
    var holes: seq<Hole>

    ghost predicate Valid()
      reads this`heights, this`hids, this`idms, this`holes
    {
      size == 2 * radius + 1 && maxHeight == location.1 + Headroom &&
      Square(heights, size) && Square(hids, size) && Square(idms, size) &&
      forall c :: InWin(size, c) ==> -1 <= Get(hids, c, -1) < |holes|
    }

    constructor (world: World, location: Cell, agentPos: Cell, radius: nat)
      ensures this.world == world && this.location == location && this.agentPos == agentPos
      ensures this.radius == radius && size == 2 * radius + 1 && maxHeight == location.1 + Headroom
      ensures forall c :: InWin(size, c) ==>
        Get(heights, c, 0) == location.2 && Get(hids, c, 0) == -1 && Get(idms, c, (1, 1)) == (0, 0)
      ensures Valid()
      ensures visited == {} && heap == multiset{} && comp == [] && curIdm == DefaultIdm && holes == []
    {
      this.world := world;
      this.location := location;
      this.agentPos := agentPos;
      this.radius := radius;
      size := 2 * radius + 1;
      maxHeight := location.1 + Headroom;
      heights := seq(2 * radius + 1, i => seq(2 * radius + 1, j => location.2));
      hids := seq(2 * radius + 1, i => seq(2 * radius + 1, j => -1));
      idms := seq(2 * radius + 1, i => seq(2 * radius + 1, j => (0, 0)));
      visited := {};
      heap := multiset{};
      comp := [];
      curIdm := DefaultIdm;
      holes := [];
    }

    /**
     * `dfs`: explores the same-height columns connected to column (x, z) at
     * layer `y`, appending each newly visited one to `comp` and setting
     * `curIdm` to each different-height neighbour it examines; the result and
     * the new state are those `DfsSpec` gives.
     */
    method Dfs(x: int, y: int, z: int) returns (r: int)
      requires Square(heights, size) && Square(idms, size) && InWin(size, (x, z))
      modifies this
      decreases |WindowLayer(size, y) - visited|, 0
      ensures heights == old(heights) && hids == old(hids) && idms == old(idms)
      ensures heap == old(heap) && holes == old(holes)
      ensures DfsState(r, visited, comp, curIdm) ==
        DfsSpec(heights, idms, size, radius, location, y, x, z, old(visited), old(comp), old(curIdm))
    {
      if (x, y, z) in visited {
        return VisitedSentinel;
      }
      comp := comp + [(x - radius + location.0, y, z - radius + location.2)];
      visited := visited + {(x, y, z)};
      CardDecrease(WindowLayer(size, y), old(visited), visited, (x, y, z));
      r := Neighbours(x, y, z);
    }

    /** The loop of `dfs` over the four directions of column (x, z), which has just been visited. */
    method Neighbours(x: int, y: int, z: int) returns (r: int)
      requires Square(heights, size) && Square(idms, size) && InWin(size, (x, z))
      modifies this
      decreases |WindowLayer(size, y) - visited|, 3
      ensures heights == old(heights) && hids == old(hids) && idms == old(idms)
      ensures heap == old(heap) && holes == old(holes)
      ensures DfsState(r, visited, comp, curIdm) ==
        NbrSpec(heights, idms, size, radius, location, y, x, z, 0, DfsState(VisitedSentinel, old(visited), old(comp), old(curIdm)))
    {
      r := VisitedSentinel;
      var d := 0;
      while d < 4
        invariant heights == old(heights) && hids == old(hids) && idms == old(idms)
        invariant heap == old(heap) && holes == old(holes)
        invariant |WindowLayer(size, y) - visited| <= old(|WindowLayer(size, y) - visited|)
        invariant 0 <= d <= 4
        invariant NbrSpec(heights, idms, size, radius, location, y, x, z, d, DfsState(r, visited, comp, curIdm)) ==
          NbrSpec(heights, idms, size, radius, location, y, x, z, 0, DfsState(VisitedSentinel, old(visited), old(comp), old(curIdm)))
      {
        var nx, nz := x + GX[d], z + GZ[d];
        if !(nx >= 0 && nz >= 0 && nx < size && nz < size) {
          assert !InWin(size, Nbr((x, z), d));
          return EdgeSentinel;
        }
        ghost var v0 := visited;
        r := Examine(x, y, z, d, r);
        SubsetCard(WindowLayer(size, y) - visited, WindowLayer(size, y) - v0);
        d := d + 1;
      }
    }

    /** One iteration of `dfs`'s loop: direction `d` of column (x, z), whose neighbour lies in the window. */
    method Examine(x: int, y: int, z: int, d: int, r: int) returns (r': int)
      requires Square(heights, size) && Square(idms, size) && InWin(size, (x, z))
      requires 0 <= d < 4 && InWin(size, Nbr((x, z), d))
      modifies this
      decreases |WindowLayer(size, y) - visited|, 1
      ensures heights == old(heights) && hids == old(hids) && idms == old(idms)
      ensures heap == old(heap) && holes == old(holes)
      ensures DfsState(r', visited, comp, curIdm) ==
        NbrStep(heights, idms, size, radius, location, y, x, z, d, DfsState(r, old(visited), old(comp), old(curIdm)))
    {
      var nx, nz := x + GX[d], z + GZ[d];
      assert (nx, nz) == Nbr((x, z), d);
      if heights[x][z] == heights[nx][nz] {
        var sub := Dfs(nx, y, nz);
        r' := Min(r, sub);
      } else {
        r' := Min(r, heights[nx][nz]);
        curIdm := idms[nx][nz];
      }
    }

    /**
     * Acceptance of the region in `comp`, explored at layer `y` over the
     * columns `ex`: the hole list, heights, hole tags and heap change as
     * `Accepted` describes; nothing else changes.
     */
    method Accept(y: int, ghost ex: seq<Column>)
      requires Valid()
      requires comp == Absolute(ex, y, radius, location) && NoDup(ex)
      requires forall c :: c in ex ==> InWin(size, c)
      modifies this
      ensures visited == old(visited) && comp == old(comp) && curIdm == old(curIdm) && idms == old(idms)
      ensures Valid()
      ensures Accepted(size, y, ex, comp, curIdm, old(holes), old(heights), old(hids), old(heap),
                       holes, heights, hids, heap)
    {
      holes, heights, hids, heap := AcceptRegion(size, y, ex, comp, curIdm, holes, heights, hids, heap, radius, location);
    }

    /**
     * One exploration of the sweep from the popped cell (x, y, z) with entry
     * height `h`: the region and wall (id, meta) are reset, `dfs` runs, and the
     * region is accepted iff its result is at least `h`. Unless `h` is at or
     * below the edge sentinel, that is exactly when no explored column has a
     * neighbour outside the window and every different-height neighbour of an
     * explored column is at least `h` high.
     */
    method Explore(h: int, x: int, y: int, z: int) returns (accepted: bool, ghost ex: seq<Column>)
      requires Square(heights, size) && Square(idms, size) && InWin(size, (x, z))
      modifies this
      ensures heights == old(heights) && hids == old(hids) && idms == old(idms)
      ensures heap == old(heap) && holes == old(holes)
      ensures visited == old(visited) + LayerOf(ex, y) && (x, y, z) in visited
      ensures comp == Absolute(ex, y, radius, location) && NoDup(ex)
      ensures forall c :: c in ex ==>
        (InWin(size, c) && (c.0, y, c.1) !in old(visited) && Get(heights, c, 0) == Get(heights, (x, z), 0))
      ensures curIdm == DefaultIdm || WallIdm(heights, idms, size, ex, (x, z), 4, curIdm)
      ensures EdgeFree(size, ex, (x, z), 4) ==> SameHeightVisited(heights, size, ex, (x, z), 4, visited, y)
      ensures EdgeSentinel < h ==>
        (accepted <==> EdgeFree(size, ex, (x, z), 4) && h <= VisitedSentinel &&
                       WallsAtLeast(heights, size, ex, (x, z), 4, h))
      ensures var t := DfsSpec(heights, idms, size, radius, location, y, x, z, old(visited), [], DefaultIdm);
        visited == t.visited && comp == t.comp && curIdm == t.idm && (accepted <==> h <= t.r)
    {
      comp := [];
      curIdm := DefaultIdm;
      ghost var v0 := visited;
      var r := Dfs(x, y, z);
      ex := DfsExplores(heights, idms, size, radius, location, y, x, z, v0, [], DefaultIdm);
      accepted := r >= h;
      assert [] + Absolute(ex, y, radius, location) == Absolute(ex, y, radius, location);
      if EdgeSentinel < h {
        if accepted {
          WallsMono(heights, size, ex, (x, z), 4, r, h);
        }
      }
    }

    /**
     * The survey of `get_all_nearby_holes`: each column's surface found by the
     * downward scan, its height and block recorded, and the cell above it pushed.
     */
    method Survey()
      requires Valid() && GroundBelow(world, location, agentPos, radius) && heap == multiset{}
      modifies this
      ensures Valid()
      ensures visited == old(visited) && comp == old(comp) && curIdm == old(curIdm)
      ensures hids == old(hids) && holes == old(holes)
      ensures forall c {:trigger Surveyed(world, location, agentPos, radius, heights, idms, c)} :: InWin(size, c) ==> Surveyed(world, location, agentPos, radius, heights, idms, c)
      ensures heap == Entries(heights)
    {
      heights, idms, heap := SurveyWindow(world, location, agentPos, radius);
    }


    /**
     * The sweep's invariant, for entries at or above `low`: the maps are
     * well-formed, the heap invariant holds, and every visited cell lies in the
     * window between `low` and `maxHeight`.
     */
    ghost predicate Inv(low: int)
      reads this`heights, this`hids, this`idms, this`holes, this`visited, this`heap
    {
      Valid() && HeapOk(size, low, heights, visited, heap) &&
      Banded(size, low, maxHeight, visited)
    }

    /** The hole invariant of the sweep: hole coordinates are distinct visited cells. */
    ghost predicate HolesInv()
      reads this`visited, this`holes
    {
      HolesOk(radius, location, visited, holes)
    }

    /**
     * Acceptance as the sweep performs it, right after the exploration that
     * found region `ex` at layer `y`: the heap and hole invariants survive.
     */
    method Commit(y: int, ghost ex: seq<Column>, ghost low: int, ghost v0: set<Cell>)
      requires Valid() && low <= y
      requires comp == Absolute(ex, y, radius, location) && NoDup(ex)
      requires forall c :: c in ex ==> InWin(size, c) && (c.0, y, c.1) !in v0 && Get(heights, c, 0) + 1 == y
      requires visited == v0 + LayerOf(ex, y)
      requires HeapOk(size, low, heights, visited, heap) && HolesOk(radius, location, v0, holes)
      modifies this
      ensures Valid() && visited == old(visited) && comp == old(comp) && curIdm == old(curIdm) && idms == old(idms)
      ensures Accepted(size, y, ex, comp, curIdm, old(holes), old(heights), old(hids), old(heap), holes, heights, hids, heap)
      ensures HeapOk(size, low, heights, visited, heap) && HolesOk(radius, location, visited, holes)
    {
      ghost var hs0, ht0, hd0, hp0 := holes, heights, hids, heap;
      Accept(y, ex);
      AcceptHeap(size, low, y, ex, comp, curIdm, visited, hs0, ht0, hd0, hp0, holes, heights, hids, heap);
      AcceptHoles(size, y, ex, comp, curIdm, radius, location, v0, visited,
                  hs0, ht0, hd0, hp0, holes, heights, hids, heap);
    }

    /**
     * One visit of the sweep to the unvisited cell (x, y, z) popped with entry
     * height `h`: explore its region with `dfs` and accept it when the result
     * is at least `h`. Visited cells, region and wall (id, meta) are those
     * `DfsSpec` gives; an accepted region changes the holes, heights, tags and
     * heap as `Accepted` describes, a rejected one leaves them as they were.
     * The invariants survive and one more cell of the box is visited.
     */
    method Visit(h: int, x: int, y: int, z: int, ghost low: int) returns (accepted: bool, ghost ex: seq<Column>)
      requires Inv(low) && HolesInv()
      requires h == y && low <= y <= maxHeight && InWin(size, (x, z)) && (x, y, z) !in visited
      requires h == Get(heights, (x, z), 0) + 1
      modifies this
      ensures Inv(low) && HolesInv()
      ensures old(visited) <= visited && (x, y, z) in visited
      ensures var t := DfsSpec(old(heights), old(idms), size, radius, location, y, x, z, old(visited), [], DefaultIdm);
        visited == t.visited && comp == t.comp && curIdm == t.idm && idms == old(idms) && (accepted <==> h <= t.r)
      ensures comp == Absolute(ex, y, radius, location)
      ensures EdgeSentinel < h ==>
        (accepted <==> EdgeFree(size, ex, (x, z), 4) && h <= VisitedSentinel &&
                       WallsAtLeast(old(heights), size, ex, (x, z), 4, h))
      ensures accepted ==>
        Accepted(size, y, ex, comp, curIdm, old(holes), old(heights), old(hids), old(heap), holes, heights, hids, heap)
      ensures !accepted ==> holes == old(holes) && heights == old(heights) && hids == old(hids) && heap == old(heap)
    {
      ghost var v0 := visited;
      accepted, ex := Explore(h, x, y, z);
      ExploreStep(size, low, maxHeight, heights, radius, location, v0, visited, heap, holes, ex, x, y, z);
      if accepted {
        Commit(y, ex, low, v0);
      }
    }

    /**
     * One iteration of the main loop: pop the least entry; skip it when its cell
     * is visited or above `maxHeight`; otherwise its height is its column's
     * height plus one (the source's sanity check) and the cell is visited.
     */
    method Step(ghost low: int) returns (ghost visits: bool, ghost p: Cell)
      requires Inv(low) && HolesInv() && heap != multiset{}
      modifies this
      ensures Inv(low) && HolesInv()
      ensures visits ==> old(visited) <= visited && p in visited && p !in old(visited)
      ensures !visits ==> visited == old(visited) && |heap| < |old(heap)|
      ensures visits ==> p.1 <= maxHeight && p.1 == Get(old(heights), (p.0, p.2), 0) + 1
    {
      var e, rest := PopEntry(heap, size, low, heights, visited);
      heap := rest;
      var h, x, y, z := e.0, e.1.0, e.1.1, e.1.2;
      if (x, y, z) in visited || y > maxHeight {
        return false, e.1;
      }
      visits, p := true, e.1;
      assert h == Get(heights, (x, z), 0) + 1;
      var accepted, ex := Visit(h, x, y, z, low);
    }

    /**
     * The main loop of `get_all_nearby_holes`: pop the least entry, skip it when
     * visited or above the scan start, otherwise explore its region and accept it
     * when every wall is at least as high as the entry. The popped entry's height
     * always equals its column's height plus one, so the source's sanity check
     * holds. Hole coordinates are distinct and lie in the window, at most
     * `maxHeight` high.
     */
    method Sweep()
      requires Valid() && visited == {} && holes == [] && heap == Entries(heights)
      modifies this
      ensures Valid() && heap == multiset{}
      ensures forall p :: p in Coords(holes) ==>
        Coords(holes)[p] == 1 && InWin(size, (p.0 + radius - location.0, p.2 + radius - location.2)) && p.1 <= maxHeight
    {
      EntriesSeeded(heights, size);
      LowerBound(heap);
      ghost var low :| Above(heap, low);
      ghost var box := Box(size, low, maxHeight);
      while heap != multiset{}
        invariant Inv(low) && HolesInv()
        decreases |box - visited|, |heap|
      {
        ghost var v0 := visited;
        ghost var visits, p := Step(low);
        if visits {
          BandShrinks(size, low, maxHeight, v0, visited, p);
        }
      }
      forall p | p in Coords(holes)
        ensures InWin(size, (p.0 + radius - location.0, p.2 + radius - location.2)) && p.1 <= maxHeight
      {
        HolesInBox(size, low, maxHeight, radius, location, visited, holes, p);
      }
    }
  }

  /**
   * `get_all_nearby_holes`: survey the window around `location`, sweep it, and
   * keep only the air coordinates of each hole, dropping holes left empty. Every
   * returned hole is non-empty and all air, no coordinate is returned twice, and
   * every coordinate lies in the window, at most five above `location`.
   */
  method GetAllNearbyHoles(world: World, agentPos: Cell, location: Cell, radius: nat) returns (holes: seq<Hole>)
    requires GroundBelow(world, location, agentPos, radius)
    ensures forall k :: 0 <= k < |holes| ==> holes[k].0 != [] && forall c :: c in holes[k].0 ==> world(c).0 == 0
    ensures NoDup(AllCoords(holes))
    ensures forall p :: p in AllCoords(holes) ==>
      InWin(2 * radius + 1, (p.0 + radius - location.0, p.2 + radius - location.2)) && p.1 <= location.1 + Headroom
  {
    var sweep := new HoleSweep(world, location, agentPos, radius);
    sweep.Survey();
    sweep.Sweep();
    holes := PostFilter(world, sweep.holes);
    FilteredCoords(world, sweep.holes, radius, location, location.1 + Headroom);
  }
}
