/**
 * Object locators built on the component labeler: the window around a
 * position (`all_close_interesting_blocks`), the per-component world lists
 * (`all_nearby_objects`) and the nearest component by centroid Manhattan
 * distance (`closest_nearby_object`, `find_closest_component`).
 *
 * The world is an oracle from a world position (x, y, z) to its (id, meta).
 * A window is the dense array `get_blocks` returns, indexed [y][z][x].
 */
module Locators {
  import opened Grid
  import opened Components

  type IdMeta = (int, int)

  /** The block oracle: what the game reports at world position (x, y, z). */
  type World = Cell -> IdMeta

  /** Default search radius around a position. */
  const MaxRadius: nat := 20

  /** The shape of the window spanning the inclusive world box lo..hi, in [y][z][x] order. */
  function WindowDims(lo: Cell, hi: Cell): Dims
    requires lo.0 <= hi.0 && lo.1 <= hi.1 && lo.2 <= hi.2
  {
    Dims(hi.1 - lo.1 + 1, hi.2 - lo.2 + 1, hi.0 - lo.0 + 1)
  }

  /**
   * What `get_blocks(lo.x, hi.x, lo.y, hi.y, lo.z, hi.z)` returns: the
   * window entry [i][j][k] is the block at world position (lo.x + k, lo.y + i, lo.z + j).
   */
  function GetBlocks(world: World, lo: Cell, hi: Cell): (g: seq<seq<seq<IdMeta>>>)
    requires lo.0 <= hi.0 && lo.1 <= hi.1 && lo.2 <= hi.2
    ensures Shaped(g, WindowDims(lo, hi))
    ensures forall c :: InBox(WindowDims(lo, hi), c) ==>
      At(g, WindowDims(lo, hi), c) == world((lo.0 + c.2, lo.1 + c.0, lo.2 + c.1))
  {
    var d := WindowDims(lo, hi);
    seq(d.n0, i requires 0 <= i < d.n0 =>
      seq(d.n1, j requires 0 <= j < d.n1 =>
        seq(d.n2, k requires 0 <= k < d.n2 => world((lo.0 + k, lo.1 + i, lo.2 + j)))))
  }

  /** The id channel of a window. */
  function Ids(g: seq<seq<seq<IdMeta>>>, d: Dims): (ids: seq<seq<seq<int>>>)
    requires Shaped(g, d)
    ensures Shaped(ids, d)
    ensures forall c :: InBox(d, c) ==> At(ids, d, c) == At(g, d, c).0
  {
    seq(d.n0, i requires 0 <= i < d.n0 =>
      seq(d.n1, j requires 0 <= j < d.n1 =>
        seq(d.n2, k requires 0 <= k < d.n2 => g[i][j][k].0)))
  }

  /** The window of radius `r`: 2r + 1 cells along each axis. */
  function Cube(r: nat): Dims
  {
    Dims(2 * r + 1, 2 * r + 1, 2 * r + 1)
  }

  /** A window index (y, z, x) to the world position (x, y, z), given the window offset (my, mz, mx). */
  function ToWorld(c: Cell, off: Cell): Cell
  {
    (c.2 + off.2, c.0 + off.0, c.1 + off.1)
  }

  /** A world position (x, y, z) to its window index (y, z, x). */
  function ToLocal(w: Cell, off: Cell): Cell
  {
    (w.1 - off.0, w.2 - off.1, w.0 - off.2)
  }

  /** The two index maps are inverse to each other. */
  lemma ToWorldRoundTrip(c: Cell, w: Cell, off: Cell)
    ensures ToLocal(ToWorld(c, off), off) == c
    ensures ToWorld(ToLocal(w, off), off) == w
    ensures ToWorld(c, off) == w <==> ToLocal(w, off) == c
  {
  }

  /** The window offset (my, mz, mx) of the cube of radius `r` around `pos`. */
  function Offset(pos: Cell, r: nat): Cell
  {
    (pos.1 - r, pos.2 - r, pos.0 - r)
  }

  /** The cube of radius `r` around `pos`, as `get_blocks` returns it: indexed [y][z][x] from the offset. */
  function NearbyWindow(world: World, pos: Cell, r: nat): (g: seq<seq<seq<IdMeta>>>)
    ensures Shaped(g, Cube(r))
  {
    GetBlocks(world, (pos.0 - r, pos.1 - r, pos.2 - r), (pos.0 + r, pos.1 + r, pos.2 + r))
  }

  /** Each entry of the window is the world's block at the entry's world position. */
  lemma NearbyWindowAt(world: World, pos: Cell, r: nat)
    ensures forall c :: InBox(Cube(r), c) ==> At(NearbyWindow(world, pos, r), Cube(r), c) == world(ToWorld(c, Offset(pos, r)))
  {
    var lo := (pos.0 - r, pos.1 - r, pos.2 - r);
    var hi := (pos.0 + r, pos.1 + r, pos.2 + r);
    assert WindowDims(lo, hi) == Cube(r);
    forall c | InBox(Cube(r), c)
      ensures At(NearbyWindow(world, pos, r), Cube(r), c) == world(ToWorld(c, Offset(pos, r)))
    {
      assert ToWorld(c, Offset(pos, r)) == (lo.0 + c.2, lo.1 + c.0, lo.2 + c.1);
    }
  }

  /** The accessible-interesting cells of the default window around `pos`, searched from its centre. */
  ghost function NearbyMask(world: World, boring: set<int>, passable: set<int>, pos: Cell): set<Cell>
  {
    var d := Cube(MaxRadius);
    AccessibleSpec(Ids(NearbyWindow(world, pos, MaxRadius), d), d, (MaxRadius, MaxRadius, MaxRadius), boring, passable)
  }

  /**
   * The window of radius `r` around `pos`, its accessible-interesting mask
   * searched from the window centre, and the offset (my, mz, mx) that maps
   * window indices back to the world.
   */
  method AllCloseInterestingBlocks(world: World, boring: set<int>, passable: set<int>, pos: Cell, r: nat)
      returns (mask: set<Cell>, off: Cell, blocks: seq<seq<seq<IdMeta>>>)
    ensures blocks == NearbyWindow(world, pos, r) && Shaped(blocks, Cube(r))
    ensures off == Offset(pos, r)
    ensures mask == AccessibleSpec(Ids(blocks, Cube(r)), Cube(r), (r, r, r), boring, passable)
  {
    var d := Cube(r);
    blocks := NearbyWindow(world, pos, r);
    off := Offset(pos, r);
    mask := AccessibleInterestingBlocks(Ids(blocks, d), d, (r, r, r), boring, passable);
  }

  /** One located object: the world position and (id, meta) of each of its blocks. */
  type Object = seq<(Cell, IdMeta)>

  /** The window index of each block of each object, given the window offset. */
  function LocalCells(objs: seq<Object>, off: Cell): seq<seq<Cell>>
  {
    seq(|objs|, k requires 0 <= k < |objs| =>
      seq(|objs[k]|, t requires 0 <= t < |objs[k]| => ToLocal(objs[k][t].0, off)))
  }

  /**
   * `objs` lists the objects near `pos`: read back into window indices, they
   * are the connected components of the accessible-interesting mask, each
   * starting at its first cell in scan order and listed in that order, and each
   * block carries the world's (id, meta) at its position.
   */
  ghost predicate NearbyObjects(world: World, boring: set<int>, passable: set<int>, pos: Cell, objs: seq<Object>)
  {
    IsComponentList(Diagonal, NearbyMask(world, boring, passable, pos), LocalCells(objs, Offset(pos, MaxRadius))) &&
    ScanOrdered(LocalCells(objs, Offset(pos, MaxRadius))) &&
    forall k, t :: 0 <= k < |objs| && 0 <= t < |objs[k]| ==> objs[k][t].1 == world(objs[k][t].0)
  }

  /**
   * The objects near `pos`: one list per connected component of the
   * accessible-interesting mask, each window cell mapped to its world
   * position and paired with the block there.
   */
  method AllNearbyObjects(world: World, boring: set<int>, passable: set<int>, pos: Cell)
      returns (objs: seq<Object>)
    ensures NearbyObjects(world, boring, passable, pos, objs)
    ensures objs == [] <==> NearbyMask(world, boring, passable, pos) == {}
  {
    var mask, off, blocks := AllCloseInterestingBlocks(world, boring, passable, pos, MaxRadius);
    var d := Cube(MaxRadius);
    InterestingInBox(blocks, d, boring, passable, mask);
    var cs := ConnectedComponents(d, mask);
    objs := Remap(cs, blocks, d, off);
    RemapNearby(world, boring, passable, pos, cs);
  }

  /** Remapping a component list of the nearby mask gives a list of the nearby objects. */
  lemma RemapNearby(world: World, boring: set<int>, passable: set<int>, pos: Cell, cs: seq<seq<Cell>>)
    requires IsComponentList(Diagonal, NearbyMask(world, boring, passable, pos), cs)
    requires forall k, c :: 0 <= k < |cs| && c in cs[k] ==> InBox(Cube(MaxRadius), c)
    requires ScanOrdered(cs)
    ensures NearbyObjects(world, boring, passable, pos, Remap(cs, NearbyWindow(world, pos, MaxRadius), Cube(MaxRadius), Offset(pos, MaxRadius)))
  {
    var blocks, d, off := NearbyWindow(world, pos, MaxRadius), Cube(MaxRadius), Offset(pos, MaxRadius);
    NearbyWindowAt(world, pos, MaxRadius);
    RemapWorld(world, cs, blocks, d, off);
    RemapLocal(cs, blocks, d, off);
  }

  /** Each component cell as its world position paired with the window entry there. */
  function Remap(cs: seq<seq<Cell>>, blocks: seq<seq<seq<IdMeta>>>, d: Dims, off: Cell): (objs: seq<Object>)
    requires Shaped(blocks, d)
    requires forall k, c :: 0 <= k < |cs| && c in cs[k] ==> InBox(d, c)
    ensures |objs| == |cs| && forall k :: 0 <= k < |cs| ==> |objs[k]| == |cs[k]|
    ensures forall k, t :: 0 <= k < |cs| && 0 <= t < |cs[k]| ==>
      objs[k][t] == (ToWorld(cs[k][t], off), At(blocks, d, cs[k][t]))
  {
    seq(|cs|, k requires 0 <= k < |cs| =>
      seq(|cs[k]|, t requires 0 <= t < |cs[k]| => (ToWorld(cs[k][t], off), At(blocks, d, cs[k][t]))))
  }

  /** When the window is read from the world, each remapped entry is the world's block at its position. */
  lemma RemapWorld(world: World, cs: seq<seq<Cell>>, blocks: seq<seq<seq<IdMeta>>>, d: Dims, off: Cell)
    requires Shaped(blocks, d)
    requires forall c :: InBox(d, c) ==> At(blocks, d, c) == world(ToWorld(c, off))
    requires forall k, c :: 0 <= k < |cs| && c in cs[k] ==> InBox(d, c)
    ensures forall k, t :: 0 <= k < |cs| && 0 <= t < |cs[k]| ==>
      Remap(cs, blocks, d, off)[k][t].1 == world(Remap(cs, blocks, d, off)[k][t].0)
  {
    forall k, t | 0 <= k < |cs| && 0 <= t < |cs[k]|
      ensures Remap(cs, blocks, d, off)[k][t].1 == world(Remap(cs, blocks, d, off)[k][t].0)
    {
      assert cs[k][t] in cs[k];
    }
  }

  /** Reading the remapped positions back into window indices gives the components again. */
  lemma RemapLocal(cs: seq<seq<Cell>>, blocks: seq<seq<seq<IdMeta>>>, d: Dims, off: Cell)
    requires Shaped(blocks, d)
    requires forall k, c :: 0 <= k < |cs| && c in cs[k] ==> InBox(d, c)
    ensures LocalCells(Remap(cs, blocks, d, off), off) == cs
  {
    var objs := Remap(cs, blocks, d, off);
    var back := LocalCells(objs, off);
    forall k | 0 <= k < |cs|
      ensures back[k] == cs[k]
    {
      forall t | 0 <= t < |cs[k]|
        ensures back[k][t] == cs[k][t]
      {
        ToWorldRoundTrip(cs[k][t], objs[k][t].0, off);
      }
    }
  }

  /** Every accessible-interesting cell lies in the window. */
  lemma InterestingInBox(blocks: seq<seq<seq<IdMeta>>>, d: Dims, boring: set<int>, passable: set<int>, mask: set<Cell>)
    requires Shaped(blocks, d)
    requires mask == AccessibleSpec(Ids(blocks, d), d, (MaxRadius, MaxRadius, MaxRadius), boring, passable)
    ensures forall c :: c in mask ==> InBox(d, c)
  {
  }

  /** Sum of one coordinate over a list of points. */
  function SumAxis(ps: seq<Cell>, axis: nat): int
    requires axis < 3
  {
    if ps == [] then 0
    else SumAxis(ps[..|ps| - 1], axis) + (if axis == 0 then ps[|ps| - 1].0 else if axis == 1 then ps[|ps| - 1].1 else ps[|ps| - 1].2)
  }

  /** Exact centroid of a non-empty list of points. */
  function Centroid(ps: seq<Cell>): (real, real, real)
    requires |ps| > 0
  {
    (SumAxis(ps, 0) as real / |ps| as real, SumAxis(ps, 1) as real / |ps| as real, SumAxis(ps, 2) as real / |ps| as real)
  }

  function AbsReal(x: real): real { if x < 0.0 then -x else x }

  /** Manhattan distance from a centroid to an integer point. */
  function Manhattan(c: (real, real, real), p: Cell): (r: real)
    ensures r >= 0.0
    ensures r == 0.0 <==> c == (p.0 as real, p.1 as real, p.2 as real)
  {
    AbsReal(c.0 - p.0 as real) + AbsReal(c.1 - p.1 as real) + AbsReal(c.2 - p.2 as real)
  }

  /** The centroid of a single point is the point itself. */
  lemma CentroidSingleton(p: Cell)
    ensures Centroid([p]) == (p.0 as real, p.1 as real, p.2 as real)
    ensures Manhattan(Centroid([p]), p) == 0.0
  {
    assert [p][..0] == [];
    assert SumAxis([p], 0) == p.0;
    assert SumAxis([p], 1) == p.1;
    assert SumAxis([p], 2) == p.2;
  }

  /** The index `np.argmin` picks: the first position of a minimal value. */
  function FirstMinIndex(ds: seq<real>): (i: nat)
    requires |ds| > 0
    ensures i < |ds|
    ensures forall j :: 0 <= j < |ds| ==> ds[i] <= ds[j]
    ensures forall j :: 0 <= j < i ==> ds[j] > ds[i]
  {
    if |ds| == 1 then 0
    else
      var m := FirstMinIndex(ds[..|ds| - 1]);
      if ds[|ds| - 1] < ds[m] then |ds| - 1 else m
  }

  /** The component-to-point distances, one per component. */
  function Dists(comps: seq<seq<Cell>>, p: Cell): (ds: seq<real>)
    requires forall k :: 0 <= k < |comps| ==> |comps[k]| > 0
    ensures |ds| == |comps|
  {
    seq(|comps|, k requires 0 <= k < |comps| => Manhattan(Centroid(comps[k]), p))
  }

  /**
   * The component whose centroid is nearest to `p` in Manhattan distance,
   * the first such on a tie; None when there are no components.
   */
  function Closest(comps: seq<seq<Cell>>, p: Cell): (r: Option<seq<Cell>>)
    requires forall k :: 0 <= k < |comps| ==> |comps[k]| > 0
    ensures r == None <==> comps == []
    ensures r != None ==> exists k :: (0 <= k < |comps| && r.value == comps[k] &&
      (forall j :: 0 <= j < |comps| ==> Dists(comps, p)[k] <= Dists(comps, p)[j]) &&
      (forall j :: 0 <= j < k ==> Dists(comps, p)[j] > Dists(comps, p)[k]))
  {
    if |comps| == 0 then None else Some(comps[FirstMinIndex(Dists(comps, p))])
  }

  /** A component holding `p` as its only cell is nearest: its distance is zero. */
  lemma ClosestPrefersPoint(comps: seq<seq<Cell>>, p: Cell, k: nat)
    requires forall j :: 0 <= j < |comps| ==> |comps[j]| > 0
    requires k < |comps| && comps[k] == [p]
    ensures Closest(comps, p) != None
    ensures Manhattan(Centroid(Closest(comps, p).value), p) == 0.0
  {
    CentroidSingleton(p);
    assert Dists(comps, p)[k] == 0.0;
  }

  /** The positions of an object's blocks. */
  function Positions(obj: Object): (ps: seq<Cell>)
    ensures |ps| == |obj| && forall t :: 0 <= t < |obj| ==> ps[t] == obj[t].0
  {
    seq(|obj|, t requires 0 <= t < |obj| => obj[t].0)
  }

  /** The centroid-to-point distance of each object's block positions. */
  function ObjectDists(objs: seq<Object>, p: Cell): (ds: seq<real>)
    requires forall k :: 0 <= k < |objs| ==> |objs[k]| > 0
    ensures |ds| == |objs|
  {
    Dists(seq(|objs|, k requires 0 <= k < |objs| => Positions(objs[k])), p)
  }

  /**
   * The object whose block positions have the centroid nearest to `p` in
   * Manhattan distance, the first such on a tie; None when there are none.
   */
  function ClosestObject(objs: seq<Object>, p: Cell): (r: Option<Object>)
    requires forall k :: 0 <= k < |objs| ==> |objs[k]| > 0
    ensures r == None <==> objs == []
    ensures r != None ==> exists k :: (0 <= k < |objs| && r.value == objs[k] &&
      (forall j :: 0 <= j < |objs| ==> ObjectDists(objs, p)[k] <= ObjectDists(objs, p)[j]) &&
      (forall j :: 0 <= j < k ==> ObjectDists(objs, p)[j] > ObjectDists(objs, p)[k]))
  {
    if |objs| == 0 then None else Some(objs[FirstMinIndex(ObjectDists(objs, p))])
  }

  /** Every object of a list of nearby objects has at least one block. */
  lemma NearbyObjectsNonEmpty(world: World, boring: set<int>, passable: set<int>, pos: Cell, objs: seq<Object>)
    requires NearbyObjects(world, boring, passable, pos, objs)
    ensures forall k :: 0 <= k < |objs| ==> |objs[k]| > 0
  {
    var cs := LocalCells(objs, Offset(pos, MaxRadius));
    forall k | 0 <= k < |objs|
      ensures |objs[k]| > 0
    {
      assert |cs[k]| > 0;
    }
  }

  /**
   * The nearest object to `pos` by centroid Manhattan distance over world
   * positions, the first on a tie; None when nothing interesting is accessible.
   */
  method ClosestNearbyObject(world: World, boring: set<int>, passable: set<int>, pos: Cell)
      returns (r: Option<Object>)
    ensures r == None <==> NearbyMask(world, boring, passable, pos) == {}
    ensures exists objs :: (NearbyObjects(world, boring, passable, pos, objs) &&
      (forall k :: 0 <= k < |objs| ==> |objs[k]| > 0) && r == ClosestObject(objs, pos))
  {
    var objs := AllNearbyObjects(world, boring, passable, pos);
    NearbyObjectsNonEmpty(world, boring, passable, pos, objs);
    if |objs| == 0 {
      r := None;
    } else {
      var k := FirstMinIndex(ObjectDists(objs, pos));
      r := Some(objs[k]);
    }
    assert NearbyObjects(world, boring, passable, pos, objs) && r == ClosestObject(objs, pos);
  }

  /**
   * The connected component of `mask` whose centroid is nearest to `relpos`,
   * in window coordinates; None when the mask is empty.
   */
  method FindClosestComponent(d: Dims, mask: set<Cell>, relpos: Cell)
      returns (r: Option<seq<Cell>>, ghost comps: seq<seq<Cell>>)
    requires forall c :: c in mask ==> InBox(d, c)
    ensures IsComponentList(Diagonal, mask, comps)
    ensures ScanOrdered(comps)
    ensures r == None <==> mask == {}
    ensures r == Closest(comps, relpos)
  {
    var cs := ConnectedComponents(d, mask);
    comps := cs;
    r := Closest(cs, relpos);
  }
}
