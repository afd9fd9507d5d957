/**
 * The accessibility classifier (`accessible_interesting_blocks`) and the
 * connected-component labeler (`connected_components`). A boolean mask is
 * the set of its true cells.
 */
module Components {
  import opened Grid
  import opened FloodFill

  /** Cells whose block id is outside the boring set. */
  function Interesting(blocks: seq<seq<seq<int>>>, d: Dims, boring: set<int>): (s: set<Cell>)
    requires Shaped(blocks, d)
    ensures forall c :: c in s <==> InBox(d, c) && At(blocks, d, c) !in boring
  {
    set c | c in Cells(d) && At(blocks, d, c) !in boring
  }

  /** Cells the search may walk through: passable or interesting. */
  function PassableOrInteresting(blocks: seq<seq<seq<int>>>, d: Dims, boring: set<int>, passable: set<int>): (s: set<Cell>)
    requires Shaped(blocks, d)
    ensures forall c :: c in s <==> InBox(d, c) && (At(blocks, d, c) in passable || At(blocks, d, c) !in boring)
  {
    set c | c in Cells(d) && (At(blocks, d, c) in passable || At(blocks, d, c) !in boring)
  }

  /** The accessible-interesting cells as a specification: interesting and reachable from `pos`. */
  ghost function AccessibleSpec(blocks: seq<seq<seq<int>>>, d: Dims, pos: Cell, boring: set<int>, passable: set<int>): set<Cell>
    requires Shaped(blocks, d)
  {
    set c | c in Interesting(blocks, d, boring) && Reach(Face, PassableOrInteresting(blocks, d, boring, passable), pos, c)
  }

  /**
   * A cell is in the mask iff it is interesting and a face-adjacent path of
   * passable-or-interesting cells leads to it from `pos`.
   */
  method AccessibleInterestingBlocks(blocks: seq<seq<seq<int>>>, d: Dims, pos: Cell, boring: set<int>, passable: set<int>)
      returns (mask: set<Cell>)
    requires Shaped(blocks, d) && InBox(d, pos)
    ensures forall c :: c in mask <==>
      InBox(d, c) && At(blocks, d, c) !in boring &&
      Reach(Face, PassableOrInteresting(blocks, d, boring, passable), pos, c)
    ensures mask <= Interesting(blocks, d, boring)
    ensures mask == AccessibleSpec(blocks, d, pos, boring, passable)
  {
    var accept := PassableOrInteresting(blocks, d, boring, passable);
    var visited, found := DepthFirstSearch(d, Face, accept, pos);
    var x := set c | c in found;
    mask := x * Interesting(blocks, d, boring);
  }

  /**
   * `comps` partitions `mask` into its connected components: every component
   * is non-empty and is exactly the set of mask cells reachable from its first
   * cell; the components together hold every mask cell exactly once.
   */
  ghost predicate IsComponentList(adj: Adjacency, mask: set<Cell>, comps: seq<seq<Cell>>)
  {
    (forall k :: 0 <= k < |comps| ==> |comps[k]| > 0) &&
    (forall k, c {:trigger c in comps[k]} :: 0 <= k < |comps| ==> (c in comps[k] <==> Reach(adj, mask, comps[k][0], c))) &&
    (forall c :: c in Flatten(comps) <==> c in mask) &&
    NoDup(Flatten(comps))
  }

  /** A component list is a partition: each mask cell lies in exactly one component, once. */
  lemma ComponentListPartition(adj: Adjacency, mask: set<Cell>, comps: seq<seq<Cell>>, c: Cell)
    requires IsComponentList(adj, mask, comps)
    ensures c in mask <==> exists k :: 0 <= k < |comps| && c in comps[k]
    ensures forall k1, k2 :: 0 <= k1 < |comps| && 0 <= k2 < |comps| && c in comps[k1] && c in comps[k2] ==> k1 == k2
    ensures forall k :: 0 <= k < |comps| ==> NoDup(comps[k])
  {
    FlattenMember(comps, c);
    forall k1, k2 | 0 <= k1 < |comps| && 0 <= k2 < |comps| && c in comps[k1] && c in comps[k2]
      ensures k1 == k2
    {
      if k1 != k2 {
        var lo, hi := if k1 < k2 then k1 else k2, if k1 < k2 then k2 else k1;
        FlattenSplit(comps, lo, hi);
        var prefix := Flatten(comps[..hi]);
        assert c in comps[lo] && comps[lo] == comps[..hi][lo];
        FlattenMember(comps[..hi], c);
        NoDupSplit(prefix, comps[hi], Flatten(comps[hi + 1..]));
        assert false;
      }
    }
    forall k | 0 <= k < |comps|
      ensures NoDup(comps[k])
    {
      FlattenSplit(comps, k, k);
      NoDupSplit(Flatten(comps[..k]), comps[k], Flatten(comps[k + 1..]));
    }
  }

  /** The concatenation around part `hi`: what comes before it, it, and what follows. */
  lemma {:induction false} FlattenSplit<T>(ss: seq<seq<T>>, lo: int, hi: int)
    requires 0 <= lo <= hi < |ss|
    ensures Flatten(ss) == Flatten(ss[..hi]) + ss[hi] + Flatten(ss[hi + 1..])
    decreases |ss|
  {
    if hi == |ss| - 1 {
      assert ss[..|ss| - 1] == ss[..hi];
      assert ss[hi + 1..] == [];
    } else {
      var init := ss[..|ss| - 1];
      FlattenSplit(init, lo, hi);
      assert init[..hi] == ss[..hi] && init[hi] == ss[hi];
      assert ss[hi + 1..] == init[hi + 1..] + [ss[|ss| - 1]];
      assert ss[hi + 1..][..|ss[hi + 1..]| - 1] == init[hi + 1..];
    }
  }

  /** In a repeat-free concatenation the middle part is repeat-free and shares nothing with the head. */
  lemma NoDupSplit<T>(a: seq<T>, b: seq<T>, c: seq<T>)
    requires NoDup(a + b + c)
    ensures forall x :: x in a ==> x !in b
    ensures NoDup(b)
  {
    forall p, q | 0 <= p < q < |b|
      ensures b[p] != b[q]
    {
      assert (a + b + c)[|a| + p] == b[p] && (a + b + c)[|a| + q] == b[q];
    }
    forall p, q | 0 <= p < |a| && 0 <= q < |b|
      ensures a[p] != b[q]
    {
      assert (a + b + c)[p] == a[p] && (a + b + c)[|a| + q] == b[q];
    }
  }

  /** Every component is non-empty, starts at a mask cell and is exactly the mask cells reachable from that seed. */
  ghost predicate CompsOk(mask: set<Cell>, comps: seq<seq<Cell>>)
  {
    (forall k :: 0 <= k < |comps| ==> |comps[k]| > 0 && comps[k][0] in mask) &&
    (forall k, c {:trigger c in comps[k]} :: 0 <= k < |comps| ==> (c in comps[k] <==> Reach(Diagonal, mask, comps[k][0], c)))
  }

  /**
   * The order the scan produces: each component starts at its first cell in
   * scan order, and the components come in scan order of those cells.
   */
  ghost predicate ScanOrdered(comps: seq<seq<Cell>>)
  {
    (forall k1, k2 :: 0 <= k1 < k2 < |comps| ==> |comps[k1]| > 0 && |comps[k2]| > 0 && LexLess(comps[k1][0], comps[k2][0])) &&
    (forall k, c {:trigger c in comps[k]} :: 0 <= k < |comps| && c in comps[k] ==> c == comps[k][0] || LexLess(comps[k][0], c))
  }

  /** Seeds come in scan order, each first in its component, and all lie before `pos`. */
  ghost predicate SeedsBefore(comps: seq<seq<Cell>>, pos: Cell)
  {
    (forall k :: 0 <= k < |comps| ==> |comps[k]| > 0 && LexLess(comps[k][0], pos)) &&
    ScanOrdered(comps)
  }

  /** The collected cells are, once each, exactly the visited mask cells. */
  ghost predicate CollectedOk(mask: set<Cell>, visited: set<Cell>, comps: seq<seq<Cell>>)
  {
    NoDup(Flatten(comps)) &&
    (forall c :: c in Flatten(comps) ==> c in visited && c in mask) &&
    (forall c :: c in visited && c in mask ==> c in Flatten(comps))
  }

  /** The state of the labeler's scan when it is about to look at cell `pos`. */
  ghost predicate ScanInv(d: Dims, mask: set<Cell>, visited: set<Cell>, comps: seq<seq<Cell>>, pos: Cell)
  {
    (forall c :: c in visited ==> InBox(d, c)) &&
    (forall c {:trigger c in visited} :: InBox(d, c) && LexLess(c, pos) ==> c in visited) &&
    CompsOk(mask, comps) && SeedsBefore(comps, pos) && CollectedOk(mask, visited, comps)
  }

  /** Moving the scan position without passing a cell of the window keeps the scan state. */
  lemma ScanShift(d: Dims, mask: set<Cell>, visited: set<Cell>, comps: seq<seq<Cell>>, pos: Cell, pos': Cell)
    requires forall c :: c in mask ==> InBox(d, c)
    requires forall c :: InBox(d, c) ==> (LexLess(c, pos) <==> LexLess(c, pos'))
    requires ScanInv(d, mask, visited, comps, pos)
    ensures ScanInv(d, mask, visited, comps, pos')
  {
    assert SeedsBefore(comps, pos') by {
      forall k | 0 <= k < |comps|
        ensures LexLess(comps[k][0], pos')
      {
        assert comps[k][0] in mask;
      }
    }
  }

  /** A component that shares a cell with the one reachable from `seed` holds `seed` itself. */
  lemma SharedCellHoldsSeed(mask: set<Cell>, comp: seq<Cell>, seed: Cell, c: Cell)
    requires |comp| > 0
    requires forall x :: x in comp <==> Reach(Diagonal, mask, comp[0], x)
    requires Reach(Diagonal, mask, seed, c) && c in comp
    ensures seed in comp
  {
    ReachSym(Diagonal, mask, seed, c);
    ReachTrans(Diagonal, mask, comp[0], c, seed);
  }

  /** The component of a cell not yet visited shares no cell with the components collected so far. */
  lemma FoundIsFresh(mask: set<Cell>, visited0: set<Cell>, comps0: seq<seq<Cell>>, c: Cell, found: seq<Cell>)
    requires c !in visited0
    requires CompsOk(mask, comps0) && CollectedOk(mask, visited0, comps0)
    requires forall x :: x in found <==> Reach(Diagonal, mask, c, x)
    ensures forall x :: x in Flatten(comps0) ==> x !in found
  {
    forall x | x in Flatten(comps0)
      ensures x !in found
    {
      FlattenMember(comps0, x);
      var k :| 0 <= k < |comps0| && x in comps0[k];
      if x in found {
        SharedCellHoldsSeed(mask, comps0[k], c, x);
        FlattenMember(comps0, c);
        assert false;
      }
    }
  }

  /** Appending a fresh component keeps the collected cells exactly the visited mask cells. */
  lemma CollectedAdd(mask: set<Cell>, visited0: set<Cell>, comps0: seq<seq<Cell>>,
                     c: Cell, v: set<Cell>, found: seq<Cell>)
    requires CollectedOk(mask, visited0, comps0)
    requires c in mask
    requires forall x :: x in found <==> x in v && x in mask
    requires NoDup(found) && |found| > 0 && found[0] == c
    requires forall x :: x in Flatten(comps0) ==> x !in found
    ensures CollectedOk(mask, visited0 + {c} + v, comps0 + [found])
  {
    var comps := comps0 + [found];
    assert comps[..|comps| - 1] == comps0;
    assert Flatten(comps) == Flatten(comps0) + found;
    NoDupConcat(Flatten(comps0), found);
  }

  /** Appending the reachable set of a mask cell, seeded at that cell, keeps every component a reachable set. */
  lemma CompsAdd(mask: set<Cell>, comps0: seq<seq<Cell>>, c: Cell, found: seq<Cell>)
    requires CompsOk(mask, comps0)
    requires c in mask
    requires forall x :: x in found <==> Reach(Diagonal, mask, c, x)
    requires |found| > 0 && found[0] == c
    ensures CompsOk(mask, comps0 + [found])
  {
    var comps := comps0 + [found];
    forall k, x | 0 <= k < |comps|
      ensures x in comps[k] <==> Reach(Diagonal, mask, comps[k][0], x)
    {
      if k < |comps0| {
        assert comps[k] == comps0[k];
      }
    }
  }

  /** Collecting the component of an unvisited mask cell `c` keeps the scan state, one cell further. */
  lemma AddComponent(d: Dims, mask: set<Cell>, visited0: set<Cell>, comps0: seq<seq<Cell>>,
                     c: Cell, v: set<Cell>, found: seq<Cell>)
    requires forall x :: x in mask ==> InBox(d, x)
    requires InBox(d, c) && c in mask && c !in visited0
    requires ScanInv(d, mask, visited0, comps0, c)
    requires forall x :: x in v ==> InBox(d, x)
    requires forall x :: x in found <==> x in v && x in mask
    requires forall x :: x in found <==> Reach(Diagonal, mask, c, x)
    requires NoDup(found) && |found| > 0 && found[0] == c
    ensures ScanInv(d, mask, visited0 + {c} + v, comps0 + [found], (c.0, c.1, c.2 + 1))
  {
    FoundIsFresh(mask, visited0, comps0, c, found);
    CollectedAdd(mask, visited0, comps0, c, v, found);
    CompsAdd(mask, comps0, c, found);
    var comps := comps0 + [found];
    var visited := visited0 + {c} + v;
    var pos := (c.0, c.1, c.2 + 1);
    forall x | x in found
      ensures x == c || LexLess(c, x)
    {
      assert x !in Flatten(comps0) && InBox(d, x);
      assert x !in visited0;
    }
    SeedsAdd(comps0, c, found);
    assert forall x :: x in visited ==> InBox(d, x);
    PrefixStep(d, visited0, visited, c);
  }

  /** A component seeded at the scan position keeps the seeds ordered, with the position one further. */
  lemma SeedsAdd(comps0: seq<seq<Cell>>, c: Cell, found: seq<Cell>)
    requires SeedsBefore(comps0, c) && |found| > 0 && found[0] == c
    requires forall x :: x in found ==> x == c || LexLess(c, x)
    ensures SeedsBefore(comps0 + [found], (c.0, c.1, c.2 + 1))
  {
    var comps := comps0 + [found];
    forall k | 0 <= k < |comps|
      ensures |comps[k]| > 0 && LexLess(comps[k][0], (c.0, c.1, c.2 + 1))
    {
      if k < |comps0| {
        assert comps[k] == comps0[k];
      }
    }
    forall k1, k2 | 0 <= k1 < k2 < |comps|
      ensures |comps[k1]| > 0 && |comps[k2]| > 0 && LexLess(comps[k1][0], comps[k2][0])
    {
      assert comps[k1] == comps0[k1];
      if k2 < |comps0| {
        assert comps[k2] == comps0[k2];
      }
    }
    forall k, x | 0 <= k < |comps| && x in comps[k]
      ensures x == comps[k][0] || LexLess(comps[k][0], x)
    {
      if k < |comps0| {
        assert comps[k] == comps0[k];
      }
    }
  }

  /** Once cell `c` is visited, every window cell before the next position is visited. */
  lemma PrefixStep(d: Dims, visited0: set<Cell>, visited: set<Cell>, c: Cell)
    requires forall x {:trigger x in visited0} :: InBox(d, x) && LexLess(x, c) ==> x in visited0
    requires visited0 + {c} <= visited
    ensures forall x {:trigger x in visited} :: InBox(d, x) && LexLess(x, (c.0, c.1, c.2 + 1)) ==> x in visited
  {
    forall x | InBox(d, x) && LexLess(x, (c.0, c.1, c.2 + 1))
      ensures x in visited
    {
      if x != c {
        assert LexLess(x, c);
      }
    }
  }

  /** One step of the scan: cell `c` is marked visited and, if it starts a new component, that component is collected. */
  method VisitCell(d: Dims, mask: set<Cell>, visited0: set<Cell>, comps0: seq<seq<Cell>>, c: Cell)
      returns (visited: set<Cell>, comps: seq<seq<Cell>>)
    requires forall x :: x in mask ==> InBox(d, x)
    requires InBox(d, c)
    requires ScanInv(d, mask, visited0, comps0, c)
    ensures ScanInv(d, mask, visited, comps, (c.0, c.1, c.2 + 1))
  {
    visited, comps := visited0, comps0;
    if c in visited {
      return;
    }
    visited := visited + {c};
    if c !in mask {
      return;
    }
    var v, found := DepthFirstSearch(d, Diagonal, mask, c);
    AddComponent(d, mask, visited0, comps0, c, v, found);
    visited := visited + v;
    comps := comps + [found];
  }

  /** The k loop of the scan: one row (i, j, 0..n2). */
  method ScanRow(d: Dims, mask: set<Cell>, visited0: set<Cell>, comps0: seq<seq<Cell>>, i: int, j: int)
      returns (visited: set<Cell>, comps: seq<seq<Cell>>)
    requires forall x :: x in mask ==> InBox(d, x)
    requires 0 <= i < d.n0 && 0 <= j < d.n1
    requires ScanInv(d, mask, visited0, comps0, (i, j, 0))
    ensures ScanInv(d, mask, visited, comps, (i, j + 1, 0))
  {
    visited, comps := visited0, comps0;
    var k := 0;
    while k < d.n2
      invariant 0 <= k <= d.n2
      invariant ScanInv(d, mask, visited, comps, (i, j, k))
    {
      visited, comps := VisitCell(d, mask, visited, comps, (i, j, k));
      assert ScanInv(d, mask, visited, comps, (i, j, k + 1));
      k := k + 1;
    }
    ScanShift(d, mask, visited, comps, (i, j, d.n2), (i, j + 1, 0));
  }

  /** The j loop of the scan: one layer (i, 0..n1, 0..n2). */
  method ScanLayer(d: Dims, mask: set<Cell>, visited0: set<Cell>, comps0: seq<seq<Cell>>, i: int)
      returns (visited: set<Cell>, comps: seq<seq<Cell>>)
    requires forall x :: x in mask ==> InBox(d, x)
    requires 0 <= i < d.n0
    requires ScanInv(d, mask, visited0, comps0, (i, 0, 0))
    ensures ScanInv(d, mask, visited, comps, (i + 1, 0, 0))
  {
    visited, comps := visited0, comps0;
    var j := 0;
    while j < d.n1
      invariant 0 <= j <= d.n1
      invariant ScanInv(d, mask, visited, comps, (i, j, 0))
    {
      visited, comps := ScanRow(d, mask, visited, comps, i, j);
      assert ScanInv(d, mask, visited, comps, (i, j + 1, 0));
      j := j + 1;
    }
    ScanShift(d, mask, visited, comps, (i, d.n1, 0), (i + 1, 0, 0));
  }

  /** Once every cell has been scanned the components partition the mask. */
  lemma ScanComplete(d: Dims, mask: set<Cell>, visited: set<Cell>, comps: seq<seq<Cell>>)
    requires forall x :: x in mask ==> InBox(d, x)
    requires ScanInv(d, mask, visited, comps, (d.n0, 0, 0))
    ensures IsComponentList(Diagonal, mask, comps)
    ensures forall k, c :: 0 <= k < |comps| && c in comps[k] ==> c in mask
    ensures mask == {} <==> comps == []
  {
    forall k, c | 0 <= k < |comps| && c in comps[k]
      ensures c in mask
    {
      ReachInOk(Diagonal, mask, comps[k][0], c);
    }
    forall c | c in mask
      ensures c in Flatten(comps)
    {
      assert LexLess(c, (d.n0, 0, 0));
      assert c in visited;
    }
    if mask != {} {
      var c :| c in mask;
      assert c in Flatten(comps);
    }
    if comps != [] {
      assert comps[0][0] in mask;
    }
  }

  /**
   * Scans the window in (i, j, k) order; every unvisited true cell seeds a
   * 26-connected search whose accepted cells form one component.
   */
  method ConnectedComponents(d: Dims, mask: set<Cell>) returns (comps: seq<seq<Cell>>)
    requires forall c :: c in mask ==> InBox(d, c)
    ensures IsComponentList(Diagonal, mask, comps)
    ensures forall k, c :: 0 <= k < |comps| && c in comps[k] ==> c in mask
    ensures ScanOrdered(comps)
    ensures mask == {} <==> comps == []
  {
    var visited: set<Cell> := {};
    comps := [];
    var i := 0;
    while i < d.n0
      invariant 0 <= i <= d.n0
      invariant ScanInv(d, mask, visited, comps, (i, 0, 0))
    {
      visited, comps := ScanLayer(d, mask, visited, comps, i);
      assert ScanInv(d, mask, visited, comps, (i + 1, 0, 0));
      i := i + 1;
    }
    ScanComplete(d, mask, visited, comps);
  }
  /** A mask cell that comes first, in scan order, among the cells of its component. */
  ghost predicate Lowest(mask: set<Cell>, s: Cell)
  {
    s in mask && forall c :: Reach(Diagonal, mask, s, c) ==> c == s || LexLess(s, c)
  }

  /** The first cell of each component. */
  function Seeds(comps: seq<seq<Cell>>): (r: seq<Cell>)
    requires forall k :: 0 <= k < |comps| ==> |comps[k]| > 0
    ensures |r| == |comps| && forall k :: 0 <= k < |comps| ==> r[k] == comps[k][0]
  {
    seq(|comps|, k requires 0 <= k < |comps| => comps[k][0])
  }

  /** In a component list in scan order, the seeds are exactly the lowest cells of the mask. */
  lemma SeedsAreLowest(mask: set<Cell>, comps: seq<seq<Cell>>, s: Cell)
    requires IsComponentList(Diagonal, mask, comps) && ScanOrdered(comps)
    ensures s in Seeds(comps) <==> Lowest(mask, s)
  {
    var seeds := Seeds(comps);
    if s in seeds {
      var k :| 0 <= k < |comps| && seeds[k] == s;
      assert s in comps[k];
      ComponentListPartition(Diagonal, mask, comps, s);
      forall c | Reach(Diagonal, mask, s, c)
        ensures c == s || LexLess(s, c)
      {
        assert c in comps[k];
      }
    }
    if Lowest(mask, s) {
      ComponentListPartition(Diagonal, mask, comps, s);
      var k :| 0 <= k < |comps| && s in comps[k];
      ReachSym(Diagonal, mask, comps[k][0], s);
      assert seeds[k] == s;
    }
  }

  /** Two strictly increasing cell sequences with the same elements are equal. */
  lemma {:induction false} IncreasingUnique(x: seq<Cell>, y: seq<Cell>)
    requires forall p, q :: 0 <= p < q < |x| ==> LexLess(x[p], x[q])
    requires forall p, q :: 0 <= p < q < |y| ==> LexLess(y[p], y[q])
    requires forall c :: c in x <==> c in y
    ensures x == y
    decreases |x|
  {
    assert |y| > 0 ==> y[0] in y;
    if x == [] {
      assert |y| == 0;
    } else {
      var x0 := x[0];
      assert x0 in y;
      var j :| 0 <= j < |y| && y[j] == x0;
      var y0 := y[0];
      assert y0 in x;
      var i :| 0 <= i < |x| && x[i] == y0;
      assert y0 == x0 || LexLess(y0, x0);
      assert x0 == y0;
      forall c
        ensures c in x[1..] <==> c in y[1..]
      {
        if c in x[1..] {
          var p :| 1 <= p < |x| && x[p] == c;
          assert c in y;
        }
        if c in y[1..] {
          var q :| 1 <= q < |y| && y[q] == c;
          assert c in x;
        }
      }
      IncreasingUnique(x[1..], y[1..]);
      assert x == [x[0]] + x[1..] && y == [y[0]] + y[1..];
    }
  }

  /**
   * The scan's order pins the component list down: two component lists of the
   * same mask, both in scan order, hold the same components at the same
   * positions; only the order of cells inside a component may differ.
   */
  lemma ScanOrderedUnique(mask: set<Cell>, a: seq<seq<Cell>>, b: seq<seq<Cell>>)
    requires IsComponentList(Diagonal, mask, a) && ScanOrdered(a)
    requires IsComponentList(Diagonal, mask, b) && ScanOrdered(b)
    ensures |a| == |b|
    ensures forall k :: 0 <= k < |a| ==> a[k][0] == b[k][0]
    ensures forall k, c :: 0 <= k < |a| ==> (c in a[k] <==> c in b[k])
  {
    var sa, sb := Seeds(a), Seeds(b);
    forall c
      ensures c in sa <==> c in sb
    {
      SeedsAreLowest(mask, a, c);
      SeedsAreLowest(mask, b, c);
    }
    IncreasingUnique(sa, sb);
    forall k, c | 0 <= k < |a|
      ensures c in a[k] <==> c in b[k]
    {
      assert a[k][0] == sa[k] == sb[k] == b[k][0];
    }
  }
}
