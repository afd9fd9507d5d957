/**
 * List utilities: labelling the top and bottom blocks of a block list
 * (`label_top_bottom_blocks`) and listing the non-air blocks around a
 * position (`find_nearby_blocks`).
 */
module Lists {
  import opened Grid
  import opened Locators

  /** A block: its world position (x, y, z) and its payload (an id, or an (id, meta) pair). */
  type Block<T> = (Cell, T)

  /** The sort key (z, y, x). */
  function Key<T>(b: Block<T>): Cell
  {
    (b.0.2, b.0.1, b.0.0)
  }

  /** Keys never increase along `s`. */
  predicate Descending<T>(s: seq<Block<T>>)
  {
    forall p, q :: 0 <= p < q < |s| ==> !LexLess(Key(s[p]), Key(s[q]))
  }

  /** The blocks of `s` whose key is `k`, in order. */
  function WithKey<T>(s: seq<Block<T>>, k: Cell): seq<Block<T>>
  {
    if s == [] then [] else (if Key(s[0]) == k then [s[0]] else []) + WithKey(s[1..], k)
  }

  lemma {:induction false} WithKeyConcat<T>(a: seq<Block<T>>, b: seq<Block<T>>, k: Cell)
    ensures WithKey(a + b, k) == WithKey(a, k) + WithKey(b, k)
  {
    if a != [] {
      var h := if Key(a[0]) == k then [a[0]] else [];
      assert (a + b)[0] == a[0];
      assert (a + b)[1..] == a[1..] + b;
      WithKeyConcat(a[1..], b, k);
      assert WithKey(a + b, k) == h + WithKey(a[1..] + b, k);
      assert WithKey(a, k) == h + WithKey(a[1..], k);
    } else {
      assert a + b == b;
    }
  }

  /** Inserts `x` into a descending list after every block whose key is not smaller. */
  function Insert<T>(t: seq<Block<T>>, x: Block<T>): seq<Block<T>>
  {
    if t == [] then [x]
    else if LexLess(Key(t[0]), Key(x)) then [x] + t
    else [t[0]] + Insert(t[1..], x)
  }

  /** The stable descending sort that `list.sort(key=..., reverse=True)` performs. */
  function SortDesc<T>(s: seq<Block<T>>): seq<Block<T>>
  {
    if s == [] then [] else Insert(SortDesc(s[..|s| - 1]), s[|s| - 1])
  }

  lemma LexLessTrans(a: Cell, b: Cell, c: Cell)
    requires LexLess(a, b) && LexLess(b, c)
    ensures LexLess(a, c)
  {
  }

  /** In a descending list, nothing after a block with a smaller key than `x` has the key of `x`. */
  lemma {:induction false} BelowHead<T>(t: seq<Block<T>>, x: Block<T>)
    requires Descending(t) && t != [] && LexLess(Key(t[0]), Key(x))
    ensures WithKey(t, Key(x)) == []
    decreases |t|
  {
    if |t| > 1 {
      assert !LexLess(Key(t[0]), Key(t[1]));
      assert LexLess(Key(t[1]), Key(x));
      DescendingTail(t);
      BelowHead(t[1..], x);
    }
  }

  lemma DescendingTail<T>(t: seq<Block<T>>)
    requires Descending(t) && t != []
    ensures Descending(t[1..])
  {
    forall p, q | 0 <= p < q < |t[1..]|
      ensures !LexLess(Key(t[1..][p]), Key(t[1..][q]))
    {
      assert t[1..][p] == t[p + 1] && t[1..][q] == t[q + 1];
    }
  }

  /** Insertion adds exactly `x`. */
  lemma {:induction false} InsertMultiset<T>(t: seq<Block<T>>, x: Block<T>)
    ensures multiset(Insert(t, x)) == multiset(t) + multiset{x}
    decreases |t|
  {
    if t != [] && !LexLess(Key(t[0]), Key(x)) {
      InsertMultiset(t[1..], x);
      assert t == [t[0]] + t[1..];
    }
  }

  lemma ConsDescending<T>(h: Block<T>, s: seq<Block<T>>)
    requires Descending(s)
    requires forall i :: 0 <= i < |s| ==> !LexLess(Key(h), Key(s[i]))
    ensures Descending([h] + s)
  {
    forall p, q | 0 <= p < q < |[h] + s|
      ensures !LexLess(Key(([h] + s)[p]), Key(([h] + s)[q]))
    {
      if p > 0 {
        assert ([h] + s)[p] == s[p - 1];
      }
      assert ([h] + s)[q] == s[q - 1];
    }
  }

  /** Insertion keeps the list descending. */
  lemma {:induction false} InsertDescending<T>(t: seq<Block<T>>, x: Block<T>)
    requires Descending(t)
    ensures Descending(Insert(t, x))
    decreases |t|
  {
    if t == [] {
    } else if LexLess(Key(t[0]), Key(x)) {
      forall i | 0 <= i < |t|
        ensures !LexLess(Key(x), Key(t[i]))
      {
        if i > 0 {
          assert !LexLess(Key(t[0]), Key(t[i]));
        }
      }
      ConsDescending(x, t);
    } else {
      var tail := t[1..];
      DescendingTail(t);
      InsertDescending(tail, x);
      InsertMultiset(tail, x);
      var ins := Insert(tail, x);
      forall i | 0 <= i < |ins|
        ensures !LexLess(Key(t[0]), Key(ins[i]))
      {
        var y := ins[i];
        assert y in multiset(ins);
        if y != x {
          assert y in multiset(tail);
          var m :| 0 <= m < |tail| && tail[m] == y;
          assert t[m + 1] == y;
        }
      }
      ConsDescending(t[0], ins);
    }
  }

  /** Insertion puts `x` after the blocks of equal key and leaves every other key's blocks as they were. */
  lemma {:induction false} InsertWithKey<T>(t: seq<Block<T>>, x: Block<T>, k: Cell)
    requires Descending(t)
    ensures WithKey(Insert(t, x), k) == WithKey(t, k) + (if Key(x) == k then [x] else [])
    decreases |t|
  {
    if t == [] {
      assert WithKey([x], k) == (if Key(x) == k then [x] else []) + WithKey([x][1..], k);
    } else if LexLess(Key(t[0]), Key(x)) {
      var r := [x] + t;
      assert r[0] == x && r[1..] == t;
      if Key(x) == k {
        BelowHead(t, x);
      }
    } else {
      DescendingTail(t);
      InsertWithKey(t[1..], x, k);
      var r := [t[0]] + Insert(t[1..], x);
      assert r[0] == t[0] && r[1..] == Insert(t[1..], x);
    }
  }

  /**
   * The sort orders by (z, y, x) from high to low, is a permutation, and is
   * stable: the blocks sharing a key keep their original order.
   */
  lemma {:induction false} SortDescCorrect<T>(s: seq<Block<T>>)
    ensures Descending(SortDesc(s))
    ensures multiset(SortDesc(s)) == multiset(s)
    ensures |SortDesc(s)| == |s|
    ensures forall k :: WithKey(SortDesc(s), k) == WithKey(s, k)
  {
    if s != [] {
      var init, last := s[..|s| - 1], s[|s| - 1];
      SortDescCorrect(init);
      InsertDescending(SortDesc(init), last);
      InsertMultiset(SortDesc(init), last);
      assert s == init + [last];
      assert |SortDesc(s)| == |multiset(SortDesc(s))|;
      forall k
        ensures WithKey(SortDesc(s), k) == WithKey(s, k)
      {
        InsertWithKey(SortDesc(init), last, k);
        WithKeyConcat(init, [last], k);
        assert WithKey([last], k) == (if Key(last) == k then [last] else []) + WithKey([last][1..], k);
      }
    }
  }

  /** Sorts the caller's list in place. */
  method SortBlocks<T>(a: array<Block<T>>)
    modifies a
    ensures a[..] == SortDesc(old(a[..]))
  {
    var sorted := SortDesc(a[..]);
    SortDescCorrect(a[..]);
    forall i | 0 <= i < a.Length {
      a[i] := sorted[i];
    }
  }

  /** The exact ceiling of pct% of n. */
  function CeilPercent(pct: nat, n: nat): (r: nat)
    ensures 100 * r >= pct * n && 100 * (r - 1) < pct * n
  {
    (pct * n + 99) / 100
  }

  /** Python's `s[lo:hi]`: negative bounds count from the end, and bounds are clamped to the list. */
  function PySlice<T>(s: seq<T>, lo: int, hi: int): (r: seq<T>)
    ensures var a := Clamp(lo, |s|); var b := Clamp(hi, |s|);
      |r| == (if a <= b then b - a else 0) && forall i :: 0 <= i < |r| ==> r[i] == s[a + i]
  {
    var a := Clamp(lo, |s|);
    var b := Clamp(hi, |s|);
    if a <= b then s[a..b] else []
  }

  /** A Python slice bound resolved against a list of length n. */
  function Clamp(i: int, n: nat): (r: nat)
    ensures r <= n
    ensures 0 <= i <= n ==> r == i
    ensures -(n as int) <= i < 0 ==> r == n + i
  {
    if i < 0 then (if i + n < 0 then 0 else i + n) else if i > n then n else i
  }

  datatype Labels<T> = Labels(top: seq<Block<T>>, bottom: seq<Block<T>>, neither: seq<Block<T>>)

  /** The three slices of a sorted list of n blocks, for top and bottom percentages. */
  function Slices<T>(s: seq<Block<T>>, topPct: nat, bottomPct: nat): Labels<T>
  {
    var n := |s|;
    var cntTop := CeilPercent(topPct, n);
    var cntBottom := CeilPercent(bottomPct, n);
    var cntRemaining := n - (cntTop + cntBottom);
    Labels(PySlice(s, 0, cntTop), PySlice(s, -(cntBottom as int), n), PySlice(s, cntTop, cntTop + cntRemaining))
  }

  /**
   * Sorts the caller's list in place by (z, y, x), highest first, and labels
   * the first ceil(topPct% of n) blocks top, the last ceil(bottomPct% of n)
   * blocks bottom and those in between neither.
   */
  method LabelTopBottomBlocks<T>(a: array<Block<T>>, topPct: nat, bottomPct: nat) returns (labels: Labels<T>)
    modifies a
    ensures a[..] == SortDesc(old(a[..]))
    ensures labels == Slices(a[..], topPct, bottomPct)
  {
    SortBlocks(a);
    labels := Slices(a[..], topPct, bottomPct);
  }

  /**
   * When both counts are positive and together at most n, the labels split the
   * list: top, then neither, then bottom, with nothing left over or repeated.
   */
  lemma LabelPartition<T>(s: seq<Block<T>>, topPct: nat, bottomPct: nat)
    requires CeilPercent(bottomPct, |s|) > 0
    requires CeilPercent(topPct, |s|) + CeilPercent(bottomPct, |s|) <= |s|
    ensures var l := Slices(s, topPct, bottomPct);
      l.top + l.neither + l.bottom == s &&
      |l.top| == CeilPercent(topPct, |s|) && |l.bottom| == CeilPercent(bottomPct, |s|)
  {
    var n := |s|;
    var ct, cb := CeilPercent(topPct, n), CeilPercent(bottomPct, n);
    var l := Slices(s, topPct, bottomPct);
    assert l.top == s[..ct];
    assert l.neither == s[ct..n - cb];
    assert l.bottom == s[n - cb..];
    assert s == s[..ct] + s[ct..n - cb] + s[n - cb..];
  }

  /** When the top and bottom counts together reach n, nothing is labelled neither. */
  lemma NeitherEmptyWhenCrowded<T>(s: seq<Block<T>>, topPct: nat, bottomPct: nat)
    requires bottomPct <= 100
    requires CeilPercent(topPct, |s|) + CeilPercent(bottomPct, |s|) >= |s|
    ensures Slices(s, topPct, bottomPct).neither == []
  {
    var n := |s|;
    var cb := CeilPercent(bottomPct, n);
    assert bottomPct * n <= 100 * n;
    assert cb <= n;
  }

  /** With a zero bottom count the bottom label is the whole list, since `s[-0:]` is `s[0:]`. */
  lemma ZeroBottomIsWholeList<T>(s: seq<Block<T>>, topPct: nat)
    ensures Slices(s, topPct, 0).bottom == s
  {
  }

  /** With the default percentages (15 and 25) every list of at least two blocks is split. */
  lemma DefaultsPartition(n: nat)
    requires n >= 2
    ensures CeilPercent(25, n) > 0
    ensures CeilPercent(15, n) + CeilPercent(25, n) <= n
  {
    if n >= 4 {
      assert CeilPercent(15, n) <= (15 * n + 99) / 100;
      assert 100 * CeilPercent(15, n) <= 15 * n + 99;
      assert 100 * CeilPercent(25, n) <= 25 * n + 99;
    }
  }

  /** A single block is labelled both top and bottom. */
  lemma SingleBlockOverlap<T>(b: Block<T>)
    ensures Slices([b], 15, 25) == Labels([b], [b], [])
  {
  }

  /** In a sorted list, every top block is at least as high as every other block. */
  lemma TopIsHighest<T>(s: seq<Block<T>>, topPct: nat, bottomPct: nat)
    requires Descending(s)
    ensures var l := Slices(s, topPct, bottomPct);
      forall p, q :: 0 <= p < |l.top| && 0 <= q < |s| && p <= q ==> !LexLess(Key(l.top[p]), Key(s[q]))
  {
  }

  /** The in-window offset of a world position around `p` with radius `r`. */
  function Local(p: Cell, r: nat, o: Cell): Cell
  {
    (o.0 - p.0 + r, o.1 - p.1 + r, o.2 - p.2 + r)
  }

  /** The id array transposed from [y][z][x] to [x][y][z]. */
  function Transpose(g: seq<seq<seq<IdMeta>>>, d: Dims): (t: seq<seq<seq<IdMeta>>>)
    requires Shaped(g, d)
    ensures Shaped(t, Dims(d.n2, d.n0, d.n1))
    ensures forall c :: InBox(Dims(d.n2, d.n0, d.n1), c) ==> At(t, Dims(d.n2, d.n0, d.n1), c) == At(g, d, (c.1, c.2, c.0))
  {
    seq(d.n2, i requires 0 <= i < d.n2 =>
      seq(d.n0, j requires 0 <= j < d.n0 =>
        seq(d.n1, k requires 0 <= k < d.n1 => g[j][k][i])))
  }

  /** The blocks found before window index `pos`: exactly the non-air ones, with their (id, meta), in scan order. */
  ghost predicate Found(world: World, p: Cell, r: nat, out: seq<(Cell, IdMeta)>, pos: Cell)
  {
    (forall e :: e in out <==>
      InBox(Cube(r), Local(p, r, e.0)) && LexLess(Local(p, r, e.0), pos) && world(e.0).0 > 0 && e.1 == world(e.0)) &&
    (forall i :: 0 <= i < |out| ==> LexLess(Local(p, r, out[i].0), pos)) &&
    (forall i, j :: 0 <= i < j < |out| ==> LexLess(out[i].0, out[j].0))
  }

  /** Window index `b` to its world position: the inverse of `Local`. */
  function Around(p: Cell, r: nat, b: Cell): Cell
  {
    (p.0 + b.0 - r, p.1 + b.1 - r, p.2 + b.2 - r)
  }

  /** `c` is the [x][y][z] window of radius `r` around `p`. */
  ghost predicate Window(c: seq<seq<seq<IdMeta>>>, world: World, p: Cell, r: nat)
  {
    Shaped(c, Cube(r)) && forall b :: InBox(Cube(r), b) ==> At(c, Cube(r), b) == world(Around(p, r, b))
  }

  /** `l` is the [y][z][x] window of radius `r` around `p`, as the world reads it. */
  ghost predicate RawWindow(l: seq<seq<seq<IdMeta>>>, world: World, p: Cell, r: nat)
  {
    Shaped(l, Cube(r)) &&
    forall q :: InBox(Cube(r), q) ==> At(l, Cube(r), q) == world(Around(p, r, (q.2, q.0, q.1)))
  }

  /** Transposing the [y][z][x] window gives the [x][y][z] window. */
  lemma TransposedWindow(world: World, p: Cell, r: nat, l: seq<seq<seq<IdMeta>>>, c: seq<seq<seq<IdMeta>>>)
    requires RawWindow(l, world, p, r) && Shaped(c, Cube(r))
    requires forall b :: InBox(Cube(r), b) ==> At(c, Cube(r), b) == At(l, Cube(r), (b.1, b.2, b.0))
    ensures Window(c, world, p, r)
  {
    forall b | InBox(Cube(r), b)
      ensures At(c, Cube(r), b) == world(Around(p, r, b))
    {
      var q := (b.1, b.2, b.0);
      assert InBox(Cube(r), q);
      assert (q.2, q.0, q.1) == b;
    }
  }

  lemma FoundNextRow(world: World, p: Cell, r: nat, out: seq<(Cell, IdMeta)>, xi: int, yi: int)
    requires Found(world, p, r, out, (xi, yi, 2 * r + 1))
    ensures Found(world, p, r, out, (xi, yi + 1, 0))
  {
  }

  lemma FoundNextLayer(world: World, p: Cell, r: nat, out: seq<(Cell, IdMeta)>, xi: int)
    requires Found(world, p, r, out, (xi, 2 * r + 1, 0))
    ensures Found(world, p, r, out, (xi + 1, 0, 0))
  {
  }

  lemma LocalOrder(p: Cell, r: nat, a: Cell, b: Cell)
    ensures LexLess(Local(p, r, a), Local(p, r, b)) <==> LexLess(a, b)
    ensures Local(p, r, a) == Local(p, r, b) <==> a == b
  {
  }

  /** Visiting window index `pos` appends its block exactly when it is not air. */
  lemma FoundStep(world: World, p: Cell, r: nat, out: seq<(Cell, IdMeta)>, pos: Cell)
    requires Found(world, p, r, out, pos)
    requires InBox(Cube(r), pos)
    ensures var o := Around(p, r, pos);
      Found(world, p, r, out + (if world(o).0 > 0 then [(o, world(o))] else []), (pos.0, pos.1, pos.2 + 1))
  {
    var o := Around(p, r, pos);
    var next := (pos.0, pos.1, pos.2 + 1);
    var out' := out + (if world(o).0 > 0 then [(o, world(o))] else []);
    forall i | 0 <= i < |out|
      ensures LexLess(out[i].0, o)
    {
      LocalOrder(p, r, out[i].0, o);
    }
    forall e
      ensures e in out' <==>
        InBox(Cube(r), Local(p, r, e.0)) && LexLess(Local(p, r, e.0), next) && world(e.0).0 > 0 && e.1 == world(e.0)
    {
      LocalOrder(p, r, e.0, o);
    }
  }

  /** The z loop over the transposed window at fixed x and y. */
  method FindAlongZ(world: World, p: Cell, r: nat, c: seq<seq<seq<IdMeta>>>, xi: int, yi: int,
                    out0: seq<(Cell, IdMeta)>) returns (out: seq<(Cell, IdMeta)>)
    requires Window(c, world, p, r)
    requires 0 <= xi < 2 * r + 1 && 0 <= yi < 2 * r + 1
    requires Found(world, p, r, out0, (xi, yi, 0))
    ensures Found(world, p, r, out, (xi, yi + 1, 0))
  {
    out := out0;
    var zi := 0;
    while zi < 2 * r + 1
      invariant 0 <= zi <= 2 * r + 1
      invariant Found(world, p, r, out, (xi, yi, zi))
    {
      var idm := c[xi][yi][zi];
      var o := (p.0 + xi - r, p.1 + yi - r, p.2 + zi - r);
      assert o == Around(p, r, (xi, yi, zi));
      assert idm == world(o);
      FoundStep(world, p, r, out, (xi, yi, zi));
      if idm.0 > 0 {
        out := out + [(o, idm)];
      }
      zi := zi + 1;
    }
    FoundNextRow(world, p, r, out, xi, yi);
  }

  /** The y loop at fixed x. */
  method FindAlongY(world: World, p: Cell, r: nat, c: seq<seq<seq<IdMeta>>>, xi: int,
                    out0: seq<(Cell, IdMeta)>) returns (out: seq<(Cell, IdMeta)>)
    requires Window(c, world, p, r)
    requires 0 <= xi < 2 * r + 1
    requires Found(world, p, r, out0, (xi, 0, 0))
    ensures Found(world, p, r, out, (xi + 1, 0, 0))
  {
    out := out0;
    var yi := 0;
    while yi < 2 * r + 1
      invariant 0 <= yi <= 2 * r + 1
      invariant Found(world, p, r, out, (xi, yi, 0))
    {
      out := FindAlongZ(world, p, r, c, xi, yi, out);
      yi := yi + 1;
    }
    FoundNextLayer(world, p, r, out, xi);
  }

  /** A [y][z][x] cube read from the corner `p - r` is the raw window around `p`. */
  lemma RawFromBlocks(world: World, p: Cell, r: nat, l: seq<seq<seq<IdMeta>>>)
    requires Shaped(l, Cube(r))
    requires forall q :: InBox(Cube(r), q) ==> At(l, Cube(r), q) == world((p.0 - r + q.2, p.1 - r + q.0, p.2 - r + q.1))
    ensures RawWindow(l, world, p, r)
  {
    forall q | InBox(Cube(r), q)
      ensures At(l, Cube(r), q) == world(Around(p, r, (q.2, q.0, q.1)))
    {
      assert (p.0 - r + q.2, p.1 - r + q.0, p.2 - r + q.1) == Around(p, r, (q.2, q.0, q.1));
    }
  }

  /** Reads the cube of radius `r` around `p` from the world, as `get_blocks` returns it. */
  method ReadCube(world: World, p: Cell, r: nat) returns (l: seq<seq<seq<IdMeta>>>)
    ensures RawWindow(l, world, p, r)
  {
    var lo := (p.0 - r, p.1 - r, p.2 - r);
    var hi := (p.0 + r, p.1 + r, p.2 + r);
    assert WindowDims(lo, hi) == Cube(r);
    l := GetBlocks(world, lo, hi);
    RawFromBlocks(world, p, r, l);
  }

  /**
   * The non-air blocks (id > 0) in the cube of radius `r` around `p`, as
   * (world position, (id, meta)) pairs in (x, y, z) order.
   */
  method FindNearbyBlocks(world: World, p: Cell, r: nat) returns (blocks: seq<(Cell, IdMeta)>)
    ensures forall e :: e in blocks <==>
      InBox(Cube(r), Local(p, r, e.0)) && world(e.0).0 > 0 && e.1 == world(e.0)
    ensures forall i, j :: 0 <= i < j < |blocks| ==> LexLess(blocks[i].0, blocks[j].0)
  {
    var l := ReadCube(world, p, r);
    var c := Transpose(l, Cube(r));
    assert Dims(Cube(r).n2, Cube(r).n0, Cube(r).n1) == Cube(r);
    TransposedWindow(world, p, r, l, c);
    blocks := [];
    var xi := 0;
    while xi < 2 * r + 1
      invariant 0 <= xi <= 2 * r + 1
      invariant Found(world, p, r, blocks, (xi, 0, 0))
    {
      blocks := FindAlongY(world, p, r, c, xi, blocks);
      xi := xi + 1;
    }
  }
}
