/**
 * The "inside" heuristic (`check_inside`) and the bounding-box scan built on
 * it (`find_inside`). An entity is the list of its block locations, or None
 * when it has no locations the engine knows how to read.
 */
module Inside {
  import opened Grid

  /** Coordinate `i` of a location. */
  function Coord(c: Cell, i: nat): int
    requires i < 3
  {
    if i == 0 then c.0 else if i == 1 then c.1 else c.2
  }

  /**
   * The in-plane axis held fixed on line `j` of the slice normal to axis `i`.
   * Dafny's `%` with a positive divisor is never negative, as Python's is.
   */
  function FixedAxis(i: nat, j: nat): (a: nat)
    requires i < 3 && j < 2
    ensures a < 3 && a != i
  {
    (i + 2 * j - 1) % 3
  }

  /** The in-plane axis checked along line `j` of the slice normal to axis `i`. */
  function CheckAxis(i: nat, j: nat): (a: nat)
    requires i < 3 && j < 2
    ensures a < 3 && a != i && a != FixedAxis(i, j)
  {
    (i + 1 - 2 * j) % 3
  }

  /** Both lines of a slice look at the two in-plane axes, each once fixed and once checked. */
  lemma SliceAxes(i: nat)
    requires i < 3
    ensures FixedAxis(i, 0) == CheckAxis(i, 1) && FixedAxis(i, 1) == CheckAxis(i, 0)
    ensures {i, FixedAxis(i, 0), CheckAxis(i, 0)} == {0, 1, 2}
  {
    if i == 0 {
      assert FixedAxis(i, 0) == 2 && CheckAxis(i, 0) == 1 && FixedAxis(i, 1) == 1 && CheckAxis(i, 1) == 2;
    } else if i == 1 {
      assert FixedAxis(i, 0) == 0 && CheckAxis(i, 0) == 2 && FixedAxis(i, 1) == 2 && CheckAxis(i, 1) == 0;
    } else {
      assert FixedAxis(i, 0) == 1 && CheckAxis(i, 0) == 0 && FixedAxis(i, 1) == 0 && CheckAxis(i, 1) == 1;
    }
  }

  /** The points of `l` in the slice through `b` normal to axis `i`, in order. */
  function Coplanar(l: seq<Cell>, b: Cell, i: nat): (r: seq<Cell>)
    requires i < 3
    ensures forall c :: c in r <==> c in l && Coord(c, i) == Coord(b, i)
  {
    if l == [] then []
    else Coplanar(l[..|l| - 1], b, i) + (if Coord(l[|l| - 1], i) == Coord(b, i) then [l[|l| - 1]] else [])
  }

  /** The checked coordinates of the points of `cs` on the line through `b` with axis `fixed` held. */
  function Colinear(cs: seq<Cell>, b: Cell, fixed: nat, check: nat): (r: seq<int>)
    requires fixed < 3 && check < 3
    ensures forall v :: v in r <==> exists c :: c in cs && Coord(c, fixed) == Coord(b, fixed) && Coord(c, check) == v
  {
    if cs == [] then []
    else
      var init := Colinear(cs[..|cs| - 1], b, fixed, check);
      var last := cs[|cs| - 1];
      assert forall c :: c in cs <==> c in cs[..|cs| - 1] || c == last;
      init + (if Coord(last, fixed) == Coord(b, fixed) then [Coord(last, check)] else [])
  }

  function Max(s: seq<int>): (m: int)
    requires |s| > 0
    ensures m in s && forall v :: v in s ==> v <= m
  {
    if |s| == 1 then s[0]
    else
      var m := Max(s[..|s| - 1]);
      assert forall v :: v in s ==> v in s[..|s| - 1] || v == s[|s| - 1];
      if s[|s| - 1] > m then s[|s| - 1] else m
  }

  function Min(s: seq<int>): (m: int)
    requires |s| > 0
    ensures m in s && forall v :: v in s ==> m <= v
  {
    if |s| == 1 then s[0]
    else
      var m := Min(s[..|s| - 1]);
      assert forall v :: v in s ==> v in s[..|s| - 1] || v == s[|s| - 1];
      if s[|s| - 1] < m then s[|s| - 1] else m
  }

  /** Line `j` of the slice normal to `i` through `b` has points of `l1` on both sides of `b`. */
  function LineBrackets(l1: seq<Cell>, b: Cell, i: nat, j: nat): bool
    requires i < 3 && j < 2
  {
    var colin := Colinear(Coplanar(l1, b, i), b, FixedAxis(i, j), CheckAxis(i, j));
    var v := Coord(b, CheckAxis(i, j));
    !(|colin| == 0 || Max(colin) <= v || Min(colin) >= v)
  }

  /** Some axis `i < n` gives a slice through `b` where both lines bracket `b`. */
  function SomeAxis(l1: seq<Cell>, b: Cell, n: nat): bool
    requires n <= 3
  {
    n > 0 && (SomeAxis(l1, b, n - 1) || (LineBrackets(l1, b, n - 1, 0) && LineBrackets(l1, b, n - 1, 1)))
  }

  /** Some location of `l0` is bracketed by `l1` in some slice. */
  function SomeLocation(l0: seq<Cell>, l1: seq<Cell>): bool
  {
    l0 != [] && (SomeLocation(l0[..|l0| - 1], l1) || SomeAxis(l1, l0[|l0| - 1], 3))
  }

  /** Whether entity 0 is inside entity 1. Entities after the first two only matter when they have no locations. */
  function CheckInside(entities: seq<Option<seq<Cell>>>): bool
    requires |entities| >= 2
  {
    entities[0].Some? && entities[1].Some? &&
    (forall e :: e in entities ==> e.Some?) &&
    SomeLocation(entities[0].value, entities[1].value)
  }

  /**
   * The geometric reading of line `j`: `l1` has a point strictly below and a
   * point strictly above `b` along the checked axis, on the line through `b`
   * inside the slice normal to `i`.
   */
  ghost predicate Bracketed(l1: seq<Cell>, b: Cell, i: nat, j: nat)
    requires i < 3 && j < 2
  {
    var f, k := FixedAxis(i, j), CheckAxis(i, j);
    (exists p :: p in l1 && Coord(p, i) == Coord(b, i) && Coord(p, f) == Coord(b, f) && Coord(p, k) < Coord(b, k)) &&
    (exists q :: q in l1 && Coord(q, i) == Coord(b, i) && Coord(q, f) == Coord(b, f) && Coord(q, k) > Coord(b, k))
  }

  /** The max/min test of one line is exactly strict bracketing. */
  lemma LineBracketsIff(l1: seq<Cell>, b: Cell, i: nat, j: nat)
    requires i < 3 && j < 2
    ensures LineBrackets(l1, b, i, j) <==> Bracketed(l1, b, i, j)
  {
    var f, k := FixedAxis(i, j), CheckAxis(i, j);
    var copl := Coplanar(l1, b, i);
    var colin := Colinear(copl, b, f, k);
    var v := Coord(b, k);
    if LineBrackets(l1, b, i, j) {
      var lo, hi := Min(colin), Max(colin);
      var p :| p in copl && Coord(p, f) == Coord(b, f) && Coord(p, k) == lo;
      var q :| q in copl && Coord(q, f) == Coord(b, f) && Coord(q, k) == hi;
      assert p in l1 && q in l1;
    }
    if Bracketed(l1, b, i, j) {
      var p :| p in l1 && Coord(p, i) == Coord(b, i) && Coord(p, f) == Coord(b, f) && Coord(p, k) < v;
      var q :| q in l1 && Coord(q, i) == Coord(b, i) && Coord(q, f) == Coord(b, f) && Coord(q, k) > v;
      assert p in copl && q in copl;
      assert Coord(p, k) in colin && Coord(q, k) in colin;
    }
  }

  /** Both lines of the slice through `b` normal to axis `i` bracket `b`. */
  ghost predicate AxisBracketed(l1: seq<Cell>, b: Cell, i: nat)
    requires i < 3
  {
    Bracketed(l1, b, i, 0) && Bracketed(l1, b, i, 1)
  }

  lemma {:induction false} SomeAxisIff(l1: seq<Cell>, b: Cell, n: nat)
    requires n <= 3
    ensures SomeAxis(l1, b, n) <==> exists i :: 0 <= i < n && AxisBracketed(l1, b, i)
  {
    if n > 0 {
      SomeAxisIff(l1, b, n - 1);
      LineBracketsIff(l1, b, n - 1, 0);
      LineBracketsIff(l1, b, n - 1, 1);
      if SomeAxis(l1, b, n) && !SomeAxis(l1, b, n - 1) {
        assert AxisBracketed(l1, b, n - 1);
      }
      if exists i :: 0 <= i < n && AxisBracketed(l1, b, i) {
        var i :| 0 <= i < n && AxisBracketed(l1, b, i);
        if i == n - 1 {
          assert LineBrackets(l1, b, n - 1, 0) && LineBrackets(l1, b, n - 1, 1);
        }
      }
    }
  }

  lemma {:induction false} SomeLocationIff(l0: seq<Cell>, l1: seq<Cell>)
    ensures SomeLocation(l0, l1) <==>
      exists b, i :: b in l0 && 0 <= i < 3 && AxisBracketed(l1, b, i)
  {
    if l0 != [] {
      var init, last := l0[..|l0| - 1], l0[|l0| - 1];
      SomeLocationIff(init, l1);
      SomeAxisIff(l1, last, 3);
      assert forall b :: b in l0 <==> b in init || b == last;
    }
  }

  /**
   * `check_inside` is false when any entity has no locations; otherwise it
   * holds iff some location b of entity 0 and some axis i give a slice through
   * b in which entity 1 strictly brackets b along both in-plane lines.
   */
  lemma CheckInsideIff(entities: seq<Option<seq<Cell>>>)
    requires |entities| >= 2
    ensures (exists e :: e in entities && e == None) ==> !CheckInside(entities)
    ensures (forall e :: e in entities ==> e.Some?) ==>
      entities[0].Some? && entities[1].Some? &&
      (CheckInside(entities) <==>
        exists b, i :: b in entities[0].value && 0 <= i < 3 && AxisBracketed(entities[1].value, b, i))
  {
    if forall e :: e in entities ==> e.Some? {
      assert entities[0] in entities && entities[1] in entities;
      SomeLocationIff(entities[0].value, entities[1].value);
    }
  }

  /** Two points of `l1` on the line, one on each side of `b`, witness bracketing. */
  lemma BracketedBy(l1: seq<Cell>, b: Cell, i: nat, j: nat, p: Cell, q: Cell)
    requires i < 3 && j < 2 && p in l1 && q in l1
    requires Coord(p, i) == Coord(b, i) && Coord(p, FixedAxis(i, j)) == Coord(b, FixedAxis(i, j))
    requires Coord(q, i) == Coord(b, i) && Coord(q, FixedAxis(i, j)) == Coord(b, FixedAxis(i, j))
    requires Coord(p, CheckAxis(i, j)) < Coord(b, CheckAxis(i, j)) < Coord(q, CheckAxis(i, j))
    ensures Bracketed(l1, b, i, j)
  {
  }

  /** A 3x3 square ring in the plane z = 0, without its centre (1, 1, 0). */
  function Ring(): seq<Cell>
  {
    [(0, 0, 0), (1, 0, 0), (2, 0, 0), (0, 1, 0), (2, 1, 0), (0, 2, 0), (1, 2, 0), (2, 2, 0)]
  }

  /** The centre of the ring is inside it. */
  lemma RingCentreInside(ring: seq<Cell>, centre: Cell)
    requires ring == Ring() && centre == (1, 1, 0)
    ensures CheckInside([Some([centre]), Some(ring)])
  {
    assert ring[3] == (0, 1, 0) && ring[4] == (2, 1, 0);
    BracketedBy(ring, centre, 2, 0, ring[3], ring[4]);
    assert ring[1] == (1, 0, 0) && ring[6] == (1, 2, 0);
    BracketedBy(ring, centre, 2, 1, ring[1], ring[6]);
    var es := [Some([centre]), Some(ring)];
    assert forall e :: e in es ==> e.Some?;
    CheckInsideIff(es);
    assert centre in es[0].value && AxisBracketed(es[1].value, centre, 2);
  }

  /** Every location of `l1` lies strictly on one side of `b` along axis `a`. */
  ghost predicate Beyond(l1: seq<Cell>, b: Cell, a: nat)
    requires a < 3
  {
    (forall q :: q in l1 ==> Coord(q, a) < Coord(b, a)) ||
    (forall q :: q in l1 ==> Coord(b, a) < Coord(q, a))
  }

  /**
   * A point bracketed along one line of a slice is not beyond `l1` on any
   * axis: on the slice axis and the fixed axis it shares its coordinate with a
   * point of `l1`, and on the checked axis it lies between two of them.
   */
  lemma BracketedNotBeyond(l1: seq<Cell>, b: Cell, i: nat, j: nat, a: nat)
    requires i < 3 && j < 2 && a < 3
    ensures Bracketed(l1, b, i, j) ==> !Beyond(l1, b, a)
  {
    if Bracketed(l1, b, i, j) {
      var f, k := FixedAxis(i, j), CheckAxis(i, j);
      var p :| p in l1 && Coord(p, i) == Coord(b, i) && Coord(p, f) == Coord(b, f) && Coord(p, k) < Coord(b, k);
      var q :| q in l1 && Coord(q, i) == Coord(b, i) && Coord(q, f) == Coord(b, f) && Coord(q, k) > Coord(b, k);
      SliceAxes(i);
      assert a == i || a == f || a == k;
      assert Coord(p, a) <= Coord(b, a) <= Coord(q, a);
    }
  }

  /**
   * A point outside the bounding box of entity 1, that is beyond all of its
   * locations along some axis, is never inside it.
   */
  lemma OutsideBoxNotInside(l1: seq<Cell>, p: Cell, a: nat)
    requires a < 3 && Beyond(l1, p, a)
    ensures !Keep(l1, p)
  {
    BracketedNotBeyond(l1, p, 0, 0, a);
    BracketedNotBeyond(l1, p, 1, 0, a);
    BracketedNotBeyond(l1, p, 2, 0, a);
    SomeLocationIff([p], l1);
  }

  function Lower(l: seq<Cell>): (m: Cell)
    requires |l| > 0
    ensures forall c :: c in l ==> m.0 <= c.0 && m.1 <= c.1 && m.2 <= c.2
  {
    if |l| == 1 then l[0]
    else
      var m := Lower(l[..|l| - 1]);
      var c := l[|l| - 1];
      assert forall x :: x in l ==> x in l[..|l| - 1] || x == c;
      (if c.0 < m.0 then c.0 else m.0, if c.1 < m.1 then c.1 else m.1, if c.2 < m.2 then c.2 else m.2)
  }

  function Upper(l: seq<Cell>): (m: Cell)
    requires |l| > 0
    ensures forall c :: c in l ==> c.0 <= m.0 && c.1 <= m.1 && c.2 <= m.2
  {
    if |l| == 1 then l[0]
    else
      var m := Upper(l[..|l| - 1]);
      var c := l[|l| - 1];
      assert forall x :: x in l ==> x in l[..|l| - 1] || x == c;
      (if c.0 > m.0 then c.0 else m.0, if c.1 > m.1 then c.1 else m.1, if c.2 > m.2 then c.2 else m.2)
  }

  predicate InBounds(lo: Cell, hi: Cell, c: Cell)
  {
    lo.0 <= c.0 <= hi.0 && lo.1 <= c.1 <= hi.1 && lo.2 <= c.2 <= hi.2
  }

  /** The scan keeps the point `c` when it is inside the entity with locations `l`. */
  predicate Keep(l: seq<Cell>, c: Cell)
  {
    CheckInside([Some([c]), Some(l)])
  }

  /** Strictly increasing in the (x, y, z) scan order. */
  predicate Increasing(s: seq<Cell>)
  {
    forall p, q :: 0 <= p < q < |s| ==> LexLess(s[p], s[q])
  }

  /** The scan state before position `pos`: exactly the kept box cells before `pos`, in scan order. */
  ghost predicate ScanOut(l: seq<Cell>, lo: Cell, hi: Cell, out: seq<Cell>, pos: Cell)
  {
    (forall c :: c in out <==> InBounds(lo, hi, c) && LexLess(c, pos) && Keep(l, c)) &&
    (forall c :: c in out ==> LexLess(c, pos)) &&
    Increasing(out)
  }

  lemma ScanOutShift(l: seq<Cell>, lo: Cell, hi: Cell, out: seq<Cell>, pos: Cell, pos': Cell)
    requires ScanOut(l, lo, hi, out, pos)
    requires LexLess(pos, pos') || pos == pos'
    requires forall c :: InBounds(lo, hi, c) ==> (LexLess(c, pos) <==> LexLess(c, pos'))
    ensures ScanOut(l, lo, hi, out, pos')
  {
  }

  /** The innermost loop: z from lo.z to hi.z at fixed x and y. */
  method ScanLine(l: seq<Cell>, lo: Cell, hi: Cell, x: int, y: int, out0: seq<Cell>) returns (out: seq<Cell>)
    requires lo.0 <= x <= hi.0 && lo.1 <= y <= hi.1 && lo.2 <= hi.2
    requires ScanOut(l, lo, hi, out0, (x, y, lo.2))
    ensures ScanOut(l, lo, hi, out, (x, y + 1, lo.2))
  {
    out := out0;
    var z := lo.2;
    while z <= hi.2
      invariant lo.2 <= z <= hi.2 + 1
      invariant ScanOut(l, lo, hi, out, (x, y, z))
    {
      if Keep(l, (x, y, z)) {
        out := out + [(x, y, z)];
      }
      assert ScanOut(l, lo, hi, out, (x, y, z + 1));
      z := z + 1;
    }
    ScanOutShift(l, lo, hi, out, (x, y, hi.2 + 1), (x, y + 1, lo.2));
  }

  /** The middle loop: y from lo.y to hi.y at fixed x. */
  method ScanPlane(l: seq<Cell>, lo: Cell, hi: Cell, x: int, out0: seq<Cell>) returns (out: seq<Cell>)
    requires lo.0 <= x <= hi.0 && lo.1 <= hi.1 && lo.2 <= hi.2
    requires ScanOut(l, lo, hi, out0, (x, lo.1, lo.2))
    ensures ScanOut(l, lo, hi, out, (x + 1, lo.1, lo.2))
  {
    out := out0;
    var y := lo.1;
    while y <= hi.1
      invariant lo.1 <= y <= hi.1 + 1
      invariant ScanOut(l, lo, hi, out, (x, y, lo.2))
    {
      out := ScanLine(l, lo, hi, x, y, out);
      y := y + 1;
    }
    ScanOutShift(l, lo, hi, out, (x, hi.1 + 1, lo.2), (x + 1, lo.1, lo.2));
  }

  /**
   * What `find_inside` yields: nothing for an entity without locations, the
   * ValueError numpy raises for the bounds of an empty location list, or the
   * points found inside.
   */
  datatype InsideResult = NoLocations | EmptyLocations | Points(pts: seq<Cell>)

  /**
   * The points of the entity's bounding box that are inside the entity, in
   * (x, y, z) scan order.
   */
  method FindInside(entity: Option<seq<Cell>>) returns (r: InsideResult)
    ensures r == NoLocations <==> entity == None
    ensures r == EmptyLocations <==> entity == Some([])
    ensures r.Points? ==>
      var l := entity.value;
      |l| > 0 &&
      (forall c :: c in r.pts <==> InBounds(Lower(l), Upper(l), c) && Keep(l, c)) &&
      Increasing(r.pts)
  {
    if entity == None {
      return NoLocations;
    }
    if entity.value == [] {
      return EmptyLocations;
    }
    var l := entity.value;
    var lo, hi := Lower(l), Upper(l);
    assert InBounds(lo, hi, l[0]);
    var out: seq<Cell> := [];
    var x := lo.0;
    while x <= hi.0
      invariant lo.0 <= x <= hi.0 + 1
      invariant ScanOut(l, lo, hi, out, (x, lo.1, lo.2))
    {
      out := ScanPlane(l, lo, hi, x, out);
      x := x + 1;
    }
    r := Points(out);
  }
}
