/**
 Axis-aligned boxes over exact reals: merging, intersecting, and the slab test for a segment.
 */
module Aabb {

  datatype Vector3 = Vector3(x: real, y: real, z: real) {
    function Coord(i: nat): (r: real)
      requires i < 3
    {
      if i == 0 then x else if i == 1 then y else z
    }

    function Plus(v: Vector3): (r: Vector3)
    {
      Vector3(x + v.x, y + v.y, z + v.z)
    }

    function Minus(v: Vector3): (r: Vector3)
    {
      Vector3(x - v.x, y - v.y, z - v.z)
    }

    function Scaled(t: real): (r: Vector3)
    {
      Vector3(x * t, y * t, z * t)
    }
  }

  const ZERO := Vector3(0.0, 0.0, 0.0)

  datatype Box = Box(position: Vector3, size: Vector3) {
    function End(): (e: Vector3)
    {
      position.Plus(size)
    }

    predicate NonNegative()
    {
      size.x >= 0.0 && size.y >= 0.0 && size.z >= 0.0
    }

    predicate Contains(p: Vector3)
    {
      && position.x <= p.x <= End().x
      && position.y <= p.y <= End().y
      && position.z <= p.z <= End().z
    }

    predicate Encloses(b: Box)
    {
      && position.x <= b.position.x && b.End().x <= End().x
      && position.y <= b.position.y && b.End().y <= End().y
      && position.z <= b.position.z && b.End().z <= End().z
    }

    function Merge(b: Box): (r: Box)
    {
      var min := Vector3(Min(position.x, b.position.x), Min(position.y, b.position.y), Min(position.z, b.position.z));
      var max := Vector3(Max(End().x, b.End().x), Max(End().y, b.End().y), Max(End().z, b.End().z));
      Box(min, max.Minus(min))
    }

    // The empty box at the origin when the boxes are apart on some axis.
    function Intersection(b: Box): (r: Box)
    {
      if Apart(b) then Box(ZERO, ZERO)
      else
        var min := Vector3(Max(position.x, b.position.x), Max(position.y, b.position.y), Max(position.z, b.position.z));
        var max := Vector3(Min(End().x, b.End().x), Min(End().y, b.End().y), Min(End().z, b.End().z));
        Box(min, max.Minus(min))
    }

    predicate Apart(b: Box)
    {
      || position.x > b.End().x || End().x < b.position.x
      || position.y > b.End().y || End().y < b.position.y
      || position.z > b.End().z || End().z < b.position.z
    }
  }

  // A box is empty exactly when a side is negative; otherwise it holds its corner.
  lemma HoldsCornerIff(b: Box)
    ensures b.NonNegative() <==> b.Contains(b.position)
  {
  }

  function Min(a: real, b: real): real { if a < b then a else b }

  function Max(a: real, b: real): real { if a > b then a else b }

  // ---- merging is a join ----

  // The merged box is the least box that encloses both, so it does not depend on order or grouping.
  lemma MergeIsLeastUpperBound(a: Box, b: Box)
    ensures a.Merge(b).Encloses(a) && a.Merge(b).Encloses(b)
    ensures forall c: Box :: c.Encloses(a) && c.Encloses(b) ==> c.Encloses(a.Merge(b))
  {
  }

  lemma EnclosesAntisymmetric(a: Box, b: Box)
    requires a.Encloses(b) && b.Encloses(a)
    ensures a == b
  {
  }

  lemma MergeLaws(a: Box, b: Box, c: Box)
    ensures a.Merge(b) == b.Merge(a)
    ensures a.Merge(b).Merge(c) == a.Merge(b.Merge(c))
    ensures a.Merge(a) == a
  {
    EnclosesAntisymmetric(a.Merge(b).Merge(c), a.Merge(b.Merge(c)));
    EnclosesAntisymmetric(a.Merge(b), b.Merge(a));
    EnclosesAntisymmetric(a.Merge(a), a);
  }

  // Folding a list of boxes into a start box.
  function MergeAll(b: Box, s: seq<Box>): (r: Box)
    ensures b.NonNegative() && (forall x :: x in s ==> x.NonNegative()) ==> r.NonNegative()
  {
    if s == [] then b else MergeAll(b, s[..|s| - 1]).Merge(s[|s| - 1])
  }

  lemma MergeAllNothing(b: Box)
    ensures MergeAll(b, []) == b
  {
  }

  lemma MergeAllMore(b: Box, s: seq<Box>, x: Box)
    ensures MergeAll(b, s + [x]) == MergeAll(b, s).Merge(x)
  {
  }

  // The result is the least box enclosing the start and every box of the list.
  lemma {:induction false} MergeAllLeast(b: Box, s: seq<Box>, c: Box)
    ensures c.Encloses(MergeAll(b, s)) <==> c.Encloses(b) && forall x :: x in s ==> c.Encloses(x)
  {
    if s == [] {
    } else {
      var rest, x := s[..|s| - 1], s[|s| - 1];
      MergeAllLeast(b, rest, c);
      assert s == rest + [x];
      var m := MergeAll(b, rest);
      assert c.Encloses(m.Merge(x)) <==> c.Encloses(m) && c.Encloses(x);
    }
  }

  // So two listings of the same boxes, in whatever order, give the same box.
  lemma MergeAllOrderIndependent(b: Box, s: seq<Box>, t: seq<Box>)
    requires forall x :: x in s <==> x in t
    ensures MergeAll(b, s) == MergeAll(b, t)
  {
    MergeAllLeast(b, s, MergeAll(b, s));
    MergeAllLeast(b, t, MergeAll(b, s));
    MergeAllLeast(b, s, MergeAll(b, t));
    MergeAllLeast(b, t, MergeAll(b, t));
    EnclosesAntisymmetric(MergeAll(b, s), MergeAll(b, t));
  }

  // ---- intersection ----

  // The intersection holds exactly the common points if and only if the boxes are not apart; the box
  // returned for boxes that are apart still contains the origin.
  lemma IntersectionExact(a: Box, b: Box)
    requires a.NonNegative() && b.NonNegative()
    ensures (forall p: Vector3 :: a.Intersection(b).Contains(p) <==> a.Contains(p) && b.Contains(p)) <==> !a.Apart(b)
    ensures a.Apart(b) ==> forall p: Vector3 :: !(a.Contains(p) && b.Contains(p))
  {
    if a.Apart(b) {
      assert a.Intersection(b).Contains(ZERO);
      assert !(a.Contains(ZERO) && b.Contains(ZERO));
    }
  }

  // ---- segment test ----

  function At(from: Vector3, to: Vector3, t: real): (p: Vector3)
  {
    from.Plus(to.Minus(from).Scaled(t))
  }

  // The point at parameter t of the segment, on one axis.
  function AtAxis(f: real, g: real, t: real): (r: real)
  {
    f + (g - f) * t
  }

  predicate Inside(box: Box, from: Vector3, to: Vector3, i: nat, t: real)
    requires i < 3
  {
    box.position.Coord(i) <= AtAxis(from.Coord(i), to.Coord(i), t) <= box.position.Coord(i) + box.size.Coord(i)
  }

  lemma ProductSign(a: real, b: real)
    ensures a >= 0.0 && b >= 0.0 ==> a * b >= 0.0
    ensures a > 0.0 && b > 0.0 ==> a * b > 0.0
  {
  }

  lemma QuotientAbove(x: real, l: real, t: real)
    requires l > 0.0
    ensures x / l <= t <==> x <= l * t
    ensures t <= x / l <==> l * t <= x
  {
  }

  lemma QuotientBelow(x: real, l: real, t: real)
    requires l < 0.0
    ensures x / l <= t <==> l * t <= x
    ensures t <= x / l <==> x <= l * t
  {
  }

  lemma BetweenEnds(f: real, g: real, t: real)
    requires 0.0 <= t <= 1.0
    ensures f <= g ==> f <= AtAxis(f, g, t) <= g
    ensures g <= f ==> g <= AtAxis(f, g, t) <= f
  {
    ProductSign(g - f, t);
    ProductSign(f - g, t);
    ProductSign(g - f, 1.0 - t);
    ProductSign(f - g, 1.0 - t);
    assert (g - f) * (1.0 - t) == (g - f) - (g - f) * t;
    assert (f - g) * (1.0 - t) == (f - g) + (g - f) * t;
    assert (f - g) * t == -((g - f) * t);
  }

  datatype Slab = Missed | Hit(cmin: real, cmax: real, csign: real)

  // One axis of the test: the parameters at which the segment is between the two planes.
  function Clip(f: real, g: real, lo: real, hi: real): (r: Slab)
    requires lo <= hi
  {
    if f < g then
      if f > hi || g < lo then Missed
      else Hit(if f < lo then (lo - f) / (g - f) else 0.0, if g > hi then (hi - f) / (g - f) else 1.0, -1.0)
    else
      if g > hi || f < lo then Missed
      else Hit(if f > hi then (hi - f) / (g - f) else 0.0, if g < lo then (lo - f) / (g - f) else 1.0, 1.0)
  }

  // The quotient c = x / l is where a segment that changes by l has changed by x.
  lemma ClipExactUp(f: real, g: real, lo: real, hi: real, t: real)
    requires lo <= hi && 0.0 <= t <= 1.0 && f < g
    ensures var c := Clip(f, g, lo, hi);
            lo <= AtAxis(f, g, t) <= hi <==> c.Hit? && c.cmin <= t <= c.cmax
  {
    BetweenEnds(f, g, t);
    QuotientAbove(lo - f, g - f, t);
    QuotientAbove(hi - f, g - f, t);
  }

  lemma ClipExactDown(f: real, g: real, lo: real, hi: real, t: real)
    requires lo <= hi && 0.0 <= t <= 1.0 && g < f
    ensures var c := Clip(f, g, lo, hi);
            lo <= AtAxis(f, g, t) <= hi <==> c.Hit? && c.cmin <= t <= c.cmax
  {
    BetweenEnds(f, g, t);
    QuotientBelow(lo - f, g - f, t);
    QuotientBelow(hi - f, g - f, t);
  }

  lemma ClipExact(f: real, g: real, lo: real, hi: real, t: real)
    requires lo <= hi && 0.0 <= t <= 1.0
    ensures var c := Clip(f, g, lo, hi);
            lo <= AtAxis(f, g, t) <= hi <==> c.Hit? && c.cmin <= t <= c.cmax
  {
    if f < g {
      ClipExactUp(f, g, lo, hi, t);
    } else if g < f {
      ClipExactDown(f, g, lo, hi, t);
    }
  }

  lemma ClipRange(f: real, g: real, lo: real, hi: real)
    requires lo <= hi && Clip(f, g, lo, hi).Hit?
    ensures var c := Clip(f, g, lo, hi);
            && 0.0 <= c.cmin && c.cmax <= 1.0
            && (c.csign == -1.0 || c.csign == 1.0)
            && (c.cmin > 0.0 ==> AtAxis(f, g, c.cmin) == if c.csign == -1.0 then lo else hi)
            && (c.cmin > 0.0 ==> if c.csign == -1.0 then f < g else g < f)
  {
    if f < g {
      QuotientAbove(lo - f, g - f, 0.0);
      QuotientAbove(hi - f, g - f, 1.0);
      assert f < lo ==> (g - f) * ((lo - f) / (g - f)) == lo - f;
    } else if g < f {
      QuotientBelow(hi - f, g - f, 0.0);
      QuotientBelow(lo - f, g - f, 1.0);
      assert f > hi ==> (g - f) * ((hi - f) / (g - f)) == hi - f;
    }
  }

  // True exactly when some point of the segment lies in the box; the reported point is the first such
  // point, and the reported normal belongs to the face through which the segment comes in.
  method IntersectsSegment(box: Box, from: Vector3, to: Vector3) returns (hit: bool, point: Vector3, normal: Vector3)
    requires box.NonNegative()
    ensures hit <==> exists t: real :: 0.0 <= t <= 1.0 && box.Contains(At(from, to, t))
    ensures hit ==> exists t: real ::
              && 0.0 <= t <= 1.0 && point == At(from, to, t) && box.Contains(point)
              && (forall u: real :: 0.0 <= u < t ==> !box.Contains(At(from, to, u)))
              && (t == 0.0 ==> normal == ZERO)
              && (t > 0.0 ==> EntersThrough(box, from, to, point, normal))
  {
    hide Clip, At, AtAxis, Inside, InsideUpTo, AtFace, EntersThrough;
    var min, max: real := 0.0, 1.0;
    var axis: nat, sign := 0, 0.0;
    point, normal := ZERO, ZERO;
    InsideNone(box, from, to);
    var i := 0;
    while i < 3
      invariant 0 <= i <= 3 && axis < 3 && 0.0 <= min <= max <= 1.0
      invariant forall t: real :: 0.0 <= t <= 1.0 ==> (min <= t <= max <==> InsideUpTo(box, from, to, i, t))
      invariant if min == 0.0 then sign == 0.0 else AtFace(box, from, to, axis, sign, min)
    {
      var boxBegin := box.position.Coord(i);
      var boxEnd := boxBegin + box.size.Coord(i);
      ghost var next := i + 1;
      InsideNext(box, from, to, i, next);
      match Clip(from.Coord(i), to.Coord(i), boxBegin, boxEnd) {
        case Missed =>
          NoHitUpTo(box, from, to, next);
          return false, point, normal;
        case Hit(cmin, cmax, csign) =>
          if cmin > min {
            min, axis, sign := cmin, i, csign;
          }
          if cmax < max {
            max := cmax;
          }
          if max < min {
            NoHitUpTo(box, from, to, next);
            return false, point, normal;
          }
      }
      i := i + 1;
    }
    normal := Unit(axis, sign);
    point := At(from, to, min);
    hit := true;
    AllAxes(box, from, to);
    if min > 0.0 {
      FaceEntered(box, from, to, axis, sign, min);
    } else {
      ZeroUnit(axis);
    }
    assert box.Contains(At(from, to, min));
  }

  // The zero vector with one coordinate set.
  function Unit(axis: nat, sign: real): (r: Vector3)
    requires axis < 3
  {
    if axis == 0 then Vector3(sign, 0.0, 0.0)
    else if axis == 1 then Vector3(0.0, sign, 0.0)
    else Vector3(0.0, 0.0, sign)
  }

  lemma ZeroUnit(axis: nat)
    requires axis < 3
    ensures Unit(axis, 0.0) == ZERO
  {
  }

  predicate InsideUpTo(box: Box, from: Vector3, to: Vector3, n: nat, t: real)
  {
    && (n > 0 ==> Inside(box, from, to, 0, t))
    && (n > 1 ==> Inside(box, from, to, 1, t))
    && (n > 2 ==> Inside(box, from, to, 2, t))
  }

  lemma InsideNone(box: Box, from: Vector3, to: Vector3)
    ensures forall t: real :: InsideUpTo(box, from, to, 0, t)
  {
  }

  // One more axis restricts the parameters to those its clip allows.
  lemma InsideNext(box: Box, from: Vector3, to: Vector3, i: nat, n: nat)
    requires i < 3 && n == i + 1 && box.NonNegative()
    ensures var lo := box.position.Coord(i);
            var c := Clip(from.Coord(i), to.Coord(i), lo, lo + box.size.Coord(i));
            && (forall t: real :: 0.0 <= t <= 1.0 ==>
                  (InsideUpTo(box, from, to, n, t) <==>
                     InsideUpTo(box, from, to, i, t) && c.Hit? && c.cmin <= t <= c.cmax))
            && (c.Hit? ==> 0.0 <= c.cmin && c.cmax <= 1.0)
            && (c.Hit? && c.cmin > 0.0 ==> AtFace(box, from, to, i, c.csign, c.cmin))
  {
    hide Clip, AtAxis;
    var f, g, lo := from.Coord(i), to.Coord(i), box.position.Coord(i);
    var hi := lo + box.size.Coord(i);
    var c := Clip(f, g, lo, hi);
    if c.Hit? {
      ClipRange(f, g, lo, hi);
    }
    forall t: real | 0.0 <= t <= 1.0
      ensures InsideUpTo(box, from, to, n, t) <==>
                InsideUpTo(box, from, to, i, t) && c.Hit? && c.cmin <= t <= c.cmax
    {
      ClipExact(f, g, lo, hi, t);
    }
  }

  // At parameter t the segment is on the begin plane (sign -1) or the end plane (sign 1) of an axis, and comes in.
  ghost predicate AtFace(box: Box, from: Vector3, to: Vector3, axis: nat, sign: real, t: real)
    requires axis < 3
  {
    && (sign == -1.0 || sign == 1.0)
    && AtAxis(from.Coord(axis), to.Coord(axis), t) ==
       (if sign == -1.0 then box.position.Coord(axis) else box.position.Coord(axis) + box.size.Coord(axis))
    && if sign == -1.0 then from.Coord(axis) < to.Coord(axis) else to.Coord(axis) < from.Coord(axis)
  }

  // The normal is the outward unit normal of a face, the point lies on that face, and the segment runs against
  // the normal.
  ghost predicate EntersThrough(box: Box, from: Vector3, to: Vector3, point: Vector3, normal: Vector3)
  {
    || (normal == Vector3(-1.0, 0.0, 0.0) && point.x == box.position.x && from.x < to.x)
    || (normal == Vector3(1.0, 0.0, 0.0) && point.x == box.End().x && to.x < from.x)
    || (normal == Vector3(0.0, -1.0, 0.0) && point.y == box.position.y && from.y < to.y)
    || (normal == Vector3(0.0, 1.0, 0.0) && point.y == box.End().y && to.y < from.y)
    || (normal == Vector3(0.0, 0.0, -1.0) && point.z == box.position.z && from.z < to.z)
    || (normal == Vector3(0.0, 0.0, 1.0) && point.z == box.End().z && to.z < from.z)
  }

  lemma AllAxes(box: Box, from: Vector3, to: Vector3)
    ensures forall t: real :: box.Contains(At(from, to, t)) <==> InsideUpTo(box, from, to, 3, t)
  {
    forall t: real
      ensures box.Contains(At(from, to, t)) <==> InsideUpTo(box, from, to, 3, t)
    {
      var p := At(from, to, t);
      assert p.x == AtAxis(from.Coord(0), to.Coord(0), t);
      assert p.y == AtAxis(from.Coord(1), to.Coord(1), t);
      assert p.z == AtAxis(from.Coord(2), to.Coord(2), t);
    }
  }

  lemma FaceEntered(box: Box, from: Vector3, to: Vector3, axis: nat, sign: real, t: real)
    requires axis < 3 && AtFace(box, from, to, axis, sign, t)
    ensures EntersThrough(box, from, to, At(from, to, t), Unit(axis, sign))
  {
    AtCoord(from, to, t, axis);
    hide At, AtAxis;
    var p := At(from, to, t);
    if axis == 0 {
      assert p.x == p.Coord(0);
    } else if axis == 1 {
      assert p.y == p.Coord(1);
    } else {
      assert p.z == p.Coord(2);
    }
  }

  lemma AtCoord(from: Vector3, to: Vector3, t: real, i: nat)
    requires i < 3
    ensures At(from, to, t).Coord(i) == AtAxis(from.Coord(i), to.Coord(i), t)
  {
  }

  lemma NoHitUpTo(box: Box, from: Vector3, to: Vector3, n: nat)
    requires n <= 3 && forall t: real :: 0.0 <= t <= 1.0 ==> !InsideUpTo(box, from, to, n, t)
    ensures forall t: real :: 0.0 <= t <= 1.0 ==> !box.Contains(At(from, to, t))
  {
    AllAxes(box, from, to);
    forall t: real | 0.0 <= t <= 1.0
      ensures !box.Contains(At(from, to, t))
    {
      assert !InsideUpTo(box, from, to, n, t);
    }
  }
}
