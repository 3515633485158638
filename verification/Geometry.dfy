// Points and minimum bounding rectangles (src/geometry.c).  A double is a real number here.
module Geometry {

  /** The largest finite double, (2 - 2^-52) * 2^1023. */
  const DBL_MAX: real := 179769313486231570814527423731704356798070567525844996598917476803157260780028538760589558632766878171540458953514382464234321326889464182768467546703537516986049910576551282076245490090389328944075868508455133942304583236903222948165808559332123348274797826204144723168738177180919299881250404026184124858368.0

  function Pow2(n: nat): (p: nat)
    ensures p > 0
  {
    if n == 0 then 1 else 2 * Pow2(n - 1)
  }

  lemma {:induction false} Pow2Sum(a: nat, b: nat)
    ensures Pow2(a + b) == Pow2(a) * Pow2(b)
  {
    if a > 0 {
      Pow2Sum(a - 1, b);
      assert Pow2(a + b) == 2 * Pow2(a - 1 + b);
    }
  }

  lemma SmallPowers()
    ensures Pow2(3) == 8 && Pow2(5) == 32 && Pow2(8) == 256
  {
    assert Pow2(8) == 2 * (2 * (2 * Pow2(5)));
  }

  /** A significand of 53 ones, with the largest exponent there is. */
  lemma LargestDouble()
    ensures DBL_MAX == ((Pow2(53) - 1) * Pow2(971)) as real
  {
    hide Pow2;
    SmallPowers();
    Pow2Sum(8, 8);
    Pow2Sum(16, 16);
    Pow2Sum(32, 32);
    Pow2Sum(64, 64);
    Pow2Sum(128, 128);
    Pow2Sum(256, 256);
    Pow2Sum(512, 256);
    Pow2Sum(768, 128);
    Pow2Sum(896, 64);
    Pow2Sum(960, 8);
    Pow2Sum(968, 3);
    Pow2Sum(32, 16);
    Pow2Sum(48, 5);
  }

  datatype Point = Point(x: real, y: real)

  datatype MBR = MBR(minX: real, minY: real, maxX: real, maxY: real)

  /** Coordinates a finite double can hold. */
  predicate Finite(p: Point) {
    -DBL_MAX <= p.x <= DBL_MAX && -DBL_MAX <= p.y <= DBL_MAX
  }

  function DistSq(a: Point, b: Point): real {
    (b.x - a.x) * (b.x - a.x) + (b.y - a.y) * (b.y - a.y)
  }

  const EMPTY_MBR: MBR := MBR(DBL_MAX, DBL_MAX, -DBL_MAX, -DBL_MAX)

  function PointMBR(p: Point): MBR { MBR(p.x, p.y, p.x, p.y) }

  predicate IsEmpty(b: MBR) { b.minX > b.maxX || b.minY > b.maxY }

  function ExpandPoint(b: MBR, p: Point): MBR {
    MBR(if p.x < b.minX then p.x else b.minX, if p.y < b.minY then p.y else b.minY,
        if p.x > b.maxX then p.x else b.maxX, if p.y > b.maxY then p.y else b.maxY)
  }

  function ExpandMBR(b: MBR, o: MBR): MBR {
    if IsEmpty(o) then b
    else MBR(if o.minX < b.minX then o.minX else b.minX, if o.minY < b.minY then o.minY else b.minY,
             if o.maxX > b.maxX then o.maxX else b.maxX, if o.maxY > b.maxY then o.maxY else b.maxY)
  }

  predicate Intersects(a: MBR, b: MBR) {
    && !IsEmpty(a) && !IsEmpty(b)
    && !(a.maxX < b.minX || a.minX > b.maxX || a.maxY < b.minY || a.minY > b.maxY)
  }

  predicate ContainsPoint(b: MBR, p: Point) {
    && !IsEmpty(b)
    && p.x >= b.minX && p.x <= b.maxX && p.y >= b.minY && p.y <= b.maxY
  }

  predicate ContainsMBR(a: MBR, b: MBR) {
    && !IsEmpty(a) && !IsEmpty(b)
    && b.minX >= a.minX && b.maxX <= a.maxX && b.minY >= a.minY && b.maxY <= a.maxY
  }

  function Center(b: MBR): Point {
    if IsEmpty(b) then Point(0.0, 0.0)
    else Point((b.minX + b.maxX) / 2.0, (b.minY + b.maxY) / 2.0)
  }

  function Area(b: MBR): real {
    if IsEmpty(b) then 0.0 else (b.maxX - b.minX) * (b.maxY - b.minY)
  }

  function Max(a: real, b: real): real { if a < b then b else a }

  function Min(a: real, b: real): real { if a < b then a else b }

  function Intersection(a: MBR, b: MBR): MBR {
    if !Intersects(a, b) then EMPTY_MBR
    else MBR(Max(a.minX, b.minX), Max(a.minY, b.minY), Min(a.maxX, b.maxX), Min(a.maxY, b.maxY))
  }

  function Union(a: MBR, b: MBR): MBR {
    if IsEmpty(a) then b
    else if IsEmpty(b) then a
    else MBR(Min(a.minX, b.minX), Min(a.minY, b.minY), Max(a.maxX, b.maxX), Max(a.maxY, b.maxY))
  }

  // What the rectangle tests mean for the points the rectangles contain.

  /** Two rectangles intersect exactly when they share a point. */
  lemma IntersectsMeansSharedPoint(a: MBR, b: MBR)
    ensures Intersects(a, b) <==> exists p :: ContainsPoint(a, p) && ContainsPoint(b, p)
  {
    if Intersects(a, b) {
      var p := Point(Max(a.minX, b.minX), Max(a.minY, b.minY));
      assert ContainsPoint(a, p) && ContainsPoint(b, p);
    }
  }

  /** Containment of rectangles is containment of their points, and nothing contains an empty one. */
  lemma ContainsMeansSubset(a: MBR, b: MBR)
    ensures ContainsMBR(a, b) <==> !IsEmpty(b) && forall p | ContainsPoint(b, p) :: ContainsPoint(a, p)
  {
    if !IsEmpty(b) && forall p | ContainsPoint(b, p) :: ContainsPoint(a, p) {
      assert ContainsPoint(b, Point(b.minX, b.minY));
      assert ContainsPoint(b, Point(b.maxX, b.maxY));
    }
  }

  /** The intersection of two rectangles holds exactly their common points. */
  lemma IntersectionMeansCommonPoints(a: MBR, b: MBR, p: Point)
    ensures ContainsPoint(Intersection(a, b), p) <==> ContainsPoint(a, p) && ContainsPoint(b, p)
  {
    IntersectsMeansSharedPoint(a, b);
  }

  /** The union is the least rectangle around those of its arguments that are not empty; expanding in place
      computes the same. */
  lemma UnionIsLeastUpperBound(a: MBR, b: MBR, c: MBR)
    ensures IsEmpty(Union(a, b)) <==> IsEmpty(a) && IsEmpty(b)
    ensures !IsEmpty(Union(a, b)) ==>
      (ContainsMBR(c, Union(a, b)) <==> (IsEmpty(a) || ContainsMBR(c, a)) && (IsEmpty(b) || ContainsMBR(c, b)))
    ensures !IsEmpty(a) ==> Union(a, b) == ExpandMBR(a, b)
  {
  }

  // What distances, centres and areas mean.

  function Turned(p: Point, c: real, s: real): Point { Point(c * p.x - s * p.y, s * p.x + c * p.y) }

  lemma Square(a: real, b: real, c: real, s: real)
    requires c * c + s * s == 1.0
    ensures (c * a - s * b) * (c * a - s * b) + (s * a + c * b) * (s * a + c * b) == a * a + b * b
  {
    assert (c * a - s * b) * (c * a - s * b) == c * c * a * a - 2.0 * (c * a * s * b) + s * s * b * b;
    assert (s * a + c * b) * (s * a + c * b) == s * s * a * a + 2.0 * (c * a * s * b) + c * c * b * b;
    var aa, bb := a * a, b * b;
    assert c * c * aa + s * s * aa == (c * c + s * s) * aa;
    assert s * s * bb + c * c * bb == (s * s + c * c) * bb;
  }

  /** Distance keeps under every shift and turn of the plane, and along the x axis it is the difference. */
  lemma DistSqIsEuclidean(p: Point, q: Point, t: Point, c: real, s: real)
    requires c * c + s * s == 1.0
    ensures DistSq(Point(p.x + t.x, p.y + t.y), Point(q.x + t.x, q.y + t.y)) == DistSq(p, q)
    ensures DistSq(Turned(p, c, s), Turned(q, c, s)) == DistSq(p, q)
    ensures p.y == q.y ==> DistSq(p, q) == (p.x - q.x) * (p.x - q.x)
  {
    var a, b := q.x - p.x, q.y - p.y;
    assert Turned(q, c, s).x - Turned(p, c, s).x == c * a - s * b;
    assert Turned(q, c, s).y - Turned(p, c, s).y == s * a + c * b;
    Square(a, b, c, s);
  }

  /** The centre of a rectangle lies in it, as far from one edge as from the opposite one. */
  lemma CenterIsMiddle(b: MBR)
    requires !IsEmpty(b)
    ensures ContainsPoint(b, Center(b))
    ensures Center(b).x - b.minX == b.maxX - Center(b).x && Center(b).y - b.minY == b.maxY - Center(b).y
  {
  }

  /** Area is base times height, of a rectangle given by its corner and its sides. */
  lemma AreaIsProduct(x: real, y: real, width: real, height: real)
    requires width >= 0.0 && height >= 0.0
    ensures Area(MBR(x, y, x + width, y + height)) == width * height
  {
  }
}
