// Derived geometry of rings and linestrings (src/geometry.c): signed area, centroids, bounding rectangles.
module Shapes {
  import opened Geometry
  import opened Seqs

  const EPSILON := 0.0000000001

  // ---------- Sums along the edges of a chain or ring ----------

  /** Sums e over consecutive points. */
  function Chain(e: (Point, Point) -> real, ps: seq<Point>): real {
    if |ps| < 2 then 0.0 else Chain(e, ps[..|ps| - 1]) + e(ps[|ps| - 2], ps[|ps| - 1])
  }

  /** Sums e over the edges of the closed ring. */
  function Around(e: (Point, Point) -> real, ps: seq<Point>): real
    requires ps != []
  {
    Chain(e, ps) + e(ps[|ps| - 1], ps[0])
  }

  function Cross(p: Point, q: Point): real { p.x * q.y - q.x * p.y }

  function MomentX(p: Point, q: Point): real { (p.x + q.x) * Cross(p, q) }

  function MomentY(p: Point, q: Point): real { (p.y + q.y) * Cross(p, q) }

  function SignedArea(ring: seq<Point>): real {
    if |ring| < 3 then 0.0 else Around(Cross, ring) / 2.0
  }

  function SumX(ps: seq<Point>): real {
    if ps == [] then 0.0 else SumX(ps[..|ps| - 1]) + ps[|ps| - 1].x
  }

  function SumY(ps: seq<Point>): real {
    if ps == [] then 0.0 else SumY(ps[..|ps| - 1]) + ps[|ps| - 1].y
  }

  function Abs(a: real): real { if a < 0.0 then -a else a }

  predicate Degenerate(ring: seq<Point>) { Abs(SignedArea(ring)) < EPSILON }

  /** The centroid of a ring of at least three points; of its vertices when the area vanishes. */
  function RingCentroid(ring: seq<Point>): Point
    requires |ring| >= 3
  {
    if Degenerate(ring) then Point(SumX(ring) / (|ring| as real), SumY(ring) / (|ring| as real))
    else Point(Around(MomentX, ring) / (6.0 * SignedArea(ring)), Around(MomentY, ring) / (6.0 * SignedArea(ring)))
  }

  lemma ChainStep(e: (Point, Point) -> real, ps: seq<Point>, i: nat)
    requires 0 < i < |ps|
    ensures Chain(e, ps[..i + 1]) == Chain(e, ps[..i]) + e(ps[i - 1], ps[i])
  {
    assert ps[..i + 1][..i] == ps[..i];
  }

  lemma ChainStart(e: (Point, Point) -> real, ps: seq<Point>)
    requires ps != []
    ensures Chain(e, ps[..1]) == 0.0
  {
  }

  lemma NextIndex(i: nat, count: nat)
    requires i < count
    ensures (i + 1) % count == if i + 1 < count then i + 1 else 0
  {
  }

  /** The loop over i with successor (i + 1) % count goes once around the ring. */
  method RingSignedArea(ring: seq<Point>) returns (area: real)
    ensures area == SignedArea(ring)
  {
    hide Cross, Chain;
    var count := |ring|;
    if count < 3 { return 0.0; }
    area := 0.0;
    ChainStart(Cross, ring);
    for i := 0 to count
      invariant area == if i < count then Chain(Cross, ring[..i + 1]) else Around(Cross, ring)
    {
      var j := (i + 1) % count;
      NextIndex(i, count);
      if i + 1 < count { ChainStep(Cross, ring, i + 1); } else { assert ring[..i + 1] == ring; }
      CrossIs(ring[i], ring[j]);
      area := area + ring[i].x * ring[j].y;
      area := area - ring[j].x * ring[i].y;
    }
    area := area / 2.0;
  }

  lemma CrossIs(p: Point, q: Point)
    ensures Cross(p, q) == p.x * q.y - q.x * p.y
  {
  }

  method VertexSums(ring: seq<Point>) returns (sx: real, sy: real)
    ensures sx == SumX(ring) && sy == SumY(ring)
  {
    sx, sy := 0.0, 0.0;
    for i := 0 to |ring|
      invariant sx == SumX(ring[..i]) && sy == SumY(ring[..i])
    {
      assert ring[..i + 1][..i] == ring[..i];
      sx := sx + ring[i].x;
      sy := sy + ring[i].y;
    }
    assert ring[..|ring|] == ring;
  }

  method EdgeMoments(p: Point, q: Point) returns (ex: real, ey: real)
    ensures ex == MomentX(p, q) && ey == MomentY(p, q)
  {
    var cross := p.x * q.y - q.x * p.y;
    ex, ey := (p.x + q.x) * cross, (p.y + q.y) * cross;
  }

  method MomentSums(ring: seq<Point>) returns (mx: real, my: real)
    requires ring != []
    ensures mx == Around(MomentX, ring) && my == Around(MomentY, ring)
  {
    hide Cross, MomentX, MomentY, Chain;
    var count := |ring|;
    mx, my := 0.0, 0.0;
    ChainStart(MomentX, ring);
    ChainStart(MomentY, ring);
    for i := 0 to count
      invariant mx == if i < count then Chain(MomentX, ring[..i + 1]) else Around(MomentX, ring)
      invariant my == if i < count then Chain(MomentY, ring[..i + 1]) else Around(MomentY, ring)
    {
      var j := (i + 1) % count;
      NextIndex(i, count);
      if i + 1 < count {
        ChainStep(MomentX, ring, i + 1);
        ChainStep(MomentY, ring, i + 1);
      } else {
        assert ring[..i + 1] == ring && j == 0;
        assert Around(MomentX, ring) == Chain(MomentX, ring[..i + 1]) + MomentX(ring[i], ring[j]);
        assert Around(MomentY, ring) == Chain(MomentY, ring[..i + 1]) + MomentY(ring[i], ring[j]);
      }
      var ex, ey := EdgeMoments(ring[i], ring[j]);
      mx := mx + ex;
      my := my + ey;
    }
  }

  method RingCentroidOf(ring: seq<Point>) returns (cx: real, cy: real)
    ensures |ring| < 3 ==> cx == cy == 0.0
    ensures |ring| >= 3 ==> Point(cx, cy) == RingCentroid(ring)
  {
    hide Around, SignedArea, SumX, SumY;
    var count := |ring|;
    cx, cy := 0.0, 0.0;
    if count < 3 { return; }
    var area := RingSignedArea(ring);
    if Abs(area) < EPSILON {
      cx, cy := VertexSums(ring);
      cx := cx / (count as real);
      cy := cy / (count as real);
      return;
    }
    cx, cy := MomentSums(ring);
    cx := cx / (6.0 * area);
    cy := cy / (6.0 * area);
  }

  // ---------- Translation ----------

  function Shift(p: Point, t: Point): Point { Point(p.x + t.x, p.y + t.y) }

  function Shifted(ps: seq<Point>, t: Point): (r: seq<Point>)
    ensures |r| == |ps| && forall i | 0 <= i < |ps| :: r[i] == Shift(ps[i], t)
  {
    seq(|ps|, i requires 0 <= i < |ps| => Shift(ps[i], t))
  }

  function Scaled(k: real, c: (Point, Point) -> real): (Point, Point) -> real {
    (p: Point, q: Point) => k * c(p, q)
  }

  lemma {:induction false} ChainScales(k: real, c: (Point, Point) -> real, ps: seq<Point>)
    ensures Chain(Scaled(k, c), ps) == k * Chain(c, ps)
  {
    if |ps| >= 2 {
      var n := |ps| - 1;
      ChainScales(k, c, ps[..n]);
      Distribute(k, Chain(c, ps[..n]), c(ps[n - 1], ps[n]));
    }
  }

  lemma Distribute(k: real, a: real, b: real)
    ensures k * (a + b) == k * a + k * b
  {
  }

  /** Shifting an edge of e by t adds d and a difference of potentials g. */
  ghost predicate ShiftsBy(e: (Point, Point) -> real, d: (Point, Point) -> real, g: Point -> real, t: Point) {
    forall p, q :: e(Shift(p, t), Shift(q, t)) == e(p, q) + d(p, q) + g(q) - g(p)
  }

  /** Along a chain the potentials cancel except at its ends. */
  lemma {:induction false} ChainShifts(e: (Point, Point) -> real, d: (Point, Point) -> real, g: Point -> real, t: Point, ps: seq<Point>)
    requires ps != [] && ShiftsBy(e, d, g, t)
    ensures Chain(e, Shifted(ps, t)) == Chain(e, ps) + Chain(d, ps) + g(ps[|ps| - 1]) - g(ps[0])
  {
    if |ps| > 1 {
      var n := |ps| - 1;
      ChainShifts(e, d, g, t, ps[..n]);
      assert Shifted(ps, t)[..n] == Shifted(ps[..n], t);
      assert e(Shift(ps[n - 1], t), Shift(ps[n], t)) == e(ps[n - 1], ps[n]) + d(ps[n - 1], ps[n]) + g(ps[n]) - g(ps[n - 1]);
    }
  }

  /** Around a closed ring they cancel completely. */
  lemma AroundShifts(e: (Point, Point) -> real, c: (Point, Point) -> real, k: real, g: Point -> real, t: Point, ps: seq<Point>)
    requires ps != [] && ShiftsBy(e, Scaled(k, c), g, t)
    ensures Around(e, Shifted(ps, t)) == Around(e, ps) + k * Around(c, ps)
  {
    hide Chain;
    ChainShifts(e, Scaled(k, c), g, t, ps);
    ChainScales(k, c, ps);
    var p, q := ps[|ps| - 1], ps[0];
    assert e(Shift(p, t), Shift(q, t)) == e(p, q) + Scaled(k, c)(p, q) + g(q) - g(p);
    Distribute(k, Chain(c, ps), c(p, q));
  }

  function CrossPotential(t: Point): Point -> real {
    (p: Point) => t.x * p.y - t.y * p.x
  }

  function MomentXPotential(t: Point): Point -> real {
    (p: Point) => t.x * p.x * p.y - t.y * p.x * p.x + 2.0 * t.x * t.x * p.y - 2.0 * t.x * t.y * p.x
  }

  function MomentYPotential(t: Point): Point -> real {
    (p: Point) => t.x * p.y * p.y - t.y * p.x * p.y + 2.0 * t.x * t.y * p.y - 2.0 * t.y * t.y * p.x
  }

  lemma CrossShifts(p: Point, q: Point, t: Point)
    ensures Cross(Shift(p, t), Shift(q, t)) == Cross(p, q) + CrossPotential(t)(q) - CrossPotential(t)(p)
  {
  }

  lemma Expand(a: real, b: real, c: real, d: real)
    ensures (a + b) * (c + d) == a * c + a * d + b * c + b * d
  {
  }

  lemma MomentXShifts(p: Point, q: Point, t: Point)
    ensures MomentX(Shift(p, t), Shift(q, t))
         == MomentX(p, q) + (3.0 * t.x) * Cross(p, q) + MomentXPotential(t)(q) - MomentXPotential(t)(p)
  {
    var s, c := p.x + q.x, Cross(p, q);
    var d := t.x * (q.y - p.y) - t.y * (q.x - p.x);
    CrossShifts(p, q, t);
    Expand(s, 2.0 * t.x, c, d);
    SumTimesDifference(p, q, t.x, t.y);
    assert (2.0 * t.x) * d == 2.0 * t.x * t.x * q.y - 2.0 * t.x * t.x * p.y - 2.0 * t.x * t.y * q.x + 2.0 * t.x * t.y * p.x;
  }

  /** Where the third t.x * Cross comes from. */
  lemma SumTimesDifference(p: Point, q: Point, u: real, v: real)
    ensures (p.x + q.x) * (u * (q.y - p.y) - v * (q.x - p.x))
         == u * Cross(p, q) + (u * q.x * q.y - v * q.x * q.x) - (u * p.x * p.y - v * p.x * p.x)
    ensures (p.y + q.y) * (u * (q.y - p.y) - v * (q.x - p.x))
         == v * Cross(p, q) + (u * q.y * q.y - v * q.x * q.y) - (u * p.y * p.y - v * p.x * p.y)
  {
    assert (p.x + q.x) * (q.y - p.y) == Cross(p, q) + q.x * q.y - p.x * p.y;
    assert (p.x + q.x) * (q.x - p.x) == q.x * q.x - p.x * p.x;
    assert (p.y + q.y) * (q.y - p.y) == q.y * q.y - p.y * p.y;
    assert (p.y + q.y) * (q.x - p.x) == q.x * q.y - p.x * p.y - Cross(p, q);
  }

  lemma MomentYShifts(p: Point, q: Point, t: Point)
    ensures MomentY(Shift(p, t), Shift(q, t))
         == MomentY(p, q) + (3.0 * t.y) * Cross(p, q) + MomentYPotential(t)(q) - MomentYPotential(t)(p)
  {
    var s, c := p.y + q.y, Cross(p, q);
    var d := t.x * (q.y - p.y) - t.y * (q.x - p.x);
    CrossShifts(p, q, t);
    Expand(s, 2.0 * t.y, c, d);
    SumTimesDifference(p, q, t.x, t.y);
    assert (2.0 * t.y) * d == 2.0 * t.x * t.y * q.y - 2.0 * t.x * t.y * p.y - 2.0 * t.y * t.y * q.x + 2.0 * t.y * t.y * p.x;
  }

  lemma ShiftLaws(t: Point)
    ensures ShiftsBy(Cross, Scaled(0.0, Cross), CrossPotential(t), t)
    ensures ShiftsBy(MomentX, Scaled(3.0 * t.x, Cross), MomentXPotential(t), t)
    ensures ShiftsBy(MomentY, Scaled(3.0 * t.y, Cross), MomentYPotential(t), t)
  {
    hide Cross, MomentX, MomentY, CrossPotential, MomentXPotential, MomentYPotential;
    forall p, q ensures Cross(Shift(p, t), Shift(q, t)) == Cross(p, q) + Scaled(0.0, Cross)(p, q) + CrossPotential(t)(q) - CrossPotential(t)(p) {
      CrossShifts(p, q, t);
    }
    forall p, q ensures MomentX(Shift(p, t), Shift(q, t)) == MomentX(p, q) + Scaled(3.0 * t.x, Cross)(p, q) + MomentXPotential(t)(q) - MomentXPotential(t)(p) {
      MomentXShifts(p, q, t);
    }
    forall p, q ensures MomentY(Shift(p, t), Shift(q, t)) == MomentY(p, q) + Scaled(3.0 * t.y, Cross)(p, q) + MomentYPotential(t)(q) - MomentYPotential(t)(p) {
      MomentYShifts(p, q, t);
    }
  }

  /** Moving a ring does not change its signed area. */
  lemma AreaIsTranslationInvariant(ring: seq<Point>, t: Point)
    ensures SignedArea(Shifted(ring, t)) == SignedArea(ring)
  {
    hide Cross, Around;
    if |ring| >= 3 {
      ShiftLaws(t);
      AroundShifts(Cross, Cross, 0.0, CrossPotential(t), t, ring);
    }
  }

  lemma {:induction false} SumsShift(ps: seq<Point>, t: Point)
    ensures SumX(Shifted(ps, t)) == SumX(ps) + (|ps| as real) * t.x
    ensures SumY(Shifted(ps, t)) == SumY(ps) + (|ps| as real) * t.y
  {
    if ps != [] {
      var n := |ps| - 1;
      SumsShift(ps[..n], t);
      assert Shifted(ps, t)[..n] == Shifted(ps[..n], t);
      assert ((n + 1) as real) * t.x == (n as real) * t.x + t.x;
      assert ((n + 1) as real) * t.y == (n as real) * t.y + t.y;
    }
  }

  lemma QuotientShift(m: real, n: real, k: real, t: real)
    requires n != 0.0 && m == k + n * t
    ensures m / n == k / n + t
  {
    assert m / n == (k + n * t) / n == k / n + (n * t) / n;
  }

  lemma AroundIsTwice(ring: seq<Point>)
    requires |ring| >= 3
    ensures Around(Cross, ring) == 2.0 * SignedArea(ring)
  {
  }

  /** Moving a polygon moves its centroid with it, in the degenerate branch as in the regular one. */
  lemma CentroidIsTranslationEquivariant(ring: seq<Point>, t: Point)
    requires |ring| >= 3
    ensures RingCentroid(Shifted(ring, t)) == Shift(RingCentroid(ring), t)
  {
    hide Cross, MomentX, MomentY, Around, SumX, SumY, SignedArea, CrossPotential, MomentXPotential, MomentYPotential;
    AreaIsTranslationInvariant(ring, t);
    var moved, area := Shifted(ring, t), SignedArea(ring);
    if Degenerate(ring) {
      SumsShift(ring, t);
      QuotientShift(SumX(moved), |ring| as real, SumX(ring), t.x);
      QuotientShift(SumY(moved), |ring| as real, SumY(ring), t.y);
    } else {
      ShiftLaws(t);
      AroundShifts(MomentX, Cross, 3.0 * t.x, MomentXPotential(t), t, ring);
      AroundShifts(MomentY, Cross, 3.0 * t.y, MomentYPotential(t), t, ring);
      AroundIsTwice(ring);
      QuotientShift(Around(MomentX, moved), 6.0 * area, Around(MomentX, ring), t.x);
      QuotientShift(Around(MomentY, moved), 6.0 * area, Around(MomentY, ring), t.y);
    }
  }

  // ---------- Reversal ----------

  function Reversed(ps: seq<Point>): (r: seq<Point>)
    ensures |r| == |ps| && forall i | 0 <= i < |ps| :: r[i] == ps[|ps| - 1 - i]
  {
    seq(|ps|, i requires 0 <= i < |ps| => ps[|ps| - 1 - i])
  }

  ghost predicate Antisymmetric(e: (Point, Point) -> real) {
    forall p, q :: e(q, p) == -e(p, q)
  }

  /** A chain can also be summed from its first edge on. */
  lemma {:induction false} ChainFromFront(e: (Point, Point) -> real, ps: seq<Point>)
    requires |ps| >= 2
    ensures Chain(e, ps) == e(ps[0], ps[1]) + Chain(e, ps[1..])
  {
    if |ps| > 2 {
      var n := |ps| - 1;
      ChainFromFront(e, ps[..n]);
      assert ps[1..][..n - 1] == ps[..n][1..];
    }
  }

  lemma {:induction false} ChainReverses(e: (Point, Point) -> real, ps: seq<Point>)
    requires Antisymmetric(e)
    ensures Chain(e, Reversed(ps)) == -Chain(e, ps)
  {
    if |ps| >= 2 {
      var n := |ps| - 1;
      ChainReverses(e, ps[1..]);
      ChainFromFront(e, ps);
      assert Reversed(ps)[..n] == Reversed(ps[1..]);
    }
  }

  lemma EdgesAntisymmetric()
    ensures Antisymmetric(Cross) && Antisymmetric(MomentX) && Antisymmetric(MomentY)
  {
    forall p, q ensures MomentX(q, p) == -MomentX(p, q) && MomentY(q, p) == -MomentY(p, q) {
      var c := Cross(p, q);
      assert Cross(q, p) == -c;
      assert (q.x + p.x) * (-c) == -((p.x + q.x) * c);
      assert (q.y + p.y) * (-c) == -((p.y + q.y) * c);
    }
  }

  /** Running a ring backwards negates its signed area. */
  lemma AreaNegatesOnReversal(ring: seq<Point>)
    ensures SignedArea(Reversed(ring)) == -SignedArea(ring)
  {
    hide Cross, MomentX, MomentY, Chain;
    if |ring| >= 3 {
      EdgesAntisymmetric();
      ChainReverses(Cross, ring);
    }
  }

  lemma {:induction false} SumsReverse(ps: seq<Point>)
    ensures SumX(Reversed(ps)) == SumX(ps) && SumY(Reversed(ps)) == SumY(ps)
  {
    if ps != [] {
      var n := |ps| - 1;
      SumsReverse(ps[1..]);
      SumsFromFront(ps);
      assert Reversed(ps)[..n] == Reversed(ps[1..]);
    }
  }

  lemma {:induction false} SumsFromFront(ps: seq<Point>)
    requires ps != []
    ensures SumX(ps) == ps[0].x + SumX(ps[1..]) && SumY(ps) == ps[0].y + SumY(ps[1..])
  {
    var n := |ps| - 1;
    if n > 0 {
      SumsFromFront(ps[..n]);
      assert ps[1..][..n - 1] == ps[..n][1..];
    }
  }

  /** The centroid does not depend on the orientation of the ring. */
  lemma CentroidIgnoresOrientation(ring: seq<Point>)
    requires |ring| >= 3
    ensures RingCentroid(Reversed(ring)) == RingCentroid(ring)
  {
    hide Cross, MomentX, MomentY, Chain, SumX, SumY;
    AreaNegatesOnReversal(ring);
    SumsReverse(ring);
    EdgesAntisymmetric();
    ChainReverses(MomentX, ring);
    ChainReverses(MomentY, ring);
    if !Degenerate(ring) {
      NegatedQuotient(Around(MomentX, ring), 6.0 * SignedArea(ring));
      NegatedQuotient(Around(MomentY, ring), 6.0 * SignedArea(ring));
    }
  }

  lemma NegatedQuotient(a: real, b: real)
    requires b != 0.0
    ensures (-a) / (-b) == a / b
  {
  }

  // ---------- Triangles and diagonals ----------

  /** Along two chains joined by an edge the sums add up. */
  lemma {:induction false} ChainJoins(e: (Point, Point) -> real, a: seq<Point>, b: seq<Point>)
    requires a != [] && b != []
    ensures Chain(e, a + b) == Chain(e, a) + e(a[|a| - 1], b[0]) + Chain(e, b)
  {
    var n := |b| - 1;
    if n == 0 {
      assert (a + b)[..|a|] == a;
    } else {
      assert (a + b)[..|a| + n] == a + b[..n];
      ChainJoins(e, a, b[..n]);
    }
  }

  /** The ring between the vertices i and j, and the ring beside it. */
  function Between(ring: seq<Point>, i: nat, j: nat): seq<Point>
    requires i < j < |ring|
  {
    ring[i..j + 1]
  }

  function Beside(ring: seq<Point>, i: nat, j: nat): seq<Point>
    requires i < j < |ring|
  {
    ring[..i + 1] + ring[j..]
  }

  /** The diagonal is passed once in each direction, so the sums around the two parts add up. */
  lemma DiagonalCancels(e: (Point, Point) -> real, ring: seq<Point>, i: nat, j: nat)
    requires i < j < |ring| && Antisymmetric(e)
    ensures Around(e, ring) == Around(e, Between(ring, i, j)) + Around(e, Beside(ring, i, j))
  {
    hide Chain;
    var a, m, c := ring[..i + 1], ring[i..j + 1], ring[j..];
    assert e(ring[j], ring[i]) == -e(ring[i], ring[j]);
    ChainJoins(e, a, c);
    ChainSplits(e, ring, i);
    ChainSplits(e, ring[i..], j - i);
    assert ring[i..][..j - i + 1] == m && ring[i..][j - i..] == c;
    assert (a + c)[|a + c| - 1] == ring[|ring| - 1] && (a + c)[0] == ring[0];
  }

  /** A chain is cut at a vertex, which both parts keep. */
  lemma ChainSplits(e: (Point, Point) -> real, ps: seq<Point>, k: nat)
    requires k < |ps|
    ensures Chain(e, ps) == Chain(e, ps[..k + 1]) + Chain(e, ps[k..])
  {
    if k == |ps| - 1 {
      assert ps[..k + 1] == ps;
    } else {
      assert ps == ps[..k + 1] + ps[k + 1..];
      ChainJoins(e, ps[..k + 1], ps[k + 1..]);
      ChainFromFront(e, ps[k..]);
      assert ps[k..][1..] == ps[k + 1..];
    }
  }

  /** The signed area of a triangle is half the cross product of two sides, ... */
  lemma TriangleArea(a: Point, b: Point, c: Point)
    ensures SignedArea([a, b, c]) == ((b.x - a.x) * (c.y - a.y) - (c.x - a.x) * (b.y - a.y)) / 2.0
  {
    TriangleSum(Cross, a, b, c);
  }

  lemma TriangleSum(e: (Point, Point) -> real, a: Point, b: Point, c: Point)
    ensures Around(e, [a, b, c]) == e(a, b) + e(b, c) + e(c, a)
  {
    assert [a, b, c][..2] == [a, b] && [a, b][..1] == [a];
    assert Chain(e, [a]) == 0.0;
    assert Chain(e, [a, b]) == Chain(e, [a]) + e(a, b);
  }

  /** ... and cutting a ring along a diagonal leaves two rings whose areas add up to its own. */
  lemma AreaAdds(ring: seq<Point>, i: nat, j: nat)
    requires i < j < |ring| && 2 <= j - i <= |ring| - 2
    ensures SignedArea(ring) == SignedArea(Between(ring, i, j)) + SignedArea(Beside(ring, i, j))
  {
    hide Around, Cross, MomentX, MomentY;
    EdgesAntisymmetric();
    DiagonalCancels(Cross, ring, i, j);
  }

  /** The area a centroid is weighed with: too little counts as none. */
  predicate HasArea(ring: seq<Point>) {
    SignedArea(ring) <= -0.0000000001 || SignedArea(ring) >= 0.0000000001
  }

  lemma CentroidMoments(ring: seq<Point>)
    requires |ring| >= 3 && HasArea(ring)
    ensures SignedArea(ring) * RingCentroid(ring).x == Around(MomentX, ring) / 6.0
    ensures SignedArea(ring) * RingCentroid(ring).y == Around(MomentY, ring) / 6.0
  {
    hide SignedArea, Around, MomentX, MomentY, SumX, SumY;
    var a, mx, my := SignedArea(ring), Around(MomentX, ring), Around(MomentY, ring);
    TimesQuotient(a, mx);
    TimesQuotient(a, my);
  }

  lemma TimesQuotient(a: real, m: real)
    requires a != 0.0
    ensures a * (m / (6.0 * a)) == m / 6.0
  {
    var q := m / (6.0 * a);
    assert q * (6.0 * a) == m;
  }

  /** The centroid of a triangle is the mean of its corners, ... */
  lemma TriangleCentroid(a: Point, b: Point, c: Point)
    requires HasArea([a, b, c])
    ensures RingCentroid([a, b, c]) == Point((a.x + b.x + c.x) / 3.0, (a.y + b.y + c.y) / 3.0)
  {
    hide SignedArea, Around, Cross, SumX, SumY;
    var area, centroid := SignedArea([a, b, c]), RingCentroid([a, b, c]);
    CentroidMoments([a, b, c]);
    TriangleSum(Cross, a, b, c);
    TriangleSum(MomentX, a, b, c);
    TriangleSum(MomentY, a, b, c);
    TriangleMoments(a, b, c);
    assert 2.0 * area == Cross(a, b) + Cross(b, c) + Cross(c, a) by { TwiceArea(a, b, c); }
    SameFactor(area, centroid.x, (a.x + b.x + c.x) / 3.0);
    SameFactor(area, centroid.y, (a.y + b.y + c.y) / 3.0);
  }

  lemma TwiceArea(a: Point, b: Point, c: Point)
    ensures 2.0 * SignedArea([a, b, c]) == Cross(a, b) + Cross(b, c) + Cross(c, a)
  {
    TriangleSum(Cross, a, b, c);
  }

  lemma SameFactor(k: real, a: real, b: real)
    requires k != 0.0 && k * a == k * b
    ensures a == b
  {
    assert k * (a - b) == 0.0;
  }

  lemma TriangleMoments(a: Point, b: Point, c: Point)
    ensures MomentX(a, b) + MomentX(b, c) + MomentX(c, a) == (a.x + b.x + c.x) * (Cross(a, b) + Cross(b, c) + Cross(c, a))
    ensures MomentY(a, b) + MomentY(b, c) + MomentY(c, a) == (a.y + b.y + c.y) * (Cross(a, b) + Cross(b, c) + Cross(c, a))
  {
    assert a.x * Cross(b, c) + b.x * Cross(c, a) + c.x * Cross(a, b) == 0.0;
    assert a.y * Cross(b, c) + b.y * Cross(c, a) + c.y * Cross(a, b) == 0.0;
  }

  /** ... and area times centroid adds up over the two parts of a ring cut along a diagonal.  Together
      these say what the centroid of every ring is that has triangles to be cut into. */
  lemma CentroidAdds(ring: seq<Point>, i: nat, j: nat)
    requires i < j < |ring| && 2 <= j - i <= |ring| - 2
    requires HasArea(ring) && HasArea(Between(ring, i, j)) && HasArea(Beside(ring, i, j))
    ensures var p, q := Between(ring, i, j), Beside(ring, i, j);
      && SignedArea(ring) * RingCentroid(ring).x
         == SignedArea(p) * RingCentroid(p).x + SignedArea(q) * RingCentroid(q).x
      && SignedArea(ring) * RingCentroid(ring).y
         == SignedArea(p) * RingCentroid(p).y + SignedArea(q) * RingCentroid(q).y
  {
    hide SignedArea, Around, Cross, MomentX, MomentY, RingCentroid;
    var p, q := Between(ring, i, j), Beside(ring, i, j);
    CentroidMoments(ring);
    CentroidMoments(p);
    CentroidMoments(q);
    EdgesAntisymmetric();
    DiagonalCancels(MomentX, ring, i, j);
    DiagonalCancels(MomentY, ring, i, j);
  }

  /** Sums of coordinates add up over parts. */
  lemma {:induction false} SumsJoin(a: seq<Point>, b: seq<Point>)
    ensures SumX(a + b) == SumX(a) + SumX(b) && SumY(a + b) == SumY(a) + SumY(b)
    ensures |a| == 1 ==> SumX(a) == a[0].x && SumY(a) == a[0].y
  {
    if b == [] {
      assert a + b == a;
    } else {
      var n := |b| - 1;
      assert (a + b)[..|a| + n] == a + b[..n];
      SumsJoin(a, b[..n]);
    }
  }

  /** Without area the centroid times the number of vertices is their sum. */
  lemma FlatCentroid(ring: seq<Point>)
    requires |ring| >= 3 && !HasArea(ring)
    ensures RingCentroid(ring).x * (|ring| as real) == SumX(ring)
    ensures RingCentroid(ring).y * (|ring| as real) == SumY(ring)
  {
    hide SignedArea, SumX, SumY;
  }

  // ---------- Linestrings ----------

  ghost predicate NonNegative(sqrt: real -> real) {
    forall a :: sqrt(a) >= 0.0
  }

  function Length(sqrt: real -> real, p: Point, q: Point): real { sqrt(DistSq(p, q)) }

  /** The total length of a chain, and the midpoints of its segments weighted by their lengths. */
  function TotalLength(sqrt: real -> real, ps: seq<Point>): real {
    if |ps| < 2 then 0.0 else TotalLength(sqrt, ps[..|ps| - 1]) + Length(sqrt, ps[|ps| - 2], ps[|ps| - 1])
  }

  function SegmentX(sqrt: real -> real, p: Point, q: Point): real { (p.x + q.x) / 2.0 * Length(sqrt, p, q) }

  function SegmentY(sqrt: real -> real, p: Point, q: Point): real { (p.y + q.y) / 2.0 * Length(sqrt, p, q) }

  function WeightedX(sqrt: real -> real, ps: seq<Point>): real {
    if |ps| < 2 then 0.0 else WeightedX(sqrt, ps[..|ps| - 1]) + SegmentX(sqrt, ps[|ps| - 2], ps[|ps| - 1])
  }

  function WeightedY(sqrt: real -> real, ps: seq<Point>): real {
    if |ps| < 2 then 0.0 else WeightedY(sqrt, ps[..|ps| - 1]) + SegmentY(sqrt, ps[|ps| - 2], ps[|ps| - 1])
  }

  function LineCentroid(sqrt: real -> real, ps: seq<Point>): Option<Point> {
    if ps == [] then None
    else if |ps| == 1 then Some(ps[0])
    else
      var total := TotalLength(sqrt, ps);
      if total < EPSILON then Some(ps[0])
      else Some(Point(WeightedX(sqrt, ps) / total, WeightedY(sqrt, ps) / total))
  }

  lemma WeightsStep(sqrt: real -> real, ps: seq<Point>, i: nat)
    requires i + 1 < |ps|
    ensures TotalLength(sqrt, ps[..i + 2]) == TotalLength(sqrt, ps[..i + 1]) + Length(sqrt, ps[i], ps[i + 1])
    ensures WeightedX(sqrt, ps[..i + 2]) == WeightedX(sqrt, ps[..i + 1]) + SegmentX(sqrt, ps[i], ps[i + 1])
    ensures WeightedY(sqrt, ps[..i + 2]) == WeightedY(sqrt, ps[..i + 1]) + SegmentY(sqrt, ps[i], ps[i + 1])
  {
    hide Length, SegmentX, SegmentY;
    assert ps[..i + 2][..i + 1] == ps[..i + 1];
  }

  method LinestringCentroid(sqrt: real -> real, ps: seq<Point>) returns (centroid: Option<Point>)
    ensures centroid == LineCentroid(sqrt, ps)
  {
    hide TotalLength, WeightedX, WeightedY, Length;
    var count := |ps|;
    if count == 0 { return None; }
    if count == 1 { return Some(ps[0]); }
    WeightsStart(sqrt, ps);
    var totalLength, cx, cy := 0.0, 0.0, 0.0;
    for i := 0 to count - 1
      invariant totalLength == TotalLength(sqrt, ps[..i + 1])
      invariant cx == WeightedX(sqrt, ps[..i + 1]) && cy == WeightedY(sqrt, ps[..i + 1])
    {
      WeightsStep(sqrt, ps, i);
      var segLength := Length(sqrt, ps[i], ps[i + 1]);
      var midX, midY := (ps[i].x + ps[i + 1].x) / 2.0, (ps[i].y + ps[i + 1].y) / 2.0;
      cx := cx + midX * segLength;
      cy := cy + midY * segLength;
      totalLength := totalLength + segLength;
    }
    assert ps[..count] == ps;
    if totalLength < EPSILON {
      return Some(ps[0]);
    }
    return Some(Point(cx / totalLength, cy / totalLength));
  }

  lemma WeightsStart(sqrt: real -> real, ps: seq<Point>)
    requires ps != []
    ensures TotalLength(sqrt, ps[..1]) == WeightedX(sqrt, ps[..1]) == WeightedY(sqrt, ps[..1]) == 0.0
  {
  }

  // ---------- What the centroid of a linestring weighs ----------

  /** Cutting a line at a vertex adds up the lengths and the weighted midpoints of its parts. */
  lemma {:induction false} WeightsAdd(sqrt: real -> real, ps: seq<Point>, k: nat)
    requires k < |ps|
    ensures TotalLength(sqrt, ps) == TotalLength(sqrt, ps[..k + 1]) + TotalLength(sqrt, ps[k..])
    ensures WeightedX(sqrt, ps) == WeightedX(sqrt, ps[..k + 1]) + WeightedX(sqrt, ps[k..])
    ensures WeightedY(sqrt, ps) == WeightedY(sqrt, ps[..k + 1]) + WeightedY(sqrt, ps[k..])
  {
    hide Length, SegmentX, SegmentY;
    var n := |ps| - 1;
    if k == n {
      assert ps[..k + 1] == ps && |ps[k..]| == 1;
    } else {
      WeightsAdd(sqrt, ps[..n], k);
      assert ps[..n][..k + 1] == ps[..k + 1] && ps[..n][k..] == ps[k..][..n - k];
    }
  }

  lemma TimesOver(m: real, w: real)
    requires w != 0.0
    ensures m * w / w == m
  {
  }

  /** A segment has the length its ends are apart, and its centroid is its midpoint. */
  lemma SegmentCentroid(sqrt: real -> real, p: Point, q: Point)
    ensures var length := sqrt((q.x - p.x) * (q.x - p.x) + (q.y - p.y) * (q.y - p.y));
      && TotalLength(sqrt, [p, q]) == length
      && LineCentroid(sqrt, [p, q])
         == Some(if length < 0.0000000001 then p else Point((p.x + q.x) / 2.0, (p.y + q.y) / 2.0))
  {
    var length := Length(sqrt, p, q);
    assert DistSq(p, q) == (q.x - p.x) * (q.x - p.x) + (q.y - p.y) * (q.y - p.y);
    assert [p, q][..1] == [p];
    assert TotalLength(sqrt, [p]) == WeightedX(sqrt, [p]) == WeightedY(sqrt, [p]) == 0.0;
    assert TotalLength(sqrt, [p, q]) == length;
    if length < 0.0000000001 {
      assert LineCentroid(sqrt, [p, q]) == Some(p);
    } else {
      assert WeightedX(sqrt, [p, q]) == SegmentX(sqrt, p, q) && WeightedY(sqrt, [p, q]) == SegmentY(sqrt, p, q);
      var mx, my := (p.x + q.x) / 2.0, (p.y + q.y) / 2.0;
      TimesOver(mx, length);
      TimesOver(my, length);
      assert SegmentX(sqrt, p, q) / length == mx && SegmentY(sqrt, p, q) / length == my;
      assert LineCentroid(sqrt, [p, q]) == Some(Point(SegmentX(sqrt, p, q) / length, SegmentY(sqrt, p, q) / length));
    }
  }

  /** A line without length has its centroid at its first point, no points have none, ... */
  lemma ShortLineCentroid(sqrt: real -> real, ps: seq<Point>)
    requires TotalLength(sqrt, ps) < 0.0000000001
    ensures LineCentroid(sqrt, ps) == if ps == [] then None else Some(ps[0])
  {
  }

  /** ... and length times centroid adds up over the two parts of a line cut at a vertex. */
  lemma LineCentroidAdds(sqrt: real -> real, ps: seq<Point>, k: nat)
    requires 0 < k < |ps| - 1
    requires TotalLength(sqrt, ps) >= 0.0000000001
    requires TotalLength(sqrt, ps[..k + 1]) >= 0.0000000001 && TotalLength(sqrt, ps[k..]) >= 0.0000000001
    ensures var (c, a, b) := (LineCentroid(sqrt, ps), LineCentroid(sqrt, ps[..k + 1]), LineCentroid(sqrt, ps[k..]));
      && c.Some? && a.Some? && b.Some?
      && TotalLength(sqrt, ps) == TotalLength(sqrt, ps[..k + 1]) + TotalLength(sqrt, ps[k..])
      && TotalLength(sqrt, ps) * c.value.x
         == TotalLength(sqrt, ps[..k + 1]) * a.value.x + TotalLength(sqrt, ps[k..]) * b.value.x
      && TotalLength(sqrt, ps) * c.value.y
         == TotalLength(sqrt, ps[..k + 1]) * a.value.y + TotalLength(sqrt, ps[k..]) * b.value.y
  {
    hide WeightedX, WeightedY, TotalLength;
    WeightsAdd(sqrt, ps, k);
  }

  /** The rectangle around the points, grown from the empty one. */
  function Hull(ps: seq<Point>): MBR {
    if ps == [] then EMPTY_MBR else ExpandPoint(Hull(ps[..|ps| - 1]), ps[|ps| - 1])
  }

  /** The rectangle of the points; no points are an error. */
  method PointsMBR(ps: seq<Point>) returns (found: Option<MBR>)
    ensures found == if ps == [] then None else Some(Hull(ps))
  {
    if |ps| == 0 { return None; }
    var mbr := EMPTY_MBR;
    for i := 0 to |ps|
      invariant mbr == Hull(ps[..i])
    {
      assert ps[..i + 1][..i] == ps[..i];
      mbr := ExpandPoint(mbr, ps[i]);
    }
    assert ps[..|ps|] == ps;
    return Some(mbr);
  }

  /** The hull contains every point, ... */
  lemma {:induction false} HullContains(ps: seq<Point>, i: nat)
    requires i < |ps|
    ensures ContainsPoint(Hull(ps), ps[i])
  {
    var n := |ps| - 1;
    if i < n { HullContains(ps[..n], i); }
  }

  /** ... and any rectangle that contains every (finite) point contains it. */
  lemma {:induction false} HullIsLeast(ps: seq<Point>, b: MBR)
    requires ps != [] && forall p | p in ps :: Finite(p) && ContainsPoint(b, p)
    ensures ContainsMBR(b, Hull(ps))
  {
    var n := |ps| - 1;
    assert ps[n] in ps;
    if n > 0 { HullIsLeast(ps[..n], b); } else { assert ps[..0] == []; }
  }

  /** s is a sum of values between lo and hi with total weight t. */
  ghost predicate InBand(lo: real, hi: real, t: real, s: real) { t >= 0.0 && lo * t <= s <= hi * t }

  lemma BandStart(lo: real, hi: real)
    ensures InBand(lo, hi, 0.0, 0.0)
  {
  }

  /** Adding a weighted value keeps a weighted sum between the extremes. */
  lemma BandStep(lo: real, hi: real, t: real, s: real, w: real, m: real, mw: real)
    requires InBand(lo, hi, t, s) && w >= 0.0 && lo <= m <= hi && mw == m * w
    ensures InBand(lo, hi, t + w, s + mw)
  {
    Distribute(lo, t, w);
    Distribute(hi, t, w);
    assert lo * w <= m * w <= hi * w;
  }

  lemma SegmentBands(sqrt: real -> real, p: Point, q: Point, b: MBR, t: real, sx: real, sy: real)
    requires Length(sqrt, p, q) >= 0.0 && ContainsPoint(b, p) && ContainsPoint(b, q)
    requires InBand(b.minX, b.maxX, t, sx) && InBand(b.minY, b.maxY, t, sy)
    ensures InBand(b.minX, b.maxX, t + Length(sqrt, p, q), sx + SegmentX(sqrt, p, q))
    ensures InBand(b.minY, b.maxY, t + Length(sqrt, p, q), sy + SegmentY(sqrt, p, q))
  {
    hide InBand, Length;
    var w := Length(sqrt, p, q);
    BandStep(b.minX, b.maxX, t, sx, w, (p.x + q.x) / 2.0, SegmentX(sqrt, p, q));
    BandStep(b.minY, b.maxY, t, sy, w, (p.y + q.y) / 2.0, SegmentY(sqrt, p, q));
  }

  /** The weighted sums lie between the extremes times the total weight. */
  lemma {:induction false} WeightedBetween(sqrt: real -> real, ps: seq<Point>, b: MBR)
    requires NonNegative(sqrt) && forall p | p in ps :: ContainsPoint(b, p)
    ensures InBand(b.minX, b.maxX, TotalLength(sqrt, ps), WeightedX(sqrt, ps))
    ensures InBand(b.minY, b.maxY, TotalLength(sqrt, ps), WeightedY(sqrt, ps))
  {
    hide InBand, DistSq, SegmentX, SegmentY;
    if |ps| < 2 {
      BandStart(b.minX, b.maxX);
      BandStart(b.minY, b.maxY);
    } else {
      var n := |ps| - 1;
      var p, q, w, t := ps[n - 1], ps[n], Length(sqrt, ps[n - 1], ps[n]), TotalLength(sqrt, ps[..n]);
      WeightedBetween(sqrt, ps[..n], b);
      assert p in ps && q in ps && w >= 0.0;
      SegmentBands(sqrt, p, q, b, t, WeightedX(sqrt, ps[..n]), WeightedY(sqrt, ps[..n]));
    }
  }

  lemma SmallerProduct(a: real, b: real, t: real)
    requires a < b && t > 0.0
    ensures a * t < b * t
  {
  }

  lemma DivideBetween(lo: real, hi: real, s: real, t: real)
    requires t > 0.0 && lo * t <= s <= hi * t
    ensures lo <= s / t <= hi
  {
    var r := s / t;
    assert r * t == s;
    if r < lo {
      SmallerProduct(r, lo, t);
      assert false;
    }
    if r > hi {
      SmallerProduct(hi, r, t);
      assert false;
    }
  }

  /** The length-weighted centroid of a non-empty linestring lies inside its bounding rectangle. */
  lemma LineCentroidInside(sqrt: real -> real, ps: seq<Point>)
    requires NonNegative(sqrt) && ps != []
    ensures LineCentroid(sqrt, ps).Some? && ContainsPoint(Hull(ps), LineCentroid(sqrt, ps).value)
  {
    hide TotalLength, WeightedX, WeightedY, Hull;
    var b := Hull(ps);
    forall p | p in ps ensures ContainsPoint(b, p) {
      var i :| 0 <= i < |ps| && ps[i] == p;
      HullContains(ps, i);
    }
    assert ps[0] in ps;
    WeightedBetween(sqrt, ps, b);
    var total := TotalLength(sqrt, ps);
    if total >= EPSILON {
      DivideBetween(b.minX, b.maxX, WeightedX(sqrt, ps), total);
      DivideBetween(b.minY, b.maxY, WeightedY(sqrt, ps), total);
    }
  }
}
