// Geometries as GeoJSON text (src/parser.c): reading, writing, and what a round trip keeps.
module GeoJson {
  import opened Geometry
  import opened Seqs
  import Shapes
  import opened SpatialObjects
  import opened Json
  import opened JsonDocs
  import opened JsonParser

  // ---------- Numbers with six decimals ----------

  function Digit(d: nat): (c: char)
    requires d < 10
    ensures IsDigit(c) && DigitValue(c) == d
  {
    (48 + d) as char
  }

  function Digits(n: nat): (s: string)
    ensures s != ""
  {
    if n < 10 then [Digit(n)] else Digits(n / 10) + [Digit(n % 10)]
  }

  /** The k low digits of n, with leading zeros. */
  function Pad(n: nat, k: nat): (s: string)
    ensures |s| == k
  {
    if k == 0 then "" else Pad(n / 10, k - 1) + [Digit(n % 10)]
  }

  lemma {:induction false} DigitsRead(n: nat)
    ensures AllDigits(Digits(n)) && NatOf(Digits(n)) == n
  {
    var s := Digits(n);
    if n < 10 {
      assert s[..0] == "";
    } else {
      DigitsRead(n / 10);
      assert s[..|s| - 1] == Digits(n / 10);
    }
  }

  lemma {:induction false} PadRead(n: nat, k: nat)
    requires n < Pow10(k)
    ensures AllDigits(Pad(n, k)) && NatOf(Pad(n, k)) == n
  {
    if k > 0 {
      PadRead(n / 10, k - 1);
      assert Pad(n, k)[..k - 1] == Pad(n / 10, k - 1);
    }
  }

  /** a in millionths, to the nearest, halves to the even one. */
  function Millionths(a: real): nat
    requires a >= 0.0
  {
    var y := a * 1000000.0;
    var f := y.Floor;
    if y - f as real < 0.5 then f
    else if y - f as real > 0.5 then f + 1
    else if f % 2 == 0 then f else f + 1
  }

  /** printf's %.6f. */
  function Fixed(x: real): string {
    var m := Millionths(Shapes.Abs(x));
    (if x < 0.0 then "-" else "") + (Digits(m / 1000000) + ("." + Pad(m % 1000000, 6)))
  }

  /** The number Fixed writes. */
  function Rounded(x: real): real {
    var r := Millionths(Shapes.Abs(x)) as real / 1000000.0;
    if x < 0.0 then -r else r
  }

  /** Six decimals write x exactly. */
  predicate SixDecimals(x: real) {
    (x * 1000000.0).Floor as real == x * 1000000.0
  }

  lemma MillionthsNear(a: real)
    requires a >= 0.0
    ensures -0.5 <= Millionths(a) as real - a * 1000000.0 <= 0.5
    ensures Millionths(a) as real == a * 1000000.0 <==> (a * 1000000.0).Floor as real == a * 1000000.0
  {
  }

  lemma FloorOfNegative(y: real)
    ensures y.Floor as real == y <==> (-y).Floor as real == -y
  {
    if y.Floor as real == y { assert (-y.Floor) as real == -y; }
    if (-y).Floor as real == -y { assert (-(-y).Floor) as real == y; }
  }

  /** Writing moves a number by at most half a millionth, and not at all exactly when six decimals suffice. */
  lemma RoundedIsNear(x: real)
    ensures Shapes.Abs(x - Rounded(x)) <= 0.0000005
    ensures Rounded(x) == x <==> SixDecimals(x)
  {
    hide Millionths;
    MillionthsNear(Shapes.Abs(x));
    FloorOfNegative(x * 1000000.0);
  }

  lemma MillionthsSplit(m: nat)
    ensures (m / 1000000) as real + (m % 1000000) as real / 1000000.0 == m as real / 1000000.0
  {
    assert m == (m / 1000000) * 1000000 + m % 1000000;
    var q, r := (m / 1000000) as real, (m % 1000000) as real;
    assert m as real == q * 1000000.0 + r;
  }

  lemma SixZeros()
    ensures Pow10(6) == 1000000
  {
    assert Pow10(3) == 1000;
  }

  /** The number Fixed writes, in its parts. */
  function FixedNum(x: real): Num {
    var m := Millionths(Shapes.Abs(x));
    Num(x < 0.0, Digits(m / 1000000), Some(Pad(m % 1000000, 6)), None)
  }

  lemma FixedReads(x: real)
    ensures GoodNum(FixedNum(x)) && NumText(FixedNum(x)) == Fixed(x) && NumValue(FixedNum(x)) == Rounded(x)
  {
    hide Millionths, Digits, Pad, NatOf;
    var m := Millionths(Shapes.Abs(x));
    DigitsRead(m / 1000000);
    SixZeros();
    PadRead(m % 1000000, 6);
    MillionthsSplit(m);
    var sign, tail := if x < 0.0 then "-" else "", "." + Pad(m % 1000000, 6);
    assert tail + "" == tail;
    assert NumText(FixedNum(x)) == sign + (Digits(m / 1000000) + (tail + ""));
  }

  /** Fixed writes a sign if it has to, no superfluous zero in front, and six digits behind the point. */
  lemma FixedShape(x: real)
    ensures var n := FixedNum(x);
      && Fixed(x) == (if x < 0.0 then "-" else "") + (n.whole + ("." + n.frac.value)) && |n.frac.value| == 6
      && (|n.whole| > 1 ==> n.whole[0] != '0')
  {
    NoLeadingZero(Millionths(Shapes.Abs(x)) / 1000000);
  }

  lemma {:induction false} NoLeadingZero(n: nat)
    ensures n > 0 ==> Digits(n)[0] != '0'
    ensures n < 10 ==> |Digits(n)| == 1
  {
    if n >= 10 { NoLeadingZero(n / 10); }
  }

  /** The digits are what they look like. */
  lemma DigitsLookLikeValues(d: nat)
    requires d < 10
    ensures Digit(d) == "0123456789"[d] && Digits(d) == ["0123456789"[d]]
  {
  }

  /** A written number, up to something that cannot continue it, reads back as its rounding. */
  lemma NumberRoundTrip(s: string, at: nat, x: real)
    requires WordAt(s, at, Fixed(x)) && Ends(s, at + |Fixed(x)|)
    ensures Value(s, at) == Ok(JNumber(Rounded(x)), at + |Fixed(x)|)
  {
    hide Value, WordAt, Fixed, Rounded, NumText, Number, NumValue, GoodNum;
    FixedReads(x);
    NumReads(s, at, FixedNum(x));
    SkipNothing(s, at);
    NumberAt(s, at, Rounded(x), at + |Fixed(x)|);
  }

  // ---------- Writing a geometry ----------

  function PointText(p: Point): string {
    "[" + (Fixed(p.x) + ("," + (Fixed(p.y) + "]")))
  }

  /** Points separated by commas. */
  function PointsText(ps: seq<Point>): string {
    if ps == [] then ""
    else if |ps| == 1 then PointText(ps[0])
    else PointText(ps[0]) + ("," + PointsText(ps[1..]))
  }

  /** The text up to the coordinates. */
  function Head(kind: string): string {
    "{" + (Quoted("type") + (":" + (Quoted(kind) + ("," + (Quoted("coordinates") + ":")))))
  }

  function Kind(g: Geom): string {
    match g
    case PointGeom(_) => "Point"
    case LineGeom(_) => "LineString"
    case PolygonGeom(_, _) => "Polygon"
  }

  /** The coordinates written for a geometry; the holes of a polygon are not written. */
  function CoordinatesText(g: Geom): string {
    match g
    case PointGeom(p) => PointText(p)
    case LineGeom(ps) => "[" + (PointsText(ps) + "]")
    case PolygonGeom(ext, _) => "[[" + (PointsText(ext) + "]]")
  }

  function GeometryText(g: Geom): string {
    Head(Kind(g)) + (CoordinatesText(g) + "}")
  }

  // ---------- Reading a geometry ----------

  datatype Outcome = Geometry(g: Geom) | SyntaxError | InvalidGeom | Unsupported

  /** The point that an array starting with two numbers stands for. */
  function PointOf(j: Json): Option<Point> {
    if j.JArray? && |j.items| >= 2 && j.items[0].JNumber? && j.items[1].JNumber?
    then Some(Point(j.items[0].r, j.items[1].r)) else None
  }

  /** All the points, if every element stands for one. */
  function PointsOf(js: seq<Json>): Option<seq<Point>> {
    if js == [] then Some([])
    else
      var n := |js| - 1;
      var ps, p := PointsOf(js[..n]), PointOf(js[n]);
      if ps.Some? && p.Some? then Some(ps.value + [p.value]) else None
  }

  /** The points among the elements; the others are passed over. */
  function ValidPoints(js: seq<Json>): seq<Point> {
    if js == [] then []
    else
      var n := |js| - 1;
      ValidPoints(js[..n]) + if PointOf(js[n]).Some? then [PointOf(js[n]).value] else []
  }

  /** The holes read from the rings after the first.  A ring that is no array is passed over, and
      from then on the points of later rings miss their hole, whose index no longer fits. */
  function HolesOf(rings: seq<Json>): seq<seq<Point>> {
    if rings == [] then []
    else
      var n := |rings| - 1;
      var holes := HolesOf(rings[..n]);
      if !rings[n].JArray? then holes
      else if |holes| == n then holes + [ValidPoints(rings[n].items)]
      else holes + [[]]
  }

  /** What the rings say: the points of every ring that is an array. */
  function RingPoints(rings: seq<Json>): seq<seq<Point>> {
    if rings == [] then []
    else var n := |rings| - 1; RingPoints(rings[..n]) + if rings[n].JArray? then [ValidPoints(rings[n].items)] else []
  }

  lemma {:induction false} HolesCount(rings: seq<Json>)
    ensures |HolesOf(rings)| == |RingPoints(rings)| <= |rings|
    ensures |HolesOf(rings)| == |rings| <==> forall i | 0 <= i < |rings| :: rings[i].JArray?
  {
    if rings != [] {
      var n := |rings| - 1;
      HolesCount(rings[..n]);
      assert forall i | 0 <= i < n :: rings[..n][i] == rings[i];
    }
  }

  /** No ring with points follows one that is no array. */
  ghost predicate PointsComeFirst(rings: seq<Json>) {
    forall i, j | 0 <= i < j < |rings| && !rings[i].JArray? && rings[j].JArray? :: ValidPoints(rings[j].items) == []
  }

  lemma PointsComeFirstNext(rings: seq<Json>)
    requires rings != []
    ensures var n := |rings| - 1;
      PointsComeFirst(rings) <==>
        && PointsComeFirst(rings[..n])
        && (rings[n].JArray? && (exists i | 0 <= i < n :: !rings[i].JArray?) ==> ValidPoints(rings[n].items) == [])
  {
    hide ValidPoints;
    var n := |rings| - 1;
    var before := rings[..n];
    assert forall i | 0 <= i < n :: before[i] == rings[i];
    if PointsComeFirst(rings) {
      forall i, j | 0 <= i < j < n && !before[i].JArray? && before[j].JArray?
        ensures ValidPoints(before[j].items) == []
      {
        assert !rings[i].JArray? && rings[j].JArray?;
      }
    }
  }

  lemma LastDiffers<T>(a: seq<T>, b: seq<T>, x: T, y: T)
    requires |a| == |b|
    ensures a + [x] == b + [y] <==> a == b && x == y
  {
    if a + [x] == b + [y] {
      assert (a + [x])[..|a|] == a && (b + [y])[..|b|] == b;
      assert (a + [x])[|a|] == x && (b + [y])[|b|] == y;
    }
  }

  /** The holes are what the rings say exactly if no ring with points follows one that is no array. */
  lemma {:induction false} HolesExactIff(rings: seq<Json>)
    ensures HolesOf(rings) == RingPoints(rings) <==> PointsComeFirst(rings)
  {
    hide ValidPoints, PointsComeFirst;
    if rings == [] {
      NoRings(rings);
    } else {
      var n := |rings| - 1;
      var before, ring := rings[..n], rings[n];
      HolesExactIff(before);
      HolesCount(before);
      PointsComeFirstNext(rings);
      if ring.JArray? {
        var points := if |HolesOf(before)| == n then ValidPoints(ring.items) else [];
        LastDiffers(HolesOf(before), RingPoints(before), points, ValidPoints(ring.items));
      }
    }
  }

  lemma NoRings(rings: seq<Json>)
    requires rings == []
    ensures PointsComeFirst(rings)
  {
  }

  function GeometryOf(j: Json): Outcome {
    if !j.JObject? then InvalidGeom
    else
      var kind, coords := Lookup(j.members, "type"), Lookup(j.members, "coordinates");
      if kind.None? || !kind.value.JString? || coords.None? then InvalidGeom
      else if kind.value.s == "Point" then
        var p := PointOf(coords.value);
        if p.Some? then Geometry(PointGeom(p.value)) else InvalidGeom
      else if kind.value.s == "LineString" then
        if !coords.value.JArray? then InvalidGeom
        else
          var ps := PointsOf(coords.value.items);
          if ps.Some? then Geometry(LineGeom(ps.value)) else InvalidGeom
      else if kind.value.s == "Polygon" then
        if !coords.value.JArray? || |coords.value.items| < 1 || !coords.value.items[0].JArray? then InvalidGeom
        else
          var ext := PointsOf(coords.value.items[0].items);
          if ext.Some? then Geometry(PolygonGeom(ext.value, HolesOf(coords.value.items[1..]))) else InvalidGeom
      else Unsupported
  }

  /** A point is an array of at least two elements of which the first two are numbers, x and then y. */
  lemma PointOfMeans(j: Json)
    ensures match PointOf(j)
      case Some(p) =>
        j.JArray? && |j.items| >= 2 && j.items[0] == JNumber(p.x) && j.items[1] == JNumber(p.y)
      case None => !j.JArray? || |j.items| < 2 || !j.items[0].JNumber? || !j.items[1].JNumber?
  {
  }

  /** Points are wanted of all elements, in order, ... */
  lemma {:induction false} PointsOfMeans(js: seq<Json>)
    ensures PointsOf(js).Some? <==> forall i | 0 <= i < |js| :: PointOf(js[i]).Some?
    ensures PointsOf(js).Some? ==>
      |PointsOf(js).value| == |js| && forall i | 0 <= i < |js| :: PointOf(js[i]) == Some(PointsOf(js).value[i])
  {
    hide PointOf;
    if js != [] {
      var n := |js| - 1;
      PointsOfMeans(js[..n]);
      assert forall i | 0 <= i < n :: js[..n][i] == js[i];
    }
  }

  /** ... or taken of those that have one. */
  lemma {:induction false} ValidPointsJoin(a: seq<Json>, b: seq<Json>)
    ensures ValidPoints(a + b) == ValidPoints(a) + ValidPoints(b)
    ensures |a| == 1 ==> ValidPoints(a) == match PointOf(a[0]) case Some(p) => [p] case None => []
  {
    hide PointOf, ValidPoints;
    NoPoints();
    if |a| == 1 {
      PointsNext(a);
      assert a[..0] == [];
    }
    if b == [] {
      assert a + b == a;
    } else {
      var n := |b| - 1;
      assert (a + b)[..|a| + n] == a + b[..n];
      ValidPointsJoin(a, b[..n]);
      PointsNext(b);
      PointsNext(a + b);
    }
  }

  /** What is no geometry: no object, no type or coordinates, another type, or coordinates of another shape. */
  lemma GeometryErrors(j: Json)
    ensures !j.JObject? ==> GeometryOf(j) == InvalidGeom
    ensures j.JObject? ==>
      var kind, coords := Lookup(j.members, "type"), Lookup(j.members, "coordinates");
      && (kind.None? || !kind.value.JString? || coords.None? ==> GeometryOf(j) == InvalidGeom)
      && (kind.Some? && kind.value.JString? && coords.Some? ==>
            var name, c := kind.value.s, coords.value;
            && (GeometryOf(j) == Unsupported <==> name != "Point" && name != "LineString" && name != "Polygon")
            && (name == "Point" ==> (GeometryOf(j) == InvalidGeom <==> PointOf(c).None?))
            && (name == "LineString" ==>
                  (GeometryOf(j) == InvalidGeom <==> !c.JArray? || exists i | 0 <= i < |c.items| :: PointOf(c.items[i]).None?))
            && (name == "Polygon" ==>
                  (GeometryOf(j) == InvalidGeom <==>
                     || !c.JArray? || |c.items| == 0 || !c.items[0].JArray?
                     || exists i | 0 <= i < |c.items[0].items| :: PointOf(c.items[0].items[i]).None?)))
  {
    hide PointOf, PointsOf, HolesOf;
    if j.JObject? {
      var coords := Lookup(j.members, "coordinates");
      if coords.Some? && coords.value.JArray? {
        PointsOfMeans(coords.value.items);
        if |coords.value.items| > 0 && coords.value.items[0].JArray? { PointsOfMeans(coords.value.items[0].items); }
      }
    }
  }

  /** Reading a text: its first value, whatever follows it, taken as a geometry. */
  function Read(text: string): Outcome {
    var r := Value(text, 0);
    if r.Ok? then GeometryOf(r.value) else SyntaxError
  }

  /** The object a geometry is read into: id 0, centroid and rectangle derived. */
  function Imported(sqrt: real -> real, g: Geom): SpatialObject {
    Derived(sqrt, SpatialObject(0, g, Point(0.0, 0.0), EMPTY_MBR))
  }

  // ---------- The round trip ----------

  function RoundedPoint(p: Point): Point { Point(Rounded(p.x), Rounded(p.y)) }

  function RoundedPoints(ps: seq<Point>): (r: seq<Point>)
    ensures |r| == |ps|
  {
    seq(|ps|, i requires 0 <= i < |ps| => RoundedPoint(ps[i]))
  }

  /** What the text keeps of a geometry: coordinates to six decimals, and no holes. */
  function Kept(g: Geom): Geom {
    match g
    case PointGeom(p) => PointGeom(RoundedPoint(p))
    case LineGeom(ps) => LineGeom(RoundedPoints(ps))
    case PolygonGeom(ext, _) => PolygonGeom(RoundedPoints(ext), [])
  }

  // ---------- Geometries laid out as documents ----------

  function PointDoc(p: (Num, Num)): Doc { DArr([DNum(p.0), DNum(p.1)]) }

  function PointDocs(ps: seq<(Num, Num)>): (r: seq<Doc>)
    ensures |r| == |ps|
  {
    seq(|ps|, i requires 0 <= i < |ps| => PointDoc(ps[i]))
  }

  function RingDocs(rings: seq<seq<(Num, Num)>>): (r: seq<Doc>)
    ensures |r| == |rings|
  {
    seq(|rings|, i requires 0 <= i < |rings| => DArr(PointDocs(rings[i])))
  }

  /** An object with a type and coordinates. */
  function GeometryDoc(kind: string, coords: Doc): Doc {
    DObj([Entry("type", "\"type\"", DStr(kind, Quoted(kind))), Entry("coordinates", "\"coordinates\"", coords)])
  }

  predicate GoodPoints(ps: seq<(Num, Num)>) {
    forall i | 0 <= i < |ps| :: GoodNum(ps[i].0) && GoodNum(ps[i].1)
  }

  /** The points the numbers stand for: x first, then y. */
  function PointsAt(ps: seq<(Num, Num)>): (r: seq<Point>)
    requires GoodPoints(ps)
    ensures |r| == |ps| && forall i | 0 <= i < |ps| :: r[i] == Point(NumValue(ps[i].0), NumValue(ps[i].1))
  {
    seq(|ps|, i requires 0 <= i < |ps| => Point(NumValue(ps[i].0), NumValue(ps[i].1)))
  }

  function RingsAt(rings: seq<seq<(Num, Num)>>): (r: seq<seq<Point>>)
    requires forall i | 0 <= i < |rings| :: GoodPoints(rings[i])
    ensures |r| == |rings| && forall i | 0 <= i < |rings| :: r[i] == PointsAt(rings[i])
  {
    seq(|rings|, i requires 0 <= i < |rings| => PointsAt(rings[i]))
  }

  lemma QuotedIsLiteral(w: string)
    requires Plain(w)
    ensures Literal(Quoted(w), w) && Quoted(w) != ""
  {
    hide Scan, Unescape;
    var token := Quoted(w);
    assert token[1..1 + |w|] == w && token[1 + |w|] == '"';
    ScanPlain(token, 1, w);
    UnescapePlain(w);
  }

  lemma Names()
    ensures Plain("type") && Plain("coordinates") && Plain("Point") && Plain("LineString") && Plain("Polygon")
    ensures "type" != "coordinates" && "LineString" != "Point" && "Polygon" != "Point" && "Polygon" != "LineString"
    ensures Quoted("type") == "\"type\"" && Quoted("coordinates") == "\"coordinates\""
  {
    assert |"type"| == 4 && |"coordinates"| == 11;
    assert |"Point"| == 5 && |"LineString"| == 10 && |"Polygon"| == 7;
  }

  lemma PointDocReads(p: (Num, Num))
    requires GoodNum(p.0) && GoodNum(p.1)
    ensures Good(PointDoc(p)) && PointOf(JsonOf(PointDoc(p))) == Some(Point(NumValue(p.0), NumValue(p.1)))
  {
    hide GoodNum, NumValue;
    var ds := [DNum(p.0), DNum(p.1)];
    assert Good(ds[0]) && Good(ds[1]);
    assert JsonsOf(ds)[0] == JNumber(NumValue(p.0)) && JsonsOf(ds)[1] == JNumber(NumValue(p.1));
  }

  /** An array of points reads as these points, by the reader that wants all of them and by the one that skips. */
  lemma {:induction false} PointDocsRead(ps: seq<(Num, Num)>)
    requires GoodPoints(ps)
    ensures forall i | 0 <= i < |ps| :: Good(PointDocs(ps)[i])
    ensures PointsOf(JsonsOf(PointDocs(ps))) == Some(PointsAt(ps)) && ValidPoints(JsonsOf(PointDocs(ps))) == PointsAt(ps)
  {
    hide GoodNum, NumValue, PointOf, JsonOf, Good, PointDoc, PointsOf, ValidPoints, PointsAt;
    forall i | 0 <= i < |ps| ensures Good(PointDocs(ps)[i]) { PointDocReads(ps[i]); }
    if ps == [] {
      assert JsonsOf(PointDocs(ps)) == [];
      NoPoints();
    } else {
      var n := |ps| - 1;
      PointDocsRead(ps[..n]);
      PointDocReads(ps[n]);
      assert PointDocs(ps)[n] == PointDoc(ps[n]);
      assert JsonsOf(PointDocs(ps))[..n] == JsonsOf(PointDocs(ps[..n]));
      assert PointsAt(ps) == PointsAt(ps[..n]) + [Point(NumValue(ps[n].0), NumValue(ps[n].1))];
      PointsNext(JsonsOf(PointDocs(ps)));
    }
  }

  lemma NoPoints()
    ensures PointsOf([]) == Some([]) && ValidPoints([]) == []
  {
  }

  lemma PointsNext(js: seq<Json>)
    requires js != []
    ensures var n := |js| - 1;
      PointsOf(js[..n]).Some? && PointOf(js[n]).Some? ==> PointsOf(js) == Some(PointsOf(js[..n]).value + [PointOf(js[n]).value])
    ensures var n := |js| - 1;
      ValidPoints(js) == ValidPoints(js[..n]) + match PointOf(js[n]) case Some(p) => [p] case None => []
  {
    hide PointOf;
  }

  lemma {:induction false} RingDocsRead(rings: seq<seq<(Num, Num)>>)
    requires forall i | 0 <= i < |rings| :: GoodPoints(rings[i])
    ensures forall i | 0 <= i < |rings| :: Good(RingDocs(rings)[i])
    ensures HolesOf(JsonsOf(RingDocs(rings))) == RingsAt(rings)
  {
    hide ValidPoints, PointDocs, PointsAt, GoodPoints, PointsOf, Good, JsonsOf, GoodNum, NumValue;
    forall i | 0 <= i < |rings| ensures Good(RingDocs(rings)[i]) {
      PointDocsRead(rings[i]);
      GoodArray(PointDocs(rings[i]));
    }
    if rings == [] {
      assert JsonsOf(RingDocs(rings)) == [];
    } else {
      var n := |rings| - 1;
      RingDocsRead(rings[..n]);
      PointDocsRead(rings[n]);
      GoodArray(PointDocs(rings[n]));
      assert RingDocs(rings)[n] == DArr(PointDocs(rings[n]));
      assert JsonsOf(RingDocs(rings))[..n] == JsonsOf(RingDocs(rings[..n]));
      assert JsonsOf(RingDocs(rings))[n] == JArray(JsonsOf(PointDocs(rings[n])));
    }
  }

  /** The members of a geometry are found under their names. */
  lemma GeometryDocReads(kind: string, coords: Doc)
    requires Good(coords) && Plain(kind)
    ensures Good(GeometryDoc(kind, coords))
    ensures var j := JsonOf(GeometryDoc(kind, coords));
      j.JObject? && Lookup(j.members, "type") == Some(JString(kind)) && Lookup(j.members, "coordinates") == Some(JsonOf(coords))
  {
    hide Good, Literal, Quoted;
    Names();
    QuotedIsLiteral("type");
    QuotedIsLiteral("coordinates");
    QuotedIsLiteral(kind);
    var first, second := DStr(kind, Quoted(kind)), Entry("coordinates", "\"coordinates\"", coords);
    assert Good(first) by { LiteralIsGood(kind, Quoted(kind)); }
    var ms := [Entry("type", "\"type\"", first), second];
    GoodObject(ms);
    var js := MembersOf(ms);
    assert js[0] == Member("type", JString(kind)) && js[1] == Member("coordinates", JsonOf(coords));
    assert js[1..][0] == js[1];
  }

  lemma LiteralIsGood(s: string, token: string)
    requires Literal(token, s)
    ensures Good(DStr(s, token)) && JsonOf(DStr(s, token)) == JString(s)
  {
  }

  /** A point, a linestring or a polygon with holes, each as an object with its type and its coordinates,
      reads as that geometry. */
  lemma PointJsonReads(p: (Num, Num))
    requires GoodNum(p.0) && GoodNum(p.1)
    ensures Good(GeometryDoc("Point", PointDoc(p)))
    ensures GeometryOf(JsonOf(GeometryDoc("Point", PointDoc(p)))) == Geometry(PointGeom(Point(NumValue(p.0), NumValue(p.1))))
  {
    hide GoodNum, NumValue, PointOf, Good, PointDoc, GeometryDoc, JsonOf, Lookup;
    Names();
    PointDocReads(p);
    GeometryDocReads("Point", PointDoc(p));
  }

  lemma LineJsonReads(ps: seq<(Num, Num)>)
    requires GoodPoints(ps)
    ensures Good(GeometryDoc("LineString", DArr(PointDocs(ps))))
    ensures GeometryOf(JsonOf(GeometryDoc("LineString", DArr(PointDocs(ps))))) == Geometry(LineGeom(PointsAt(ps)))
  {
    hide PointsOf, ValidPoints, Good, GeometryDoc, Lookup, PointDocs, JsonsOf, GoodPoints, MembersOf;
    Names();
    PointDocsRead(ps);
    GoodArray(PointDocs(ps));
    GeometryDocReads("LineString", DArr(PointDocs(ps)));
  }

  lemma PolygonJsonReads(rings: seq<seq<(Num, Num)>>)
    requires rings != [] && forall i | 0 <= i < |rings| :: GoodPoints(rings[i])
    ensures Good(GeometryDoc("Polygon", DArr(RingDocs(rings))))
    ensures GeometryOf(JsonOf(GeometryDoc("Polygon", DArr(RingDocs(rings)))))
         == Geometry(PolygonGeom(PointsAt(rings[0]), RingsAt(rings[1..])))
  {
    hide PointsOf, ValidPoints, Good, GeometryDoc, Lookup, PointDocs, GoodPoints, HolesOf, MembersOf;
    Names();
    RingDocsRead(rings);
    RingDocsRead(rings[1..]);
    PointDocsRead(rings[0]);
    GoodArray(RingDocs(rings));
    GoodArray(PointDocs(rings[0]));
    GeometryDocReads("Polygon", DArr(RingDocs(rings)));
    var js := JsonsOf(RingDocs(rings));
    assert RingDocs(rings)[0] == DArr(PointDocs(rings[0]));
    assert js[0] == JArray(JsonsOf(PointDocs(rings[0])));
    assert RingDocs(rings)[1..] == RingDocs(rings[1..]);
    assert js[1..] == JsonsOf(RingDocs(rings[1..]));
  }

  /** With any spaces before, between and behind the tokens a document is taken for the same geometry. */
  lemma LaidOutReads(d: Doc, gaps: seq<string>)
    requires Good(d) && |gaps| == |Tokens(d)| + 1 && forall i | 0 <= i < |gaps| :: Blank(gaps[i])
    ensures Read(Spaced(Tokens(d), gaps)) == GeometryOf(JsonOf(d))
  {
    hide Good, Tokens, JsonOf, Value, Blank, Spaced, GeometryOf;
    DocumentReads(d, gaps);
  }

  // ---------- The written text as a document ----------

  function FixedPoints(ps: seq<Point>): (r: seq<(Num, Num)>)
    ensures |r| == |ps| && forall i | 0 <= i < |ps| :: r[i] == (FixedNum(ps[i].x), FixedNum(ps[i].y))
  {
    seq(|ps|, i requires 0 <= i < |ps| => (FixedNum(ps[i].x), FixedNum(ps[i].y)))
  }

  function CoordinatesDoc(g: Geom): Doc {
    match g
    case PointGeom(p) => PointDoc((FixedNum(p.x), FixedNum(p.y)))
    case LineGeom(ps) => DArr(PointDocs(FixedPoints(ps)))
    case PolygonGeom(ext, _) => DArr(RingDocs([FixedPoints(ext)]))
  }

  function WrittenDoc(g: Geom): Doc { GeometryDoc(Kind(g), CoordinatesDoc(g)) }

  lemma FixedPointsRead(ps: seq<Point>)
    ensures GoodPoints(FixedPoints(ps)) && PointsAt(FixedPoints(ps)) == RoundedPoints(ps)
  {
    hide FixedNum, GoodNum, NumValue, Rounded;
    forall i | 0 <= i < |ps|
      ensures var p := FixedPoints(ps)[i];
        GoodNum(p.0) && GoodNum(p.1) && Point(NumValue(p.0), NumValue(p.1)) == RoundedPoint(ps[i])
    {
      FixedReads(ps[i].x);
      FixedReads(ps[i].y);
    }
  }

  /** Read as a document, the written text is the geometry to six decimals, without its holes. */
  lemma WrittenReads(g: Geom)
    ensures Good(WrittenDoc(g)) && GeometryOf(JsonOf(WrittenDoc(g))) == Geometry(Kept(g))
  {
    hide Good, GeometryDoc, JsonOf, GeometryOf, GoodPoints, RoundedPoints, FixedNum, NumValue, GoodNum, PointDocs, RingDocs;
    match g
    case PointGeom(p) =>
      FixedReads(p.x);
      FixedReads(p.y);
      PointJsonReads((FixedNum(p.x), FixedNum(p.y)));
    case LineGeom(ps) =>
      FixedPointsRead(ps);
      LineJsonReads(FixedPoints(ps));
    case PolygonGeom(ext, _) =>
      FixedPointsRead(ext);
      PolygonJsonReads([FixedPoints(ext)]);
      assert [FixedPoints(ext)][1..] == [];
  }

  function Joined(ts: seq<string>): string {
    if ts == [] then "" else ts[0] + Joined(ts[1..])
  }

  lemma {:induction false} JoinedJoins(a: seq<string>, b: seq<string>)
    ensures Joined(a + b) == Joined(a) + Joined(b)
  {
    if a == [] {
      assert a + b == b;
    } else {
      assert (a + b)[1..] == a[1..] + b;
      JoinedJoins(a[1..], b);
    }
  }

  lemma JoinedOne(t: string)
    ensures Joined([t]) == t
  {
    assert [t][1..] == [];
  }

  lemma JoinedHead(ts: seq<string>, t: string, rest: seq<string>)
    requires ts == [t] + rest
    ensures Joined(ts) == t + Joined(rest)
  {
    assert ts[1..] == rest;
  }

  function NoGaps(n: nat): (r: seq<string>)
    ensures |r| == n
  {
    seq(n, _ => "")
  }

  lemma {:induction false} SpacedWithoutGaps(ts: seq<string>)
    ensures Spaced(ts, NoGaps(|ts| + 1)) == Joined(ts)
  {
    if ts != [] {
      SpacedWithoutGaps(ts[1..]);
      assert NoGaps(|ts| + 1)[1..] == NoGaps(|ts|);
      assert "" + (ts[0] + Joined(ts[1..])) == ts[0] + Joined(ts[1..]);
    }
  }

  lemma PointWritten(p: Point)
    ensures Joined(Tokens(PointDoc((FixedNum(p.x), FixedNum(p.y))))) == PointText(p)
  {
    hide FixedNum, Fixed, NumText, Joined;
    FixedReads(p.x);
    FixedReads(p.y);
    var ds := [DNum(FixedNum(p.x)), DNum(FixedNum(p.y))];
    assert ds[1..] == [DNum(FixedNum(p.y))];
    assert ItemTokens(ds[1..]) == [Fixed(p.y)];
    assert ItemTokens(ds) == [Fixed(p.x)] + [","] + [Fixed(p.y)] == [Fixed(p.x), ",", Fixed(p.y)];
    var ts := ["[", Fixed(p.x), ",", Fixed(p.y), "]"];
    assert Tokens(PointDoc((FixedNum(p.x), FixedNum(p.y)))) == ["["] + [Fixed(p.x), ",", Fixed(p.y)] + ["]"] == ts;
    JoinedHead(ts, "[", [Fixed(p.x), ",", Fixed(p.y), "]"]);
    JoinedHead([Fixed(p.x), ",", Fixed(p.y), "]"], Fixed(p.x), [",", Fixed(p.y), "]"]);
    JoinedHead([",", Fixed(p.y), "]"], ",", [Fixed(p.y), "]"]);
    JoinedHead([Fixed(p.y), "]"], Fixed(p.y), ["]"]);
    JoinedOne("]");
  }

  lemma {:induction false} PointsWritten(ps: seq<Point>)
    ensures Joined(ItemTokens(PointDocs(FixedPoints(ps)))) == PointsText(ps)
  {
    hide FixedNum, PointText, PointDoc, Tokens;
    var ds := PointDocs(FixedPoints(ps));
    if ps == [] {
    } else if |ps| == 1 {
      PointWritten(ps[0]);
    } else {
      PointWritten(ps[0]);
      PointsWritten(ps[1..]);
      assert FixedPoints(ps)[1..] == FixedPoints(ps[1..]);
      assert ds[1..] == PointDocs(FixedPoints(ps[1..]));
      var rest := ItemTokens(ds[1..]);
      JoinedJoins(Tokens(ds[0]) + [","], rest);
      JoinedJoins(Tokens(ds[0]), [","]);
      JoinedOne(",");
      assert PointText(ps[0]) + "," + PointsText(ps[1..]) == PointText(ps[0]) + ("," + PointsText(ps[1..]));
    }
  }

  lemma ArrayWritten(ds: seq<Doc>, t: string)
    requires Joined(ItemTokens(ds)) == t
    ensures Joined(Tokens(DArr(ds))) == "[" + (t + "]")
  {
    hide ItemTokens;
    JoinedJoins(["["] + ItemTokens(ds), ["]"]);
    JoinedJoins(["["], ItemTokens(ds));
    JoinedOne("[");
    JoinedOne("]");
    assert "[" + t + "]" == "[" + (t + "]");
  }

  lemma CoordinatesWritten(g: Geom)
    ensures Joined(Tokens(CoordinatesDoc(g))) == CoordinatesText(g)
  {
    hide FixedNum, PointText, PointDoc, PointsText, PointDocs, Joined;
    match g
    case PointGeom(p) => PointWritten(p);
    case LineGeom(ps) =>
      PointsWritten(ps);
      ArrayWritten(PointDocs(FixedPoints(ps)), PointsText(ps));
    case PolygonGeom(ext, _) =>
      PointsWritten(ext);
      var ring := DArr(PointDocs(FixedPoints(ext)));
      ArrayWritten(PointDocs(FixedPoints(ext)), PointsText(ext));
      assert RingDocs([FixedPoints(ext)]) == [ring];
      ArrayWritten([ring], "[" + (PointsText(ext) + "]"));
      assert "[" + (("[" + (PointsText(ext) + "]")) + "]") == "[[" + (PointsText(ext) + "]]");
  }

  /** The written text is the tokens of the document, without spaces. */
  lemma TextIsDocument(g: Geom)
    ensures Joined(Tokens(WrittenDoc(g))) == GeometryText(g)
  {
    hide CoordinatesDoc, CoordinatesText;
    Names();
    CoordinatesWritten(g);
    var kind, coords := Kind(g), CoordinatesDoc(g);
    var second := Entry("coordinates", "\"coordinates\"", coords);
    var ms := [Entry("type", "\"type\"", DStr(kind, Quoted(kind))), second];
    assert ms[1..] == [second];
    var head := ["{", Quoted("type"), ":", Quoted(kind), ",", Quoted("coordinates"), ":"];
    MembersWritten(kind, coords, ms);
    JoinedJoins(head + Tokens(coords), ["}"]);
    JoinedJoins(head, Tokens(coords));
    JoinedOne("}");
    HeadWritten(kind);
    assert Head(kind) + CoordinatesText(g) + "}" == Head(kind) + (CoordinatesText(g) + "}");
  }

  lemma MembersWritten(kind: string, coords: Doc, ms: seq<Entry>)
    requires ms == [Entry("type", "\"type\"", DStr(kind, Quoted(kind))), Entry("coordinates", "\"coordinates\"", coords)]
    ensures Tokens(DObj(ms))
         == ["{", "\"type\"", ":", Quoted(kind), ",", "\"coordinates\"", ":"] + Tokens(coords) + ["}"]
  {
    hide Quoted;
    assert ms[1..] == [ms[1]];
    var first, second := ["\"type\"", ":"] + [Quoted(kind)], ["\"coordinates\"", ":"] + Tokens(coords);
    assert Tokens(ms[0].doc) == [Quoted(kind)];
    assert MemberTokens(ms[1..]) == second;
    assert MemberTokens(ms) == first + [","] + second;
    assert ["{"] + (first + [","] + second) + ["}"]
        == ["{", "\"type\"", ":", Quoted(kind), ",", "\"coordinates\"", ":"] + Tokens(coords) + ["}"];
  }

  lemma HeadWritten(kind: string)
    ensures Joined(["{", "\"type\"", ":", Quoted(kind), ",", "\"coordinates\"", ":"]) == Head(kind)
  {
    hide Quoted, Joined;
    Names();
    var t, k, c := Quoted("type"), Quoted(kind), Quoted("coordinates");
    JoinedHead(["{", t, ":", k, ",", c, ":"], "{", [t, ":", k, ",", c, ":"]);
    JoinedHead([t, ":", k, ",", c, ":"], t, [":", k, ",", c, ":"]);
    JoinedHead([":", k, ",", c, ":"], ":", [k, ",", c, ":"]);
    JoinedHead([k, ",", c, ":"], k, [",", c, ":"]);
    JoinedHead([",", c, ":"], ",", [c, ":"]);
    JoinedHead([c, ":"], c, [":"]);
    JoinedOne(":");
  }

  /** The text of a geometry, anywhere in s, reads back as the document it is. */
  lemma TextRoundTrip(s: string, at: nat, g: Geom)
    requires WordAt(s, at, GeometryText(g))
    ensures Good(WrittenDoc(g)) && Value(s, at) == Ok(JsonOf(WrittenDoc(g)), at + |GeometryText(g)|)
  {
    hide Value, WordAt, GeometryText, Good, Tokens, JsonOf, CoordinatesDoc, Spaced, Joined, After;
    var d := WrittenDoc(g);
    var ts := Tokens(d);
    WrittenReads(g);
    TextIsDocument(g);
    SpacedWithoutGaps(ts);
    TokensPlain(d);
    SpacedAfter(s, at, ts, NoGaps(|ts| + 1));
    DocReads(s, at, d, at + |GeometryText(g)|);
  }

  /** Reading what was written gives the geometry to six decimals without its holes, ... */
  lemma RoundTrip(g: Geom)
    ensures Read(GeometryText(g)) == Geometry(Kept(g))
  {
    hide Value, GeometryOf, GeometryText, WrittenDoc, JsonOf, Kept;
    var s := GeometryText(g);
    assert s[0..0 + |s|] == s;
    TextRoundTrip(s, 0, g);
    WrittenReads(g);
  }

  /** Whether six decimals write all coordinates exactly and there are no holes. */
  predicate Exact(g: Geom) {
    match g
    case PointGeom(p) => SixDecimals(p.x) && SixDecimals(p.y)
    case LineGeom(ps) => forall i | 0 <= i < |ps| :: SixDecimals(ps[i].x) && SixDecimals(ps[i].y)
    case PolygonGeom(ext, holes) => holes == [] && forall i | 0 <= i < |ext| :: SixDecimals(ext[i].x) && SixDecimals(ext[i].y)
  }

  /** ... which is the geometry itself exactly when six decimals suffice and it has no holes. */
  lemma RoundTripExactIff(g: Geom)
    ensures Read(GeometryText(g)) == Geometry(g) <==> Exact(g)
  {
    hide Read, GeometryText, Rounded, SixDecimals;
    RoundTrip(g);
    match g
    case PointGeom(p) =>
      RoundedIsNear(p.x);
      RoundedIsNear(p.y);
    case LineGeom(ps) => PointsExact(ps);
    case PolygonGeom(ext, _) => PointsExact(ext);
  }

  lemma PointsExact(ps: seq<Point>)
    ensures RoundedPoints(ps) == ps <==> forall i | 0 <= i < |ps| :: SixDecimals(ps[i].x) && SixDecimals(ps[i].y)
  {
    hide Rounded, SixDecimals;
    forall i | 0 <= i < |ps|
      ensures RoundedPoints(ps)[i] == ps[i] <==> SixDecimals(ps[i].x) && SixDecimals(ps[i].y)
    {
      RoundedIsNear(ps[i].x);
      RoundedIsNear(ps[i].y);
    }
  }

  // ---------- The code that writes ----------

  /** The buffer holds t and a terminator, or as much of t as leaves room for the terminator. */
  ghost predicate Shows(buffer: array<char>, t: string)
    reads buffer
  {
    && buffer.Length > 0
    && var n := if |t| < buffer.Length then |t| else buffer.Length - 1;
       buffer[..n] == t[..n] && buffer[n] == '\0'
  }

  /** Writes text and a terminator at an offset. */
  method Put(buffer: array<char>, written: nat, text: string)
    requires written + |text| < buffer.Length
    modifies buffer
    ensures buffer[..written + |text|] == old(buffer[..written]) + text && buffer[written + |text|] == '\0'
  {
    for i := 0 to |text|
      invariant buffer[..written] == old(buffer[..written])
      invariant buffer[written..written + i] == text[..i]
    {
      buffer[written + i] := text[i];
    }
    var next := written + |text|;
    buffer[next] := '\0';
    assert buffer[..next] == buffer[..written] + buffer[written..next];
  }

  /** snprintf at an offset, which truncates: with no room left at all it only counts. */
  method Append(buffer: array<char>, written: nat, text: string, ghost t: string) returns (next: nat)
    requires buffer.Length > 0 && (t == "" || Shows(buffer, t))
    requires written == if |t| < buffer.Length then |t| else buffer.Length
    modifies buffer
    ensures next == written + |text| && Shows(buffer, t + text)
  {
    next := written + |text|;
    if written < buffer.Length {
      var room := buffer.Length - written - 1;
      var n := if |text| < room then |text| else room;
      assert buffer[..written] == t;
      Put(buffer, written, text[..n]);
      assert t + text[..n] == (t + text)[..written + n];
    } else {
      assert t[..buffer.Length - 1] == (t + text)[..buffer.Length - 1];
    }
  }

  lemma {:induction false} OnePointMore(ps: seq<Point>, i: nat)
    requires i < |ps|
    ensures PointsText(ps[..i + 1]) == PointsText(ps[..i]) + ((if i > 0 then "," else "") + PointText(ps[i]))
    decreases i
  {
    hide PointText;
    if i == 0 {
      assert ps[..1] == [ps[0]] && ps[..0] == [];
    } else {
      OnePointMore(ps[1..], i - 1);
      assert ps[..i + 1][1..] == ps[1..][..i] && ps[..i][1..] == ps[1..][..i - 1];
      var rest := PointsText(ps[1..][..i - 1]);
      if i > 1 {
        assert PointsText(ps[..i]) == PointText(ps[0]) + ("," + rest);
        assert PointText(ps[0]) + ("," + (rest + ("," + PointText(ps[i]))))
            == PointText(ps[0]) + ("," + rest) + ("," + PointText(ps[i]));
      } else {
        assert ps[..1] == [ps[0]];
        assert rest == "" && rest + ("" + PointText(ps[i])) == PointText(ps[i]);
      }
    }
  }

  /** The text of the first points begins the text of more. */
  lemma {:induction false} TextGrows(ps: seq<Point>, i: nat, j: nat)
    requires i <= j <= |ps|
    ensures PointsText(ps[..i]) <= PointsText(ps[..j])
    ensures i < j ==> |PointsText(ps[..i])| < |PointsText(ps[..j])|
    decreases j - i
  {
    hide PointsText, PointText;
    if i < j {
      OnePointMore(ps, i);
      PointTextStarts(ps[i]);
      TextGrows(ps, i + 1, j);
    }
  }

  lemma PointTextStarts(p: Point)
    ensures PointText(p) != ""
  {
  }

  lemma NoPointsText(ps: seq<Point>)
    requires ps == []
    ensures PointsText(ps) == ""
  {
  }

  lemma Rebracket(a: string, b: string, c: string, d: string, e: string)
    ensures a + ((b + (c + d)) + e) == "" + (a + b) + c + (d + e)
  {
  }

  /** What comes before the points of a line or a ring. */
  function Opening(g: Geom): string {
    match g
    case PointGeom(_) => ""
    case LineGeom(_) => Head("LineString") + "["
    case PolygonGeom(_, _) => Head("Polygon") + "[["
  }

  function PointsIn(g: Geom): seq<Point> {
    match g
    case PointGeom(_) => []
    case LineGeom(ps) => ps
    case PolygonGeom(ext, _) => ext
  }

  /** What closes the text of a line or a ring; a point is written in one piece. */
  function Closing(g: Geom): string {
    match g
    case PointGeom(p) => Head("Point") + (PointText(p) + "}")
    case LineGeom(_) => "]}"
    case PolygonGeom(_, _) => "]]}"
  }

  /** The pieces in which the text of a geometry is written. */
  lemma TextPieces(g: Geom)
    ensures GeometryText(g) == Opening(g) + PointsText(PointsIn(g)) + Closing(g)
    ensures !g.PointGeom? ==> Opening(g) != ""
  {
    hide Head, PointText;
    match g
    case PointGeom(p) => assert "" + "" + Closing(g) == Closing(g);
    case LineGeom(ps) => Rebracket(Head("LineString"), "[", PointsText(ps), "]", "}");
    case PolygonGeom(ext, _) => Rebracket(Head("Polygon"), "[[", PointsText(ext), "]]", "}");
  }

  // ---------- Where the writing of points ends ----------

  /** Where the loop over the points ends that starts at point i with written characters: behind the
      last point, or as soon as the size of the buffer is reached. */
  function LoopEnd(ps: seq<Point>, i: nat, written: nat, size: nat): nat
    requires i <= |ps|
    decreases |ps| - i
  {
    if i == |ps| || written >= size then written
    else LoopEnd(ps, i + 1, written + (if i > 0 then 1 else 0) + |PointText(ps[i])|, size)
  }

  /** It ends behind point k, the first that leaves no room, or the last. */
  lemma {:induction false} LoopEndsAt(ps: seq<Point>, i: nat, head: nat, size: nat) returns (k: nat)
    requires i <= |ps|
    ensures i <= k <= |ps| && LoopEnd(ps, i, head + |PointsText(ps[..i])|, size) == head + |PointsText(ps[..k])|
    ensures k == |ps| || head + |PointsText(ps[..k])| >= size
    ensures forall j | i <= j < k :: head + |PointsText(ps[..j])| < size
    decreases |ps| - i
  {
    hide PointsText, PointText;
    if i == |ps| || head + |PointsText(ps[..i])| >= size {
      k := i;
    } else {
      OnePointMore(ps, i);
      k := LoopEndsAt(ps, i + 1, head, size);
    }
  }

  /** The loop ends inside the buffer exactly when all the points fit, or the buffer ends with one of them. */
  lemma LoopEndsInsideIff(ps: seq<Point>, head: nat, size: nat)
    ensures LoopEnd(ps, 0, head, size) <= size
       <==> head + |PointsText(ps)| <= size || exists k | 0 <= k <= |ps| :: head + |PointsText(ps[..k])| == size
    ensures LoopEnd(ps, 0, head, size) <= size ==>
      LoopEnd(ps, 0, head, size) == if head + |PointsText(ps)| <= size then head + |PointsText(ps)| else size
  {
    hide PointsText, PointText, LoopEnd;
    NoPointsText(ps[..0]);
    assert ps[..|ps|] == ps;
    var end := LoopEndsAt(ps, 0, head, size);
    TextGrows(ps, end, |ps|);
    if head + |PointsText(ps)| > size && exists k | 0 <= k <= |ps| :: head + |PointsText(ps[..k])| == size {
      var k :| 0 <= k <= |ps| && head + |PointsText(ps[..k])| == size;
      TextGrows(ps, end, k);
    }
  }

  /** In a buffer that ends inside the first point of a line the loop ends behind the buffer. */
  lemma LoopEndsOutside(p: Point)
    ensures var head := |Opening(LineGeom([p]))|; LoopEnd([p], 0, head, head + 1) > head + 1
  {
    hide Head;
    var head := |Opening(LineGeom([p]))|;
    assert LoopEnd([p], 0, head, head + 1) == LoopEnd([p], 1, head + |PointText(p)|, head + 1) == head + |PointText(p)|;
  }

  lemma ShowsMore(buffer: array<char>, t: string, u: string)
    requires Shows(buffer, t) && |t| >= buffer.Length && t <= u
    ensures Shows(buffer, u)
  {
    assert t[..buffer.Length - 1] == u[..buffer.Length - 1];
  }

  /** The loop over the points of a line or a ring, which stops when the buffer is full. */
  method ExportPoints(ps: seq<Point>, buffer: array<char>, start: nat, ghost t: string) returns (written: nat)
    requires buffer.Length > 0 && start == |t| && t != "" && Shows(buffer, t)
    modifies buffer
    ensures written == LoopEnd(ps, 0, start, buffer.Length) && Shows(buffer, t + PointsText(ps))
  {
    hide PointsText, PointText, Shows, LoopEnd;
    written := start;
    NoPointsText(ps[..0]);
    assert t + "" == t;
    var i := 0;
    while i < |ps| && written < buffer.Length
      invariant i <= |ps|
      invariant written == |t + PointsText(ps[..i])| && Shows(buffer, t + PointsText(ps[..i]))
      invariant LoopEnd(ps, i, written, buffer.Length) == LoopEnd(ps, 0, start, buffer.Length)
    {
      OnePointMore(ps, i);
      LoopEndNext(ps, i, written, buffer.Length);
      ghost var before := t + PointsText(ps[..i]);
      if i > 0 { written := Append(buffer, written, ",", before); }
      ghost var comma := if i > 0 then "," else "";
      assert before + "" == before;
      written := Append(buffer, written, PointText(ps[i]), before + comma);
      assert before + comma + PointText(ps[i]) == t + (PointsText(ps[..i]) + (comma + PointText(ps[i])));
      i := i + 1;
    }
    LoopEndStop(ps, i, written, buffer.Length);
    assert ps[..|ps|] == ps;
    if i < |ps| {
      TextGrows(ps, i, |ps|);
      ShowsMore(buffer, t + PointsText(ps[..i]), t + PointsText(ps));
    }
  }

  lemma LoopEndNext(ps: seq<Point>, i: nat, written: nat, size: nat)
    requires i < |ps| && written < size
    ensures LoopEnd(ps, i, written, size)
         == LoopEnd(ps, i + 1, written + (if i > 0 then 1 else 0) + |PointText(ps[i])|, size)
  {
  }

  lemma LoopEndStop(ps: seq<Point>, i: nat, written: nat, size: nat)
    requires i <= |ps| && (i == |ps| || written >= size)
    ensures LoopEnd(ps, i, written, size) == written
  {
  }

  /** The closing piece starts inside the buffer, or right at its end. */
  predicate ClosingInside(g: Geom, size: nat) {
    LoopEnd(PointsIn(g), 0, |Opening(g)|, size) <= size
  }

  /** ... which is so exactly when all before it fits, or the buffer ends with the opening or with a point. */
  lemma ClosingInsideIff(g: Geom, size: nat)
    ensures ClosingInside(g, size)
       <==> || |GeometryText(g)| - |Closing(g)| <= size
            || exists k | 0 <= k <= |PointsIn(g)| :: |Opening(g)| + |PointsText(PointsIn(g)[..k])| == size
  {
    hide GeometryText, Opening, Closing, PointsIn, PointsText, LoopEnd;
    TextPieces(g);
    LoopEndsInsideIff(PointsIn(g), |Opening(g)|, size);
  }

  /** Writes the text of a geometry, truncated to the buffer, and returns its length; when the buffer ends
      before the last point, the length is that of the buffer and the closing piece. */
  method Export(g: Geom, buffer: array<char>) returns (written: nat)
    requires buffer.Length > 0 && ClosingInside(g, buffer.Length)
    modifies buffer
    ensures Shows(buffer, GeometryText(g))
    ensures written == if |GeometryText(g)| - |Closing(g)| <= buffer.Length then |GeometryText(g)|
                       else buffer.Length + |Closing(g)|
  {
    hide GeometryText, Head, PointsText, PointText, Shows, LoopEnd;
    TextPieces(g);
    LoopEndsInsideIff(PointsIn(g), |Opening(g)|, buffer.Length);
    NoPointsText([]);
    assert "" + Opening(g) == Opening(g);
    match g
    case PointGeom(p) =>
      written := Append(buffer, 0, Head("Point") + (PointText(p) + "}"), "");
    case LineGeom(ps) =>
      written := Append(buffer, 0, Head("LineString") + "[", "");
      written := ExportPoints(ps, buffer, written, Opening(g));
      written := Append(buffer, written, "]}", Opening(g) + PointsText(ps));
    case PolygonGeom(ext, holes) =>
      written := Append(buffer, 0, Head("Polygon") + "[[", "");
      written := ExportPoints(ext, buffer, written, Opening(g));
      written := Append(buffer, written, "]]}", Opening(g) + PointsText(ext));
  }

  // ---------- The code that reads ----------

  lemma {:induction false} PointsOfPrefix(js: seq<Json>, i: nat)
    requires i <= |js| && PointsOf(js[..i]).None?
    ensures PointsOf(js).None?
    decreases |js| - i
  {
    if i < |js| {
      assert js[..i + 1][..i] == js[..i];
      PointsOfPrefix(js, i + 1);
    } else {
      assert js[..i] == js;
    }
  }

  /** The point of every element, or nothing as soon as one has none. */
  method ReadPoints(js: seq<Json>) returns (points: Option<seq<Point>>)
    ensures points == PointsOf(js)
  {
    var ps: seq<Point> := [];
    for i := 0 to |js|
      invariant PointsOf(js[..i]) == Some(ps)
    {
      assert js[..i + 1][..i] == js[..i];
      var p := PointOf(js[i]);
      if p.None? {
        PointsOfPrefix(js, i + 1);
        return None;
      }
      ps := ps + [p.value];
    }
    assert js[..|js|] == js;
    return Some(ps);
  }

  lemma NoValidPoints(js: seq<Json>)
    requires js == []
    ensures ValidPoints(js) == []
  {
  }

  lemma OneMoreElement(js: seq<Json>, i: nat)
    requires i < |js|
    ensures ValidPoints(js[..i + 1])
         == if PointOf(js[i]).Some? then ValidPoints(js[..i]) + [PointOf(js[i]).value] else ValidPoints(js[..i])
  {
    assert js[..i + 1][..i] == js[..i];
  }

  /** Adds the points of a ring to hole h, if there is such a hole. */
  method ReadHole(js: seq<Json>, holes: seq<seq<Point>>, h: nat) returns (filled: seq<seq<Point>>)
    requires h >= |holes| || holes[h] == []
    ensures filled == if h < |holes| then holes[h := ValidPoints(js)] else holes
  {
    hide PointOf, ValidPoints;
    filled := holes;
    NoValidPoints(js[..0]);
    ghost var points := [];
    for i := 0 to |js|
      invariant points == ValidPoints(js[..i])
      invariant filled == if h < |holes| then holes[h := points] else holes
    {
      OneMoreElement(js, i);
      var p := PointOf(js[i]);
      if p.Some? {
        points := points + [p.value];
        if h < |filled| { filled := filled[h := filled[h] + [p.value]]; }
      }
    }
    assert js[..|js|] == js;
  }

  method ReadHoles(rings: seq<Json>) returns (holes: seq<seq<Point>>)
    ensures holes == HolesOf(rings)
  {
    hide ValidPoints;
    holes := [];
    for h := 0 to |rings|
      invariant holes == HolesOf(rings[..h])
    {
      assert rings[..h + 1][..h] == rings[..h];
      HolesCount(rings[..h]);
      if rings[h].JArray? {
        ghost var before := holes;
        holes := ReadHole(rings[h].items, holes + [[]], h);
        assert |before| == h ==> holes == before + [ValidPoints(rings[h].items)];
      }
    }
    assert rings[..|rings|] == rings;
  }

  /** The first member with this key. */
  method Get(j: Json, key: string) returns (found: Option<Json>)
    ensures found == if j.JObject? then Lookup(j.members, key) else None
  {
    if !j.JObject? { return None; }
    for i := 0 to |j.members|
      invariant Lookup(j.members, key) == Lookup(j.members[i..], key)
    {
      if j.members[i].key == key { return Some(j.members[i].value); }
      assert j.members[i..][1..] == j.members[i + 1..];
    }
    return None;
  }

  method ReadGeometry(j: Json) returns (r: Outcome)
    ensures r == GeometryOf(j)
  {
    hide PointOf, PointsOf, HolesOf, Lookup;
    var kind := Get(j, "type");
    var coords := Get(j, "coordinates");
    if kind.None? || !kind.value.JString? || coords.None? { return InvalidGeom; }
    if kind.value.s == "Point" {
      var p := PointOf(coords.value);
      return if p.Some? then Geometry(PointGeom(p.value)) else InvalidGeom;
    }
    if kind.value.s == "LineString" {
      if !coords.value.JArray? { return InvalidGeom; }
      var ps := ReadPoints(coords.value.items);
      return if ps.Some? then Geometry(LineGeom(ps.value)) else InvalidGeom;
    }
    if kind.value.s == "Polygon" {
      if !coords.value.JArray? || |coords.value.items| < 1 || !coords.value.items[0].JArray? { return InvalidGeom; }
      var ext := ReadPoints(coords.value.items[0].items);
      if ext.None? { return InvalidGeom; }
      var holes := ReadHoles(coords.value.items[1..]);
      return Geometry(PolygonGeom(ext.value, holes));
    }
    return Unsupported;
  }

  /** Reads a text as a spatial object with id 0. */
  method ParseGeometry(text: string, sqrt: real -> real) returns (r: Outcome, obj: Option<SpatialObject>)
    ensures r == Read(text)
    ensures obj == if r.Geometry? then Some(Imported(sqrt, r.g)) else None
  {
    hide Value, GeometryOf, Derived;
    var state := new ParserState(text);
    var root := state.ParseValue();
    if root.None? { return SyntaxError, None; }
    r := ReadGeometry(root.value);
    if !r.Geometry? { return r, None; }
    var _, o := UpdateDerived(sqrt, SpatialObject(0, r.g, Point(0.0, 0.0), EMPTY_MBR));
    obj := Some(o);
  }

  /** Exporting a geometry and parsing the text restores its type and points, to six decimals. */
  method ExportThenParse(g: Geom, buffer: array<char>, sqrt: real -> real) returns (obj: Option<SpatialObject>)
    requires |GeometryText(g)| < buffer.Length
    modifies buffer
    ensures obj == Some(Imported(sqrt, Kept(g)))
  {
    hide Read, GeometryText, Imported, Kept, Closing, ClosingInside;
    ClosingInsideIff(g, buffer.Length);
    var written := Export(g, buffer);
    assert buffer[..written] == GeometryText(g);
    RoundTrip(g);
    var r, o := ParseGeometry(buffer[..written], sqrt);
    obj := o;
  }
}
