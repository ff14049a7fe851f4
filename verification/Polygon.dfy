/** The geofence of the alert monitor: point in polygon by ray casting, over the reals. */
module Polygon {

  datatype Point = Point(lat: real, lon: real)

  // ----- One edge -------------------------------------------------------------------------------

  predicate Above(p: Point, pt: Point) {
    p.lat > pt.lat
  }

  /** The longitude at which the line through a and b meets the height of pt. */
  function Meets(pt: Point, a: Point, b: Point): real
    requires a.lat != b.lat
  {
    ((b.lon - a.lon) * (pt.lat - a.lat)) / (b.lat - a.lat) + a.lon
  }

  /** The ray from pt towards growing longitude crosses the edge; i is the end the loop is at. */
  predicate Crosses(pt: Point, i: Point, j: Point) {
    Above(i, pt) != Above(j, pt) && pt.lon < Meets(pt, i, j)
  }

  lemma FractionUp(u: real, v: real, d: real)
    requires d != 0.0 && u == v * d
    ensures u / d == v
  {
  }

  /** The meeting point lies between the ends: a weighted mean of their longitudes. */
  lemma MeetsBetween(pt: Point, a: Point, b: Point) returns (t: real)
    requires Above(a, pt) != Above(b, pt)
    ensures 0.0 <= t <= 1.0 && Meets(pt, a, b) == a.lon + t * (b.lon - a.lon)
    ensures Meets(pt, b, a) == Meets(pt, a, b)
  {
    var h, d, w := pt.lat - a.lat, b.lat - a.lat, b.lon - a.lon;
    t := h / d;
    assert t * d == h;
    Weighted(t, d, h);
    FractionUp(w * h, t * w, d) by {
      assert t * w * d == w * (t * d);
    }
    var h', d' := pt.lat - b.lat, a.lat - b.lat;
    FractionUp((-w) * h', (1.0 - t) * (-w), d') by {
      assert h' == (1.0 - t) * d' by {
        assert (1.0 - t) * d' == d' - t * d';
        assert t * d' == -(t * d);
      }
      assert (1.0 - t) * (-w) * d' == (-w) * ((1.0 - t) * d');
    }
    assert (1.0 - t) * (-w) == -w + t * w;
  }

  lemma Weighted(t: real, d: real, h: real)
    requires t * d == h && d != 0.0 && (0.0 <= h <= d || d <= h <= 0.0)
    ensures 0.0 <= t <= 1.0
  {
    SignOfProduct(t, d);
    SignOfProduct(t - 1.0, d);
  }

  lemma SignOfProduct(a: real, b: real)
    ensures a * b > 0.0 <==> (a > 0.0 && b > 0.0) || (a < 0.0 && b < 0.0)
    ensures a * b < 0.0 <==> (a > 0.0 && b < 0.0) || (a < 0.0 && b > 0.0)
  {
  }

  /** An edge counts the same in both directions. */
  lemma CrossesEitherWay(pt: Point, a: Point, b: Point)
    ensures Crosses(pt, a, b) == Crosses(pt, b, a)
  {
    hide Meets;
    if Above(a, pt) != Above(b, pt) {
      var t := MeetsBetween(pt, a, b);
    }
  }

  // ----- The closed loop of edges ---------------------------------------------------------------

  /** Whether the ray crosses an odd number of edges of the open path. */
  predicate OddAlong(pt: Point, path: seq<Point>)
    decreases |path|
  {
    |path| >= 2 &&
    OddAlong(pt, path[..|path| - 1]) != Crosses(pt, path[|path| - 1], path[|path| - 2])
  }

  /** Whether it crosses an odd number of edges of the polygon. */
  predicate Inside(pt: Point, poly: seq<Point>) {
    poly != [] && OddAlong(pt, [poly[|poly| - 1]] + poly)
  }

  lemma OddOfOne(pt: Point, path: seq<Point>)
    requires |path| <= 1
    ensures !OddAlong(pt, path)
  {
  }

  lemma OddNext(pt: Point, path: seq<Point>, i: nat)
    requires i + 1 < |path|
    ensures OddAlong(pt, path[..i + 2]) == (OddAlong(pt, path[..i + 1]) != Crosses(pt, path[i + 1], path[i]))
  {
    hide Crosses;
    assert path[..i + 2][..i + 1] == path[..i + 1];
  }

  method PointInPolygon(pt: Point, poly: seq<Point>) returns (inside: bool)
    ensures inside == Inside(pt, poly)
  {
    hide OddAlong;
    inside := false;
    if poly == [] {
      return;
    }
    ghost var loop := [poly[|poly| - 1]] + poly;
    OddOfOne(pt, loop[..1]);
    var i, j := 0, |poly| - 1;
    while i < |poly|
      invariant i <= |poly| && j == (if i == 0 then |poly| - 1 else i - 1)
      invariant inside == OddAlong(pt, loop[..i + 1])
    {
      var intersect := (poly[i].lat > pt.lat) != (poly[j].lat > pt.lat) &&
                       pt.lon < ((poly[j].lon - poly[i].lon) * (pt.lat - poly[i].lat)) / (poly[j].lat - poly[i].lat) + poly[i].lon;
      assert intersect == Crosses(pt, poly[i], poly[j]);
      OddNext(pt, loop, i);
      if intersect {
        inside := !inside;
      }
      j := i;
      i := i + 1;
    }
    assert loop[..|poly| + 1] == loop;
  }

  /** A path splits at any of its points. */
  lemma {:induction false} OddSplits(pt: Point, front: seq<Point>, p: Point, back: seq<Point>)
    ensures OddAlong(pt, front + [p] + back) == (OddAlong(pt, front + [p]) != OddAlong(pt, [p] + back))
    decreases |back|
  {
    hide Crosses;
    if back == [] {
      assert front + [p] + back == front + [p];
      assert [p] + back == [p];
    } else {
      var n := |back| - 1;
      OddSplits(pt, front, p, back[..n]);
      var whole := front + [p] + back;
      assert whole[..|whole| - 1] == front + [p] + back[..n];
      assert ([p] + back)[..n + 1] == [p] + back[..n];
      assert whole[|whole| - 2] == ([p] + back)[n];
    }
  }

  lemma OddSplitsAt(pt: Point, front: seq<Point>, p: Point, back: seq<Point>, whole: seq<Point>, left: seq<Point>, right: seq<Point>)
    requires whole == front + [p] + back && left == front + [p] && right == [p] + back
    ensures OddAlong(pt, whole) == (OddAlong(pt, left) != OddAlong(pt, right))
  {
    OddSplits(pt, front, p, back);
  }

  /** The closed path, cut at vertex k. */
  lemma CutClosed(pt: Point, poly: seq<Point>, k: nat)
    requires k < |poly|
    ensures OddAlong(pt, poly + [poly[0]]) == (OddAlong(pt, poly[..k + 1]) != OddAlong(pt, poly[k..] + [poly[0]]))
  {
    hide OddAlong;
    OddSplitsAt(pt, poly[..k], poly[k], poly[k + 1..] + [poly[0]], poly + [poly[0]], poly[..k + 1], poly[k..] + [poly[0]]);
  }

  /** The path from vertex j round to vertex i, cut at the first vertex. */
  lemma CutTurned(pt: Point, poly: seq<Point>, j: nat, i: nat)
    requires j < |poly| && i < |poly|
    ensures OddAlong(pt, poly[j..] + poly[..i + 1]) == (OddAlong(pt, poly[j..] + [poly[0]]) != OddAlong(pt, poly[..i + 1]))
  {
    hide OddAlong;
    OddSplitsAt(pt, poly[j..], poly[0], poly[1..i + 1], poly[j..] + poly[..i + 1], poly[j..] + [poly[0]], poly[..i + 1]);
  }

  /** The path from vertex i to the end and back to the start, cut at vertex j. */
  lemma CutTail(pt: Point, poly: seq<Point>, i: nat, j: nat)
    requires i <= j < |poly|
    ensures OddAlong(pt, poly[i..] + [poly[0]]) == (OddAlong(pt, poly[i..j + 1]) != OddAlong(pt, poly[j..] + [poly[0]]))
  {
    hide OddAlong;
    OddSplitsAt(pt, poly[i..j], poly[j], poly[j + 1..] + [poly[0]], poly[i..] + [poly[0]], poly[i..j + 1], poly[j..] + [poly[0]]);
  }

  /** From one point straight to another and back is even. */
  lemma OddOfTwo(pt: Point, a: Point, b: Point)
    ensures OddAlong(pt, [a, b]) == Crosses(pt, b, a) == Crosses(pt, a, b) == OddAlong(pt, [b, a])
  {
    CrossesEitherWay(pt, a, b);
    hide Crosses;
    assert [a, b][..1] == [a] && [b, a][..1] == [b];
  }

  function Reverse(path: seq<Point>): seq<Point> {
    if path == [] then [] else [path[|path| - 1]] + Reverse(path[..|path| - 1])
  }

  lemma {:induction false} OddReversed(pt: Point, path: seq<Point>)
    ensures OddAlong(pt, Reverse(path)) == OddAlong(pt, path)
    decreases |path|
  {
    hide Crosses;
    if |path| >= 2 {
      var n := |path| - 1;
      var p, q := path[n], path[n - 1];
      OddReversed(pt, path[..n]);
      var rest := Reverse(path[..n][..n - 1]);
      assert Reverse(path[..n]) == [q] + rest;
      assert Reverse(path) == [p] + [q] + rest;
      OddSplits(pt, [p], q, rest);
      OddOfTwo(pt, p, q);
      assert [p] + [q] == [p, q];
    }
  }

  // ----- Only the closed cycle counts -----------------------------------------------------------

  /** Closing the path at its end instead of its start makes no difference. */
  lemma ClosedAtEnd(pt: Point, poly: seq<Point>)
    requires poly != []
    ensures Inside(pt, poly) == OddAlong(pt, poly + [poly[0]])
    ensures Inside(pt, poly) == (OddAlong(pt, poly) != Crosses(pt, poly[0], poly[|poly| - 1]))
  {
    hide Crosses, OddAlong;
    var first, last := poly[0], poly[|poly| - 1];
    OddSplitsAt(pt, [last], first, poly[1..], [last] + poly, [last, first], poly);
    OddSplitsAt(pt, poly[..|poly| - 1], last, [first], poly + [first], poly, [last, first]);
    OddOfTwo(pt, last, first);
  }

  /** Starting the polygon at another vertex gives the same answer. */
  lemma RotationInvariant(pt: Point, poly: seq<Point>, k: nat)
    requires k <= |poly|
    ensures Inside(pt, poly[k..] + poly[..k]) == Inside(pt, poly)
  {
    hide OddAlong, Inside, Crosses;
    if 0 < k < |poly| {
      var turned := poly[k..] + poly[..k];
      ClosedAtEnd(pt, turned);
      ClosedAtEnd(pt, poly);
      CutClosed(pt, poly, k);
      CutTurned(pt, poly, k, k);
      assert turned + [turned[0]] == poly[k..] + poly[..k + 1];
    } else {
      assert poly[k..] + poly[..k] == poly;
    }
  }

  lemma ReverseEnds(path: seq<Point>)
    requires path != []
    ensures |Reverse(path)| == |path| && Reverse(path)[0] == path[|path| - 1] && Reverse(path)[|path| - 1] == path[0]
  {
    if |path| > 1 {
      ReverseEnds(path[..|path| - 1]);
    }
  }

  /** Going round the polygon the other way gives the same answer. */
  lemma ReversalInvariant(pt: Point, poly: seq<Point>)
    ensures Inside(pt, Reverse(poly)) == Inside(pt, poly)
  {
    if poly != [] {
      var back := Reverse(poly);
      ReverseEnds(poly);
      ClosedAtEnd(pt, poly);
      ClosedAtEnd(pt, back);
      OddReversed(pt, poly);
      CrossesEitherWay(pt, poly[0], poly[|poly| - 1]);
    }
  }

  /** A polygon split by the chord from vertex i to vertex j: a point is inside the whole exactly
      when it is inside one of the parts but not both. */
  lemma ChordSplits(pt: Point, poly: seq<Point>, i: nat, j: nat)
    requires i <= j < |poly|
    ensures Inside(pt, poly) == (Inside(pt, poly[i..j + 1]) != Inside(pt, poly[j..] + poly[..i + 1]))
  {
    hide OddAlong, Inside, Crosses;
    ClosedAtEnd(pt, poly);
    ClosedAtEnd(pt, poly[i..j + 1]);
    ClosedAtEnd(pt, poly[j..] + poly[..i + 1]);
    CutClosed(pt, poly, i);
    CutTail(pt, poly, i, j);
    CutTurned(pt, poly, j, i);
    CrossesEitherWay(pt, poly[i], poly[j]);
  }

  // ----- Outside the bounding box ---------------------------------------------------------------

  /** Below, above, or to one side of every vertex; on the upper and the right edge counts too. */
  predicate OutsideBox(pt: Point, poly: seq<Point>) {
    (forall p :: p in poly ==> pt.lat < p.lat) || (forall p :: p in poly ==> pt.lat >= p.lat) ||
    (forall p :: p in poly ==> pt.lon < p.lon) || (forall p :: p in poly ==> pt.lon >= p.lon)
  }

  lemma MeetsWithin(pt: Point, a: Point, b: Point)
    requires Above(a, pt) != Above(b, pt)
    ensures a.lon <= Meets(pt, a, b) <= b.lon || b.lon <= Meets(pt, a, b) <= a.lon
  {
    hide Meets;
    var t := MeetsBetween(pt, a, b);
    var w := b.lon - a.lon;
    assert Meets(pt, a, b) == a.lon + t * w;
    SignOfProduct(t, w);
    SignOfProduct(1.0 - t, w);
    assert (1.0 - t) * w == w - t * w;
  }

  /** With every vertex to the right, each change of side is a crossing. */
  lemma {:induction false} LeftOfAll(pt: Point, path: seq<Point>)
    requires path != [] && forall p :: p in path ==> pt.lon < p.lon
    ensures OddAlong(pt, path) == (Above(path[0], pt) != Above(path[|path| - 1], pt))
    decreases |path|
  {
    hide Meets;
    if |path| >= 2 {
      var p, q := path[|path| - 1], path[|path| - 2];
      assert p in path && q in path;
      LeftOfAll(pt, path[..|path| - 1]);
      if Above(p, pt) != Above(q, pt) {
        MeetsWithin(pt, p, q);
      }
      assert Crosses(pt, p, q) == (Above(p, pt) != Above(q, pt));
    }
  }

  /** With every vertex to the left or level, or all on one side, nothing is crossed. */
  lemma {:induction false} NothingCrossed(pt: Point, path: seq<Point>)
    requires (forall p :: p in path ==> pt.lat < p.lat) || (forall p :: p in path ==> pt.lat >= p.lat) ||
             (forall p :: p in path ==> pt.lon >= p.lon)
    ensures !OddAlong(pt, path)
    decreases |path|
  {
    hide Meets;
    if |path| >= 2 {
      var p, q := path[|path| - 1], path[|path| - 2];
      assert p in path && q in path;
      NothingCrossed(pt, path[..|path| - 1]);
      if Above(p, pt) != Above(q, pt) {
        MeetsWithin(pt, p, q);
      }
      assert !Crosses(pt, p, q);
    }
  }

  /** No point outside the bounding box is inside. */
  lemma OutsideIsOut(pt: Point, poly: seq<Point>)
    requires OutsideBox(pt, poly)
    ensures !Inside(pt, poly)
  {
    if poly != [] {
      var loop := [poly[|poly| - 1]] + poly;
      assert forall p :: p in loop ==> p in poly;
      if forall p :: p in poly ==> pt.lon < p.lon {
        LeftOfAll(pt, loop);
      } else {
        NothingCrossed(pt, loop);
      }
    }
  }

  /** A rectangle holds its lower and left edges but not its upper and right ones, so that
      rectangles side by side share no point. */
  lemma RectangleIsHalfOpen(pt: Point, south: real, west: real, north: real, east: real)
    requires south < north && west < east
    ensures Inside(pt, [Point(south, west), Point(south, east), Point(north, east), Point(north, west)])
            <==> south <= pt.lat < north && west <= pt.lon < east
  {
    var a, b, c, d := Point(south, west), Point(south, east), Point(north, east), Point(north, west);
    RectangleEdges(pt, a, b, c, d);
    hide Crosses;
    assert [d] + [a, b, c, d] == [d, a, b, c, d];
    OddSplitsAt(pt, [d], a, [b, c, d], [d, a, b, c, d], [d, a], [a, b, c, d]);
    OddSplitsAt(pt, [a], b, [c, d], [a, b, c, d], [a, b], [b, c, d]);
    OddSplitsAt(pt, [b], c, [d], [b, c, d], [b, c], [c, d]);
    OddOfTwo(pt, d, a);
    OddOfTwo(pt, a, b);
    OddOfTwo(pt, b, c);
    OddOfTwo(pt, c, d);
  }

  lemma RectangleEdges(pt: Point, a: Point, b: Point, c: Point, d: Point)
    requires a.lat == b.lat < c.lat == d.lat && a.lon == d.lon && b.lon == c.lon
    ensures !Crosses(pt, a, b) && !Crosses(pt, c, d)
    ensures Crosses(pt, b, c) <==> a.lat <= pt.lat < c.lat && pt.lon < b.lon
    ensures Crosses(pt, d, a) <==> a.lat <= pt.lat < c.lat && pt.lon < a.lon
  {
    hide Meets;
    if Above(b, pt) != Above(c, pt) {
      var t := MeetsBetween(pt, b, c);
      var u := MeetsBetween(pt, d, a);
    }
  }
}
