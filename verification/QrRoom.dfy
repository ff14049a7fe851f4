/** The formula for the number of codeword modules is exact: counted out for every version. */
module QrRoom {
  import opened QrTables
  import opened QrGeometry
  import opened QrCapacity
  import opened QrPatterns
  import opened QrStandard
  import opened Sets

  // ----- Lists without repetitions ----------------------------------------------------------------

  predicate Distinct(s: seq<Cell>) {
    forall i, j :: 0 <= i < j < |s| ==> s[i] != s[j]
  }

  predicate Apart(s: seq<Cell>, t: seq<Cell>) {
    forall c :: c in s ==> c !in t
  }

  lemma DistinctJoin(s: seq<Cell>, t: seq<Cell>)
    requires Distinct(s) && Distinct(t) && Apart(s, t)
    ensures Distinct(s + t)
  {
    var all := s + t;
    forall i, j | 0 <= i < j < |all|
      ensures all[i] != all[j]
    {
      if i < |s| <= j {
        assert all[i] in s && all[j] in t;
      }
    }
  }

  lemma {:induction false} DistinctSize(s: seq<Cell>)
    requires Distinct(s)
    ensures |AsSet(s)| == |s|
  {
    if s != [] {
      DistinctSize(s[..|s| - 1]);
    }
  }

  lemma {:induction false} OnlyInRect(x0: int, y0: int, w: nat, h: nat, c: Cell)
    requires c in Rect(x0, y0, w, h)
    ensures InBox(x0, y0, w, h, c.0, c.1)
  {
    if c !in Rect(x0, y0, w, h - 1) {
      assert c in Row(x0, y0 + h - 1, w);
    } else {
      OnlyInRect(x0, y0, w, h - 1, c);
    }
  }

  lemma {:induction false} RectDistinct(x0: int, y0: int, w: nat, h: nat)
    ensures Distinct(Rect(x0, y0, w, h))
  {
    if h > 0 {
      RectDistinct(x0, y0, w, h - 1);
      var before, row := Rect(x0, y0, w, h - 1), Row(x0, y0 + h - 1, w);
      forall c | c in before
        ensures c !in row
      {
        OnlyInRect(x0, y0, w, h - 1, c);
      }
      DistinctJoin(before, row);
    }
  }

  /** Boxes that do not meet hold different cells. */
  predicate BoxesApart(a: int, b: int, w: int, h: int, x: int, y: int, v: int, u: int) {
    a + w <= x || x + v <= a || b + h <= y || y + u <= b
  }

  lemma RectsApart(a: int, b: int, w: nat, h: nat, x: int, y: int, v: nat, u: nat)
    requires BoxesApart(a, b, w, h, x, y, v, u)
    ensures Apart(Rect(a, b, w, h), Rect(x, y, v, u))
  {
    hide Rect;
    forall c | c in Rect(a, b, w, h)
      ensures c !in Rect(x, y, v, u)
    {
      OnlyInRect(a, b, w, h, c);
      if c in Rect(x, y, v, u) {
        OnlyInRect(x, y, v, u, c);
      }
    }
  }

  lemma TwoRects(a: int, b: int, w: nat, h: nat, x: int, y: int, v: nat, u: nat)
    requires BoxesApart(a, b, w, h, x, y, v, u)
    ensures Distinct(Rect(a, b, w, h) + Rect(x, y, v, u))
  {
    RectDistinct(a, b, w, h);
    RectDistinct(x, y, v, u);
    RectsApart(a, b, w, h, x, y, v, u);
    hide *;
    DistinctJoin(Rect(a, b, w, h), Rect(x, y, v, u));
  }

  datatype Box = Box(x: int, y: int, w: nat, h: nat) {
    function Cells(): seq<Cell> {
      Rect(x, y, w, h)
    }

    predicate Avoids(b: Box) {
      BoxesApart(x, y, w, h, b.x, b.y, b.w, b.h)
    }
  }

  function AllCells(boxes: seq<Box>): seq<Cell> {
    if boxes == [] then [] else AllCells(boxes[..|boxes| - 1]) + boxes[|boxes| - 1].Cells()
  }

  lemma {:induction false} InSomeBox(boxes: seq<Box>, c: Cell) returns (i: nat)
    requires c in AllCells(boxes)
    ensures i < |boxes| && c in boxes[i].Cells()
  {
    i := |boxes| - 1;
    if c !in boxes[i].Cells() {
      i := InSomeBox(boxes[..i], c);
    }
  }

  lemma {:induction false} BoxesDistinct(boxes: seq<Box>)
    requires forall i, j :: 0 <= i < j < |boxes| ==> boxes[i].Avoids(boxes[j])
    ensures Distinct(AllCells(boxes))
  {
    if boxes != [] {
      var n := |boxes| - 1;
      var last := boxes[n];
      BoxesDistinct(boxes[..n]);
      RectDistinct(last.x, last.y, last.w, last.h);
      forall c | c in AllCells(boxes[..n])
        ensures c !in last.Cells()
      {
        var i := InSomeBox(boxes[..n], c);
        var b := boxes[i];
        RectsApart(b.x, b.y, b.w, b.h, last.x, last.y, last.w, last.h);
      }
      DistinctJoin(AllCells(boxes[..n]), last.Cells());
    }
  }

  // ----- The parts ----------------------------------------------------------------------------------

  function CornerBoxes(ver: Version): seq<Box> {
    var s := Size(ver);
    [Box(0, 0, 6, 9), Box(7, 0, 2, 9), Box(s - 8, 0, 8, 9), Box(0, s - 8, 6, 8), Box(7, s - 8, 2, 8), Box(9, 6, s - 17, 1)]
  }

  lemma CornerIsBoxes(ver: Version)
    ensures CornerCells(ver) == AllCells(CornerBoxes(ver))
  {
    hide Rect;
    var b := CornerBoxes(ver);
    assert b[..5][..4] == b[..4] && b[..4][..3] == b[..3] && b[..3][..2] == b[..2] && b[..2][..1] == b[..1] && b[..1][..0] == [];
    assert AllCells(b[..1]) == b[0].Cells();
    assert AllCells(b[..2]) == b[0].Cells() + b[1].Cells();
    assert AllCells(b[..3]) == b[0].Cells() + b[1].Cells() + b[2].Cells();
    assert AllCells(b[..4]) == b[0].Cells() + b[1].Cells() + b[2].Cells() + b[3].Cells();
    assert AllCells(b[..5]) == b[0].Cells() + b[1].Cells() + b[2].Cells() + b[3].Cells() + b[4].Cells();
  }

  /** Outside column 6, in the corners or on the timing row. */
  predicate AtEdge(ver: Version, c: Cell) {
    InSymbol(ver, c.0, c.1) && c.0 != 6 && Func(ver, c.0, c.1) && (c.1 == 6 || InCornerBox(ver, c))
  }

  predicate InCornerBox(ver: Version, c: Cell) {
    (c.0 < 9 && c.1 < 9) || (c.0 >= Size(ver) - 8 && c.1 < 9) || (c.0 < 9 && c.1 >= Size(ver) - 8)
  }

  lemma CornerDistinct(ver: Version)
    ensures Distinct(CornerCells(ver)) && forall c :: c in CornerCells(ver) ==> AtEdge(ver, c)
  {
    hide Rect, AtEdge, AllCells, CornerCells, Distinct;
    CornerIsBoxes(ver);
    var boxes := CornerBoxes(ver);
    BoxesDistinct(boxes);
    forall c | c in CornerCells(ver)
      ensures AtEdge(ver, c)
    {
      var i := InSomeBox(boxes, c);
      var b := boxes[i];
      OnlyInRect(b.x, b.y, b.w, b.h, c);
      CornerBoxAtEdge(ver, i, c);
    }
  }

  lemma CornerBoxAtEdge(ver: Version, i: nat, c: Cell)
    requires i < 6 && var b := CornerBoxes(ver)[i]; InBox(b.x, b.y, b.w, b.h, c.0, c.1)
    ensures AtEdge(ver, c)
  {
    hide Alignment;
  }

  predicate InVersionBox(ver: Version, c: Cell) {
    InSymbol(ver, c.0, c.1) && c.0 != 6 && VersionInfo(ver, c.0, c.1)
  }

  lemma VersionDistinct(ver: Version)
    ensures Distinct(VersionCells(ver)) && forall c :: c in VersionCells(ver) ==> InVersionBox(ver, c)
  {
    hide Rect, Distinct;
    var s := Size(ver);
    if ver >= 7 {
      TwoRects(s - 11, 0, 3, 6, 0, s - 11, 6, 3);
      forall c | c in VersionCells(ver)
        ensures InVersionBox(ver, c)
      {
        if c in Rect(s - 11, 0, 3, 6) {
          OnlyInRect(s - 11, 0, 3, 6, c);
        } else {
          OnlyInRect(0, s - 11, 6, 3, c);
        }
      }
    } else {
      NoneDistinct();
    }
  }

  lemma NoneDistinct()
    ensures Distinct([])
  {
  }

  /** A module of alignment pattern (i, j) off the timing lines, clear of corners and version. */
  predicate OfPattern(ver: Version, i: nat, j: nat, c: Cell)
    requires i < NumAlign(ver) && j < NumAlign(ver)
  {
    AlignedBy(ver, i, j, c.0, c.1) && c.0 != 6 && c.1 != 6
  }

  lemma PatternDistinct(ver: Version, i: nat, j: nat)
    requires i < NumAlign(ver) && j < NumAlign(ver)
    ensures Distinct(PatternCells(ver, i, j)) && forall c :: c in PatternCells(ver, i, j) ==> OfPattern(ver, i, j, c)
  {
    hide Rect, Distinct, AlignAt, NumAlign, OfPattern;
    var cx, cy := AlignAt(ver, j), AlignAt(ver, i);
    forall c | c in PatternCells(ver, i, j)
      ensures OfPattern(ver, i, j, c)
    {
      CellOfPattern(ver, i, j, c);
    }
    if AtFinder(NumAlign(ver), i, j) {
      NoneDistinct();
    } else if j == 0 {
      TwoRects(4, cy - 2, 2, 5, 7, cy - 2, 2, 5);
    } else if i == 0 {
      TwoRects(cx - 2, 4, 5, 2, cx - 2, 7, 5, 2);
    } else {
      RectDistinct(cx - 2, cy - 2, 5, 5);
    }
  }

  lemma CellOfPattern(ver: Version, i: nat, j: nat, c: Cell)
    requires i < NumAlign(ver) && j < NumAlign(ver) && c in PatternCells(ver, i, j)
    ensures OfPattern(ver, i, j, c)
  {
    hide Rect, AlignAt, NumAlign, Distance;
    var cx, cy := AlignAt(ver, j), AlignAt(ver, i);
    CellNearCentre(ver, i, j, c);
    NearCentre(cx, cy, c);
  }

  lemma CellNearCentre(ver: Version, i: nat, j: nat, c: Cell)
    requires i < NumAlign(ver) && j < NumAlign(ver) && c in PatternCells(ver, i, j)
    ensures InBox(AlignAt(ver, j) - 2, AlignAt(ver, i) - 2, 5, 5, c.0, c.1) && c.0 != 6 && c.1 != 6
    ensures !AtFinder(NumAlign(ver), i, j)
  {
    CentreRange(ver, i);
    CentreRange(ver, j);
    hide Rect, AlignAt, NumAlign, Size;
    var cx, cy := AlignAt(ver, j), AlignAt(ver, i);
    if AtFinder(NumAlign(ver), i, j) {
      assert false;
    } else if j == 0 {
      InTwo(4, cy - 2, 2, 5, 7, cy - 2, 2, 5, c);
    } else if i == 0 {
      InTwo(cx - 2, 4, 5, 2, cx - 2, 7, 5, 2, c);
    } else {
      OnlyInRect(cx - 2, cy - 2, 5, 5, c);
    }
  }

  lemma NearCentre(cx: int, cy: int, c: Cell)
    requires InBox(cx - 2, cy - 2, 5, 5, c.0, c.1)
    ensures Distance(c.0, c.1, cx, cy) <= 2
  {
  }

  lemma InTwo(a: int, b: int, w: nat, h: nat, x: int, y: int, v: nat, u: nat, c: Cell)
    requires c in Rect(a, b, w, h) + Rect(x, y, v, u)
    ensures InBox(a, b, w, h, c.0, c.1) || InBox(x, y, v, u, c.0, c.1)
  {
    hide Rect;
    if c in Rect(a, b, w, h) {
      OnlyInRect(a, b, w, h, c);
    } else {
      OnlyInRect(x, y, v, u, c);
    }
  }

  predicate OfRow(ver: Version, i: nat, n: nat, c: Cell)
    requires i < NumAlign(ver) && n <= NumAlign(ver)
  {
    exists j: nat :: j < n && OfPattern(ver, i, j, c)
  }

  lemma {:induction false} RowDistinct(ver: Version, i: nat, n: nat)
    requires i < NumAlign(ver) && n <= NumAlign(ver)
    ensures Distinct(AlignRow(ver, i, n)) && forall c :: c in AlignRow(ver, i, n) ==> OfRow(ver, i, n, c)
  {
    hide PatternCells, OfPattern, NumAlign, Distinct;
    if n == 0 {
      NoneDistinct();
    } else {
      RowDistinct(ver, i, n - 1);
      PatternDistinct(ver, i, n - 1);
      var before, last := AlignRow(ver, i, n - 1), PatternCells(ver, i, n - 1);
      forall c | c in before
        ensures c !in last
      {
        var j: nat :| j < n - 1 && OfPattern(ver, i, j, c);
        PatternsApart(ver, i, j, i, n - 1, c);
      }
      DistinctJoin(before, last);
    }
  }

  lemma PatternsApart(ver: Version, i: nat, j: nat, k: nat, l: nat, c: Cell)
    requires i < NumAlign(ver) && j < NumAlign(ver) && k < NumAlign(ver) && l < NumAlign(ver)
    ensures OfPattern(ver, i, j, c) && OfPattern(ver, k, l, c) ==> i == k && j == l
  {
    hide NumAlign, AlignAt;
    if OfPattern(ver, i, j, c) && OfPattern(ver, k, l, c) {
      AlignedApart(ver, i, j, k, l, c.0, c.1);
    }
  }

  predicate OfRows(ver: Version, n: nat, c: Cell)
    requires n <= NumAlign(ver)
  {
    exists i: nat :: i < n && OfRow(ver, i, NumAlign(ver), c)
  }

  lemma {:induction false} RowsDistinct(ver: Version, n: nat)
    requires n <= NumAlign(ver)
    ensures Distinct(AlignRows(ver, n)) && forall c :: c in AlignRows(ver, n) ==> OfRows(ver, n, c)
  {
    hide AlignRow, OfRow, NumAlign, Distinct;
    if n == 0 {
      NoneDistinct();
    } else {
      RowsDistinct(ver, n - 1);
      RowDistinct(ver, n - 1, NumAlign(ver));
      var before, last := AlignRows(ver, n - 1), AlignRow(ver, n - 1, NumAlign(ver));
      forall c | c in before
        ensures c !in last
      {
        var i: nat :| i < n - 1 && OfRow(ver, i, NumAlign(ver), c);
        RowsApart(ver, i, n - 1, c);
      }
      DistinctJoin(before, last);
    }
  }

  lemma RowsApart(ver: Version, i: nat, k: nat, c: Cell)
    requires i < NumAlign(ver) && k < NumAlign(ver) && i != k
    ensures !(OfRow(ver, i, NumAlign(ver), c) && OfRow(ver, k, NumAlign(ver), c))
  {
    hide OfPattern, NumAlign;
    if OfRow(ver, i, NumAlign(ver), c) && OfRow(ver, k, NumAlign(ver), c) {
      var j: nat :| j < NumAlign(ver) && OfPattern(ver, i, j, c);
      var l: nat :| l < NumAlign(ver) && OfPattern(ver, k, l, c);
      PatternsApart(ver, i, j, k, l, c);
    }
  }

  /** A module of an alignment pattern. */
  predicate InAlignment(ver: Version, c: Cell) {
    InSymbol(ver, c.0, c.1) && c.0 != 6 && Alignment(ver, c.0, c.1)
  }

  lemma OfRowsFree(ver: Version, c: Cell)
    requires OfRows(ver, NumAlign(ver), c)
    ensures InAlignment(ver, c) && !AtEdge(ver, c) && !InVersionBox(ver, c)
  {
    hide NumAlign, AlignAt, Func;
    var i: nat :| i < NumAlign(ver) && OfRow(ver, i, NumAlign(ver), c);
    var j: nat :| j < NumAlign(ver) && OfPattern(ver, i, j, c);
    AlignmentFree(ver, i, j, c.0, c.1);
    CentreRange(ver, i);
    CentreRange(ver, j);
  }

  lemma EdgeNotVersion(ver: Version, c: Cell)
    ensures !(AtEdge(ver, c) && InVersionBox(ver, c))
  {
    hide Func;
  }

  /** No cell is counted twice, and every cell is a function module outside column 6. */
  lemma FuncCellsDistinct(ver: Version)
    ensures Distinct(FuncCells(ver))
    ensures forall c :: c in FuncCells(ver) ==> InSymbol(ver, c.0, c.1) && c.0 != 6 && Func(ver, c.0, c.1)
  {
    CornerDistinct(ver);
    VersionDistinct(ver);
    RowsDistinct(ver, NumAlign(ver));
    hide *;
    var a, b, c := CornerCells(ver), VersionCells(ver), AlignRows(ver, NumAlign(ver));
    FuncCellsAre(ver);
    forall p | p in a
      ensures p !in b
    {
      EdgeNotVersion(ver, p);
    }
    ApartIs(a, b);
    DistinctJoin(a, b);
    forall p | p in a + b
      ensures p !in c
    {
      if p in c {
        OfRowsFree(ver, p);
      }
    }
    ApartIs(a + b, c);
    DistinctJoin(a + b, c);
    forall p | p in FuncCells(ver)
      ensures InSymbol(ver, p.0, p.1) && p.0 != 6 && Func(ver, p.0, p.1)
    {
      if p in c {
        OfRowsFree(ver, p);
      }
      PartIsFunc(ver, p);
    }
  }

  lemma FuncCellsAre(ver: Version)
    ensures FuncCells(ver) == CornerCells(ver) + VersionCells(ver) + AlignRows(ver, NumAlign(ver))
  {
  }

  lemma ApartIs(s: seq<Cell>, t: seq<Cell>)
    requires forall c :: c in s ==> c !in t
    ensures Apart(s, t)
  {
  }

  lemma PartIsFunc(ver: Version, c: Cell)
    requires AtEdge(ver, c) || InVersionBox(ver, c) || InAlignment(ver, c)
    ensures InSymbol(ver, c.0, c.1) && c.0 != 6 && Func(ver, c.0, c.1)
  {
    hide Alignment;
  }

  // ----- The count ----------------------------------------------------------------------------------

  lemma {:induction false} SpotCounted(ver: Version, k: nat, n: nat)
    requires k < n <= PathLength(ver) && FuncSpot(ver, k)
    ensures Spot(ver, k) in FuncSpots(ver, n)
  {
    hide FuncSpot, Spot, PathLength;
    if k < n - 1 {
      SpotCounted(ver, k, n - 1);
    }
  }

  /** The path has exactly as many free modules as the formula says. */
  lemma RoomIsExact(ver: Version)
    ensures FreeBefore(ver, PathLength(ver)) == NumRawDataModules(ver)
  {
    hide *;
    var n := PathLength(ver);
    PathHasRoom(ver);
    FuncSpotsCount(ver, n);
    FuncCellsDistinct(ver);
    DistinctSize(FuncCells(ver));
    FuncCellsLength(ver);
    var counted, cells := FuncSpots(ver, n), AsSet(FuncCells(ver));
    forall c | c in cells
      ensures c in counted
    {
      SpotOfIndex(ver, c.0, c.1);
      FuncAt(ver, c);
      SpotCounted(ver, Index(ver, c.0, c.1), n);
    }
    SubsetCount(cells, counted);
  }

  lemma FuncAt(ver: Version, c: Cell)
    requires 0 <= Index(ver, c.0, c.1) && Spot(ver, Index(ver, c.0, c.1)) == (c.0, c.1) && Func(ver, c.0, c.1)
    ensures FuncSpot(ver, Index(ver, c.0, c.1)) && Spot(ver, Index(ver, c.0, c.1)) == c
  {
    hide Func, Index, Spot;
  }
}
