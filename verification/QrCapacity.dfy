/** Every version has room on its path for all of its codewords: a count of the modules
    that the function patterns take. */
module QrCapacity {
  import opened QrTables
  import opened QrGeometry
  import opened Sets

  type Cell = (int, int)

  predicate FuncSpot(ver: Version, k: nat) {
    Func(ver, Spot(ver, k).0, Spot(ver, k).1)
  }

  /** Codeword modules among the first k modules of the path. */
  function FreeBefore(ver: Version, k: nat): (n: nat)
    ensures n <= k
  {
    if k == 0 then 0 else FreeBefore(ver, k - 1) + (if FuncSpot(ver, k - 1) then 0 else 1)
  }

  // ----- Lists of cells ----------------------------------------------------------------------

  function Row(x: int, y: int, w: nat): seq<Cell> {
    seq(w, i => (x + i, y))
  }

  function Rect(x: int, y: int, w: nat, h: nat): (r: seq<Cell>)
    ensures |r| == w * h
  {
    if h == 0 then []
    else
      assert w * h == w * (h - 1) + w;
      Rect(x, y, w, h - 1) + Row(x, y + h - 1, w)
  }

  lemma {:induction false} InRect(x0: int, y0: int, w: nat, h: nat, x: int, y: int)
    requires x0 <= x < x0 + w && y0 <= y < y0 + h
    ensures (x, y) in Rect(x0, y0, w, h)
  {
    if y == y0 + h - 1 {
      assert Row(x0, y, w)[x - x0] == (x, y);
    } else {
      InRect(x0, y0, w, h - 1, x, y);
    }
  }

  /** Finder patterns, separators, format information and the timing row, less column 6. */
  function CornerCells(ver: Version): (r: seq<Cell>)
    ensures |r| == 191 + Size(ver)
  {
    var s := Size(ver);
    Rect(0, 0, 6, 9) + Rect(7, 0, 2, 9) + Rect(s - 8, 0, 8, 9) + Rect(0, s - 8, 6, 8) + Rect(7, s - 8, 2, 8) + Rect(9, 6, s - 17, 1)
  }

  predicate InBox(x0: int, y0: int, w: int, h: int, x: int, y: int) {
    x0 <= x < x0 + w && y0 <= y < y0 + h
  }

  lemma CornerPlace(ver: Version, x: int, y: int)
    requires InSymbol(ver, x, y) && x != 6 && (Timing(x, y) || Finder(ver, x, y) || Format(ver, x, y))
    ensures var s := Size(ver);
      InBox(0, 0, 6, 9, x, y) || InBox(7, 0, 2, 9, x, y) || InBox(s - 8, 0, 8, 9, x, y) ||
      InBox(0, s - 8, 6, 8, x, y) || InBox(7, s - 8, 2, 8, x, y) || InBox(9, 6, s - 17, 1, x, y)
  {
  }

  lemma InSix(p: Cell, a: seq<Cell>, b: seq<Cell>, c: seq<Cell>, d: seq<Cell>, e: seq<Cell>, f: seq<Cell>)
    ensures p in a + b + c + d + e + f <==> p in a || p in b || p in c || p in d || p in e || p in f
  {
  }

  lemma InCorner(ver: Version, x: int, y: int)
    requires InSymbol(ver, x, y) && x != 6 && (Timing(x, y) || Finder(ver, x, y) || Format(ver, x, y))
    ensures (x, y) in CornerCells(ver)
  {
    hide Rect, Timing, Finder, Format, InSymbol;
    var s := Size(ver);
    CornerPlace(ver, x, y);
    InSix((x, y), Rect(0, 0, 6, 9), Rect(7, 0, 2, 9), Rect(s - 8, 0, 8, 9), Rect(0, s - 8, 6, 8), Rect(7, s - 8, 2, 8),
          Rect(9, 6, s - 17, 1));
    if InBox(0, 0, 6, 9, x, y) {
      InRect(0, 0, 6, 9, x, y);
    } else if InBox(7, 0, 2, 9, x, y) {
      InRect(7, 0, 2, 9, x, y);
    } else if InBox(s - 8, 0, 8, 9, x, y) {
      InRect(s - 8, 0, 8, 9, x, y);
    } else if InBox(0, s - 8, 6, 8, x, y) {
      InRect(0, s - 8, 6, 8, x, y);
    } else if InBox(7, s - 8, 2, 8, x, y) {
      InRect(7, s - 8, 2, 8, x, y);
    } else {
      InRect(9, 6, s - 17, 1, x, y);
    }
  }

  function VersionCells(ver: Version): (r: seq<Cell>)
    ensures |r| == if ver >= 7 then 36 else 0
  {
    if ver >= 7 then Rect(Size(ver) - 11, 0, 3, 6) + Rect(0, Size(ver) - 11, 6, 3) else []
  }

  /** One alignment pattern, less the timing row and column. */
  function PatternCells(ver: Version, i: nat, j: nat): (r: seq<Cell>)
    requires i < NumAlign(ver) && j < NumAlign(ver)
    ensures |r| == if AtFinder(NumAlign(ver), i, j) then 0 else if i == 0 || j == 0 then 20 else 25
  {
    var cx, cy := AlignAt(ver, j), AlignAt(ver, i);
    if AtFinder(NumAlign(ver), i, j) then []
    else if j == 0 then Rect(4, cy - 2, 2, 5) + Rect(7, cy - 2, 2, 5)
    else if i == 0 then Rect(cx - 2, 4, 5, 2) + Rect(cx - 2, 7, 5, 2)
    else Rect(cx - 2, cy - 2, 5, 5)
  }

  lemma InPattern(ver: Version, i: nat, j: nat, x: int, y: int)
    requires i < NumAlign(ver) && j < NumAlign(ver) && AlignedBy(ver, i, j, x, y) && x != 6 && y != 6
    ensures (x, y) in PatternCells(ver, i, j)
  {
    var cx, cy := AlignAt(ver, j), AlignAt(ver, i);
    if j == 0 {
      if x < 6 {
        InRect(4, cy - 2, 2, 5, x, y);
      } else {
        InRect(7, cy - 2, 2, 5, x, y);
      }
    } else if i == 0 {
      if y < 6 {
        InRect(cx - 2, 4, 5, 2, x, y);
      } else {
        InRect(cx - 2, 7, 5, 2, x, y);
      }
    } else {
      InRect(cx - 2, cy - 2, 5, 5, x, y);
    }
  }

  /** The alignment patterns of row i with column below j, and of all rows below i. */
  function AlignRow(ver: Version, i: nat, j: nat): seq<Cell>
    requires i < NumAlign(ver) && j <= NumAlign(ver)
  {
    if j == 0 then [] else AlignRow(ver, i, j - 1) + PatternCells(ver, i, j - 1)
  }

  function AlignRows(ver: Version, i: nat): seq<Cell>
    requires i <= NumAlign(ver)
  {
    if i == 0 then [] else AlignRows(ver, i - 1) + AlignRow(ver, i - 1, NumAlign(ver))
  }

  lemma {:induction false} InAlignRow(ver: Version, i: nat, j: nat, n: nat, x: int, y: int)
    requires i < NumAlign(ver) && j < n <= NumAlign(ver)
    requires (x, y) in PatternCells(ver, i, j)
    ensures (x, y) in AlignRow(ver, i, n)
  {
    hide PatternCells;
    if j < n - 1 {
      InAlignRow(ver, i, j, n - 1, x, y);
    }
  }

  lemma {:induction false} InAlignRows(ver: Version, i: nat, n: nat, x: int, y: int)
    requires i < n <= NumAlign(ver)
    requires (x, y) in AlignRow(ver, i, NumAlign(ver))
    ensures (x, y) in AlignRows(ver, n)
  {
    hide AlignRow;
    if i < n - 1 {
      InAlignRows(ver, i, n - 1, x, y);
    }
  }

  /** The lengths of these lists, n being the number of alignment positions. */
  function RowCells(n: int, i: nat, j: nat): int {
    if j == 0 then 0
    else if i == 0 then 20 * ((if j == n then n - 1 else j) - 1)
    else if i == n - 1 then 25 * (j - 1)
    else 20 + 25 * (j - 1)
  }

  function RowsCells(n: int, i: nat): int {
    if i == 0 then 0
    else if i == n then 25 * n * n - 10 * n - 55
    else 20 * (n - 2) + (i - 1) * (25 * n - 5)
  }

  lemma {:induction false} AlignRowLength(ver: Version, i: nat, j: nat)
    requires i < NumAlign(ver) && j <= NumAlign(ver)
    ensures |AlignRow(ver, i, j)| == RowCells(NumAlign(ver), i, j)
  {
    if j > 0 {
      AlignRowLength(ver, i, j - 1);
    }
  }

  lemma RowsCellsStep(n: int, i: nat)
    requires 2 <= n && 1 <= i <= n
    ensures RowsCells(n, i) == RowsCells(n, i - 1) + RowCells(n, i - 1, n)
  {
    assert (n - 2) * (25 * n - 5) == 25 * n * n - 55 * n + 10;
    assert (i - 1) * (25 * n - 5) == (i - 2) * (25 * n - 5) + (25 * n - 5);
  }

  lemma {:induction false} AlignRowsLength(ver: Version, i: nat)
    requires i <= NumAlign(ver)
    ensures |AlignRows(ver, i)| == RowsCells(NumAlign(ver), i)
  {
    if i > 0 {
      assert NumAlign(ver) >= 2;
      hide AlignRow, RowsCells, RowCells, NumAlign;
      AlignRowsLength(ver, i - 1);
      AlignRowLength(ver, i - 1, NumAlign(ver));
      RowsCellsStep(NumAlign(ver), i);
    }
  }

  /** All function modules outside column 6, possibly with repetitions. */
  function FuncCells(ver: Version): seq<Cell> {
    CornerCells(ver) + VersionCells(ver) + AlignRows(ver, NumAlign(ver))
  }

  lemma FuncInCells(ver: Version, x: int, y: int)
    requires InSymbol(ver, x, y) && x != 6 && Func(ver, x, y)
    ensures (x, y) in FuncCells(ver)
  {
    hide CornerCells, VersionCells, AlignRows, AlignAt, Finder, Format, Distance;
    if Timing(x, y) || Finder(ver, x, y) || Format(ver, x, y) {
      InCorner(ver, x, y);
    } else if VersionInfo(ver, x, y) {
      InVersion(ver, x, y);
    } else {
      var i, j :| 0 <= i < NumAlign(ver) && 0 <= j < NumAlign(ver) && AlignedBy(ver, i, j, x, y);
      InPattern(ver, i, j, x, y);
      InAlignRow(ver, i, j, NumAlign(ver), x, y);
      InAlignRows(ver, i, NumAlign(ver), x, y);
    }
  }

  lemma InVersion(ver: Version, x: int, y: int)
    requires VersionInfo(ver, x, y)
    ensures (x, y) in VersionCells(ver)
  {
    if y <= 5 {
      InRect(Size(ver) - 11, 0, 3, 6, x, y);
    } else {
      InRect(0, Size(ver) - 11, 6, 3, x, y);
    }
  }

  // ----- Counting ------------------------------------------------------------------------------

  function AsSet(cells: seq<Cell>): (s: set<Cell>)
    ensures forall c :: c in s <==> c in cells
    ensures |s| <= |cells|
  {
    if cells == [] then {}
    else
      assert cells == cells[..|cells| - 1] + [cells[|cells| - 1]];
      AsSet(cells[..|cells| - 1]) + {cells[|cells| - 1]}
  }

  /** The function modules among the first k modules of the path. */
  ghost function FuncSpots(ver: Version, k: nat): (s: set<Cell>)
    requires k <= PathLength(ver)
  {
    if k == 0 then {} else FuncSpots(ver, k - 1) + (if FuncSpot(ver, k - 1) then {Spot(ver, k - 1)} else {})
  }

  lemma FuncSpotInCells(ver: Version, k: nat)
    requires k < PathLength(ver)
    ensures Index(ver, Spot(ver, k).0, Spot(ver, k).1) == k
    ensures FuncSpot(ver, k) ==> Spot(ver, k) in FuncCells(ver)
  {
    hide Spot, Index, FuncCells, Func;
    var spot := Spot(ver, k);
    IndexOfSpot(ver, k);
    if FuncSpot(ver, k) {
      FuncInCells(ver, spot.0, spot.1);
      assert spot == (spot.0, spot.1);
    }
  }

  /** A function module on the path before place k. */
  predicate Early(ver: Version, c: Cell, k: nat) {
    0 <= Index(ver, c.0, c.1) < k && c in FuncCells(ver)
  }

  lemma EarlyLater(ver: Version, c: Cell, k: nat)
    requires k > 0 && Early(ver, c, k - 1)
    ensures Early(ver, c, k)
  {
    hide Index, FuncCells;
  }

  lemma EarlySpot(ver: Version, k: nat)
    requires k < PathLength(ver)
    ensures !Early(ver, Spot(ver, k), k)
    ensures FuncSpot(ver, k) ==> Early(ver, Spot(ver, k), k + 1)
  {
    hide Spot, Index, FuncCells, FuncSpot, PathLength;
    FuncSpotInCells(ver, k);
  }

  lemma CountNone(ver: Version)
    ensures FuncSpots(ver, 0) == {} && FreeBefore(ver, 0) == 0
  {
  }

  lemma CountStep(ver: Version, k: nat)
    requires 0 < k <= PathLength(ver)
    ensures FuncSpots(ver, k) == if FuncSpot(ver, k - 1) then FuncSpots(ver, k - 1) + {Spot(ver, k - 1)} else FuncSpots(ver, k - 1)
    ensures FreeBefore(ver, k) == FreeBefore(ver, k - 1) + if FuncSpot(ver, k - 1) then 0 else 1
  {
    hide Spot, FuncSpot, PathLength;
  }

  lemma {:induction false} FuncSpotsCount(ver: Version, k: nat)
    requires k <= PathLength(ver)
    ensures |FuncSpots(ver, k)| == k - FreeBefore(ver, k)
    ensures forall c :: c in FuncSpots(ver, k) ==> Early(ver, c, k)
  {
    CountNone(ver);
    hide *;
    if k > 0 {
      FuncSpotsCount(ver, k - 1);
      EarlySpot(ver, k - 1);
      CountStep(ver, k);
      forall c | c in FuncSpots(ver, k - 1)
        ensures Early(ver, c, k)
      {
        EarlyLater(ver, c, k);
      }
    }
  }

  lemma FuncCellsLength(ver: Version)
    ensures PathLength(ver) - |FuncCells(ver)| == NumRawDataModules(ver)
  {
    hide CornerCells, VersionCells, AlignRows;
    AlignRowsLength(ver, NumAlign(ver));
    var s := Size(ver);
    assert s == 4 * ver + 17;
    assert PathLength(ver) == 16 * ver * ver + 132 * ver + 272;
    var n := NumAlign(ver);
    assert (25 * n - 10) * n == 25 * n * n - 10 * n;
    assert (16 * ver + 128) * ver == 16 * ver * ver + 128 * ver;
  }

  /** The path of every version has a module for each bit of its codewords. */
  lemma PathHasRoom(ver: Version)
    ensures FreeBefore(ver, PathLength(ver)) >= NumRawDataModules(ver) >= 8 * RawCodewords(ver) >= 0
  {
    RawBounds(ver);
    hide FuncCells, FreeBefore, NumRawDataModules, PathLength;
    var n := PathLength(ver);
    FuncSpotsCount(ver, n);
    SubsetCount(FuncSpots(ver, n), AsSet(FuncCells(ver)));
    FuncCellsLength(ver);
  }
}
