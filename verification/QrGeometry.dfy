/** Where things lie in a QR symbol: the function patterns and the zigzag path of the
    codeword modules (ISO/IEC 18004:2015, sections 6.3 and 7.7.3). */
module QrGeometry {
  import opened Arithmetic
  import opened QrTables

  function Size(ver: Version): int {
    ver * 4 + 17
  }

  predicate InSymbol(ver: Version, x: int, y: int) {
    0 <= x < Size(ver) && 0 <= y < Size(ver)
  }

  function Abs(d: int): int {
    if d < 0 then -d else d
  }

  /** Distance in king's moves. */
  function Distance(x: int, y: int, cx: int, cy: int): int {
    if Abs(x - cx) > Abs(y - cy) then Abs(x - cx) else Abs(y - cy)
  }

  // ----- Function patterns ----------------------------------------------------------------

  predicate Timing(x: int, y: int) {
    x == 6 || y == 6
  }

  /** A finder pattern with its light separator. */
  predicate Finder(ver: Version, x: int, y: int) {
    Distance(x, y, 3, 3) <= 4 || Distance(x, y, Size(ver) - 4, 3) <= 4 || Distance(x, y, 3, Size(ver) - 4) <= 4
  }

  function NumAlign(ver: Version): int {
    if ver == 1 then 0 else ver / 7 + 2
  }

  /** Distance between alignment patterns: `ceil((ver * 4 + 4) / (numAlign * 2 - 2)) * 2`. */
  function AlignStep(ver: Version): int
    requires ver >= 2
  {
    if ver == 32 then 26
    else
      var d := NumAlign(ver) * 2 - 2;
      (ver * 4 + 4 + d - 1) / d * 2
  }

  function AlignAt(ver: Version, i: nat): int
    requires i < NumAlign(ver)
  {
    if i == 0 then 6 else Size(ver) - 7 - AlignStep(ver) * (NumAlign(ver) - 1 - i)
  }

  /** The three corners taken by the finder patterns have no alignment pattern. */
  predicate AtFinder(n: int, i: int, j: int) {
    (i == 0 && j == 0) || (i == 0 && j == n - 1) || (i == n - 1 && j == 0)
  }

  predicate AlignedBy(ver: Version, i: nat, j: nat, x: int, y: int)
    requires i < NumAlign(ver) && j < NumAlign(ver)
  {
    !AtFinder(NumAlign(ver), i, j) && Distance(x, y, AlignAt(ver, j), AlignAt(ver, i)) <= 2
  }

  predicate Alignment(ver: Version, x: int, y: int) {
    exists i, j :: 0 <= i < NumAlign(ver) && 0 <= j < NumAlign(ver) && AlignedBy(ver, i, j, x, y)
  }

  lemma AlignStepBounds(ver: Version)
    requires ver >= 2
    ensures AlignStep(ver) >= 5
    ensures 4 * ver + 4 - AlignStep(ver) * (NumAlign(ver) - 2) >= 5
  {
    var k := ver / 7;
    if k == 0 {
    } else if k == 1 {
    } else if k == 2 {
    } else if k == 3 {
    } else if k == 4 {
    } else {
      assert k == 5;
    }
  }

  /** Different alignment coordinates are so far apart that no two patterns touch. */
  lemma AlignSpacing(ver: Version, i: nat, k: nat)
    requires i < k < NumAlign(ver)
    ensures AlignAt(ver, k) - AlignAt(ver, i) >= 5
  {
    AlignStepBounds(ver);
    hide AlignStep, NumAlign;
    var step, n := AlignStep(ver), NumAlign(ver);
    if i == 0 {
      MulLe(step, n - 1 - k, n - 2);
    } else {
      MulLe(step, 1, k - i);
      assert step * (n - 1 - i) - step * (n - 1 - k) == step * (k - i);
    }
  }

  predicate Format(ver: Version, x: int, y: int) {
    var s := Size(ver);
    (x == 8 && (0 <= y <= 5 || y == 7 || y == 8 || s - 8 <= y < s)) ||
    (y == 8 && (0 <= x <= 5 || x == 7 || s - 8 <= x < s))
  }

  predicate VersionInfo(ver: Version, x: int, y: int) {
    var s := Size(ver);
    ver >= 7 && ((s - 11 <= x <= s - 9 && 0 <= y <= 5) || (s - 11 <= y <= s - 9 && 0 <= x <= 5))
  }

  predicate Func(ver: Version, x: int, y: int) {
    Timing(x, y) || Finder(ver, x, y) || Alignment(ver, x, y) || Format(ver, x, y) || VersionInfo(ver, x, y)
  }

  // ----- The zigzag path --------------------------------------------------------------------

  /** The right column of the c-th pair of columns; column 6 is stepped over. */
  function Right(ver: Version, c: int): int {
    var right := Size(ver) - 1 - 2 * c;
    if right <= 6 then right - 1 else right
  }

  predicate Upward(right: int) {
    (right + 1) / 2 % 2 == 0
  }

  function PathX(ver: Version, c: int, c2: int): int {
    Right(ver, c) - c2
  }

  function PathY(ver: Version, c: int, vert: int): int {
    if Upward(Right(ver, c)) then Size(ver) - 1 - vert else vert
  }

  function Pairs(ver: Version): nat {
    2 * ver + 8
  }

  /** Modules on the path: all of them except column 6. */
  function PathLength(ver: Version): nat {
    Pairs(ver) * (2 * Size(ver))
  }

  /** The k-th module of the path. */
  function Spot(ver: Version, k: nat): (p: (int, int))
  {
    var c, m := k / (2 * Size(ver)), k % (2 * Size(ver));
    (PathX(ver, c, m % 2), PathY(ver, c, m / 2))
  }

  /** The pair of columns that holds column x. */
  function Column(ver: Version, x: int): int {
    Pairs(ver) - (if x >= 7 then (x + 1) / 2 else x / 2 + 1)
  }

  /** The place of a module on the path. */
  function Index(ver: Version, x: int, y: int): int {
    var c := Column(ver, x);
    var vert := if Upward(Right(ver, c)) then Size(ver) - 1 - y else y;
    c * (2 * Size(ver)) + 2 * vert + (Right(ver, c) - x)
  }

  lemma ColumnOfPath(ver: Version, c: nat, c2: nat)
    requires c < Pairs(ver) && c2 < 2
    ensures Column(ver, PathX(ver, c, c2)) == c && 0 <= PathX(ver, c, c2) < Size(ver) && PathX(ver, c, c2) != 6
  {
  }

  lemma ColumnRange(ver: Version, x: int)
    requires 0 <= x < Size(ver) && x != 6
    ensures 0 <= Column(ver, x) < Pairs(ver) && 0 <= Right(ver, Column(ver, x)) - x < 2
  {
  }

  lemma SpotAt(ver: Version, c: nat, vert: nat, c2: nat)
    requires c < Pairs(ver) && vert < Size(ver) && c2 < 2
    ensures var k := c * (2 * Size(ver)) + 2 * vert + c2;
      0 <= k < PathLength(ver) && Spot(ver, k) == (PathX(ver, c, c2), PathY(ver, c, vert))
  {
    hide Right, Upward, Pairs;
    var w := 2 * Size(ver);
    var m := 2 * vert + c2;
    QuotientIs(c * w + m, w, c, m);
    MulLe(w, c + 1, Pairs(ver));
    assert w * (c + 1) == c * w + w;
  }

  /** The zigzag visits every module outside column 6 exactly once. */
  lemma PathIsBijection(ver: Version)
    ensures forall k: nat :: k < PathLength(ver) ==>
      InSymbol(ver, Spot(ver, k).0, Spot(ver, k).1) && Spot(ver, k).0 != 6 && Index(ver, Spot(ver, k).0, Spot(ver, k).1) == k
    ensures forall x, y :: InSymbol(ver, x, y) && x != 6 ==>
      0 <= Index(ver, x, y) < PathLength(ver) && Spot(ver, Index(ver, x, y)) == (x, y)
  {
    forall k: nat | k < PathLength(ver)
      ensures InSymbol(ver, Spot(ver, k).0, Spot(ver, k).1) && Spot(ver, k).0 != 6 && Index(ver, Spot(ver, k).0, Spot(ver, k).1) == k
    {
      IndexOfSpot(ver, k);
    }
    forall x, y | InSymbol(ver, x, y) && x != 6
      ensures 0 <= Index(ver, x, y) < PathLength(ver) && Spot(ver, Index(ver, x, y)) == (x, y)
    {
      SpotOfIndex(ver, x, y);
    }
  }

  lemma IndexOfSpot(ver: Version, k: nat)
    requires k < PathLength(ver)
    ensures var (x, y) := Spot(ver, k); InSymbol(ver, x, y) && x != 6 && Index(ver, x, y) == k
  {
    hide Column, Right, Upward, Pairs, Index;
    var w := 2 * Size(ver);
    var c, m := k / w, k % w;
    assert k == w * c + m;
    if c >= Pairs(ver) {
      MulLe(w, Pairs(ver), c);
    }
    ColumnOfPath(ver, c, m % 2);
    IndexAt(ver, c, m / 2, m % 2);
  }

  lemma IndexAt(ver: Version, c: nat, vert: nat, c2: nat)
    requires c < Pairs(ver) && vert < Size(ver) && c2 < 2
    ensures Index(ver, PathX(ver, c, c2), PathY(ver, c, vert)) == c * (2 * Size(ver)) + 2 * vert + c2
  {
    ColumnOfPath(ver, c, c2);
    hide Column, Right, Upward, Pairs;
  }

  lemma SpotOfIndex(ver: Version, x: int, y: int)
    requires InSymbol(ver, x, y) && x != 6
    ensures 0 <= Index(ver, x, y) < PathLength(ver) && Spot(ver, Index(ver, x, y)) == (x, y)
  {
    hide Column, Right, Upward, Pairs, Spot;
    ColumnRange(ver, x);
    var c := Column(ver, x);
    var vert := if Upward(Right(ver, c)) then Size(ver) - 1 - y else y;
    SpotAt(ver, c, vert, Right(ver, c) - x);
  }
}
