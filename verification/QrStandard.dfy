/** What ISO/IEC 18004:2015 lays down for the places and colours of modules and for the order of
    codewords, stated on its own and proved of the functions the encoder is specified by. */
module QrStandard {
  import opened Arithmetic
  import opened Gf256
  import opened QrTables
  import opened QrBits
  import opened QrInterleave
  import opened QrGeometry
  import opened QrCapacity
  import opened QrPatterns
  import opened QrPicture
  import opened QrMasks
  import opened ReedSolomon

  // ----- The path of the codeword modules (section 7.7.3) ---------------------------------------

  /** The m-th module of the c-th pair of columns. */
  function Step(ver: Version, c: nat, m: nat): (int, int) {
    Spot(ver, 2 * Size(ver) * c + m)
  }

  /** The path starts at the bottom right corner. A pair of columns is walked row by row, right module
      before left, the first pair upwards and the others in turn; the next pair, one further left
      where it would meet column 6, begins in the row where the last one ended. */
  lemma PathGoesOn(ver: Version, c: nat, m: nat)
    requires c < Pairs(ver) && m < 2 * Size(ver)
    ensures Step(ver, 0, 0) == (Size(ver) - 1, Size(ver) - 1)
    ensures var (x, y) := Step(ver, c, m);
      (m % 2 == 0 ==> Step(ver, c, m + 1) == (x - 1, y)) &&
      (m % 2 == 1 && m + 1 < 2 * Size(ver) ==> Step(ver, c, m + 1) == (x + 1, if c % 2 == 0 then y - 1 else y + 1)) &&
      (m + 1 == 2 * Size(ver) && c + 1 < Pairs(ver) ==> Step(ver, c + 1, 0) == (if x - 1 == 6 then x - 2 else x - 1, y))
  {
    hide Right, Upward, PathX, PathY, Spot, Pairs, Size;
    SpotIn(ver, 0, 0);
    FirstPair(ver);
    SpotIn(ver, c, m);
    PairTurns(ver, c);
    if m + 1 < 2 * Size(ver) {
      SpotIn(ver, c, m + 1);
      SameColumns(ver, c, m);
    } else if c + 1 < Pairs(ver) {
      SpotIn(ver, c + 1, 0);
      PairTurns(ver, c + 1);
      NextColumns(ver, c);
    }
  }

  lemma SpotIn(ver: Version, c: nat, m: nat)
    requires m < 2 * Size(ver)
    ensures Step(ver, c, m) == (PathX(ver, c, m % 2), PathY(ver, c, m / 2))
  {
    QuotientIs(2 * Size(ver) * c + m, 2 * Size(ver), c, m);
    hide PathX, PathY;
  }

  lemma FirstPair(ver: Version)
    ensures (PathX(ver, 0, 0), PathY(ver, 0, 0)) == (Size(ver) - 1, Size(ver) - 1)
  {
  }

  lemma PairTurns(ver: Version, c: nat)
    requires c < Pairs(ver)
    ensures Upward(Right(ver, c)) <==> c % 2 == 0
  {
    assert (Right(ver, c) + 1) / 2 == 2 * ver + 8 - c;
  }

  lemma SameColumns(ver: Version, c: nat, m: nat)
    requires m + 1 < 2 * Size(ver)
    ensures m % 2 == 0 ==> PathX(ver, c, (m + 1) % 2) == PathX(ver, c, m % 2) - 1 && PathY(ver, c, (m + 1) / 2) == PathY(ver, c, m / 2)
    ensures m % 2 == 1 ==> PathX(ver, c, (m + 1) % 2) == PathX(ver, c, m % 2) + 1
    ensures m % 2 == 1 ==> PathY(ver, c, (m + 1) / 2) == PathY(ver, c, m / 2) + if Upward(Right(ver, c)) then -1 else 1
  {
    hide Right, Upward;
  }

  lemma NextColumns(ver: Version, c: nat)
    requires c + 1 < Pairs(ver) && Upward(Right(ver, c)) != Upward(Right(ver, c + 1))
    ensures PathY(ver, c + 1, 0) == PathY(ver, c, Size(ver) - 1)
    ensures var x := PathX(ver, c, 1); PathX(ver, c + 1, 0) == if x - 1 == 6 then x - 2 else x - 1
  {
  }

  // ----- Alignment patterns (annex E) -------------------------------------------------------------

  /** Table E.1: the row and column coordinates of the centres, by version. */
  const ALIGNMENT: seq<seq<int>> := [
    [], [], [6, 18], [6, 22], [6, 26], [6, 30], [6, 34], [6, 22, 38], [6, 24, 42], [6, 26, 46], [6, 28, 50],
    [6, 30, 54], [6, 32, 58], [6, 34, 62], [6, 26, 46, 66], [6, 26, 48, 70], [6, 26, 50, 74], [6, 30, 54, 78],
    [6, 30, 56, 82], [6, 30, 58, 86], [6, 34, 62, 90], [6, 28, 50, 72, 94], [6, 26, 50, 74, 98],
    [6, 30, 54, 78, 102], [6, 28, 54, 80, 106], [6, 32, 58, 84, 110], [6, 30, 58, 86, 114], [6, 34, 62, 90, 118],
    [6, 26, 50, 74, 98, 122], [6, 30, 54, 78, 102, 126], [6, 26, 52, 78, 104, 130], [6, 30, 56, 82, 108, 134],
    [6, 34, 60, 86, 112, 138], [6, 30, 58, 86, 114, 142], [6, 34, 62, 90, 118, 146], [6, 30, 54, 78, 102, 126, 150],
    [6, 24, 50, 76, 102, 128, 154], [6, 28, 54, 80, 106, 132, 158], [6, 32, 58, 84, 110, 136, 162],
    [6, 26, 54, 82, 110, 138, 166], [6, 30, 58, 86, 114, 142, 170]
  ]

  function AlignmentCentres(ver: Version): seq<int> {
    seq(NumAlign(ver), i requires 0 <= i < NumAlign(ver) => AlignAt(ver, i))
  }

  lemma StepTo6(ver: Version)
    requires 1 <= ver <= 6
    ensures ver > 1 ==> AlignStep(ver) == 4 * ver + 4
  {
  }

  lemma AlignmentTo6(ver: Version)
    requires 1 <= ver <= 6
    ensures AlignmentCentres(ver) == ALIGNMENT[ver]
  {
    hide AlignStep;
    StepTo6(ver);
    assert NumAlign(ver) == |ALIGNMENT[ver]|;
    forall i | 0 <= i < NumAlign(ver)
      ensures AlignAt(ver, i) == ALIGNMENT[ver][i]
    {
    }
  }

  lemma StepTo13(ver: Version)
    requires 7 <= ver <= 13
    ensures AlignStep(ver) == [16, 18, 20, 22, 24, 26, 28][ver - 7]
  {
  }

  lemma AlignmentTo13(ver: Version)
    requires 7 <= ver <= 13
    ensures AlignmentCentres(ver) == ALIGNMENT[ver]
  {
    hide AlignStep;
    StepTo13(ver);
    assert NumAlign(ver) == |ALIGNMENT[ver]|;
    forall i | 0 <= i < NumAlign(ver)
      ensures AlignAt(ver, i) == ALIGNMENT[ver][i]
    {
    }
  }

  lemma StepTo16(ver: Version)
    requires 14 <= ver <= 16
    ensures AlignStep(ver) == [20, 22, 24][ver - 14]
  {
  }

  lemma AlignmentTo16(ver: Version)
    requires 14 <= ver <= 16
    ensures AlignmentCentres(ver) == ALIGNMENT[ver]
  {
    hide AlignStep;
    StepTo16(ver);
    assert NumAlign(ver) == |ALIGNMENT[ver]|;
    forall i | 0 <= i < NumAlign(ver)
      ensures AlignAt(ver, i) == ALIGNMENT[ver][i]
    {
    }
  }

  lemma StepTo20(ver: Version)
    requires 17 <= ver <= 20
    ensures AlignStep(ver) == [24, 26, 28, 28][ver - 17]
  {
  }

  lemma AlignmentTo20(ver: Version)
    requires 17 <= ver <= 20
    ensures AlignmentCentres(ver) == ALIGNMENT[ver]
  {
    hide AlignStep;
    StepTo20(ver);
    assert NumAlign(ver) == |ALIGNMENT[ver]|;
    forall i | 0 <= i < NumAlign(ver)
      ensures AlignAt(ver, i) == ALIGNMENT[ver][i]
    {
    }
  }

  lemma StepTo23(ver: Version)
    requires 21 <= ver <= 23
    ensures AlignStep(ver) == [22, 24, 24][ver - 21]
  {
  }

  lemma AlignmentTo23(ver: Version)
    requires 21 <= ver <= 23
    ensures AlignmentCentres(ver) == ALIGNMENT[ver]
  {
    hide AlignStep;
    StepTo23(ver);
    assert NumAlign(ver) == |ALIGNMENT[ver]|;
    forall i | 0 <= i < NumAlign(ver)
      ensures AlignAt(ver, i) == ALIGNMENT[ver][i]
    {
    }
  }

  lemma StepTo27(ver: Version)
    requires 24 <= ver <= 27
    ensures AlignStep(ver) == [26, 26, 28, 28][ver - 24]
  {
  }

  lemma AlignmentTo27(ver: Version)
    requires 24 <= ver <= 27
    ensures AlignmentCentres(ver) == ALIGNMENT[ver]
  {
    hide AlignStep;
    StepTo27(ver);
    assert NumAlign(ver) == |ALIGNMENT[ver]|;
    forall i | 0 <= i < NumAlign(ver)
      ensures AlignAt(ver, i) == ALIGNMENT[ver][i]
    {
    }
  }

  lemma StepTo34(ver: Version)
    requires 28 <= ver <= 34
    ensures AlignStep(ver) == [24, 24, 26, 26, 26, 28, 28][ver - 28]
  {
  }

  lemma AlignmentTo34(ver: Version)
    requires 28 <= ver <= 34
    ensures AlignmentCentres(ver) == ALIGNMENT[ver]
  {
    hide AlignStep;
    StepTo34(ver);
    assert NumAlign(ver) == |ALIGNMENT[ver]|;
    forall i | 0 <= i < NumAlign(ver)
      ensures AlignAt(ver, i) == ALIGNMENT[ver][i]
    {
    }
  }

  lemma StepTo40(ver: Version)
    requires 35 <= ver <= 40
    ensures AlignStep(ver) == [24, 26, 26, 26, 28, 28][ver - 35]
  {
  }

  lemma AlignmentTo40(ver: Version)
    requires 35 <= ver <= 40
    ensures AlignmentCentres(ver) == ALIGNMENT[ver]
  {
    hide AlignStep;
    StepTo40(ver);
    assert NumAlign(ver) == |ALIGNMENT[ver]|;
    forall i | 0 <= i < NumAlign(ver)
      ensures AlignAt(ver, i) == ALIGNMENT[ver][i]
    {
    }
  }

  /** The centres are those of the table, for every version. */
  lemma AlignmentIsTable(ver: Version)
    ensures AlignmentCentres(ver) == ALIGNMENT[ver]
  {
    hide *;
    if ver <= 6 {
      AlignmentTo6(ver);
    } else if ver <= 13 {
      AlignmentTo13(ver);
    } else if ver <= 16 {
      AlignmentTo16(ver);
    } else if ver <= 20 {
      AlignmentTo20(ver);
    } else if ver <= 23 {
      AlignmentTo23(ver);
    } else if ver <= 27 {
      AlignmentTo27(ver);
    } else if ver <= 34 {
      AlignmentTo34(ver);
    } else {
      AlignmentTo40(ver);
    }
  }

  lemma AlignStepWide(ver: Version)
    requires ver >= 7
    ensures AlignStep(ver) >= 16
  {
    var d := NumAlign(ver) * 2 - 2;
    if ver < 14 {
      assert d == 4;
    } else if ver < 21 {
      assert d == 6;
    } else if ver < 28 {
      assert d == 8;
    } else if ver < 35 {
      assert d == 10;
    } else {
      assert d == 12;
    }
  }

  /** Where centres can lie: the first at 6, the last seven modules from the edge, the others away
      from both. */
  lemma CentreRange(ver: Version, i: nat)
    requires i < NumAlign(ver)
    ensures i == 0 ==> AlignAt(ver, i) == 6
    ensures i == NumAlign(ver) - 1 ==> AlignAt(ver, i) == Size(ver) - 7
    ensures 0 < i ==> AlignAt(ver, i) >= 11
    ensures i < NumAlign(ver) - 1 ==> AlignAt(ver, i) <= Size(ver) - 18
  {
    hide AlignStep, NumAlign, AlignAt;
    AlignAtIs(ver, i);
    if i > 0 {
      var n, step := NumAlign(ver), AlignStep(ver);
      AlignStepBounds(ver);
      BackSteps(step, n - 1 - i, n - 2);
      if i < n - 1 {
        AlignStepWide(ver);
      }
    }
  }

  lemma BackSteps(step: int, k: nat, most: nat)
    requires step >= 0 && k <= most
    ensures 0 <= step * k <= step * most && (k > 0 ==> step <= step * k)
  {
    MulLe(step, k, most);
    MulLe(step, 0, k);
    if k > 0 {
      MulLe(step, 1, k);
    }
  }

  lemma CentreEven(ver: Version, i: nat)
    requires i < NumAlign(ver)
    ensures AlignAt(ver, i) % 2 == 0
  {
    hide AlignStep, NumAlign, AlignAt;
    AlignAtIs(ver, i);
    if i > 0 {
      var half, k := AlignStep(ver) / 2, NumAlign(ver) - 1 - i;
      AlignStepEven(ver);
      assert AlignStep(ver) * k == 2 * (half * k);
      QuotientIs(4 * ver + 10 - 2 * (half * k), 2, 2 * ver + 5 - half * k, 0);
    }
  }

  lemma AlignAtIs(ver: Version, i: nat)
    requires i < NumAlign(ver)
    ensures ver >= 2 && NumAlign(ver) >= 2 && (NumAlign(ver) > 2 ==> ver >= 7)
    ensures AlignAt(ver, i) == if i == 0 then 6 else 4 * ver + 10 - AlignStep(ver) * (NumAlign(ver) - 1 - i)
  {
    hide AlignStep;
  }

  lemma AlignStepEven(ver: Version)
    requires ver >= 2
    ensures AlignStep(ver) % 2 == 0
  {
  }

  predicate AtDark(look: seq<string>, x: nat, y: nat)
    requires y < |look| && x < |look[y]|
  {
    look[y][x] == '#'
  }

  // ----- The looks of the patterns (section 6.3) ---------------------------------------------------

  /** A finder pattern in its corner, with the separator on the sides that face the symbol. */
  const FINDER: seq<string> := [
    "#######.",
    "#.....#.",
    "#.###.#.",
    "#.###.#.",
    "#.###.#.",
    "#.....#.",
    "#######.",
    "........"
  ]

  const ALIGNMENT_PATTERN: seq<string> := [
    "#####",
    "#...#",
    "#.#.#",
    "#...#",
    "#####"
  ]

  /** The three finder patterns of a drawn symbol, each turned to its corner. */
  lemma FindersShown(ver: Version, g: Picture, x: nat, y: nat)
    requires IsPicture(ver, g) && ShowsPatterns(ver, g) && x < 8 && y < 8
    ensures var far := Size(ver) - 1;
      g[y][x] == g[y][far - x] == g[far - y][x] == AtDark(FINDER, x, y)
  {
    var far := Size(ver) - 1;
    FinderRings(x, y);
    FinderFree(ver, x, y);
    FinderFree(ver, far - x, y);
    FinderFree(ver, x, far - y);
    FinderFrom(ver, x, y);
    hide Below, Finder, Alignment, FinderDark, Distance;
  }

  lemma FinderRings(x: nat, y: nat)
    requires x < 8 && y < 8
    ensures RingDark(4, Distance(x, y, 3, 3)) == AtDark(FINDER, x, y)
  {
  }

  lemma FinderFrom(ver: Version, x: nat, y: nat)
    requires x < 8 && y < 8
    ensures var far := Size(ver) - 1; var dark := RingDark(4, Distance(x, y, 3, 3));
      FinderDark(ver, x, y) == FinderDark(ver, far - x, y) == FinderDark(ver, x, far - y) == dark
  {
  }

  lemma FinderFree(ver: Version, x: int, y: int)
    requires var far := Size(ver) - 1; InSymbol(ver, x, y) && (((x < 8 || far - x < 8) && y < 8) || (x < 8 && far - y < 8))
    ensures Below(ver, x, y) && Finder(ver, x, y) && !Alignment(ver, x, y)
  {
    forall i, j | 0 <= i < NumAlign(ver) && 0 <= j < NumAlign(ver)
      ensures !AlignedBy(ver, i, j, x, y)
    {
      CentreRange(ver, i);
      CentreRange(ver, j);
      hide AlignAt, NumAlign;
    }
  }

  /** Every alignment pattern of a drawn symbol, around its centre. */
  lemma AlignmentShown(ver: Version, g: Picture, i: nat, j: nat, x: nat, y: nat)
    requires IsPicture(ver, g) && ShowsPatterns(ver, g) && i < NumAlign(ver) && j < NumAlign(ver)
    requires !AtFinder(NumAlign(ver), i, j) && x < 5 && y < 5
    ensures var cx, cy := AlignAt(ver, j), AlignAt(ver, i);
      InSymbol(ver, cx - 2 + x, cy - 2 + y) && g[cy - 2 + y][cx - 2 + x] == AtDark(ALIGNMENT_PATTERN, x, y)
  {
    var cx, cy := AlignAt(ver, j), AlignAt(ver, i);
    AlignmentFree(ver, i, j, cx - 2 + x, cy - 2 + y);
    AlignmentRings(cx, cy, x, y);
    hide Below, AlignAt, NumAlign;
    assert AlignedBy(ver, i, j, cx - 2 + x, cy - 2 + y);
  }

  lemma AlignmentRings(cx: int, cy: int, x: nat, y: nat)
    requires x < 5 && y < 5
    ensures Distance(cx - 2 + x, cy - 2 + y, cx, cy) <= 2
    ensures RingDark(2, Distance(cx - 2 + x, cy - 2 + y, cx, cy)) == AtDark(ALIGNMENT_PATTERN, x, y)
  {
  }

  lemma AlignmentFree(ver: Version, i: nat, j: nat, x: int, y: int)
    requires i < NumAlign(ver) && j < NumAlign(ver) && AlignedBy(ver, i, j, x, y)
    ensures InSymbol(ver, x, y) && Below(ver, x, y) && !Finder(ver, x, y)
  {
    CentreRange(ver, i);
    CentreRange(ver, j);
    hide AlignAt, NumAlign;
  }

  /** The timing lines of a drawn symbol alternate, dark on even places, between the finder patterns. */
  lemma TimingShown(ver: Version, g: Picture, k: nat)
    requires IsPicture(ver, g) && ShowsPatterns(ver, g) && 8 <= k <= Size(ver) - 9
    ensures g[6][k] == g[k][6] == (k % 2 == 0)
  {
    hide ShowsPatterns;
    TimingAt(ver, g, k, 6);
    TimingAt(ver, g, 6, k);
  }

  lemma TimingAt(ver: Version, g: Picture, x: nat, y: nat)
    requires IsPicture(ver, g) && ShowsPatterns(ver, g) && InSymbol(ver, x, y)
    requires (x == 6 && 8 <= y <= Size(ver) - 9) || (y == 6 && 8 <= x <= Size(ver) - 9)
    ensures g[y][x] == ((x + y) % 2 == 0)
  {
    TimingFree(ver, x, y);
    if Alignment(ver, x, y) {
      var i, j :| 0 <= i < NumAlign(ver) && 0 <= j < NumAlign(ver) && AlignedBy(ver, i, j, x, y);
      CentreRange(ver, i);
      CentreRange(ver, j);
      CentreEven(ver, i);
      CentreEven(ver, j);
      TimingRings(x, y, AlignAt(ver, j), AlignAt(ver, i));
      hide AlignAt, NumAlign, Below, Finder, Timing;
    }
  }

  lemma TimingRings(x: nat, y: nat, cx: int, cy: int)
    requires Distance(x, y, cx, cy) <= 2 && cx % 2 == 0 && cy % 2 == 0 && ((x == 6 && cx == 6) || (y == 6 && cy == 6))
    ensures RingDark(2, Distance(x, y, cx, cy)) == ((x + y) % 2 == 0)
  {
  }

  lemma TimingFree(ver: Version, x: nat, y: nat)
    requires InSymbol(ver, x, y)
    requires (x == 6 && 8 <= y <= Size(ver) - 9) || (y == 6 && 8 <= x <= Size(ver) - 9)
    ensures Below(ver, x, y) && Timing(x, y) && !Finder(ver, x, y)
  {
  }

  // ----- Format and version information (sections 7.9 and 7.10) -------------------------------------

  /** The product of two polynomials over GF(2), given by the bits of numbers. */
  function Carryless(q: nat, g: nat): nat {
    if q == 0 then 0 else Xor(2 * Carryless(q / 2, g), q % 2 * g)
  }

  lemma CarrylessNext(q: nat, b: nat, g: nat)
    requires b < 2
    ensures Carryless(2 * q + b, g) == Xor(2 * Carryless(q, g), b * g)
  {
    hide Xor;
    assert (2 * q + b) / 2 == q && (2 * q + b) % 2 == b;
    if 2 * q + b == 0 {
      XorZero(0);
    }
  }

  lemma XorDoubles(a: nat, b: nat)
    ensures Xor(2 * a, 2 * b) == 2 * Xor(a, b)
  {
    XorHalf(2 * a, 2 * b);
    hide Xor;
  }

  /** One step of a division: from a multiple of the divisor to the next one. */
  lemma DivisionStep(a: nat, rem: nat, bit: nat, q: nat, g: nat)
    requires bit < 2 && Xor(a, rem) == Carryless(q, g)
    ensures Xor(2 * a, Xor(2 * rem, bit * g)) == Carryless(2 * q + bit, g)
  {
    hide Xor, Carryless;
    XorAssociates(2 * a, 2 * rem, bit * g);
    XorDoubles(a, rem);
    CarrylessNext(q, bit, g);
  }

  lemma {:induction false} FormatDivides(data: nat, n: nat) returns (q: nat)
    requires data < 1024
    ensures Xor(Pow2(n) * data, FormatRem(data, n)) == Carryless(q, 0x537)
  {
    hide Xor, Carryless;
    if n == 0 {
      XorSelf(data);
      q := 0;
      CarrylessNone(0x537);
    } else {
      var q' := FormatDivides(data, n - 1);
      var rem := FormatRem(data, n - 1);
      FormatRemBelow(data, n - 1);
      DivisionStep(Pow2(n - 1) * data, rem, rem / 512, q', 0x537);
      assert 2 * (Pow2(n - 1) * data) == Pow2(n) * data;
      q := 2 * q' + rem / 512;
    }
  }

  lemma {:induction false} VersionDivides(ver: Version, n: nat) returns (q: nat)
    ensures Xor(Pow2(n) * ver, VersionRem(ver, n)) == Carryless(q, 0x1F25)
  {
    hide Xor, Carryless;
    if n == 0 {
      XorSelf(ver);
      q := 0;
      CarrylessNone(0x1F25);
    } else {
      var q' := VersionDivides(ver, n - 1);
      var rem := VersionRem(ver, n - 1);
      VersionRemBelow(ver, n - 1);
      DivisionStep(Pow2(n - 1) * ver, rem, rem / 2048, q', 0x1F25);
      assert 2 * (Pow2(n - 1) * ver) == Pow2(n) * ver;
      q := 2 * q' + rem / 2048;
    }
  }

  lemma CarrylessNone(g: nat)
    ensures Carryless(0, g) == 0
  {
  }

  /** A number above and one below a power of 2 add up like they combine. */
  lemma {:induction false} XorDisjoint(a: nat, b: nat, n: nat)
    requires b < Pow2(n)
    ensures Xor(Pow2(n) * a, b) == Pow2(n) * a + b
  {
    hide Xor;
    if n == 0 {
      XorZero(a);
    } else {
      var top := Pow2(n - 1) * a;
      assert Pow2(n) * a == 2 * top;
      XorDisjoint(a, b / 2, n - 1);
      XorHalf(2 * top, b);
      assert 2 * top / 2 == top && 2 * top % 2 == 0;
    }
  }

  lemma {:induction false} ShiftRightDivides(val: nat, i: nat)
    ensures ShiftRight(val, i) == val / Pow2(i)
  {
    if i > 0 {
      ShiftRightDivides(val / 2, i - 1);
      HalfFirst(val, Pow2(i - 1));
      assert Pow2(i) == 2 * Pow2(i - 1);
      assert ShiftRight(val, i) == ShiftRight(val / 2, i - 1);
      hide Pow2, ShiftRight;
    } else {
      assert Pow2(0) == 1;
    }
  }

  /** A dark module stands for a bit 1. */
  lemma BitIs(val: nat, i: nat)
    ensures GetBit(val, i) <==> val / Pow2(i) % 2 == 1
  {
    ShiftRightDivides(val, i);
    hide ShiftRight;
  }

  /** Exclusive or, bit by bit. */
  lemma XorIs(a: nat, b: nat, i: nat)
    ensures GetBit(Xor(a, b), i) <==> GetBit(a, i) != GetBit(b, i)
  {
    ShiftXor(a, b, i);
    XorHalf(ShiftRight(a, i), ShiftRight(b, i));
    hide ShiftRight, Xor;
  }

  /** The two bits of each level, L, M, Q and H. */
  const LEVEL_BITS: seq<nat> := [1, 0, 3, 2]

  /** The format: level and mask in the upper five of fifteen bits and check bits that make it a
      multiple of x^10 + x^8 + x^5 + x^4 + x^2 + x + 1, under the pattern 101010000010010. */
  lemma FormatIsCoded(ecl: Level, mask: MaskId) returns (word: nat, q: nat)
    ensures word / 1024 == 8 * LEVEL_BITS[ecl] + mask
    ensures word == Carryless(q, 1024 + 256 + 32 + 16 + 4 + 2 + 1)
    ensures FormatBits(ecl, mask) == Xor(word, 16384 + 4096 + 1024 + 16 + 2)
  {
    hide Xor, FormatRem, Pow2, Carryless, FormatData;
    var data := FormatData(ecl, mask);
    FormatDataIs(ecl, mask);
    FormatRemBelow(data, 10);
    assert Pow2(10) == 1024 by {
      TenBits();
    }
    word := 1024 * data + FormatRem(data, 10);
    assert FormatBits(ecl, mask) == Xor(word, 0x5412);
    hide FormatBits;
    q := FormatDivides(data, 10);
    XorDisjoint(data, FormatRem(data, 10), 10);
    QuotientIs(word, 1024, data, FormatRem(data, 10));
  }

  lemma TenBits()
    ensures Pow2(10) == 1024
  {
  }

  lemma FormatDataIs(ecl: Level, mask: MaskId)
    ensures FormatData(ecl, mask) == 8 * LEVEL_BITS[ecl] + mask < 32
  {
    assert ECL_FORMAT == LEVEL_BITS;
  }

  /** The version information: the number in the upper six of eighteen bits and check bits that make
      it a multiple of x^12 + x^11 + x^10 + x^9 + x^8 + x^5 + x^2 + 1; bit 3 * b + a is shown in
      column a and row b of the block above the bottom left finder pattern, turned, and of the block
      left of the top right one. */
  lemma VersionIsCoded(ver: Version, a: nat, b: nat) returns (word: nat, q: nat)
    requires ver >= 7 && a < 3 && b < 6
    ensures word / 4096 == ver
    ensures word == Carryless(q, 4096 + 2048 + 1024 + 512 + 256 + 32 + 4 + 1)
    ensures VersionInfo(ver, Size(ver) - 11 + a, b) && VersionInfo(ver, b, Size(ver) - 11 + a)
    ensures VersionDark(ver, Size(ver) - 11 + a, b) == VersionDark(ver, b, Size(ver) - 11 + a) == GetBit(word, 3 * b + a)
  {
    VersionRemBelow(ver, 12);
    assert Pow2(12) == 4096;
    hide Xor, VersionRem, Pow2, Carryless;
    word := 4096 * ver + VersionRem(ver, 12);
    q := VersionDivides(ver, 12);
    XorDisjoint(ver, VersionRem(ver, 12), 12);
    QuotientIs(word, 4096, ver, VersionRem(ver, 12));
  }

  /** Figure 25: where the bits 0, ..., 14 lie around the top left finder pattern. */
  const FIRST_COPY: seq<(int, int)> := [
    (8, 0), (8, 1), (8, 2), (8, 3), (8, 4), (8, 5), (8, 7), (8, 8), (7, 8), (5, 8), (4, 8), (3, 8), (2, 8), (1, 8), (0, 8)
  ]

  /** And beside the two others, counted from the far edges. */
  function SecondCopy(ver: Version, i: nat): (int, int) {
    if i < 8 then (Size(ver) - 1 - i, 8) else (8, Size(ver) - 1 - (14 - i))
  }

  /** Both copies show all the bits. */
  lemma FormatPlace(ver: Version, ecl: Level, mask: MaskId, i: nat)
    requires i < 15
    ensures var (a, b), (c, d) := FIRST_COPY[i], SecondCopy(ver, i);
      Format(ver, a, b) && Format(ver, c, d) &&
      FormatDark(ver, ecl, mask, a, b) == FormatDark(ver, ecl, mask, c, d) == GetBit(FormatBits(ecl, mask), i)
  {
    hide GetBit, FormatBits;
  }

  /** The format takes no other modules, except one that is always dark. */
  lemma FormatOnly(ver: Version, ecl: Level, mask: MaskId, x: int, y: int)
    ensures Format(ver, 8, Size(ver) - 8) && FormatDark(ver, ecl, mask, 8, Size(ver) - 8)
    ensures Format(ver, x, y) && (x, y) != (8, Size(ver) - 8) ==>
      exists i: nat :: i < 15 && ((x, y) == FIRST_COPY[i] || (x, y) == SecondCopy(ver, i))
  {
    hide GetBit, FormatBits;
    if Format(ver, x, y) && (x, y) != (8, Size(ver) - 8) {
      if x <= 8 && y <= 8 {
        var i := if x == 8 then (if y <= 5 then y else y - 1) else if x == 7 then 8 else 14 - x;
        assert FIRST_COPY[i] == (x, y);
      } else {
        var i := if y == 8 then Size(ver) - 1 - x else y - Size(ver) + 15;
        assert SecondCopy(ver, i) == (x, y);
      }
    }
  }

  // ----- The data stream (section 7.4) and the final sequence of codewords (section 7.6) -------------

  /** Bit m, counted from the front, of a number written with len bits. */
  function BitFromFront(val: nat, len: nat, m: nat): nat
    requires m < len
  {
    val / Pow2(len - 1 - m) % 2
  }

  lemma {:induction false} BitsFromFront(val: nat, len: nat, m: nat)
    requires m < len
    ensures BitsOf(val, len)[m] == BitFromFront(val, len, m)
  {
    if m < len - 1 {
      BitsFromFront(val / 2, len - 1, m);
      var p := Pow2(len - 2 - m);
      assert Pow2(len - 1 - m) == 2 * p;
      HalfFirst(val, p);
    }
  }

  lemma HalfFirst(val: nat, p: nat)
    requires p > 0
    ensures val / 2 / p == val / (2 * p)
  {
    var q, r := val / 2 / p, val / 2 % p;
    assert val == 2 * (p * q + r) + val % 2;
    QuotientIs(val, 2 * p, q, 2 * r + val % 2);
  }

  /** The character count has 8 bits in the versions 1 to 9 and 16 in the others. */
  function CountLength(ver: Version): nat {
    if ver < 10 then 8 else 16
  }

  /** What the bits of a data stream are, place by place: 0100 for byte mode, the number of bytes, the
      bytes, up to four zeros as far as they fit, zeros up to a whole byte, and then 11101100 and
      00010001 in turn. */
  lemma StreamIs(bytes: seq<Byte>, ver: Version, capacity: nat, k: nat)
    requires |Header(bytes, ver)| <= capacity && capacity % 8 == 0 && k < capacity
    ensures var b, c := DataStream(bytes, ver, capacity)[k], CountLength(ver); var used := 4 + c + 8 * |bytes|;
      |Header(bytes, ver)| == used &&
      (k < 4 ==> b == [0, 1, 0, 0][k]) &&
      (4 <= k < 4 + c ==> b == BitFromFront(|bytes|, c, k - 4)) &&
      (4 + c <= k < used ==> b == BitFromFront(bytes[(k - 4 - c) / 8], 8, (k - 4 - c) % 8)) &&
      (used <= k < Ended(used, capacity) ==> b == 0) &&
      (Ended(used, capacity) <= k ==>
         b == BitFromFront(if (k - Ended(used, capacity)) / 8 % 2 == 0 then 0xEC else 0x11, 8, (k - Ended(used, capacity)) % 8))
  {
    hide BitsOf, Unpack, BitFromFront, Padding;
    var h, c := Header(bytes, ver), CountLength(ver);
    var used := 4 + c + 8 * |bytes|;
    var e := Ended(used, capacity);
    StreamParts(bytes, ver, capacity);
    var p := Padding((capacity - e) / 8, 0xEC);
    if k < 4 {
      ModeBits();
    } else if k < 4 + c {
      BitsFromFront(|bytes|, c, k - 4);
    } else if k < used {
      UnpackAt(bytes, k - 4 - c);
      BitsFromFront(bytes[(k - 4 - c) / 8], 8, (k - 4 - c) % 8);
    } else if k >= e {
      PaddingAt((capacity - e) / 8, 0xEC, (k - e) / 8);
      UnpackAt(p, k - e);
      BitsFromFront(p[(k - e) / 8], 8, (k - e) % 8);
    }
  }

  /** Where the padding begins. */
  function Ended(used: nat, capacity: nat): nat {
    if capacity - used < 4 then capacity else (used + 4 + 7) / 8 * 8
  }

  lemma StreamParts(bytes: seq<Byte>, ver: Version, capacity: nat)
    requires |Header(bytes, ver)| <= capacity && capacity % 8 == 0
    ensures var c := CountLength(ver); var used := 4 + c + 8 * |bytes|; var e := Ended(used, capacity);
      |Header(bytes, ver)| == used <= e <= capacity && (capacity - e) % 8 == 0 &&
      DataStream(bytes, ver, capacity) ==
        BitsOf(4, 4) + BitsOf(|bytes|, c) + Unpack(bytes) + ZeroBits(e - used) + Unpack(Padding((capacity - e) / 8, 0xEC))
  {
    hide BitsOf, Unpack, Padding;
    var h := Header(bytes, ver);
    var used := |h|;
    var t := Terminator(used, capacity);
    var n := ToByte(used + t);
    EndedIs(used, capacity);
    ToByteFits(used + t, capacity);
    assert ZeroBits(t) + ZeroBits(n) == ZeroBits(t + n);
    assert h + ZeroBits(t) + ZeroBits(n) == h + ZeroBits(t + n);
  }

  lemma EndedIs(used: nat, capacity: nat)
    requires used <= capacity && capacity % 8 == 0
    ensures var t := Terminator(used, capacity); Ended(used, capacity) == used + t + ToByte(used + t)
  {
  }

  lemma ModeBits()
    ensures BitsOf(4, 4) == [0, 1, 0, 0]
  {
    assert BitsOf(0, 1) == [0] && BitsOf(1, 2) == [0, 1] && BitsOf(2, 3) == [0, 1, 0];
  }

  lemma {:induction false} PaddingAt(n: nat, first: Byte, i: nat)
    requires (first == 0xEC || first == 0x11) && i < n
    ensures Padding(n, first)[i] == if i % 2 == 0 then first else 0xEC + 0x11 - first
  {
    if i > 0 {
      PaddingAt(n - 1, 0xEC + 0x11 - first, i - 1);
    }
  }

  /** The final sequence: the first data codewords of all blocks in turn, then the second ones and so
      on, the last data codewords of the long blocks, which come behind the short ones, and then the
      check symbols in the same way. */
  lemma FinalOrder(l: Layout, data: seq<Byte>, divisor: Poly, i: nat, j: nat)
    requires l.Valid() && |data| == l.TotalData() && |divisor| == l.eccLen && j < l.blocks
    ensures var all, from := l.Interleaved(data, divisor), l.Start(j);
      (i < l.dataLen ==> 0 <= i * l.blocks + j < |all| && from + i < |data| && all[i * l.blocks + j] == data[from + i]) &&
      (l.short <= j ==> 0 <= l.dataLen * l.blocks + j - l.short < |all| && from + l.dataLen < |data| &&
                        all[l.dataLen * l.blocks + j - l.short] == data[from + l.dataLen])
    ensures var all, block := l.Interleaved(data, divisor), l.DataOf(data, j);
      i < l.eccLen ==> 0 <= |data| + i * l.blocks + j < |all| && all[|data| + i * l.blocks + j] == Remainder(block, divisor)[i]
  {
    hide Layout.Interleaved, Layout.DataOf, Layout.Block, Remainder, Layout.Start, Layout.Total, Layout.TotalData;
    if i < l.dataLen {
      DataPlace(l, i, j);
      CodewordAt(l, data, divisor, i, j);
      DataInBlock(l, data, divisor, i, j);
    }
    if l.short <= j {
      LastPlace(l, j);
      CodewordAt(l, data, divisor, l.dataLen, j);
      DataInBlock(l, data, divisor, l.dataLen, j);
    }
    if i < l.eccLen {
      CheckPlace(l, i, j);
      CodewordAt(l, data, divisor, l.dataLen + 1 + i, j);
      CheckPart(l, data, divisor, j, i);
    }
  }

  lemma DataPlace(l: Layout, i: nat, j: nat)
    requires l.Valid() && i < l.dataLen && j < l.blocks
    ensures l.Place(i * l.blocks + j) == i * l.blocks + j
  {
    MulLe(l.blocks, i + 1, l.dataLen);
    assert l.blocks * (i + 1) == i * l.blocks + l.blocks;
  }

  lemma LastPlace(l: Layout, j: nat)
    requires l.Valid() && l.short <= j < l.blocks
    ensures l.Place(l.dataLen * l.blocks + j) == l.dataLen * l.blocks + j - l.short
  {
  }

  lemma CheckPlace(l: Layout, i: nat, j: nat)
    requires l.Valid() && i < l.eccLen && j < l.blocks
    ensures l.Place((l.dataLen + 1 + i) * l.blocks + j) == l.TotalData() + i * l.blocks + j
  {
    assert (l.dataLen + 1 + i) * l.blocks == l.dataLen * l.blocks + l.blocks + i * l.blocks;
    assert l.TotalData() == l.blocks * l.dataLen + l.blocks - l.short;
    MulLe(l.blocks, 0, i);
  }

  lemma DataInBlock(l: Layout, data: seq<Byte>, divisor: Poly, i: nat, j: nat)
    requires l.Valid() && |data| == l.TotalData() && |divisor| == l.eccLen && j < l.blocks && i < l.DataLen(j)
    ensures l.Start(j) + i < |data| && l.Block(data, divisor, j)[i] == data[l.Start(j) + i]
  {
    l.StartStep(j);
    hide Layout.Start, Remainder, Layout.TotalData;
  }

  /** The blocks differ in length by at most one, the short ones come first, and they take the data in
      order, without gaps. */
  lemma BlocksTile(ver: Version, ecl: Level, j: nat)
    requires j < LayoutOf(ver, ecl).blocks
    ensures var l := LayoutOf(ver, ecl);
      l.blocks == ECC_BLOCKS[ecl][ver] && l.eccLen == ECC_CW[ecl][ver] && l.Start(0) == 0 && l.Start(j + 1) == l.Start(j) + l.DataLen(j) &&
      l.Start(l.blocks) == NumDataCodewords(ver, ecl) && l.DataLen(j) == l.dataLen + (if j < l.short then 0 else 1)
  {
    LayoutSizes(ver, ecl);
    LayoutOf(ver, ecl).StartStep(j);
    hide NumDataCodewords, RawCodewords;
  }

  // ----- The colours of the codeword modules ---------------------------------------------------------

  /** The t-th bit of the codewords, most significant first; remainder bits are not set. */
  predicate CodewordBit(codewords: seq<Byte>, t: nat) {
    t < 8 * |codewords| && BitFromFront(codewords[t / 8], 8, t % 8) == 1
  }

  /** The free modules of the path show the bits of the codewords, each inverted where the pattern
      selects its module. */
  ghost predicate ShowsUnder(ver: Version, p: Pattern, codewords: seq<Byte>, g: Picture)
    requires IsPicture(ver, g)
  {
    forall k: nat :: k < PathLength(ver) && !FuncSpot(ver, k) ==>
      var (x, y) := Spot(ver, k);
      InSymbol(ver, x, y) && g[y][x] == (CodewordBit(codewords, FreeBefore(ver, k)) != p(x, y))
  }

  /** What a picture shows under a mask number it shows under the pattern with the look of that mask. */
  lemma ColoursByLook(ver: Version, mask: MaskId, p: Pattern, codewords: seq<Byte>, g: Picture)
    requires IsPicture(ver, g) && ShowsBits(ver, mask, Unpack(codewords), g) && IsMask(mask, p)
    ensures ShowsUnder(ver, p, codewords, g)
  {
    MaskIs(mask, p);
    hide Func, Spot, Index, Inverts, PathLength, FreeBefore, CodewordBit, BitAt, IsMask;
    forall k: nat | k < PathLength(ver) && !FuncSpot(ver, k)
      ensures var (x, y) := Spot(ver, k);
        InSymbol(ver, x, y) && g[y][x] == (CodewordBit(codewords, FreeBefore(ver, k)) != p(x, y))
    {
      IndexOfSpot(ver, k);
      BitShown(codewords, FreeBefore(ver, k));
    }
  }

  lemma BitShown(codewords: seq<Byte>, t: nat)
    ensures BitAt(Unpack(codewords), t) == CodewordBit(codewords, t)
  {
    hide Unpack, BitsOf, BitFromFront;
    if t < 8 * |codewords| {
      UnpackAt(codewords, t);
      BitsFromFront(codewords[t / 8], 8, t % 8);
    }
  }
}
