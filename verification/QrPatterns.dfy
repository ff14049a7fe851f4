/** The colours of the function patterns: version information over alignment patterns over finder
    patterns over the timing lines. */
module QrPatterns {
  import opened Arithmetic
  import opened Gf256
  import opened QrGeometry
  import opened QrPicture
  import opened QrTables

  lemma {:induction false} VersionRemBelow(ver: Version, n: nat)
    ensures VersionRem(ver, n) < 4096
  {
    hide Xor;
    if n > 0 {
      VersionRemBelow(ver, n - 1);
      var rem := VersionRem(ver, n - 1);
      assert Pow2(12) == 4096;
      if rem < 2048 {
        XorZero(2 * rem);
      } else {
        XorTop(2 * rem, 0x1F25, 12);
      }
    }
  }

  /** The version number with its check bits, and the bit a module of the version information shows. */
  function VersionRem(ver: Version, n: nat): nat {
    if n == 0 then ver
    else
      var rem := VersionRem(ver, n - 1);
      Xor(2 * rem, rem / 2048 * 0x1F25)
  }

  function VersionIndex(ver: Version, x: int, y: int): nat
    requires VersionInfo(ver, x, y)
  {
    if y <= 5 then 3 * y + x - (Size(ver) - 11) else 3 * x + y - (Size(ver) - 11)
  }

  predicate VersionDark(ver: Version, x: int, y: int)
    requires VersionInfo(ver, x, y)
  {
    GetBit(4096 * ver + VersionRem(ver, 12), VersionIndex(ver, x, y))
  }

  /** Finder patterns have light rings at distance 2 and 4, alignment patterns at 1. */
  predicate RingDark(radius: int, dist: int) {
    if radius == 4 then dist != 2 && dist != 4 else dist != 1
  }

  lemma VersionIndexRange(ver: Version)
    ensures forall x, y :: VersionInfo(ver, x, y) ==> VersionIndex(ver, x, y) < 18
  {
  }

  /** Bit i of the version information is shown by exactly two modules. */
  lemma VersionPair(ver: Version, i: nat)
    requires ver >= 7 && i < 18
    ensures var a, b := Size(ver) - 11 + i % 3, i / 3;
      VersionInfo(ver, a, b) && VersionIndex(ver, a, b) == i && VersionInfo(ver, b, a) && VersionIndex(ver, b, a) == i &&
      forall x, y :: VersionInfo(ver, x, y) && VersionIndex(ver, x, y) == i ==> (x, y) == (a, b) || (x, y) == (b, a)
  {
  }

  // ----- Alignment patterns ---------------------------------------------------------------------

  /** Pattern (i, j) comes before pattern (k, l) in the order of drawing. */
  predicate Earlier(i: nat, j: nat, k: nat, l: nat) {
    i < k || (i == k && j < l)
  }

  function RingOf(ver: Version, i: nat, j: nat, x: int, y: int): int
    requires i < NumAlign(ver) && j < NumAlign(ver)
  {
    Distance(x, y, AlignAt(ver, j), AlignAt(ver, i))
  }

  /** The alignment patterns drawn before (k, l) show their rings. */
  ghost predicate ShowsRings(ver: Version, k: nat, l: nat, g: Picture)
    requires IsPicture(ver, g)
  {
    forall i, j, x, y ::
      (InSymbol(ver, x, y) && 0 <= i < NumAlign(ver) && 0 <= j < NumAlign(ver) && Earlier(i, j, k, l) && AlignedBy(ver, i, j, x, y)) ==>
      g[y][x] == RingDark(2, RingOf(ver, i, j, x, y))
  }

  lemma NoRings(ver: Version, g: Picture)
    requires IsPicture(ver, g)
    ensures ShowsRings(ver, 0, 0, g)
  {
  }

  lemma RingsRowDone(ver: Version, i: nat, g: Picture)
    requires IsPicture(ver, g) && ShowsRings(ver, i, NumAlign(ver), g)
    ensures ShowsRings(ver, i + 1, 0, g)
  {
    hide AlignedBy, AlignAt, NumAlign, RingDark;
  }

  /** A module belongs to at most one alignment pattern. */
  lemma AlignedApart(ver: Version, i: nat, j: nat, k: nat, l: nat, x: int, y: int)
    requires i < NumAlign(ver) && j < NumAlign(ver) && k < NumAlign(ver) && l < NumAlign(ver)
    requires RingOf(ver, i, j, x, y) <= 2 && RingOf(ver, k, l, x, y) <= 2
    ensures i == k && j == l
  {
    hide AlignAt, NumAlign;
    if i < k {
      AlignSpacing(ver, i, k);
    } else if k < i {
      AlignSpacing(ver, k, i);
    }
    if j < l {
      AlignSpacing(ver, j, l);
    } else if l < j {
      AlignSpacing(ver, l, j);
    }
  }

  /** The corners have no pattern to draw. */
  lemma RingsSkip(ver: Version, k: nat, l: nat, g: Picture)
    requires IsPicture(ver, g) && ShowsRings(ver, k, l, g)
    requires k < NumAlign(ver) && l < NumAlign(ver) && AtFinder(NumAlign(ver), k, l)
    ensures ShowsRings(ver, k, l + 1, g)
  {
    hide AlignAt, NumAlign, RingDark;
  }

  lemma RingsStep(ver: Version, k: nat, l: nat, before: Picture, after: Picture)
    requires IsPicture(ver, before) && IsPicture(ver, after) && ShowsRings(ver, k, l, before)
    requires k < NumAlign(ver) && l < NumAlign(ver)
    requires forall x, y :: InSymbol(ver, x, y) ==>
               after[y][x] == if RingOf(ver, k, l, x, y) <= 2 then RingDark(2, RingOf(ver, k, l, x, y)) else before[y][x]
    ensures ShowsRings(ver, k, l + 1, after)
  {
    forall i, j, x, y | InSymbol(ver, x, y) && 0 <= i < NumAlign(ver) && 0 <= j < NumAlign(ver) && Earlier(i, j, k, l + 1) &&
                        AlignedBy(ver, i, j, x, y)
      ensures after[y][x] == RingDark(2, RingOf(ver, i, j, x, y))
    {
      hide AlignAt, NumAlign, RingDark, Distance;
      if RingOf(ver, k, l, x, y) <= 2 {
        AlignedApart(ver, i, j, k, l, x, y);
      } else {
        assert before[y][x] == RingDark(2, RingOf(ver, i, j, x, y));
      }
    }
  }

  // ----- All function patterns ------------------------------------------------------------------

  /** The colour of a module of a finder pattern or its separator. */
  predicate FinderDark(ver: Version, x: int, y: int) {
    var s := Size(ver);
    var top := if x < s - 8 then Distance(x, y, 3, 3) else Distance(x, y, s - 4, 3);
    RingDark(4, if y < s - 8 then top else Distance(x, y, 3, s - 4))
  }

  lemma FindersApart(ver: Version, x: int, y: int)
    ensures Distance(x, y, Size(ver) - 4, 3) <= 4 ==> x >= Size(ver) - 8 && y < Size(ver) - 8
    ensures Distance(x, y, 3, Size(ver) - 4) <= 4 ==> y >= Size(ver) - 8 && x < Size(ver) - 8
    ensures Distance(x, y, 3, 3) <= 4 ==> x < Size(ver) - 8 && y < Size(ver) - 8
  {
  }

  /** What the function modules outside the format information show. */
  ghost predicate ShowsPatterns(ver: Version, g: Picture)
    requires IsPicture(ver, g)
  {
    (forall x, y :: InSymbol(ver, x, y) && VersionInfo(ver, x, y) && !Format(ver, x, y) ==> g[y][x] == VersionDark(ver, x, y)) &&
    (forall i, j, x, y ::
       (InSymbol(ver, x, y) && Below(ver, x, y) && 0 <= i < NumAlign(ver) && 0 <= j < NumAlign(ver) && AlignedBy(ver, i, j, x, y)) ==>
       g[y][x] == RingDark(2, RingOf(ver, i, j, x, y))) &&
    (forall x, y ::
       (InSymbol(ver, x, y) && Below(ver, x, y) && Finder(ver, x, y) && !Alignment(ver, x, y)) ==> g[y][x] == FinderDark(ver, x, y)) &&
    forall x, y ::
      (InSymbol(ver, x, y) && Below(ver, x, y) && Timing(x, y) && !Alignment(ver, x, y) && !Finder(ver, x, y)) ==>
      g[y][x] == ((x + y) % 2 == 0)
  }

  /** Outside what is drawn last. */
  predicate Below(ver: Version, x: int, y: int) {
    !Format(ver, x, y) && !VersionInfo(ver, x, y)
  }

  /** Format and version information over the other patterns. */
  lemma PatternsShown(ver: Version, rings: Picture, g: Picture)
    requires IsPicture(ver, rings) && IsPicture(ver, g) && ShowsRings(ver, NumAlign(ver), 0, rings)
    requires forall x, y ::
      (InSymbol(ver, x, y) && Finder(ver, x, y) && !Alignment(ver, x, y)) ==> rings[y][x] == FinderDark(ver, x, y)
    requires forall x, y ::
      (InSymbol(ver, x, y) && Timing(x, y) && !Alignment(ver, x, y) && !Finder(ver, x, y)) ==> rings[y][x] == ((x + y) % 2 == 0)
    requires forall x, y :: InSymbol(ver, x, y) && Below(ver, x, y) ==> g[y][x] == rings[y][x]
    requires forall x, y :: InSymbol(ver, x, y) && VersionInfo(ver, x, y) ==> g[y][x] == VersionDark(ver, x, y)
    ensures ShowsPatterns(ver, g)
  {
    hide Format, VersionInfo, Finder, Timing, Alignment, VersionDark, RingDark, FinderDark, AlignedBy, AlignAt, NumAlign;
  }

  /** Modules outside function patterns and inside the format do not matter. */
  lemma PatternsStay(ver: Version, g: Picture, h: Picture)
    requires IsPicture(ver, g) && IsPicture(ver, h) && ShowsPatterns(ver, g)
    requires forall x, y :: InSymbol(ver, x, y) && Func(ver, x, y) && !Format(ver, x, y) ==> h[y][x] == g[y][x]
    ensures ShowsPatterns(ver, h)
  {
    hide Format, VersionInfo, Finder, Timing, AlignedBy, VersionDark, RingDark, FinderDark, Size;
  }
}
