/** Drawing the symbol: function patterns, codeword modules along the zigzag, and the choice
    of the mask, on two grids that are changed in place. */
module QrMatrix {
  import opened Arithmetic
  import opened Gf256
  import opened QrTables
  import opened QrBits
  import opened QrGeometry
  import opened QrCapacity
  import opened QrPatterns
  import opened QrPicture
  import opened Wrappers

  class Matrix {
    const ver: Version
    const size: nat
    const modules: array2<bool>
    const isFunc: array2<bool>

    ghost predicate Valid() {
      size == Size(ver) && modules != isFunc &&
      modules.Length0 == modules.Length1 == size && isFunc.Length0 == isFunc.Length1 == size
    }

    predicate Inside(x: int, y: int) {
      0 <= x < size && 0 <= y < size
    }

    constructor (ver: Version)
      ensures Valid() && this.ver == ver && fresh(modules) && fresh(isFunc)
      ensures forall x, y :: Inside(x, y) ==> !modules[y, x] && !isFunc[y, x]
    {
      this.ver := ver;
      size := Size(ver);
      modules := new bool[Size(ver), Size(ver)]((y, x) => false);
      isFunc := new bool[Size(ver), Size(ver)]((y, x) => false);
    }

    /** Paints a function module; does nothing outside the symbol. */
    method Set(x: int, y: int, dark: bool)
      requires Valid()
      modifies modules, isFunc
      ensures Inside(x, y) ==> modules[y, x] == dark && isFunc[y, x]
      ensures forall x', y' :: Inside(x', y') && (x', y') != (x, y) ==>
        modules[y', x'] == old(modules[y', x']) && isFunc[y', x'] == old(isFunc[y', x'])
    {
      if 0 <= x < size && 0 <= y < size {
        modules[y, x] := dark;
        isFunc[y, x] := true;
      }
    }

    method DrawTiming()
      requires Valid()
      modifies modules, isFunc
      ensures forall x, y :: Inside(x, y) && Timing(x, y) ==> isFunc[y, x] && modules[y, x] == ((x + y) % 2 == 0)
      ensures forall x, y :: Inside(x, y) && !Timing(x, y) ==>
        modules[y, x] == old(modules[y, x]) && isFunc[y, x] == old(isFunc[y, x])
    {
      var i := 0;
      while i < size
        invariant 0 <= i <= size
        invariant forall k :: 0 <= k < i ==> isFunc[k, 6] && isFunc[6, k] && modules[k, 6] == (k % 2 == 0) && modules[6, k] == (k % 2 == 0)
        invariant forall x, y :: Inside(x, y) && !Timing(x, y) ==>
          modules[y, x] == old(modules[y, x]) && isFunc[y, x] == old(isFunc[y, x])
      {
        Set(6, i, i % 2 == 0);
        Set(i, 6, i % 2 == 0);
        i := i + 1;
      }
    }

    /** Concentric squares around (cx, cy), of radius 4 for a finder pattern with its
        separator and 2 for an alignment pattern. */
    method DrawSquares(cx: int, cy: int, radius: int)
      requires Valid() && radius >= 0
      modifies modules, isFunc
      ensures forall x, y :: Inside(x, y) && Distance(x, y, cx, cy) <= radius ==>
        isFunc[y, x] && modules[y, x] == RingDark(radius, Distance(x, y, cx, cy))
      ensures forall x, y :: Inside(x, y) && Distance(x, y, cx, cy) > radius ==>
        modules[y, x] == old(modules[y, x]) && isFunc[y, x] == old(isFunc[y, x])
    {
      var dy := -radius;
      while dy <= radius
        invariant -radius <= dy <= radius + 1
        invariant forall x, y :: Inside(x, y) && Distance(x, y, cx, cy) <= radius && y < cy + dy ==>
          isFunc[y, x] && modules[y, x] == RingDark(radius, Distance(x, y, cx, cy))
        invariant forall x, y :: Inside(x, y) && (Distance(x, y, cx, cy) > radius || y >= cy + dy) ==>
          modules[y, x] == old(modules[y, x]) && isFunc[y, x] == old(isFunc[y, x])
      {
        var dx := -radius;
        while dx <= radius
          invariant -radius <= dx <= radius + 1
          invariant forall x, y :: Inside(x, y) && Distance(x, y, cx, cy) <= radius && (y < cy + dy || (y == cy + dy && x < cx + dx)) ==>
            isFunc[y, x] && modules[y, x] == RingDark(radius, Distance(x, y, cx, cy))
          invariant forall x, y :: Inside(x, y) && (Distance(x, y, cx, cy) > radius || y > cy + dy || (y == cy + dy && x >= cx + dx)) ==>
            modules[y, x] == old(modules[y, x]) && isFunc[y, x] == old(isFunc[y, x])
        {
          var dist := if Abs(dx) > Abs(dy) then Abs(dx) else Abs(dy);
          Set(cx + dx, cy + dy, RingDark(radius, dist));
          dx := dx + 1;
        }
        dy := dy + 1;
      }
    }

    // ----- Format and version information -----------------------------------------------------

    /** The copy of the format beside the top left finder pattern. */
    method DrawFirstFormat(ecl: Level, mask: MaskId, bits: nat)
      requires Valid() && bits == FormatBits(ecl, mask)
      modifies modules, isFunc
      ensures forall x, y :: Inside(x, y) && Format(ver, x, y) && x <= 8 && y <= 8 ==>
        isFunc[y, x] && modules[y, x] == FormatDark(ver, ecl, mask, x, y)
      ensures forall x, y :: Inside(x, y) && !(Format(ver, x, y) && x <= 8 && y <= 8) ==>
        modules[y, x] == old(modules[y, x]) && isFunc[y, x] == old(isFunc[y, x])
    {
      hide GetBit, FormatBits;
      var i := 0;
      while i <= 5
        invariant 0 <= i <= 6
        invariant forall y :: 0 <= y < i ==> isFunc[y, 8] && modules[y, 8] == GetBit(bits, y)
        invariant forall x, y :: Inside(x, y) && !(x == 8 && y < i) ==>
          modules[y, x] == old(modules[y, x]) && isFunc[y, x] == old(isFunc[y, x])
      {
        Set(8, i, GetBit(bits, i));
        i := i + 1;
      }
      Set(8, 7, GetBit(bits, 6));
      Set(8, 8, GetBit(bits, 7));
      Set(7, 8, GetBit(bits, 8));
      i := 9;
      while i < 15
        invariant 9 <= i <= 15
        invariant forall x, y :: Inside(x, y) && Format(ver, x, y) && x <= 8 && y <= 8 && (x >= 7 || x > 14 - i) ==>
          isFunc[y, x] && modules[y, x] == FormatDark(ver, ecl, mask, x, y)
        invariant forall x, y :: Inside(x, y) && !(Format(ver, x, y) && x <= 8 && y <= 8 && (x >= 7 || x > 14 - i)) ==>
          modules[y, x] == old(modules[y, x]) && isFunc[y, x] == old(isFunc[y, x])
      {
        Set(14 - i, 8, GetBit(bits, i));
        i := i + 1;
      }
    }

    /** The copy of the format split between the other two finder patterns. */
    method DrawSecondFormat(ecl: Level, mask: MaskId, bits: nat)
      requires Valid() && bits == FormatBits(ecl, mask)
      modifies modules, isFunc
      ensures forall x, y :: Inside(x, y) && Format(ver, x, y) && !(x <= 8 && y <= 8) ==>
        isFunc[y, x] && modules[y, x] == FormatDark(ver, ecl, mask, x, y)
      ensures forall x, y :: Inside(x, y) && !(Format(ver, x, y) && !(x <= 8 && y <= 8)) ==>
        modules[y, x] == old(modules[y, x]) && isFunc[y, x] == old(isFunc[y, x])
    {
      hide GetBit, FormatBits;
      var i := 0;
      while i < 8
        invariant 0 <= i <= 8
        invariant forall x :: size - i <= x < size ==> isFunc[8, x] && modules[8, x] == GetBit(bits, size - 1 - x)
        invariant forall x, y :: Inside(x, y) && !(y == 8 && x >= size - i) ==>
          modules[y, x] == old(modules[y, x]) && isFunc[y, x] == old(isFunc[y, x])
      {
        Set(size - 1 - i, 8, GetBit(bits, i));
        i := i + 1;
      }
      while i < 15
        invariant 8 <= i <= 15
        invariant forall x :: size - 8 <= x < size ==> isFunc[8, x] && modules[8, x] == GetBit(bits, size - 1 - x)
        invariant forall y :: size - 7 <= y < size - 15 + i ==> isFunc[y, 8] && modules[y, 8] == GetBit(bits, y - size + 15)
        invariant forall x, y :: Inside(x, y) && !(y == 8 && x >= size - 8) && !(x == 8 && size - 7 <= y < size - 15 + i) ==>
          modules[y, x] == old(modules[y, x]) && isFunc[y, x] == old(isFunc[y, x])
      {
        Set(8, size - 15 + i, GetBit(bits, i));
        i := i + 1;
      }
      Set(8, size - 8, true);
    }

    method DrawFormat(ecl: Level, mask: MaskId)
      requires Valid()
      modifies modules, isFunc
      ensures forall x, y :: Inside(x, y) && Format(ver, x, y) ==> isFunc[y, x] && modules[y, x] == FormatDark(ver, ecl, mask, x, y)
      ensures forall x, y :: Inside(x, y) && !Format(ver, x, y) ==>
        modules[y, x] == old(modules[y, x]) && isFunc[y, x] == old(isFunc[y, x])
    {
      hide Xor, FormatDark;
      var data := FormatData(ecl, mask);
      var rem := data;
      var i := 0;
      while i < 10
        invariant 0 <= i <= 10 && rem == FormatRem(data, i)
      {
        rem := Xor(2 * rem, rem / 512 * 0x537);
        i := i + 1;
      }
      var bits := Xor(1024 * data + rem, 0x5412);
      DrawFirstFormat(ecl, mask, bits);
      DrawSecondFormat(ecl, mask, bits);
    }

    method DrawVersion()
      requires Valid()
      modifies modules, isFunc
      ensures forall x, y :: Inside(x, y) && VersionInfo(ver, x, y) ==> isFunc[y, x] && modules[y, x] == VersionDark(ver, x, y)
      ensures forall x, y :: Inside(x, y) && !VersionInfo(ver, x, y) ==>
        modules[y, x] == old(modules[y, x]) && isFunc[y, x] == old(isFunc[y, x])
    {
      hide Xor, GetBit, VersionIndex;
      if ver < 7 {
        return;
      }
      var rem: nat := ver;
      var i := 0;
      while i < 12
        invariant 0 <= i <= 12 && rem == VersionRem(ver, i)
      {
        rem := Xor(2 * rem, rem / 2048 * 0x1F25);
        i := i + 1;
      }
      DrawVersionBits(4096 * ver + rem);
    }

    method DrawVersionBits(bits: nat)
      requires Valid() && ver >= 7
      modifies modules, isFunc
      ensures forall x, y :: Inside(x, y) && VersionInfo(ver, x, y) ==> isFunc[y, x] && modules[y, x] == GetBit(bits, VersionIndex(ver, x, y))
      ensures forall x, y :: Inside(x, y) && !VersionInfo(ver, x, y) ==>
        modules[y, x] == old(modules[y, x]) && isFunc[y, x] == old(isFunc[y, x])
    {
      hide GetBit, VersionIndex, VersionInfo;
      VersionIndexRange(ver);
      var i := 0;
      while i < 18
        invariant 0 <= i <= 18
        invariant forall x, y :: Inside(x, y) && VersionInfo(ver, x, y) && VersionIndex(ver, x, y) < i ==>
          isFunc[y, x] && modules[y, x] == GetBit(bits, VersionIndex(ver, x, y))
        invariant forall x, y :: Inside(x, y) && !(VersionInfo(ver, x, y) && VersionIndex(ver, x, y) < i) ==>
          modules[y, x] == old(modules[y, x]) && isFunc[y, x] == old(isFunc[y, x])
      {
        var bit := GetBit(bits, i);
        var a, b := size - 11 + i % 3, i / 3;
        VersionPair(ver, i);
        Set(a, b, bit);
        Set(b, a, bit);
        i := i + 1;
      }
    }

    method DrawAlignment()
      requires Valid()
      modifies modules, isFunc
      ensures forall x, y :: Inside(x, y) ==> (isFunc[y, x] <==> old(isFunc[y, x]) || Alignment(ver, x, y))
      ensures forall x, y :: Inside(x, y) && !Alignment(ver, x, y) ==> modules[y, x] == old(modules[y, x])
      ensures ShowsRings(ver, NumAlign(ver), 0, Show())
    {
      hide AlignedBy, AlignAt, NumAlign, ShowsRings, RingDark;
      var ap := AlignmentPositions(ver);
      var n := |ap|;
      var i := 0;
      NoRings(ver, Show());
      while i < n
        invariant 0 <= i <= n && ShowsRings(ver, i, 0, Show())
        invariant forall x, y :: Inside(x, y) ==> (isFunc[y, x] <==> old(isFunc[y, x]) || AlignedBefore(ver, i, 0, x, y))
        invariant forall x, y :: Inside(x, y) && !AlignedBefore(ver, i, 0, x, y) ==> modules[y, x] == old(modules[y, x])
      {
        var j := 0;
        while j < n
          invariant 0 <= j <= n && ShowsRings(ver, i, j, Show())
          invariant forall x, y :: Inside(x, y) ==> (isFunc[y, x] <==> old(isFunc[y, x]) || AlignedBefore(ver, i, j, x, y))
          invariant forall x, y :: Inside(x, y) && !AlignedBefore(ver, i, j, x, y) ==> modules[y, x] == old(modules[y, x])
        {
          AlignedNext(ver, i, j);
          if (i == 0 && j == 0) || (i == 0 && j == n - 1) || (i == n - 1 && j == 0) {
            RingsSkip(ver, i, j, Show());
            j := j + 1;
            continue;
          }
          ghost var before := Show();
          DrawSquares(ap[j], ap[i], 2);
          RingsStep(ver, i, j, before, Show());
          j := j + 1;
        }
        AlignedRowDone(ver, i);
        RingsRowDone(ver, i, Show());
        i := i + 1;
      }
      AlignedDone(ver);
    }

    /** The timing lines and the finder patterns over them. */
    method DrawFinders()
      requires Valid()
      requires forall x, y :: Inside(x, y) ==> !modules[y, x] && !isFunc[y, x]
      modifies modules, isFunc
      ensures forall x, y :: Inside(x, y) ==> (isFunc[y, x] <==> Timing(x, y) || Finder(ver, x, y))
      ensures forall x, y :: Inside(x, y) && !isFunc[y, x] ==> !modules[y, x]
      ensures forall x, y :: Inside(x, y) && Finder(ver, x, y) ==> modules[y, x] == FinderDark(ver, x, y)
      ensures forall x, y :: Inside(x, y) && Timing(x, y) && !Finder(ver, x, y) ==> modules[y, x] == ((x + y) % 2 == 0)
    {
      hide Distance, RingDark;
      DrawTiming();
      DrawSquares(3, 3, 4);
      DrawSquares(size - 4, 3, 4);
      DrawSquares(3, size - 4, 4);
      forall x, y | Inside(x, y) && Finder(ver, x, y)
        ensures modules[y, x] == FinderDark(ver, x, y)
      {
        FindersApart(ver, x, y);
      }
    }

    method DrawFunctionPatterns(ecl: Level)
      requires Valid()
      requires forall x, y :: Inside(x, y) ==> !modules[y, x] && !isFunc[y, x]
      modifies modules, isFunc
      ensures forall x, y :: Inside(x, y) ==> (isFunc[y, x] <==> Func(ver, x, y))
      ensures forall x, y :: Inside(x, y) && !Func(ver, x, y) ==> !modules[y, x]
      ensures ShowsPatterns(ver, Show())
    {
      hide Alignment, Format, VersionInfo, FormatDark, VersionDark, Distance, FinderDark, RingDark, Finder, Timing, ShowsPatterns, ShowsRings;
      DrawFinders();
      DrawAlignment();
      ghost var rings := Show();
      DrawFormat(ecl, 0);
      DrawVersion();
      PatternsShown(ver, rings, Show());
    }

    // ----- Codeword modules -----------------------------------------------------------------

    ghost predicate FuncMarked()
      requires Valid()
      reads isFunc
    {
      forall x, y :: Inside(x, y) ==> (isFunc[y, x] <==> Func(ver, x, y))
    }

    /** The free modules before place k of the path show the bits, the others are light. */
    ghost predicate PlacedUpTo(bits: Bits, k: nat)
      requires Valid()
      reads modules
    {
      forall x, y :: Inside(x, y) && !Func(ver, x, y) ==>
        0 <= Index(ver, x, y) && modules[y, x] == (Index(ver, x, y) < k && BitAt(bits, FreeBefore(ver, Index(ver, x, y))))
    }

    /** Module (x, y), the k-th of the path, takes the next bit if it is free. */
    method PlaceBit(codewords: seq<Byte>, ghost k: nat, x: int, y: int, bitIdx: nat) returns (next: nat)
      requires Valid() && FuncMarked()
      requires k < PathLength(ver) && Spot(ver, k) == (x, y) && Inside(x, y)
      requires bitIdx == MinNat(FreeBefore(ver, k), |Unpack(codewords)|) && PlacedUpTo(Unpack(codewords), k)
      modifies modules
      ensures next == MinNat(FreeBefore(ver, k + 1), |Unpack(codewords)|) && PlacedUpTo(Unpack(codewords), k + 1)
      ensures forall x, y :: Inside(x, y) && Func(ver, x, y) ==> modules[y, x] == old(modules[y, x])
    {
      hide Func, Index, Spot, Unpack, GetBit, PathLength;
      ghost var bits := Unpack(codewords);
      IndexOfSpot(ver, k);
      IndexInjective(ver);
      next := bitIdx;
      if !isFunc[y, x] && bitIdx < |codewords| * 8 {
        GetBitOfCodeword(codewords, bitIdx);
        modules[y, x] := GetBit(codewords[bitIdx / 8], 7 - bitIdx % 8);
        next := bitIdx + 1;
      }
    }

    /** One pair of columns of the zigzag. */
    method PlacePair(codewords: seq<Byte>, ghost c: nat, ghost start: nat, right: int, bitIdx: nat) returns (next: nat)
      requires Valid() && FuncMarked()
      requires c < Pairs(ver) && right == Right(ver, c) && start == c * (2 * size)
      requires bitIdx == MinNat(FreeBefore(ver, start), |Unpack(codewords)|) && PlacedUpTo(Unpack(codewords), start)
      modifies modules
      ensures next == MinNat(FreeBefore(ver, start + 2 * size), |Unpack(codewords)|)
      ensures PlacedUpTo(Unpack(codewords), start + 2 * size)
      ensures forall x, y :: Inside(x, y) && Func(ver, x, y) ==> modules[y, x] == old(modules[y, x])
    {
      hide Func, Index, Spot, Unpack, GetBit, Right, PathLength, FreeBefore, PlacedUpTo, FuncMarked, Pairs;
      next := bitIdx;
      var vert := 0;
      while vert < size
        invariant 0 <= vert <= size && FuncMarked()
        invariant next == MinNat(FreeBefore(ver, start + 2 * vert), |Unpack(codewords)|)
        invariant PlacedUpTo(Unpack(codewords), start + 2 * vert)
        invariant forall x, y :: Inside(x, y) && Func(ver, x, y) ==> modules[y, x] == old(modules[y, x])
      {
        var c2 := 0;
        while c2 < 2
          invariant 0 <= c2 <= 2 && FuncMarked()
          invariant next == MinNat(FreeBefore(ver, start + 2 * vert + c2), |Unpack(codewords)|)
          invariant PlacedUpTo(Unpack(codewords), start + 2 * vert + c2)
          invariant forall x, y :: Inside(x, y) && Func(ver, x, y) ==> modules[y, x] == old(modules[y, x])
        {
          var x := right - c2;
          var upward := (right + 1) / 2 % 2 == 0;
          var y := if upward then size - 1 - vert else vert;
          SpotAt(ver, c, vert, c2);
          IndexOfSpot(ver, start + 2 * vert + c2);
          next := PlaceBit(codewords, start + 2 * vert + c2, x, y, next);
          c2 := c2 + 1;
        }
        vert := vert + 1;
      }
    }

    method PlaceCodewords(codewords: seq<Byte>)
      requires Valid() && FuncMarked()
      requires forall x, y :: Inside(x, y) && !Func(ver, x, y) ==> !modules[y, x]
      modifies modules
      ensures PlacedUpTo(Unpack(codewords), PathLength(ver))
      ensures forall x, y :: Inside(x, y) && Func(ver, x, y) ==> modules[y, x] == old(modules[y, x])
    {
      hide Func, Index, Unpack, Right, PlacedUpTo, FuncMarked, FreeBefore, MinNat, PathLength;
      NothingPlaced(Unpack(codewords));
      var bitIdx := 0;
      var right := size - 1;
      ghost var c, k := 0, 0;
      NoneFreeAtStart(ver, |Unpack(codewords)|);
      while right >= 1
        invariant 0 <= c <= Pairs(ver) && FuncMarked() && k == c * (2 * size)
        invariant right == if size - 1 - 2 * c >= 6 then size - 1 - 2 * c else size - 2 - 2 * c
        invariant bitIdx == MinNat(FreeBefore(ver, k), |Unpack(codewords)|)
        invariant PlacedUpTo(Unpack(codewords), k)
        invariant forall x, y :: Inside(x, y) && Func(ver, x, y) ==> modules[y, x] == old(modules[y, x])
      {
        if right == 6 {
          right := 5;
        }
        RightIs(ver, c, right);
        bitIdx := PlacePair(codewords, c, k, right, bitIdx);
        right, c, k := right - 2, c + 1, k + 2 * size;
      }
      PathLengthIs(ver);
    }

    lemma NothingPlaced(bits: Bits)
      requires Valid()
      requires forall x, y :: Inside(x, y) && !Func(ver, x, y) ==> !modules[y, x]
      ensures PlacedUpTo(bits, 0)
    {
      hide Func, Index;
      IndexInjective(ver);
    }

    // ----- The mask ----------------------------------------------------------------------------

    /** The modules as a picture. */
    function Show(): (g: Picture)
      requires Valid()
      reads modules
      ensures IsPicture(ver, g)
      ensures forall x, y :: Inside(x, y) ==> g[y][x] == modules[y, x]
    {
      seq(size, y requires 0 <= y < size && Valid() reads modules =>
        seq(size, x requires 0 <= x < size && 0 <= y < size && Valid() reads modules => modules[y, x]))
    }

    method ApplyMask(mask: MaskId)
      requires Valid()
      modifies modules
      ensures forall x, y :: Inside(x, y) ==>
        modules[y, x] == if isFunc[y, x] then old(modules[y, x]) else old(modules[y, x]) != Inverts(mask, x, y)
    {
      hide Inverts;
      var y := 0;
      while y < size
        invariant 0 <= y <= size
        invariant forall x', y' :: Inside(x', y') ==>
          modules[y', x'] == if isFunc[y', x'] || y' >= y then old(modules[y', x']) else old(modules[y', x']) != Inverts(mask, x', y')
      {
        var x := 0;
        while x < size
          invariant 0 <= x <= size
          invariant forall x', y' :: Inside(x', y') ==>
            modules[y', x'] == if isFunc[y', x'] || y' > y || (y' == y && x' >= x) then old(modules[y', x']) else old(modules[y', x']) != Inverts(mask, x', y')
        {
          if !isFunc[y, x] && Inverts(mask, x, y) {
            modules[y, x] := !modules[y, x];
          }
          x := x + 1;
        }
        y := y + 1;
      }
    }

    /** Tries the eight masks and keeps the first with the lowest penalty. */
    method ChooseMask(ecl: Level, penalty: Picture -> int) returns (best: MaskId)
      requires Valid() && FuncMarked()
      modifies modules, isFunc
      ensures Show() == Candidate(ver, ecl, best, old(Show()))
      ensures forall m: MaskId :: penalty(Candidate(ver, ecl, best, old(Show()))) <= penalty(Candidate(ver, ecl, m, old(Show())))
      ensures forall m: MaskId :: m < best ==> penalty(Candidate(ver, ecl, best, old(Show()))) < penalty(Candidate(ver, ecl, m, old(Show())))
    {
      hide Func, Format, FormatDark, Inverts;
      ghost var base := Show();
      best := 0;
      var minPenalty: Option<int> := None;
      var mask := 0;
      while mask < 8
        invariant 0 <= mask <= 8 && FuncMarked()
        invariant forall x, y :: Inside(x, y) && !Format(ver, x, y) ==> modules[y, x] == base[y][x]
        invariant minPenalty.Some? <==> mask > 0
        invariant mask > 0 ==> best < mask && minPenalty.value == penalty(Candidate(ver, ecl, best, base))
        invariant mask > 0 ==> forall m: MaskId :: m < mask ==> minPenalty.value <= penalty(Candidate(ver, ecl, m, base))
        invariant mask > 0 ==> forall m: MaskId :: m < best ==> minPenalty.value < penalty(Candidate(ver, ecl, m, base))
      {
        TryMask(ecl, mask, base);
        var p := penalty(Show());
        if minPenalty.None? || p < minPenalty.value {
          minPenalty := Some(p);
          best := mask;
        }
        ApplyMask(mask);
        mask := mask + 1;
      }
      TryMask(ecl, best, base);
    }

    /** Draws the format of a mask and applies it. */
    method TryMask(ecl: Level, mask: MaskId, ghost base: Picture)
      requires Valid() && FuncMarked() && IsPicture(ver, base)
      requires forall x, y :: Inside(x, y) && !Format(ver, x, y) ==> modules[y, x] == base[y][x]
      modifies modules, isFunc
      ensures FuncMarked() && Show() == Candidate(ver, ecl, mask, base)
    {
      hide Format, FormatDark, Inverts, Timing, Finder, Alignment, VersionInfo;
      DrawFormat(ecl, mask);
      ApplyMask(mask);
      ghost var g, c := Show(), Candidate(ver, ecl, mask, base);
      assert forall x, y :: Inside(x, y) ==> g[y][x] == c[y][x];
      SamePicture(ver, g, c);
    }
  }

  lemma SamePicture(ver: Version, g: Picture, h: Picture)
    requires IsPicture(ver, g) && IsPicture(ver, h)
    requires forall x, y :: InSymbol(ver, x, y) ==> g[y][x] == h[y][x]
    ensures g == h
  {
    forall y | 0 <= y < Size(ver)
      ensures g[y] == h[y]
    {
      forall x | 0 <= x < Size(ver)
        ensures g[y][x] == h[y][x]
      {
        assert InSymbol(ver, x, y);
      }
    }
  }

  /** The picture with a mask: its format in the format modules, and the codeword modules of
      the base inverted where the mask says so. */
  ghost function Candidate(ver: Version, ecl: Level, mask: MaskId, base: Picture): (g: Picture)
    requires IsPicture(ver, base)
    ensures IsPicture(ver, g)
  {
    seq(Size(ver), y requires 0 <= y < Size(ver) =>
      seq(Size(ver), x requires 0 <= x < Size(ver) =>
        if Format(ver, x, y) then FormatDark(ver, ecl, mask, x, y)
        else if Func(ver, x, y) then base[y][x]
        else base[y][x] != Inverts(mask, x, y)))
  }

  lemma NoneFreeAtStart(ver: Version, n: nat)
    ensures MinNat(FreeBefore(ver, 0), n) == 0
  {
  }

  lemma PathLengthIs(ver: Version)
    ensures PathLength(ver) == Pairs(ver) * (2 * Size(ver))
  {
  }

  lemma RightIs(ver: Version, c: nat, right: int)
    requires c < Pairs(ver)
    requires right == if Size(ver) - 1 - 2 * c > 6 then Size(ver) - 1 - 2 * c else Size(ver) - 2 - 2 * c
    ensures right == Right(ver, c)
  {
  }

  /** Free modules have their own places on the path. */
  lemma IndexInjective(ver: Version)
    ensures forall x, y :: InSymbol(ver, x, y) && !Func(ver, x, y) ==>
      0 <= Index(ver, x, y) < PathLength(ver) && Spot(ver, Index(ver, x, y)) == (x, y)
  {
    hide Index, Spot, PathLength;
    forall x, y | InSymbol(ver, x, y) && !Func(ver, x, y)
      ensures 0 <= Index(ver, x, y) < PathLength(ver) && Spot(ver, Index(ver, x, y)) == (x, y)
    {
      SpotOfIndex(ver, x, y);
    }
  }

  lemma {:induction false} BitsOfAt(val: nat, len: nat, m: nat)
    requires m < len
    ensures BitsOf(val, len)[m] == ShiftRight(val, len - 1 - m) % 2
  {
    if m < len - 1 {
      BitsOfAt(val / 2, len - 1, m);
    }
  }

  lemma GetBitOfCodeword(codewords: seq<Byte>, t: nat)
    requires t < 8 * |codewords|
    ensures GetBit(codewords[t / 8], 7 - t % 8) == BitAt(Unpack(codewords), t)
  {
    hide BitsOf, Unpack, ShiftRight;
    UnpackAt(codewords, t);
    BitsOfAt(codewords[t / 8], 8, t % 8);
  }

  /** The patterns drawn before the one in row i and column j. */
  ghost predicate AlignedBefore(ver: Version, i: nat, j: nat, x: int, y: int) {
    exists i', j' :: 0 <= i' < NumAlign(ver) && 0 <= j' < NumAlign(ver) && (i' < i || (i' == i && j' < j)) && AlignedBy(ver, i', j', x, y)
  }

  lemma AlignedNext(ver: Version, i: nat, j: nat)
    requires i < NumAlign(ver) && j < NumAlign(ver)
    ensures forall x, y :: AlignedBefore(ver, i, j + 1, x, y) <==>
      AlignedBefore(ver, i, j, x, y) || (!AtFinder(NumAlign(ver), i, j) && Distance(x, y, AlignAt(ver, j), AlignAt(ver, i)) <= 2)
  {
    forall x, y
      ensures AlignedBefore(ver, i, j + 1, x, y) <==> AlignedBefore(ver, i, j, x, y) || AlignedBy(ver, i, j, x, y)
    {
      hide AlignedBy, NumAlign;
    }
  }

  lemma AlignedRowDone(ver: Version, i: nat)
    requires i < NumAlign(ver)
    ensures forall x, y :: AlignedBefore(ver, i, NumAlign(ver), x, y) <==> AlignedBefore(ver, i + 1, 0, x, y)
  {
    hide AlignedBy, NumAlign;
  }

  lemma AlignedDone(ver: Version)
    ensures forall x, y :: AlignedBefore(ver, NumAlign(ver), 0, x, y) <==> Alignment(ver, x, y)
  {
    hide AlignedBy, NumAlign;
  }

  method AlignmentPositions(ver: Version) returns (result: seq<int>)
    ensures |result| == NumAlign(ver)
    ensures forall i :: 0 <= i < |result| ==> result[i] == AlignAt(ver, i)
  {
    if ver == 1 {
      return [];
    }
    var numAlign := ver / 7 + 2;
    var step := AlignStep(ver);
    result := [6];
    var pos := Size(ver) - 7;
    while |result| < numAlign
      invariant 1 <= |result| <= numAlign && result[0] == 6
      invariant pos == Size(ver) - 7 - step * (|result| - 1)
      invariant forall i :: 1 <= i < |result| ==> result[i] == Size(ver) - 7 - step * (|result| - 1 - i)
    {
      result := [result[0], pos] + result[1..];
      assert step * (|result| - 1) == step * (|result| - 2) + step;
      pos := pos - step;
    }
  }
}
