/** What the finished symbol shows: format bits, mask and codeword modules, and the reader
    that takes them apart again (ISO/IEC 18004:2015, sections 7.7.3, 7.8 and 7.9). */
module QrPicture {
  import opened Arithmetic
  import opened Gf256
  import opened QrTables
  import opened QrBits
  import opened QrGeometry
  import opened QrCapacity

  type MaskId = m: int | 0 <= m < 8

  /** A square of modules, true for dark, as rows of columns. */
  type Picture = seq<seq<bool>>

  predicate IsPicture(ver: Version, g: Picture) {
    |g| == Size(ver) && forall y :: 0 <= y < Size(ver) ==> |g[y]| == Size(ver)
  }

  // ----- Masks ---------------------------------------------------------------------------

  predicate Inverts(mask: MaskId, x: nat, y: nat) {
    match mask
    case 0 => (x + y) % 2 == 0
    case 1 => y % 2 == 0
    case 2 => x % 3 == 0
    case 3 => (x + y) % 3 == 0
    case 4 => (x / 3 + y / 2) % 2 == 0
    case 5 => (x * y) % 2 + (x * y) % 3 == 0
    case 6 => ((x * y) % 2 + (x * y) % 3) % 2 == 0
    case 7 => ((x + y) % 2 + (x * y) % 3) % 2 == 0
  }

  // ----- Format information -----------------------------------------------------------------

  const ECL_FORMAT: seq<int> := [1, 0, 3, 2]

  function FormatData(ecl: Level, mask: MaskId): nat {
    8 * ECL_FORMAT[ecl] + mask
  }

  /** n steps of the division that gives the check bits of the format. */
  function FormatRem(data: nat, n: nat): nat {
    if n == 0 then data
    else
      var rem := FormatRem(data, n - 1);
      Xor(2 * rem, rem / 512 * 0x537)
  }

  function FormatBits(ecl: Level, mask: MaskId): nat {
    var data := FormatData(ecl, mask);
    Xor(1024 * data + FormatRem(data, 10), 0x5412)
  }

  function GetBit(x: nat, i: nat): bool {
    ShiftRight(x, i) % 2 != 0
  }

  /** The colour of a module of the format information. */
  predicate FormatDark(ver: Version, ecl: Level, mask: MaskId, x: int, y: int)
    requires Format(ver, x, y)
  {
    var s, bits := Size(ver), FormatBits(ecl, mask);
    if x == 8 && y <= 5 then GetBit(bits, y)
    else if x == 8 && y == 7 then GetBit(bits, 6)
    else if x == 8 && y == 8 then GetBit(bits, 7)
    else if x == 7 then GetBit(bits, 8)
    else if x <= 5 then GetBit(bits, 14 - x)
    else if y == 8 then GetBit(bits, s - 1 - x)
    else if y == s - 8 then true
    else GetBit(bits, y - s + 15)
  }

  lemma {:induction false} FormatRemBelow(data: nat, n: nat)
    requires data < 1024
    ensures FormatRem(data, n) < 1024
  {
    hide Xor;
    if n > 0 {
      FormatRemBelow(data, n - 1);
      var rem := FormatRem(data, n - 1);
      assert Pow2(10) == 1024;
      if rem < 512 {
        XorZero(2 * rem);
      } else {
        XorTop(2 * rem, 0x537, 10);
      }
    }
  }

  lemma {:induction false} ShiftXor(a: nat, b: nat, n: nat)
    ensures ShiftRight(Xor(a, b), n) == Xor(ShiftRight(a, n), ShiftRight(b, n))
  {
    hide Xor;
    if n > 0 {
      XorHalf(a, b);
      ShiftXor(a / 2, b / 2, n - 1);
    }
  }

  lemma {:induction false} ShiftAbove(data: nat, low: nat, n: nat)
    requires low < Pow2(n)
    ensures ShiftRight(Pow2(n) * data + low, n) == data
  {
    if n > 0 {
      assert Pow2(n) * data == 2 * (Pow2(n - 1) * data);
      ShiftAbove(data, low / 2, n - 1);
    }
  }

  lemma UpperBits(data: nat, rem: nat)
    requires rem < 1024
    ensures Xor(ShiftRight(Xor(1024 * data + rem, 0x5412), 10), 21) == data
  {
    assert Pow2(10) == 1024;
    ShiftConstant();
    hide Xor, ShiftRight, Pow2;
    ShiftXor(1024 * data + rem, 0x5412, 10);
    ShiftAbove(data, rem, 10);
    XorAssociates(data, 21, 21);
    XorSelf(21);
    XorZero(data);
  }

  /** The five upper bits of the format carry the level and the mask. */
  lemma FormatUpper(ecl: Level, mask: MaskId)
    ensures Xor(ShiftRight(FormatBits(ecl, mask), 10), 21) == FormatData(ecl, mask)
  {
    hide Xor, ShiftRight, FormatRem;
    var data := FormatData(ecl, mask);
    FormatRemBelow(data, 10);
    UpperBits(data, FormatRem(data, 10));
  }

  lemma ShiftConstant()
    ensures ShiftRight(0x5412, 10) == 21
  {
  }

  function Value(b: bool): nat {
    if b then 1 else 0
  }

  /** Reads the level and the mask off the modules left of the top left finder pattern. */
  function ReadFormat(g: Picture): nat
    requires |g| > 8 && |g[8]| > 4
  {
    Xor(16 * Value(g[8][0]) + 8 * Value(g[8][1]) + 4 * Value(g[8][2]) + 2 * Value(g[8][3]) + Value(g[8][4]), 21)
  }

  function LevelOfFormat(f: nat): Level {
    if f == 1 then 0 else if f == 0 then 1 else if f == 3 then 2 else 3
  }

  ghost predicate ShowsFormat(ver: Version, ecl: Level, mask: MaskId, g: Picture)
    requires IsPicture(ver, g)
  {
    forall x, y :: InSymbol(ver, x, y) && Format(ver, x, y) ==> g[y][x] == FormatDark(ver, ecl, mask, x, y)
  }

  lemma FormatBelow(data: nat, rem: nat)
    requires data < 32 && rem < 1024
    ensures Xor(1024 * data + rem, 0x5412) < 0x8000
  {
    assert Pow2(14) == 0x4000;
    hide Xor, Pow2;
    XorTop(1024 * data + rem, 0x5412, 14);
  }

  lemma ValueOfBit(bits: nat, i: nat)
    ensures ShiftRight(bits, i) == 2 * ShiftRight(bits, i + 1) + Value(GetBit(bits, i))
  {
    ShiftRightOnce(bits, i);
  }

  /** The bits 14, ..., 10 of a number below 2^15. */
  lemma FiveBits(bits: nat)
    requires bits < 0x8000
    ensures 16 * Value(GetBit(bits, 14)) + 8 * Value(GetBit(bits, 13)) + 4 * Value(GetBit(bits, 12)) + 2 * Value(GetBit(bits, 11)) + Value(GetBit(bits, 10))
         == ShiftRight(bits, 10)
  {
    assert Pow2(15) == 0x8000;
    ShiftRightOut(bits, 15);
    hide *;
    ValueOfBit(bits, 10);
    ValueOfBit(bits, 11);
    ValueOfBit(bits, 12);
    ValueOfBit(bits, 13);
    ValueOfBit(bits, 14);
  }

  lemma FormatDataParts(ecl: Level, mask: MaskId)
    ensures FormatData(ecl, mask) < 32
    ensures FormatData(ecl, mask) % 8 == mask && LevelOfFormat(FormatData(ecl, mask) / 8) == ecl
  {
  }

  lemma FormatBitsBelow(ecl: Level, mask: MaskId)
    ensures FormatBits(ecl, mask) < 0x8000
  {
    hide Xor, FormatRem;
    FormatDataParts(ecl, mask);
    FormatRemBelow(FormatData(ecl, mask), 10);
    FormatBelow(FormatData(ecl, mask), FormatRem(FormatData(ecl, mask), 10));
  }

  lemma FormatRoundTrip(ver: Version, ecl: Level, mask: MaskId, g: Picture)
    requires IsPicture(ver, g) && ShowsFormat(ver, ecl, mask, g)
    ensures |g| > 8 && |g[8]| > 4
    ensures ReadFormat(g) % 8 == mask && LevelOfFormat(ReadFormat(g) / 8) == ecl
  {
    hide GetBit, Xor, FormatData, FormatBits, LevelOfFormat;
    var bits := FormatBits(ecl, mask);
    forall x | 0 <= x <= 4
      ensures g[8][x] == GetBit(bits, 14 - x)
    {
      assert InSymbol(ver, x, 8) && Format(ver, x, 8);
    }
    FormatBitsBelow(ecl, mask);
    FiveBits(bits);
    FormatUpper(ecl, mask);
    FormatDataParts(ecl, mask);
  }

  // ----- Codeword modules -----------------------------------------------------------------------

  /** The bit that the t-th free module of the path gets: remainder modules stay light. */
  predicate BitAt(bits: Bits, t: nat) {
    t < |bits| && bits[t] == 1
  }

  /** The codeword modules show the bits along the path, under a mask. */
  ghost predicate ShowsBits(ver: Version, mask: MaskId, bits: Bits, g: Picture)
    requires IsPicture(ver, g)
  {
    forall x, y :: InSymbol(ver, x, y) && !Func(ver, x, y) ==>
      0 <= Index(ver, x, y) && g[y][x] == (BitAt(bits, FreeBefore(ver, Index(ver, x, y))) != Inverts(mask, x, y))
  }

  /** Reads the codeword modules among the first k of the path and removes the mask. */
  function ReadBits(ver: Version, mask: MaskId, g: Picture, k: nat): (b: Bits)
    requires IsPicture(ver, g) && k <= PathLength(ver)
    ensures |b| == FreeBefore(ver, k)
  {
    if k == 0 then []
    else
      IndexOfSpot(ver, k - 1);
      var (x, y) := Spot(ver, k - 1);
      ReadBits(ver, mask, g, k - 1) + if FuncSpot(ver, k - 1) then [] else [Value(g[y][x] != Inverts(mask, x, y))]
  }

  lemma {:induction false} ReadShownBits(ver: Version, mask: MaskId, bits: Bits, g: Picture, k: nat)
    requires IsPicture(ver, g) && ShowsBits(ver, mask, bits, g) && k <= PathLength(ver)
    ensures forall t :: 0 <= t < FreeBefore(ver, k) && t < |bits| ==> ReadBits(ver, mask, g, k)[t] == bits[t]
  {
    hide Func, Spot, Index, Inverts, PathLength;
    if k > 0 {
      ReadShownBits(ver, mask, bits, g, k - 1);
      IndexOfSpot(ver, k - 1);
    }
  }

  lemma ReadAllBits(ver: Version, mask: MaskId, bits: Bits, g: Picture)
    requires IsPicture(ver, g) && ShowsBits(ver, mask, bits, g) && |bits| <= FreeBefore(ver, PathLength(ver))
    ensures ReadBits(ver, mask, g, PathLength(ver))[..|bits|] == bits
  {
    hide Func, Spot, Index, Inverts, PathLength, FreeBefore;
    ReadShownBits(ver, mask, bits, g, PathLength(ver));
  }
}
