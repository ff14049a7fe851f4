/** The whole encoder, and the decoder that undoes it. */
module QrEncoder {
  import opened Arithmetic
  import opened Gf256
  import opened QrTables
  import opened QrLimits
  import opened QrBits
  import opened QrInterleave
  import opened QrMasks
  import opened QrGeometry
  import opened QrCapacity
  import opened QrPatterns
  import opened QrPicture
  import opened QrMatrix
  import opened QrStandard
  import opened ReedSolomon
  import opened Wrappers

  // ----- The decoder ---------------------------------------------------------------------------

  /** The bytes of the first 8 * n bits. */
  function PackSome(b: Bits, n: nat): (c: seq<Byte>)
    requires 8 * n <= |b|
    ensures |c| == n
  {
    Pack(b[..8 * n])
  }

  /** The codewords, read along the path. */
  function ReadCodewords(ver: Version, mask: MaskId, g: Picture): (c: seq<Byte>)
    requires IsPicture(ver, g)
    ensures |c| == RawCodewords(ver)
  {
    PathHasRoom(ver);
    PackSome(ReadBits(ver, mask, g, PathLength(ver)), RawCodewords(ver))
  }

  /** Takes the blocks apart and parses the data. */
  function DecodeCodewords(l: Layout, codewords: seq<Byte>, ver: Version): Option<seq<Byte>>
    requires l.Valid() && |codewords| == l.Total()
  {
    Parse(Unpack(Deinterleave(l, codewords, l.blocks)), ver)
  }

  function DecodeVersion(ver: Version, g: Picture): Option<seq<Byte>>
    requires IsPicture(ver, g)
  {
    var f := ReadFormat(g);
    var ecl := LevelOfFormat(f / 8);
    LayoutSizes(ver, ecl);
    DecodeCodewords(LayoutOf(ver, ecl), ReadCodewords(ver, f % 8, g), ver)
  }

  /** Reads a symbol off its picture alone: the version is known from the size, the level and
      the mask from the format modules. */
  function Decode(g: Picture): Option<seq<Byte>> {
    var v := (|g| - 17) / 4;
    if 1 <= v <= 40 && IsPicture(v, g) then DecodeVersion(v, g) else None
  }

  /** In every block of the codewords, data and check symbols make a Reed-Solomon codeword. */
  ghost predicate BlocksAreCodewords(l: Layout, codewords: seq<Byte>)
    requires l.Valid() && |codewords| == l.Total()
  {
    forall j :: 0 <= j < l.blocks ==> Codeword(ReadData(l, codewords, j) + ReadCheck(l, codewords, j), l.eccLen)
  }

  /** The blocks of a symbol, found like the decoder finds them, are codewords. */
  ghost predicate SymbolIsCoded(ver: Version, g: Picture)
    requires IsPicture(ver, g)
  {
    var f := ReadFormat(g);
    var ecl := LevelOfFormat(f / 8);
    LayoutSizes(ver, ecl);
    BlocksAreCodewords(LayoutOf(ver, ecl), ReadCodewords(ver, f % 8, g))
  }

  // ----- The encoder ---------------------------------------------------------------------------

  /** Bits used by n bytes in byte mode. */
  function UsedBits(n: nat, ver: int): nat {
    4 + CountBits(ver) + 8 * n
  }

  predicate Fits(n: nat, ver: Version, ecl: Level) {
    UsedBits(n, ver) <= 8 * NumDataCodewords(ver, ecl)
  }

  /** How many bytes fit: what table 7 of the standard says, for every version and level. */
  lemma Capacities(n: nat, ver: Version, ecl: Level)
    ensures Fits(n, ver, ecl) <==> n <= BYTE_CAPACITY[ecl][ver]
  {
    DataCodewordsAre(ver, ecl);
    hide BYTE_CAPACITY, NumDataCodewords;
  }

  datatype Symbol = Symbol(size: int, modules: Picture, version: Version, ecl: Level)

  /** Draws the codewords; the picture is the one of the mask with the lowest penalty. */
  method BuildMatrix(codewords: seq<Byte>, ver: Version, ecl: Level, penalty: Picture -> int) returns (g: Picture)
    requires |codewords| == RawCodewords(ver)
    ensures IsPicture(ver, g) && ShowsPatterns(ver, g)
    ensures exists mask: MaskId, base: Picture ::
      ShowsFormat(ver, ecl, mask, g) && ShowsBits(ver, mask, Unpack(codewords), g) &&
      IsBest(ver, ecl, Unpack(codewords), penalty, mask, base, g)
  {
    hide Func, Unpack, Index, ShowsPatterns, Candidate;
    var m := new Matrix(ver);
    m.DrawFunctionPatterns(ecl);
    ghost var drawn := m.Show();
    m.PlaceCodewords(codewords);
    ghost var base := m.Show();
    PatternsStay(ver, drawn, base);
    assert Placed(ver, Unpack(codewords), base) by {
      IndexInjective(ver);
    }
    var best := m.ChooseMask(ecl, penalty);
    g := m.Show();
    CandidateShows(ver, ecl, best, Unpack(codewords), base);
    assert IsBest(ver, ecl, Unpack(codewords), penalty, best, base, g);
    PatternsStay(ver, base, g) by {
      CandidateKeepsPatterns(ver, ecl, best, base);
    }
  }

  lemma CandidateKeepsPatterns(ver: Version, ecl: Level, mask: MaskId, base: Picture)
    requires IsPicture(ver, base)
    ensures forall x, y :: InSymbol(ver, x, y) && Func(ver, x, y) && !Format(ver, x, y) ==>
      Candidate(ver, ecl, mask, base)[y][x] == base[y][x]
  {
    hide Format, FormatDark, Inverts, Func;
  }

  /** The picture of a mask over the placed bits that no other mask beats, and no earlier one equals. */
  ghost predicate IsBest(ver: Version, ecl: Level, bits: Bits, penalty: Picture -> int, mask: MaskId, base: Picture, g: Picture) {
    IsPicture(ver, base) && Placed(ver, bits, base) && g == Candidate(ver, ecl, mask, base) &&
    forall m: MaskId :: penalty(g) <= penalty(Candidate(ver, ecl, m, base)) &&
                        (m < mask ==> penalty(g) < penalty(Candidate(ver, ecl, m, base)))
  }

  /** The picture before masking. */
  ghost predicate Placed(ver: Version, bits: Bits, base: Picture)
    requires IsPicture(ver, base)
  {
    forall x, y :: InSymbol(ver, x, y) && !Func(ver, x, y) ==>
      0 <= Index(ver, x, y) && base[y][x] == BitAt(bits, FreeBefore(ver, Index(ver, x, y)))
  }

  lemma CandidateShows(ver: Version, ecl: Level, mask: MaskId, bits: Bits, base: Picture)
    requires IsPicture(ver, base) && Placed(ver, bits, base)
    ensures ShowsFormat(ver, ecl, mask, Candidate(ver, ecl, mask, base))
    ensures ShowsBits(ver, mask, bits, Candidate(ver, ecl, mask, base))
  {
    hide Index, Format, FormatDark, Inverts, Timing, Finder, Alignment, VersionInfo, FreeBefore;
  }

  /** The smallest version that holds n bytes; None when the source throws its RangeError. */
  method SmallestVersion(n: nat, ecl: Level) returns (r: Option<Version>)
    ensures r.None? <==> forall v: Version :: !Fits(n, v, ecl)
    ensures r.Some? ==> Fits(n, r.value, ecl) && forall v: Version :: v < r.value ==> !Fits(n, v, ecl)
  {
    hide Fits;
    var ver := 1;
    while true
      invariant 1 <= ver <= 41
      invariant forall v: Version :: v < ver ==> !Fits(n, v, ecl)
      decreases 41 - ver
    {
      if ver > 40 {
        return None;
      }
      if Fits(n, ver, ecl) {
        return Some(ver);
      }
      ver := ver + 1;
    }
  }

  /** Raises the level as long as the data still fits. */
  method BoostLevel(n: nat, ver: Version, ecl: Level) returns (boosted: Level)
    requires Fits(n, ver, ecl)
    ensures ecl <= boosted && Fits(n, ver, boosted)
    ensures forall e: Level :: e > boosted ==> !Fits(n, ver, e)
  {
    hide Fits;
    boosted := ecl;
    var newEcl := 1;
    while newEcl <= 3
      invariant 1 <= newEcl <= 4
      invariant ecl <= boosted && Fits(n, ver, boosted)
      invariant forall e: Level :: boosted < e < newEcl ==> !Fits(n, ver, e)
    {
      if newEcl > boosted && Fits(n, ver, newEcl) {
        boosted := newEcl;
      }
      newEcl := newEcl + 1;
    }
  }

  /** Bits for the data stream. */
  function Capacity(ver: Version, ecl: Level): (c: nat)
    ensures c == 8 * NumDataCodewords(ver, ecl) && c % 8 == 0
  {
    DataCodewordBounds(ver, ecl);
    8 * NumDataCodewords(ver, ecl)
  }

  /** The picture of some bytes at a version, level and mask: the function patterns and the format, and
      in every other module its bit of the codewords, inverted where the pattern that looks like the
      mask selects it. */
  ghost predicate Draws(bytes: seq<Byte>, ver: Version, ecl: Level, mask: MaskId, data: seq<Byte>, codewords: seq<Byte>, g: Picture) {
    var capacity := Capacity(ver, ecl);
    IsPicture(ver, g) && ShowsPatterns(ver, g) && ShowsFormat(ver, ecl, mask, g) &&
    |Header(bytes, ver)| <= capacity && Unpack(data) == DataStream(bytes, ver, capacity) &&
    IsCoded(LayoutOf(ver, ecl), data, codewords) &&
    forall p: Pattern :: IsMask(mask, p) ==> ShowsUnder(ver, p, codewords, g)
  }

  lemma DrawsByLook(ver: Version, mask: MaskId, codewords: seq<Byte>, g: Picture)
    requires IsPicture(ver, g) && ShowsBits(ver, mask, Unpack(codewords), g)
    ensures forall p: Pattern :: IsMask(mask, p) ==> ShowsUnder(ver, p, codewords, g)
  {
    hide *;
    forall p: Pattern | IsMask(mask, p)
      ensures ShowsUnder(ver, p, codewords, g)
    {
      ColoursByLook(ver, mask, p, codewords, g);
    }
  }

  method EncodeBytes(bytes: seq<Byte>, level: Level, penalty: Picture -> int) returns (r: Option<Symbol>)
    ensures r.None? <==> forall v: Version :: !Fits(|bytes|, v, level)
    ensures r.Some? ==>
      level <= r.value.ecl && Fits(|bytes|, r.value.version, level) &&
      forall v: Version :: v < r.value.version ==> !Fits(|bytes|, v, level)
    ensures r.Some? ==>
      r.value.size == Size(r.value.version) && IsPicture(r.value.version, r.value.modules) &&
      Decode(r.value.modules) == Some(bytes) && SymbolIsCoded(r.value.version, r.value.modules)
    ensures r.Some? ==> exists mask: MaskId, base: Picture, data, codewords ::
      Draws(bytes, r.value.version, r.value.ecl, mask, data, codewords, r.value.modules) &&
      IsBest(r.value.version, r.value.ecl, Unpack(codewords), penalty, mask, base, r.value.modules)
  {
    hide ShowsPatterns, IsBest, SymbolIsCoded, DecodeCodewords, BlocksAreCodewords;
    hide Fits, Decode, DataStream, LayoutOf, NumDataCodewords, RawCodewords, Unpack, IsCoded, ShowsFormat, ShowsBits, IsPicture, Header,
         IsMask, ShowsUnder;
    var v := SmallestVersion(|bytes|, level);
    if v.None? {
      return None;
    }
    var ver := v.value;
    var ecl := BoostLevel(|bytes|, ver, level);
    FitsHeader(bytes, ver, ecl);
    var capacity := 8 * NumDataCodewords(ver, ecl);
    var data := EncodeData(bytes, ver, capacity);
    var codewords := AddEccAndInterleave(data, ver, ecl);
    var g := BuildMatrix(codewords, ver, ecl, penalty);
    ghost var mask: MaskId, base: Picture :|
      ShowsFormat(ver, ecl, mask, g) && ShowsBits(ver, mask, Unpack(codewords), g) &&
      IsBest(ver, ecl, Unpack(codewords), penalty, mask, base, g);
    DataComesBack(bytes, ver, capacity, LayoutOf(ver, ecl), data, codewords);
    DecodeUndoesEncode(bytes, ver, ecl, mask, LayoutOf(ver, ecl), codewords, g);
    DrawsByLook(ver, mask, codewords, g);
    assert Draws(bytes, ver, ecl, mask, data, codewords, g);
    r := Some(Symbol(Size(ver), g, ver, ecl));
  }

  lemma FitsHeader(bytes: seq<Byte>, ver: Version, ecl: Level)
    requires Fits(|bytes|, ver, ecl)
    ensures |Header(bytes, ver)| == UsedBits(|bytes|, ver) <= 8 * NumDataCodewords(ver, ecl)
    ensures |bytes| < Pow2(CountBits(ver))
  {
    DataCodewordBounds(ver, ecl);
    hide NumDataCodewords, BitsOf, Unpack;
    assert Pow2(8) == 256 && Pow2(16) == 65536;
  }

  lemma CodedRoundTrip(l: Layout, data: seq<Byte>, codewords: seq<Byte>)
    requires l.Valid() && IsCoded(l, data, codewords)
    ensures |codewords| == l.Total() && Deinterleave(l, codewords, l.blocks) == data
    ensures BlocksAreCodewords(l, codewords)
  {
    hide Generator, Layout.Interleaved, Deinterleave, Codeword, ReadData, ReadCheck;
    GeneratorMonic(l.eccLen);
    var g := Generator(l.eccLen);
    assert [1] + g[1..] == g;
    InterleaveRoundTrip(l, data, g[1..]);
  }

  /** The codewords of some bytes, taken apart and parsed. */
  lemma DataComesBack(bytes: seq<Byte>, ver: Version, capacity: nat, l: Layout, data: seq<Byte>, codewords: seq<Byte>)
    requires |bytes| < Pow2(CountBits(ver)) && |Header(bytes, ver)| <= capacity && capacity % 8 == 0
    requires Unpack(data) == DataStream(bytes, ver, capacity)
    requires l.Valid() && IsCoded(l, data, codewords)
    ensures |codewords| == l.Total() && DecodeCodewords(l, codewords, ver) == Some(bytes)
    ensures BlocksAreCodewords(l, codewords)
  {
    hide IsCoded, DataStream, Parse, Unpack, Header, CountBits, Deinterleave, Layout.Total, BlocksAreCodewords;
    CodedRoundTrip(l, data, codewords);
    ParseDataStream(bytes, ver, capacity);
  }

  /** The codewords a symbol shows are read back, whatever its mask. */
  lemma CodewordsComeBack(ver: Version, mask: MaskId, codewords: seq<Byte>, g: Picture)
    requires |codewords| == RawCodewords(ver)
    requires IsPicture(ver, g) && ShowsBits(ver, mask, Unpack(codewords), g)
    ensures ReadCodewords(ver, mask, g) == codewords
  {
    hide IsPicture, ShowsBits, ReadBits, PathLength, RawCodewords, Unpack, Pack, FreeBefore;
    PathHasRoom(ver);
    ReadAllBits(ver, mask, Unpack(codewords), g);
    PackUnpack(codewords);
  }

  /** Any symbol that shows the format and the codewords of some bytes, under any mask, is
      decoded to these bytes. */
  lemma DecodeUndoesEncode(bytes: seq<Byte>, ver: Version, ecl: Level, mask: MaskId, l: Layout, codewords: seq<Byte>, g: Picture)
    requires l == LayoutOf(ver, ecl) && |codewords| == RawCodewords(ver) == l.Total()
    requires DecodeCodewords(l, codewords, ver) == Some(bytes) && BlocksAreCodewords(l, codewords)
    requires IsPicture(ver, g) && ShowsFormat(ver, ecl, mask, g) && ShowsBits(ver, mask, Unpack(codewords), g)
    ensures Decode(g) == Some(bytes) && SymbolIsCoded(ver, g)
  {
    hide DecodeCodewords, LayoutOf, ReadFormat, LevelOfFormat, ShowsFormat, ShowsBits, Unpack, RawCodewords, ReadCodewords,
         Layout.Total, BlocksAreCodewords, DecodeVersion, IsPicture;
    FormatRoundTrip(ver, ecl, mask, g);
    CodewordsComeBack(ver, mask, codewords, g);
    PictureSize(ver, g);
    DecodeVersionIs(ver, ecl, mask, g);
  }

  lemma PictureSize(ver: Version, g: Picture)
    requires IsPicture(ver, g)
    ensures (|g| - 17) / 4 == ver
  {
  }

  lemma DecodeVersionIs(ver: Version, ecl: Level, mask: MaskId, g: Picture)
    requires IsPicture(ver, g) && |g| > 8 && |g[8]| > 4
    requires ReadFormat(g) % 8 == mask && LevelOfFormat(ReadFormat(g) / 8) == ecl
    ensures LayoutOf(ver, ecl).Total() == RawCodewords(ver)
    ensures DecodeVersion(ver, g) == DecodeCodewords(LayoutOf(ver, ecl), ReadCodewords(ver, mask, g), ver)
  {
    hide DecodeCodewords, LayoutOf, ReadFormat, LevelOfFormat, RawCodewords, ReadCodewords, Layout.Total;
    LayoutSizes(ver, ecl);
  }
}
