/** How much damage to a symbol's codewords the check symbols can make good. */
module QrDamage {
  import opened Arithmetic
  import opened ErrorCorrection
  import opened Gf256
  import opened QrInterleave
  import opened QrTables
  import opened ReedSolomon

  /** The codewords of block j: data, then check symbols. */
  function Word(l: Layout, raw: seq<Byte>, j: nat): (w: Poly)
    requires l.Valid() && |raw| == l.Total() && j < l.blocks
    ensures |w| == l.DataLen(j) + l.eccLen
  {
    ReadData(l, raw, j) + ReadCheck(l, raw, j)
  }

  /** In every block at most half as many codewords differ as there are check symbols. */
  predicate Close(l: Layout, raw: seq<Byte>, damaged: seq<Byte>)
    requires l.Valid() && |raw| == |damaged| == l.Total()
  {
    forall j :: 0 <= j < l.blocks ==> 2 * Distance(Word(l, raw, j), Word(l, damaged, j)) <= l.eccLen
  }

  /** No block is longer than the code allows. */
  lemma BlocksFit(ver: Version, ecl: Level)
    ensures LayoutOf(ver, ecl).dataLen + 1 + LayoutOf(ver, ecl).eccLen <= 255
  {
    TablesAreSound(ver, ecl);
    hide RawCodewords, NumBlocks, EccPerBlock;
    QuotientBelow(RawCodewords(ver), NumBlocks(ver, ecl));
  }

  lemma QuotientBelow(raw: int, n: int)
    requires n > 0 && raw < 255 * n
    ensures raw / n <= 254
  {
    var q := raw / n;
    assert n * q <= raw;
    if q >= 255 {
      MulLe(n, 255, q);
    }
  }

  lemma {:induction false} SameBlocks(l: Layout, a: seq<Byte>, b: seq<Byte>, n: nat)
    requires l.Valid() && |a| == |b| == l.Total() && n <= l.blocks
    requires forall j :: 0 <= j < n ==> ReadData(l, a, j) == ReadData(l, b, j)
    ensures Deinterleave(l, a, n) == Deinterleave(l, b, n)
  {
    hide ReadData;
    if n > 0 {
      SameBlocks(l, a, b, n - 1);
    }
  }

  lemma SameWord(l: Layout, a: seq<Byte>, b: seq<Byte>, damaged: seq<Byte>, j: nat)
    requires l.Valid() && |a| == |b| == |damaged| == l.Total() && j < l.blocks && l.dataLen + 1 + l.eccLen <= 255
    requires Codeword(Word(l, a, j), l.eccLen) && Codeword(Word(l, b, j), l.eccLen)
    requires Close(l, a, damaged) && Close(l, b, damaged)
    ensures ReadData(l, a, j) == ReadData(l, b, j)
  {
    hide ReadBlock, Codeword, Distance;
    DamageIsRepairable(Word(l, a, j), Word(l, b, j), Word(l, damaged, j), l.eccLen);
    assert Word(l, a, j)[..l.DataLen(j)] == ReadData(l, a, j);
    assert Word(l, b, j)[..l.DataLen(j)] == ReadData(l, b, j);
  }

  /** Two symbols of the same version and level whose codewords could both have been damaged into
      the same ones, at most half as many in each block as it has check symbols, carry the same
      data: the damage can be made good. */
  lemma SymbolIsRepairable(ver: Version, ecl: Level, data: seq<Byte>, data': seq<Byte>, raw: seq<Byte>, raw': seq<Byte>,
                           damaged: seq<Byte>)
    requires IsCoded(LayoutOf(ver, ecl), data, raw) && IsCoded(LayoutOf(ver, ecl), data', raw')
    requires |damaged| == LayoutOf(ver, ecl).Total()
    requires Close(LayoutOf(ver, ecl), raw, damaged) && Close(LayoutOf(ver, ecl), raw', damaged)
    ensures data == data'
  {
    hide LayoutOf, Generator, Codeword, Close, ReadData, ReadCheck, Layout.Interleaved, Deinterleave;
    var l := LayoutOf(ver, ecl);
    var divisor := Generator(l.eccLen)[1..];
    BlocksFit(ver, ecl);
    GeneratorMonic(l.eccLen);
    assert [1] + divisor == Generator(l.eccLen);
    InterleaveRoundTrip(l, data, divisor);
    InterleaveRoundTrip(l, data', divisor);
    forall j | 0 <= j < l.blocks
      ensures ReadData(l, raw, j) == ReadData(l, raw', j)
    {
      SameWord(l, raw, raw', damaged, j);
    }
    SameBlocks(l, raw, raw', l.blocks);
  }
}
