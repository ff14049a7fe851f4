/** Splitting the data codewords into blocks, adding check symbols to each block, and
    interleaving the blocks (ISO/IEC 18004:2015, section 7.6), with the reverse reading. */
module QrInterleave {
  import opened Arithmetic
  import opened Gf256
  import opened QrTables
  import opened ReedSolomon

  /** The first `short` blocks hold `dataLen` data codewords, the others one more; every
      block has `eccLen` check symbols. */
  datatype Layout = Layout(blocks: nat, short: nat, dataLen: nat, eccLen: nat) {

    predicate Valid() {
      0 < short <= blocks && 0 < dataLen && 0 < eccLen <= 255
    }

    /** Codewords in a block once the short blocks are padded by one. */
    function Rows(): nat {
      dataLen + 1 + eccLen
    }

    function DataLen(j: nat): nat {
      if j < short then dataLen else dataLen + 1
    }

    /** Where the data of block j begins. */
    function Start(j: nat): nat {
      j * dataLen + (if j < short then 0 else j - short)
    }

    /** All data codewords and all codewords. */
    function TotalData(): nat {
      Start(blocks)
    }

    function Total(): nat
      requires Valid()
    {
      MulLe(blocks, 1, Rows());
      Rows() * blocks - short
    }

    /** Block j of the data. */
    function DataOf(data: seq<Byte>, j: nat): (d: seq<Byte>)
      requires Valid() && |data| == TotalData() && j < blocks
      ensures |d| == DataLen(j)
    {
      StartStep(j);
      data[Start(j)..Start(j) + DataLen(j)]
    }

    lemma StartStep(j: nat)
      requires Valid() && j < blocks
      ensures Start(j + 1) == Start(j) + DataLen(j) && Start(j + 1) <= TotalData()
    {
      assert (j + 1) * dataLen == j * dataLen + dataLen;
      MulLe(dataLen, j + 1, blocks);
    }

    /** Block j as the encoder lines it up: data, a filler in short blocks, check symbols. */
    function Block(data: seq<Byte>, divisor: Poly, j: nat): (b: seq<Byte>)
      requires Valid() && |data| == TotalData() && |divisor| == eccLen && j < blocks
      ensures |b| == Rows()
    {
      DataOf(data, j) + (if j < short then [0] else []) + Remainder(DataOf(data, j), divisor)
    }

    /** Cell p of the grid of Rows() x blocks cells, read row by row, has no codeword when
        it is the filler of a short block. */
    predicate Filler(p: int) {
      dataLen * blocks <= p < dataLen * blocks + short
    }

    /** The place of cell p in the interleaved sequence, and the other way around. */
    function Place(p: int): int {
      if p < dataLen * blocks then p else p - short
    }

    function Cell(k: int): int {
      if k < dataLen * blocks then k else k + short
    }

    /** The interleaved codewords. */
    function Interleaved(data: seq<Byte>, divisor: Poly): (r: seq<Byte>)
      requires Valid() && |data| == TotalData() && |divisor| == eccLen
      ensures |r| == Total()
    {
      seq(Total(), k requires 0 <= k < Total() =>
        CellInGrid(k);
        Block(data, divisor, Cell(k) % blocks)[Cell(k) / blocks])
    }

    lemma GridRows()
      requires Valid()
      ensures dataLen * blocks + blocks <= Rows() * blocks
    {
      MulLe(blocks, dataLen + 1, Rows());
      assert blocks * (dataLen + 1) == dataLen * blocks + blocks;
    }

    lemma CellInGrid(k: nat)
      requires Valid() && k < Total()
      ensures 0 <= Cell(k) < Rows() * blocks && !Filler(Cell(k)) && Place(Cell(k)) == k
      ensures 0 <= Cell(k) % blocks < blocks && 0 <= Cell(k) / blocks < Rows()
    {
      GridRows();
      InGrid(Cell(k), Rows(), blocks);
    }

    /** Cell (i, j) of the grid lies at p = i * blocks + j, and is a codeword unless it is
        the filler of a short block. */
    lemma CellAt(i: nat, j: nat)
      requires Valid() && i < Rows() && j < blocks
      ensures var p := i * blocks + j;
        0 <= p < Rows() * blocks && p / blocks == i && p % blocks == j &&
        (Filler(p) <==> i == dataLen && j < short) &&
        (!Filler(p) ==> 0 <= Place(p) < Total() && Cell(Place(p)) == p)
    {
      GridRows();
      var p := i * blocks + j;
      QuotientIs(p, blocks, i, j);
      MulLe(blocks, i + 1, Rows());
      assert blocks * (i + 1) == i * blocks + blocks && blocks * i == i * blocks;
      if i < dataLen {
        MulLe(blocks, i + 1, dataLen);
      } else if i > dataLen {
        MulLe(blocks, dataLen + 1, i);
        assert blocks * (dataLen + 1) == dataLen * blocks + blocks;
      }
    }
  }

  lemma InGrid(p: int, rows: int, width: int)
    requires width > 0 && 0 <= p < rows * width
    ensures 0 <= p % width < width && 0 <= p / width < rows
  {
    var q, r := p / width, p % width;
    assert p == width * q + r;
    if q >= rows {
      MulLe(width, rows, q);
    } else if q < 0 {
      MulLe(width, q, -1);
    }
  }

  /** The layout of a version and level. */
  function LayoutOf(ver: Version, ecl: Level): (l: Layout)
    ensures l.Valid()
  {
    TablesAreSound(ver, ecl);
    var raw, n, ecc := RawCodewords(ver), NumBlocks(ver, ecl), EccPerBlock(ver, ecl);
    LayoutFits(raw, n, ecc);
    Layout(n, n - raw % n, raw / n - ecc, ecc)
  }

  lemma LayoutFits(raw: int, n: int, ecc: int)
    requires Sound(ecc, n, raw)
    ensures raw / n >= ecc + 1 && 0 <= raw % n < n && raw == raw / n * n + raw % n
  {
    var q, r := raw / n, raw % n;
    assert raw == n * q + r && n * (q + 1) == n * q + n;
    if q < ecc + 1 {
      MulLe(n, q + 1, ecc + 1);
    }
  }

  lemma SplitTotals(raw: int, n: int, ecc: int)
    requires Sound(ecc, n, raw)
    ensures raw / n >= ecc + 1 && 0 <= raw % n < n
    ensures var l := Layout(n, n - raw % n, raw / n - ecc, ecc);
      l.Valid() && l.Total() == raw && l.TotalData() == raw - ecc * n
  {
    LayoutFits(raw, n, ecc);
    var q, r := raw / n, raw % n;
    assert raw == q * n + r;
    assert (q + 1) * n == q * n + n;
    assert n * (q - ecc) == q * n - ecc * n;
  }

  lemma LayoutSizes(ver: Version, ecl: Level)
    ensures LayoutOf(ver, ecl).Total() == RawCodewords(ver)
    ensures LayoutOf(ver, ecl).TotalData() == NumDataCodewords(ver, ecl)
  {
    TablesAreSound(ver, ecl);
    hide RawCodewords, Sound, NumBlocks, EccPerBlock;
    SplitTotals(RawCodewords(ver), NumBlocks(ver, ecl), EccPerBlock(ver, ecl));
  }

  // ----- The encoder ----------------------------------------------------------------------

  /** Cells before p that hold codewords. */
  function Kept(l: Layout, p: nat): int {
    if p <= l.dataLen * l.blocks then p
    else if p <= l.dataLen * l.blocks + l.short then l.dataLen * l.blocks
    else p - l.short
  }

  method BuildBlocks(l: Layout, data: seq<Byte>, divisor: Poly) returns (blocks: seq<seq<Byte>>)
    requires l.Valid() && |data| == l.TotalData() && |divisor| == l.eccLen
    ensures |blocks| == l.blocks
    ensures forall j :: 0 <= j < l.blocks ==> blocks[j] == l.Block(data, divisor, j)
  {
    blocks := [];
    var i, k := 0, 0;
    while i < l.blocks
      invariant 0 <= i <= l.blocks && |blocks| == i
      invariant k == l.Start(i)
      invariant forall j :: 0 <= j < i ==> blocks[j] == l.Block(data, divisor, j)
    {
      l.StartStep(i);
      var dat := data[k..k + l.dataLen + (if i < l.short then 0 else 1)];
      k := k + |dat|;
      var ecc := RsRemainder(dat, divisor);
      if i < l.short {
        dat := dat + [0];
      }
      blocks := blocks + [dat + ecc];
      i := i + 1;
    }
  }

  method Interleave(l: Layout, data: seq<Byte>, divisor: Poly, blocks: seq<seq<Byte>>) returns (result: seq<Byte>)
    requires l.Valid() && |data| == l.TotalData() && |divisor| == l.eccLen
    requires |blocks| == l.blocks
    requires forall j :: 0 <= j < l.blocks ==> blocks[j] == l.Block(data, divisor, j)
    ensures result == l.Interleaved(data, divisor)
  {
    ghost var all := l.Interleaved(data, divisor);
    result := [];
    var i := 0;
    while i < l.Rows()
      invariant 0 <= i <= l.Rows()
      invariant |result| == Kept(l, i * l.blocks) <= |all| && result == all[..|result|]
    {
      var j := 0;
      while j < l.blocks
        invariant 0 <= j <= l.blocks
        invariant |result| == Kept(l, i * l.blocks + j) <= |all| && result == all[..|result|]
      {
        PushCell(l, data, divisor, i, j);
        if i != l.dataLen || j >= l.short {
          result := result + [blocks[j][i]];
        }
        j := j + 1;
      }
      assert (i + 1) * l.blocks == i * l.blocks + l.blocks;
      i := i + 1;
    }
    l.GridRows();
  }

  /** The next codeword is the one in cell (i, j), unless that cell is a filler. */
  lemma PushCell(l: Layout, data: seq<Byte>, divisor: Poly, i: nat, j: nat)
    requires l.Valid() && |data| == l.TotalData() && |divisor| == l.eccLen
    requires i < l.Rows() && j < l.blocks
    ensures var p := i * l.blocks + j; var all := l.Interleaved(data, divisor);
      if i == l.dataLen && j < l.short then Kept(l, p + 1) == Kept(l, p)
      else 0 <= Kept(l, p) < |all| && Kept(l, p + 1) == Kept(l, p) + 1 && all[Kept(l, p)] == l.Block(data, divisor, j)[i]
  {
    l.CellAt(i, j);
    var p := i * l.blocks + j;
    hide Layout.Block, Layout.Rows;
    if !l.Filler(p) {
      assert Kept(l, p) == l.Place(p);
    }
  }

  /** The interleaved blocks of the data, each with the check symbols of the generator. */
  ghost predicate IsCoded(l: Layout, data: seq<Byte>, result: seq<Byte>)
    requires l.Valid()
  {
    var divisor := Generator(l.eccLen)[1..];
    |data| == l.TotalData() && result == l.Interleaved(data, divisor)
  }

  method AddEccAndInterleave(data: seq<Byte>, ver: Version, ecl: Level) returns (result: seq<Byte>)
    requires |data| == NumDataCodewords(ver, ecl)
    ensures |result| == RawCodewords(ver)
    ensures IsCoded(LayoutOf(ver, ecl), data, result)
  {
    hide RawCodewords, NumDataCodewords, LayoutOf, Generator;
    var l := LayoutOf(ver, ecl);
    LayoutSizes(ver, ecl);
    var d := RsDivisor(l.eccLen);
    var divisor := d.value;
    var blocks := BuildBlocks(l, data, divisor);
    assert Generator(l.eccLen)[1..] == divisor;
    result := Interleave(l, data, divisor, blocks);
  }

  // ----- The reverse reading ------------------------------------------------------------------

  /** Codewords from..to of block j. */
  function ReadBlock(l: Layout, raw: seq<Byte>, j: nat, from: nat, len: nat): (b: seq<Byte>)
    requires l.Valid() && |raw| == l.Total() && j < l.blocks && from + len <= l.Rows()
    requires j < l.short ==> from + len <= l.dataLen || from > l.dataLen
    ensures |b| == len
  {
    seq(len, i requires 0 <= i < len =>
      l.CellAt(from + i, j);
      raw[l.Place((from + i) * l.blocks + j)])
  }

  function ReadData(l: Layout, raw: seq<Byte>, j: nat): seq<Byte>
    requires l.Valid() && |raw| == l.Total() && j < l.blocks
  {
    ReadBlock(l, raw, j, 0, l.DataLen(j))
  }

  function ReadCheck(l: Layout, raw: seq<Byte>, j: nat): seq<Byte>
    requires l.Valid() && |raw| == l.Total() && j < l.blocks
  {
    ReadBlock(l, raw, j, l.dataLen + 1, l.eccLen)
  }

  /** The data of blocks 0, ..., n - 1 put back together. */
  function Deinterleave(l: Layout, raw: seq<Byte>, n: nat): seq<Byte>
    requires l.Valid() && |raw| == l.Total() && n <= l.blocks
  {
    if n == 0 then [] else Deinterleave(l, raw, n - 1) + ReadData(l, raw, n - 1)
  }

  lemma CodewordAt(l: Layout, data: seq<Byte>, divisor: Poly, i: nat, j: nat)
    requires l.Valid() && |data| == l.TotalData() && |divisor| == l.eccLen && i < l.Rows() && j < l.blocks
    requires i != l.dataLen || j >= l.short
    ensures 0 <= l.Place(i * l.blocks + j) < l.Total()
    ensures l.Interleaved(data, divisor)[l.Place(i * l.blocks + j)] == l.Block(data, divisor, j)[i]
  {
    l.CellAt(i, j);
    hide Layout.Block, Layout.Rows, Layout.Place, Layout.Cell, Layout.Filler;
  }

  lemma CheckPart(l: Layout, data: seq<Byte>, divisor: Poly, j: nat, i: nat)
    requires l.Valid() && |data| == l.TotalData() && |divisor| == l.eccLen && j < l.blocks && i < l.eccLen
    ensures l.Block(data, divisor, j)[l.dataLen + 1 + i] == Remainder(l.DataOf(data, j), divisor)[i]
  {
    hide Layout.DataOf, Remainder;
    var d := l.DataOf(data, j);
    var head := d + (if j < l.short then [0] else []);
    assert |head| == l.dataLen + 1;
    assert l.Block(data, divisor, j) == head + Remainder(d, divisor);
  }

  lemma ReadDataBack(l: Layout, data: seq<Byte>, divisor: Poly, j: nat)
    requires l.Valid() && |data| == l.TotalData() && |divisor| == l.eccLen && j < l.blocks
    ensures ReadData(l, l.Interleaved(data, divisor), j) == l.DataOf(data, j)
  {
    hide Layout.Interleaved, Layout.DataOf, Layout.Place;
    var raw := l.Interleaved(data, divisor);
    forall i | 0 <= i < l.DataLen(j)
      ensures ReadData(l, raw, j)[i] == l.DataOf(data, j)[i]
    {
      CodewordAt(l, data, divisor, i, j);
    }
  }

  lemma ReadCheckBack(l: Layout, data: seq<Byte>, divisor: Poly, j: nat)
    requires l.Valid() && |data| == l.TotalData() && |divisor| == l.eccLen && j < l.blocks
    ensures ReadCheck(l, l.Interleaved(data, divisor), j) == Remainder(l.DataOf(data, j), divisor)
  {
    hide Layout.Interleaved, Layout.DataOf, Layout.Place, Layout.Block, Remainder, Layout.Total, Layout.TotalData;
    var raw := l.Interleaved(data, divisor);
    forall i | 0 <= i < l.eccLen
      ensures ReadCheck(l, raw, j)[i] == Remainder(l.DataOf(data, j), divisor)[i]
    {
      CheckPart(l, data, divisor, j, i);
      CodewordAt(l, data, divisor, l.dataLen + 1 + i, j);
    }
  }

  lemma {:induction false} DeinterleavePrefix(l: Layout, data: seq<Byte>, divisor: Poly, n: nat)
    requires l.Valid() && |data| == l.TotalData() && |divisor| == l.eccLen && n <= l.blocks
    ensures l.Start(n) <= |data| && Deinterleave(l, l.Interleaved(data, divisor), n) == data[..l.Start(n)]
  {
    if n > 0 {
      DeinterleavePrefix(l, data, divisor, n - 1);
      ReadDataBack(l, data, divisor, n - 1);
      l.StartStep(n - 1);
    }
  }

  /** De-interleaving undoes interleaving, and in every block the data followed by the check
      symbols is a multiple of the generator. */
  lemma InterleaveRoundTrip(l: Layout, data: seq<Byte>, divisor: Poly)
    requires l.Valid() && |data| == l.TotalData() && [1] + divisor == Generator(l.eccLen)
    ensures |divisor| == l.eccLen
    ensures Deinterleave(l, l.Interleaved(data, divisor), l.blocks) == data
    ensures forall j :: 0 <= j < l.blocks ==>
      Codeword(ReadData(l, l.Interleaved(data, divisor), j) + ReadCheck(l, l.Interleaved(data, divisor), j), l.eccLen)
  {
    DeinterleavePrefix(l, data, divisor, l.blocks);
    assert data[..l.Start(l.blocks)] == data;
    hide Layout.Interleaved, Deinterleave, ReadData, ReadCheck, Generator, Codeword, Remainder;
    forall j | 0 <= j < l.blocks
      ensures Codeword(ReadData(l, l.Interleaved(data, divisor), j) + ReadCheck(l, l.Interleaved(data, divisor), j), l.eccLen)
    {
      ReadDataBack(l, data, divisor, j);
      ReadCheckBack(l, data, divisor, j);
      RemainderCompletesCodeword(l.DataOf(data, j), divisor, l.eccLen);
    }
  }
}
