/** The capacity tables of QR codes: error correction codewords per block and number of
    blocks, for the levels L, M, Q, H and the versions 1..40 (ISO/IEC 18004:2015, table 9). */
module QrTables {

  const ECC_CW: seq<seq<int>> := [
    [-1,7,10,15,20,26,18,20,24,30,18,20,24,26,30,22,24,28,30,28,28,28,28,30,30,26,28,30,30,30,30,30,30,30,30,30,30,30,30,30,30],
    [-1,10,16,26,18,24,16,18,22,22,26,30,22,22,24,24,28,28,26,26,26,26,28,28,28,28,28,28,28,28,28,28,28,28,28,28,28,28,28,28,28],
    [-1,13,22,18,26,18,24,18,22,20,24,28,26,24,20,30,24,28,28,26,30,28,30,30,30,30,28,30,30,30,30,30,30,30,30,30,30,30,30,30,30],
    [-1,17,28,22,16,22,28,26,26,24,28,24,28,22,24,24,30,28,28,26,28,30,24,30,30,30,30,30,30,30,30,30,30,30,30,30,30,30,30,30,30]
  ]

  const ECC_BLOCKS: seq<seq<int>> := [
    [-1,1,1,1,1,1,2,2,2,2,4,4,4,4,4,6,6,6,6,7,8,8,9,9,10,12,12,12,13,14,15,16,17,18,19,19,20,21,22,24,25],
    [-1,1,1,1,2,2,4,4,4,5,5,5,8,9,9,10,10,11,13,14,16,17,17,18,20,21,23,25,26,28,29,31,33,35,37,38,40,43,45,47,49],
    [-1,1,1,2,2,4,4,6,6,8,8,8,10,12,16,12,17,16,18,21,20,23,23,25,27,29,34,34,35,38,40,43,45,48,51,53,56,59,62,65,68],
    [-1,1,1,2,4,4,4,5,6,8,8,11,11,16,16,18,16,19,21,25,25,25,34,30,32,35,37,40,42,45,48,51,54,57,60,63,66,70,74,77,81]
  ]

  type Version = v: int | 1 <= v <= 40 witness 1
  type Level = e: int | 0 <= e < 4

  function EccPerBlock(ver: Version, ecl: Level): int {
    ECC_CW[ecl][ver]
  }

  function NumBlocks(ver: Version, ecl: Level): int {
    ECC_BLOCKS[ecl][ver]
  }

  /** Modules left for codewords by the function patterns. */
  function NumRawDataModules(ver: Version): int {
    var base := (16 * ver + 128) * ver + 64;
    if ver < 2 then base
    else
      var numAlign := ver / 7 + 2;
      base - ((25 * numAlign - 10) * numAlign - 55) - (if ver >= 7 then 36 else 0)
  }

  function RawCodewords(ver: Version): int {
    NumRawDataModules(ver) / 8
  }

  function NumDataCodewords(ver: Version, ecl: Level): int {
    RawCodewords(ver) - EccPerBlock(ver, ecl) * NumBlocks(ver, ecl)
  }

  /** Every block has room for at least one data codeword beside its check symbols, and no block is
      longer than 255, the length of the code. */
  predicate Sound(ecc: int, blocks: int, raw: int) {
    7 <= ecc <= 30 && 1 <= blocks <= 81 && blocks * (ecc + 1) <= raw && raw < 255 * blocks
  }

  lemma SoundL5(ver: Version)
    requires 1 <= ver <= 5
    ensures Sound(EccPerBlock(ver, 0), NumBlocks(ver, 0), RawCodewords(ver))
  {
  }

  lemma SoundL10(ver: Version)
    requires 6 <= ver <= 10
    ensures Sound(EccPerBlock(ver, 0), NumBlocks(ver, 0), RawCodewords(ver))
  {
  }

  lemma SoundL20(ver: Version)
    requires 11 <= ver <= 20
    ensures Sound(EccPerBlock(ver, 0), NumBlocks(ver, 0), RawCodewords(ver))
  {
  }

  lemma SoundL30(ver: Version)
    requires 21 <= ver <= 30
    ensures Sound(EccPerBlock(ver, 0), NumBlocks(ver, 0), RawCodewords(ver))
  {
  }

  lemma SoundL40(ver: Version)
    requires 31 <= ver <= 40
    ensures Sound(EccPerBlock(ver, 0), NumBlocks(ver, 0), RawCodewords(ver))
  {
  }

  lemma SoundL(ver: Version)
    ensures Sound(EccPerBlock(ver, 0), NumBlocks(ver, 0), RawCodewords(ver))
  {
    hide *;
    if ver <= 5 {
      SoundL5(ver);
    } else if ver <= 10 {
      SoundL10(ver);
    } else if ver <= 20 {
      SoundL20(ver);
    } else if ver <= 30 {
      SoundL30(ver);
    } else {
      SoundL40(ver);
    }
  }

  lemma SoundM5(ver: Version)
    requires 1 <= ver <= 5
    ensures Sound(EccPerBlock(ver, 1), NumBlocks(ver, 1), RawCodewords(ver))
  {
  }

  lemma SoundM10(ver: Version)
    requires 6 <= ver <= 10
    ensures Sound(EccPerBlock(ver, 1), NumBlocks(ver, 1), RawCodewords(ver))
  {
  }

  lemma SoundM20(ver: Version)
    requires 11 <= ver <= 20
    ensures Sound(EccPerBlock(ver, 1), NumBlocks(ver, 1), RawCodewords(ver))
  {
  }

  lemma SoundM30(ver: Version)
    requires 21 <= ver <= 30
    ensures Sound(EccPerBlock(ver, 1), NumBlocks(ver, 1), RawCodewords(ver))
  {
  }

  lemma SoundM40(ver: Version)
    requires 31 <= ver <= 40
    ensures Sound(EccPerBlock(ver, 1), NumBlocks(ver, 1), RawCodewords(ver))
  {
  }

  lemma SoundM(ver: Version)
    ensures Sound(EccPerBlock(ver, 1), NumBlocks(ver, 1), RawCodewords(ver))
  {
    hide *;
    if ver <= 5 {
      SoundM5(ver);
    } else if ver <= 10 {
      SoundM10(ver);
    } else if ver <= 20 {
      SoundM20(ver);
    } else if ver <= 30 {
      SoundM30(ver);
    } else {
      SoundM40(ver);
    }
  }

  lemma SoundQ5(ver: Version)
    requires 1 <= ver <= 5
    ensures Sound(EccPerBlock(ver, 2), NumBlocks(ver, 2), RawCodewords(ver))
  {
  }

  lemma SoundQ10(ver: Version)
    requires 6 <= ver <= 10
    ensures Sound(EccPerBlock(ver, 2), NumBlocks(ver, 2), RawCodewords(ver))
  {
  }

  lemma SoundQ20(ver: Version)
    requires 11 <= ver <= 20
    ensures Sound(EccPerBlock(ver, 2), NumBlocks(ver, 2), RawCodewords(ver))
  {
  }

  lemma SoundQ30(ver: Version)
    requires 21 <= ver <= 30
    ensures Sound(EccPerBlock(ver, 2), NumBlocks(ver, 2), RawCodewords(ver))
  {
  }

  lemma SoundQ40(ver: Version)
    requires 31 <= ver <= 40
    ensures Sound(EccPerBlock(ver, 2), NumBlocks(ver, 2), RawCodewords(ver))
  {
  }

  lemma SoundQ(ver: Version)
    ensures Sound(EccPerBlock(ver, 2), NumBlocks(ver, 2), RawCodewords(ver))
  {
    hide *;
    if ver <= 5 {
      SoundQ5(ver);
    } else if ver <= 10 {
      SoundQ10(ver);
    } else if ver <= 20 {
      SoundQ20(ver);
    } else if ver <= 30 {
      SoundQ30(ver);
    } else {
      SoundQ40(ver);
    }
  }

  lemma SoundH5(ver: Version)
    requires 1 <= ver <= 5
    ensures Sound(EccPerBlock(ver, 3), NumBlocks(ver, 3), RawCodewords(ver))
  {
  }

  lemma SoundH10(ver: Version)
    requires 6 <= ver <= 10
    ensures Sound(EccPerBlock(ver, 3), NumBlocks(ver, 3), RawCodewords(ver))
  {
  }

  lemma SoundH20(ver: Version)
    requires 11 <= ver <= 20
    ensures Sound(EccPerBlock(ver, 3), NumBlocks(ver, 3), RawCodewords(ver))
  {
  }

  lemma SoundH30(ver: Version)
    requires 21 <= ver <= 30
    ensures Sound(EccPerBlock(ver, 3), NumBlocks(ver, 3), RawCodewords(ver))
  {
  }

  lemma SoundH40(ver: Version)
    requires 31 <= ver <= 40
    ensures Sound(EccPerBlock(ver, 3), NumBlocks(ver, 3), RawCodewords(ver))
  {
  }

  lemma SoundH(ver: Version)
    ensures Sound(EccPerBlock(ver, 3), NumBlocks(ver, 3), RawCodewords(ver))
  {
    hide *;
    if ver <= 5 {
      SoundH5(ver);
    } else if ver <= 10 {
      SoundH10(ver);
    } else if ver <= 20 {
      SoundH20(ver);
    } else if ver <= 30 {
      SoundH30(ver);
    } else {
      SoundH40(ver);
    }
  }

  lemma RawBoundsLow(ver: Version)
    requires ver <= 8
    ensures 26 <= RawCodewords(ver) <= 242
  {
  }

  lemma RawBoundsMiddle(ver: Version)
    requires 9 <= ver <= 24
    ensures 26 <= RawCodewords(ver) <= 3706
  {
  }

  lemma RawBoundsHigh(ver: Version)
    requires 25 <= ver
    ensures 26 <= RawCodewords(ver) <= 3706
  {
  }

  lemma RawBounds(ver: Version)
    ensures 26 <= RawCodewords(ver) <= 3706
    ensures ver <= 8 ==> RawCodewords(ver) <= 242
  {
    hide *;
    if ver <= 8 {
      RawBoundsLow(ver);
    } else if ver <= 24 {
      RawBoundsMiddle(ver);
    } else {
      RawBoundsHigh(ver);
    }
  }

  /** The tables leave data codewords in every block, and the character count of whatever
      fits can be written in the 8 or 16 bits reserved for it. */
  lemma TablesAreSound(ver: Version, ecl: Level)
    ensures Sound(EccPerBlock(ver, ecl), NumBlocks(ver, ecl), RawCodewords(ver))
  {
    hide *;
    if ecl == 0 {
      SoundL(ver);
    } else if ecl == 1 {
      SoundM(ver);
    } else if ecl == 2 {
      SoundQ(ver);
    } else {
      SoundH(ver);
    }
  }

  lemma DataCodewordsOfVersion9(ecl: Level)
    ensures NumDataCodewords(9, ecl) <= 232
  {
    assert RawCodewords(9) == 292;
    hide RawCodewords;
    if ecl == 0 {
    } else if ecl == 1 {
    } else if ecl == 2 {
    } else {
    }
  }

  lemma DataCodewordBounds(ver: Version, ecl: Level)
    ensures 0 < NumDataCodewords(ver, ecl) < 4096
    ensures ver <= 9 ==> NumDataCodewords(ver, ecl) < 256
  {
    hide NumRawDataModules, RawCodewords;
    RawBounds(ver);
    TablesAreSound(ver, ecl);
    DataCodewordsOfVersion9(ecl);
    DataFromRaw(EccPerBlock(ver, ecl), NumBlocks(ver, ecl), RawCodewords(ver));
  }

  lemma DataFromRaw(ecc: int, blocks: int, raw: int)
    requires Sound(ecc, blocks, raw)
    ensures 0 < raw - ecc * blocks < raw
  {
    assert blocks * (ecc + 1) == ecc * blocks + blocks;
  }
}
