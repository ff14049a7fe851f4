/** How many bytes fit, by table 7 of ISO/IEC 18004:2015: an independent check of the tables of
    error correction codewords and of the formula for the codewords of a symbol. */
module QrLimits {
  import opened QrTables

  /** All codewords of a symbol, for the versions 1..40. */
  const CODEWORDS: seq<int> :=
    [-1,26,44,70,100,134,172,196,242,292,346,404,466,532,581,655,733,815,901,991,1085,1156,1258,1364,1474,1588,1706,1828,1921,2051,2185,2323,2465,2611,2761,2876,3034,3196,3362,3532,3706]

  /** The byte capacities for the levels L, M, Q, H and the versions 1..40. */
  const BYTE_CAPACITY: seq<seq<int>> := [
    [-1,17,32,53,78,106,134,154,192,230,271,321,367,425,458,520,586,644,718,792,858,929,1003,1091,1171,1273,1367,1465,1528,1628,1732,1840,1952,2068,2188,2303,2431,2563,2699,2809,2953],
    [-1,14,26,42,62,84,106,122,152,180,213,251,287,331,362,412,450,504,560,624,666,711,779,857,911,997,1059,1125,1190,1264,1370,1452,1538,1628,1722,1809,1911,1989,2099,2213,2331],
    [-1,11,20,32,46,60,74,86,108,130,151,177,203,241,258,292,322,364,394,442,482,509,565,611,661,715,751,805,868,908,982,1030,1112,1168,1228,1283,1351,1423,1499,1579,1663],
    [-1,7,14,24,34,44,58,64,84,98,119,137,155,177,194,220,250,280,310,338,382,403,439,461,511,535,593,625,658,698,742,790,842,898,958,983,1051,1093,1139,1219,1273]
  ]

  lemma CodewordsTo10(ver: Version)
    requires ver <= 10
    ensures RawCodewords(ver) == CODEWORDS[ver]
  {
  }

  lemma CodewordsTo25(ver: Version)
    requires 11 <= ver <= 25
    ensures RawCodewords(ver) == CODEWORDS[ver]
  {
  }

  lemma CodewordsTo40(ver: Version)
    requires 26 <= ver
    ensures RawCodewords(ver) == CODEWORDS[ver]
  {
  }

  /** The codewords of a symbol hold the bytes that the table says, the check symbols, and mode and
      count: 12 bits up to version 9 and 20 bits behind it. */
  predicate Agrees(ver: Version, ecl: Level) {
    CODEWORDS[ver] == BYTE_CAPACITY[ecl][ver] + EccPerBlock(ver, ecl) * NumBlocks(ver, ecl) + (if ver <= 9 then 2 else 3)
  }

  lemma AgreesTo3(ver: Version)
    requires ver <= 3
    ensures Agrees(ver, 0) && Agrees(ver, 1) && Agrees(ver, 2) && Agrees(ver, 3)
  {
  }

  lemma AgreesTo6(ver: Version)
    requires 4 <= ver <= 6
    ensures Agrees(ver, 0) && Agrees(ver, 1) && Agrees(ver, 2) && Agrees(ver, 3)
  {
  }

  lemma AgreesTo9(ver: Version)
    requires 7 <= ver <= 9
    ensures Agrees(ver, 0) && Agrees(ver, 1) && Agrees(ver, 2) && Agrees(ver, 3)
  {
  }

  lemma AgreesTo12(ver: Version)
    requires 10 <= ver <= 12
    ensures Agrees(ver, 0) && Agrees(ver, 1) && Agrees(ver, 2) && Agrees(ver, 3)
  {
  }

  lemma AgreesTo15(ver: Version)
    requires 13 <= ver <= 15
    ensures Agrees(ver, 0) && Agrees(ver, 1) && Agrees(ver, 2) && Agrees(ver, 3)
  {
  }

  lemma AgreesTo18(ver: Version)
    requires 16 <= ver <= 18
    ensures Agrees(ver, 0) && Agrees(ver, 1) && Agrees(ver, 2) && Agrees(ver, 3)
  {
  }

  lemma AgreesTo21(ver: Version)
    requires 19 <= ver <= 21
    ensures Agrees(ver, 0) && Agrees(ver, 1) && Agrees(ver, 2) && Agrees(ver, 3)
  {
  }

  lemma AgreesTo24(ver: Version)
    requires 22 <= ver <= 24
    ensures Agrees(ver, 0) && Agrees(ver, 1) && Agrees(ver, 2) && Agrees(ver, 3)
  {
  }

  lemma AgreesTo27(ver: Version)
    requires 25 <= ver <= 27
    ensures Agrees(ver, 0) && Agrees(ver, 1) && Agrees(ver, 2) && Agrees(ver, 3)
  {
  }

  lemma AgreesTo30(ver: Version)
    requires 28 <= ver <= 30
    ensures Agrees(ver, 0) && Agrees(ver, 1) && Agrees(ver, 2) && Agrees(ver, 3)
  {
  }

  lemma AgreesTo33(ver: Version)
    requires 31 <= ver <= 33
    ensures Agrees(ver, 0) && Agrees(ver, 1) && Agrees(ver, 2) && Agrees(ver, 3)
  {
  }

  lemma AgreesTo36(ver: Version)
    requires 34 <= ver <= 36
    ensures Agrees(ver, 0) && Agrees(ver, 1) && Agrees(ver, 2) && Agrees(ver, 3)
  {
  }

  lemma AgreesTo39(ver: Version)
    requires 37 <= ver <= 39
    ensures Agrees(ver, 0) && Agrees(ver, 1) && Agrees(ver, 2) && Agrees(ver, 3)
  {
  }

  lemma AgreesTo40(ver: Version)
    requires 40 <= ver
    ensures Agrees(ver, 0) && Agrees(ver, 1) && Agrees(ver, 2) && Agrees(ver, 3)
  {
  }

  lemma DataCodewordsAre(ver: Version, ecl: Level)
    ensures NumDataCodewords(ver, ecl) == BYTE_CAPACITY[ecl][ver] + (if ver <= 9 then 2 else 3)
  {
    hide CODEWORDS, BYTE_CAPACITY, RawCodewords, ECC_CW, ECC_BLOCKS;
    if ver <= 10 {
      CodewordsTo10(ver);
    } else if ver <= 25 {
      CodewordsTo25(ver);
    } else {
      CodewordsTo40(ver);
    }
    if ver <= 3 {
      AgreesTo3(ver);
    } else if ver <= 6 {
      AgreesTo6(ver);
    } else if ver <= 9 {
      AgreesTo9(ver);
    } else if ver <= 12 {
      AgreesTo12(ver);
    } else if ver <= 15 {
      AgreesTo15(ver);
    } else if ver <= 18 {
      AgreesTo18(ver);
    } else if ver <= 21 {
      AgreesTo21(ver);
    } else if ver <= 24 {
      AgreesTo24(ver);
    } else if ver <= 27 {
      AgreesTo27(ver);
    } else if ver <= 30 {
      AgreesTo30(ver);
    } else if ver <= 33 {
      AgreesTo33(ver);
    } else if ver <= 36 {
      AgreesTo36(ver);
    } else if ver <= 39 {
      AgreesTo39(ver);
    } else {
      AgreesTo40(ver);
    }
  }
}
