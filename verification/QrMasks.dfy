/** The eight masks by their look, without their formulas (ISO/IEC 18004:2015, section 7.8.2). */
module QrMasks {
  import opened Arithmetic
  import opened QrPicture

  type Pattern = (nat, nat) -> bool

  predicate ExactlyOne(a: bool, b: bool, c: bool) {
    (a || b || c) && !(a && b) && !(a && c) && !(b && c)
  }

  /** What holds around (x, y) in a mask: 0 is a chessboard; 1 has stripes along the rows; 2 has
      every third column, 3 every third antidiagonal; 4 is a chessboard of fields three wide and two
      high; 5, 6 and 7 go by the product of the coordinates. */
  predicate LooksLike(mask: MaskId, p: Pattern, x: nat, y: nat) {
    match mask
    case 0 => p(x + 1, y) != p(x, y) && p(x, y + 1) != p(x, y)
    case 1 => p(x + 1, y) == p(x, y) && p(x, y + 1) != p(x, y)
    case 2 => p(x, y + 1) == p(x, y) && ExactlyOne(p(x, y), p(x + 1, y), p(x + 2, y))
    case 3 => p(x, y + 1) == p(x + 1, y) && ExactlyOne(p(x, y), p(x + 1, y), p(x + 2, y))
    case 4 => p(x + 3, y) != p(x, y) && p(x, y + 2) != p(x, y) && p(x, y) == p(x / 3 * 3, y / 2 * 2)
    case 5 => p(x, y) <==> x * y % 6 == 0
    case 6 => p(x, y) <==> x * y % 6 < 3
    case 7 => p(x, y) <==> if (x + y) % 2 == 0 then x * y % 3 != 1 else x * y % 3 == 1
  }

  /** A pattern that selects the corner and looks like the mask everywhere. */
  ghost predicate IsMask(mask: MaskId, p: Pattern) {
    p(0, 0) && forall x: nat, y: nat :: LooksLike(mask, p, x, y)
  }

  /** The look determines the mask: exactly one pattern has it, the one the encoder inverts. */
  lemma MaskIs(mask: MaskId, p: Pattern)
    ensures IsMask(mask, p) <==> forall x: nat, y: nat :: p(x, y) == Inverts(mask, x, y)
  {
    if IsMask(mask, p) {
      forall x: nat, y: nat
        ensures p(x, y) == Inverts(mask, x, y)
      {
        MaskAt(mask, p, x, y);
      }
    } else if forall x: nat, y: nat :: p(x, y) == Inverts(mask, x, y) {
      assert p(0, 0);
      forall x: nat, y: nat
        ensures LooksLike(mask, p, x, y)
      {
        InvertsLooks(mask, p, x, y);
      }
    }
  }

  lemma InvertsLooks(mask: MaskId, p: Pattern, x: nat, y: nat)
    requires forall x: nat, y: nat :: p(x, y) == Inverts(mask, x, y)
    ensures LooksLike(mask, p, x, y)
  {
    if mask < 4 {
      StripesLook(mask, p, x, y);
    } else if mask == 4 {
      FieldsLook(p, x, y);
    } else {
      ProductAt(mask, p, x, y);
    }
  }

  lemma StripesLook(mask: MaskId, p: Pattern, x: nat, y: nat)
    requires mask < 4 && forall x: nat, y: nat :: p(x, y) == Inverts(mask, x, y)
    ensures LooksLike(mask, p, x, y)
  {
    hide Inverts;
    StripesAround(mask, x, y);
    assert p(x, y) == Inverts(mask, x, y) && p(x + 1, y) == Inverts(mask, x + 1, y);
    assert p(x + 2, y) == Inverts(mask, x + 2, y) && p(x, y + 1) == Inverts(mask, x, y + 1);
  }

  lemma StripesAround(mask: MaskId, x: nat, y: nat)
    requires mask < 4
    ensures var here, right, below := Inverts(mask, x, y), Inverts(mask, x + 1, y), Inverts(mask, x, y + 1);
      (mask == 0 ==> right != here && below != here) && (mask == 1 ==> right == here && below != here) &&
      (mask == 2 ==> below == here) && (mask == 3 ==> below == right) &&
      (mask >= 2 ==> ExactlyOne(here, right, Inverts(mask, x + 2, y)))
  {
    if mask == 0 {
      Chessboard(x, y);
    } else if mask == 1 {
      Rows(x, y);
    } else if mask == 2 {
      OneOfThree(x);
    } else {
      Antidiagonals(x, y);
    }
  }

  lemma Chessboard(x: nat, y: nat)
    ensures Inverts(0, x + 1, y) != Inverts(0, x, y) && Inverts(0, x, y + 1) != Inverts(0, x, y)
  {
    Parity(x + y);
    assert x + 1 + y == x + y + 1 && x + (y + 1) == x + y + 1;
  }

  lemma Rows(x: nat, y: nat)
    ensures Inverts(1, x + 1, y) == Inverts(1, x, y) && Inverts(1, x, y + 1) != Inverts(1, x, y)
  {
    Parity(y);
  }

  lemma Antidiagonals(x: nat, y: nat)
    ensures Inverts(3, x, y + 1) == Inverts(3, x + 1, y) && ExactlyOne(Inverts(3, x, y), Inverts(3, x + 1, y), Inverts(3, x + 2, y))
  {
    OneOfThree(x + y);
    assert x + 1 + y == x + y + 1 && x + 2 + y == x + y + 2 && x + (y + 1) == x + y + 1;
  }

  lemma Parity(n: nat)
    ensures (n + 1) % 2 == 0 <==> n % 2 != 0
  {
  }

  lemma OneOfThree(n: nat)
    ensures ExactlyOne(n % 3 == 0, (n + 1) % 3 == 0, (n + 2) % 3 == 0)
  {
  }

  lemma FieldsLook(p: Pattern, x: nat, y: nat)
    requires forall x: nat, y: nat :: p(x, y) == Inverts(4, x, y)
    ensures LooksLike(4, p, x, y)
  {
    hide Inverts;
    FieldsAround(x, y);
    FieldCorner(x, y, x / 3 * 3, y / 2 * 2);
    assert p(x + 3, y) == Inverts(4, x + 3, y) && p(x, y + 2) == Inverts(4, x, y + 2);
    assert p(x, y) == Inverts(4, x, y) && p(x / 3 * 3, y / 2 * 2) == Inverts(4, x / 3 * 3, y / 2 * 2);
  }

  lemma FieldsAround(x: nat, y: nat)
    ensures Inverts(4, x + 3, y) != Inverts(4, x, y) && Inverts(4, x, y + 2) != Inverts(4, x, y)
  {
    var i, j := x / 3, y / 2;
    QuotientIs(x + 3, 3, i + 1, x % 3);
    QuotientIs(y + 2, 2, j + 1, y % 2);
    Parity(i + j);
  }

  lemma FieldCorner(x: nat, y: nat, left: nat, top: nat)
    requires left == x / 3 * 3 && top == y / 2 * 2
    ensures Inverts(4, left, top) == Inverts(4, x, y)
  {
    QuotientIs(left, 3, x / 3, 0);
    QuotientIs(top, 2, y / 2, 0);
  }

  /** Masks 5, 6 and 7 place by place. */
  lemma ProductAt(mask: MaskId, p: Pattern, x: nat, y: nat)
    requires mask >= 5
    ensures LooksLike(mask, p, x, y) <==> p(x, y) == Inverts(mask, x, y)
  {
    var n := x * y;
    ModSix(n);
    assert (x + y) % 2 == 0 || (x + y) % 2 == 1;
  }

  lemma ModSix(n: nat)
    ensures n % 2 + n % 3 == 0 <==> n % 6 == 0
    ensures (n % 2 + n % 3) % 2 == 0 <==> n % 6 < 3
  {
    var q, r := n / 6, n % 6;
    QuotientIs(n, 2, 3 * q + r / 2, r % 2);
    QuotientIs(n, 3, 2 * q + r / 3, r % 3);
  }

  lemma CornerIs(mask: MaskId)
    ensures Inverts(mask, 0, 0)
  {
  }

  /** From the corner the look leads to any place. */
  lemma {:induction false} MaskAt(mask: MaskId, p: Pattern, x: nat, y: nat)
    requires IsMask(mask, p)
    ensures p(x, y) == Inverts(mask, x, y)
    decreases y
  {
    if mask >= 5 {
      hide Inverts;
      assert LooksLike(mask, p, x, y);
      ProductAt(mask, p, x, y);
    } else if mask == 4 {
      FieldAt(p, x, y);
    } else if y > 0 {
      hide Inverts;
      assert LooksLike(mask, p, x, y - 1);
      StripesAround(mask, x, y - 1);
      MaskAt(mask, p, if mask == 3 then x + 1 else x, y - 1);
    } else {
      RowAt(mask, p, x);
    }
  }

  lemma {:induction false} FieldAt(p: Pattern, x: nat, y: nat)
    requires IsMask(4, p)
    ensures p(x, y) == Inverts(4, x, y)
    decreases x + y
  {
    hide Inverts;
    if x >= 3 {
      assert LooksLike(4, p, x - 3, y);
      FieldsAround(x - 3, y);
      FieldAt(p, x - 3, y);
    } else if y >= 2 {
      assert LooksLike(4, p, x, y - 2);
      FieldsAround(x, y - 2);
      FieldAt(p, x, y - 2);
    } else {
      assert LooksLike(4, p, x, y);
      FieldCorner(x, y, 0, 0);
      CornerIs(4);
    }
  }

  lemma {:induction false} RowAt(mask: MaskId, p: Pattern, x: nat)
    requires IsMask(mask, p) && mask < 4
    ensures p(x, 0) == Inverts(mask, x, 0)
  {
    hide Inverts;
    CornerIs(mask);
    if x > 0 {
      assert LooksLike(mask, p, x - 1, 0);
      StripesAround(mask, x - 1, 0);
      RowAt(mask, p, x - 1);
      if x >= 3 {
        assert LooksLike(mask, p, x - 3, 0) && LooksLike(mask, p, x - 2, 0);
        StripesAround(mask, x - 3, 0);
        StripesAround(mask, x - 2, 0);
        RowAt(mask, p, x - 3);
      } else {
        assert LooksLike(mask, p, 0, 0);
        StripesAround(mask, 0, 0);
      }
    }
  }
}
