/** The field GF(256) of the QR code's Reed-Solomon code: the numbers 0..255, with bitwise
    exclusive or as addition and multiplication modulo x^8 + x^4 + x^3 + x^2 + 1 (0x11D). */
module Gf256 {
  import opened Arithmetic

  type Byte = b: int | 0 <= b < 256

  /** Exclusive or of two bits. */
  function BitXor(p: nat, q: nat): (r: nat)
    ensures r < 2
  {
    if p == q then 0 else 1
  }

  /** Bitwise exclusive or. */
  function Xor(a: nat, b: nat): nat
    decreases a + b
  {
    if a == 0 && b == 0 then 0 else BitXor(a % 2, b % 2) + 2 * Xor(a / 2, b / 2)
  }

  // ----- Addition is a group in which every element is its own inverse -----------

  lemma XorCommutes(a: nat, b: nat)
    ensures Xor(a, b) == Xor(b, a)
  {
  }

  lemma {:induction false} XorZero(a: nat)
    ensures Xor(a, 0) == a && Xor(0, a) == a
  {
    if a != 0 {
      XorZero(a / 2);
    }
  }

  lemma {:induction false} XorSelf(a: nat)
    ensures Xor(a, a) == 0
  {
    if a != 0 {
      XorSelf(a / 2);
    }
  }

  lemma {:induction false} XorCancels(a: nat, b: nat)
    requires Xor(a, b) == 0
    ensures a == b
    decreases a + b
  {
    if a != 0 || b != 0 {
      XorCancels(a / 2, b / 2);
    }
  }

  lemma {:induction false} XorAssociates(a: nat, b: nat, c: nat)
    ensures Xor(a, Xor(b, c)) == Xor(Xor(a, b), c)
    decreases a + b + c
  {
    if a == 0 {
      XorZero(Xor(b, c));
      XorZero(b);
    } else if c == 0 {
      XorZero(b);
      XorZero(Xor(a, b));
    } else {
      XorAssociates(a / 2, b / 2, c / 2);
      AssociatesFromHalves(a, b, c);
    }
  }

  lemma AssociatesFromHalves(a: nat, b: nat, c: nat)
    requires Xor(a / 2, Xor(b / 2, c / 2)) == Xor(Xor(a / 2, b / 2), c / 2)
    ensures Xor(a, Xor(b, c)) == Xor(Xor(a, b), c)
  {
    hide Xor, BitXor;
    XorHalf(b, c);
    XorHalf(a, b);
    XorHalf(a, Xor(b, c));
    XorHalf(Xor(a, b), c);
    BitXorAssociates(a % 2, b % 2, c % 2);
  }

  lemma BitXorAssociates(p: nat, q: nat, r: nat)
    requires p < 2 && q < 2 && r < 2
    ensures BitXor(p, BitXor(q, r)) == BitXor(BitXor(p, q), r)
  {
  }

  lemma XorHalf(a: nat, b: nat)
    ensures Xor(a, b) / 2 == Xor(a / 2, b / 2)
    ensures Xor(a, b) % 2 == BitXor(a % 2, b % 2)
    ensures Xor(a, b) == BitXor(a % 2, b % 2) + 2 * Xor(a / 2, b / 2)
  {
    if a == 0 && b == 0 {
      assert Xor(0, 0) == 0;
    }
  }

  lemma XorShuffle(a: nat, b: nat, c: nat, d: nat)
    ensures Xor(Xor(a, b), Xor(c, d)) == Xor(Xor(a, c), Xor(b, d))
  {
    hide Xor;
    XorAssociates(a, b, Xor(c, d));
    XorAssociates(b, c, d);
    XorCommutes(b, c);
    XorAssociates(c, b, d);
    XorAssociates(a, c, Xor(b, d));
  }

  /** Exclusive or of two numbers of n + 1 bits: the top bit by itself, and no overflow. */
  lemma {:induction false} XorTop(a: nat, b: nat, n: nat)
    requires a < 2 * Pow2(n) && b < 2 * Pow2(n)
    ensures Xor(a, b) < 2 * Pow2(n)
    ensures (Xor(a, b) >= Pow2(n)) == ((a >= Pow2(n)) != (b >= Pow2(n)))
  {
    XorHalf(a, b);
    if n == 0 {
      assert Xor(0, 0) == 0;
    } else {
      hide Xor;
      XorTop(a / 2, b / 2, n - 1);
    }
  }

  lemma XorByte(a: Byte, b: Byte)
    ensures Xor(a, b) < 256
    ensures (Xor(a, b) >= 128) == ((a >= 128) != (b >= 128))
  {
    assert Pow2(7) == 128;
    XorTop(a, b, 7);
  }

  // ----- Multiplication ------------------------------------------------------------

  /** Multiplication by x, that is by 2: `(z << 1) ^ ((z >>> 7) * 0x11D)`. */
  function Double(z: Byte): (d: Byte)
  {
    DoubleIsByte(z);
    Xor(2 * z, z / 128 * 0x11D)
  }

  lemma DoubleIsByte(z: Byte)
    ensures Xor(2 * z, z / 128 * 0x11D) < 256
  {
    hide Xor;
    assert Pow2(8) == 256;
    if z < 128 {
      XorZero(2 * z);
    } else {
      XorTop(2 * z, 0x11D, 8);
    }
  }

  lemma XorDoubled(a: nat, b: nat)
    ensures Xor(2 * a, 2 * b) == 2 * Xor(a, b)
  {
    XorHalf(2 * a, 2 * b);
  }

  lemma DoubleXor(a: Byte, b: Byte)
    ensures Xor(a, b) < 256
    ensures Double(Xor(a, b)) == Xor(Double(a), Double(b))
  {
    hide Xor;
    XorByte(a, b);
    XorDoubled(a, b);
    var p, q := a / 128 * 0x11D, b / 128 * 0x11D;
    XorShuffle(2 * a, p, 2 * b, q);
    XorSelf(0x11D);
    XorSelf(0);
    XorZero(0x11D);
    assert Xor(p, q) == Xor(a, b) / 128 * 0x11D;
  }

  /** Horner's rule over the bits of y, most significant first. */
  function Mul(x: Byte, y: Byte): (r: Byte)
    decreases y
  {
    if y == 0 then 0
    else
      XorByte(Double(Mul(x, y / 2)), y % 2 * x);
      Xor(Double(Mul(x, y / 2)), y % 2 * x)
  }

  lemma DoubleZero()
    ensures Double(0) == 0
  {
    hide Xor;
    XorZero(0);
  }

  lemma MulStep(x: Byte, y: Byte)
    ensures y % 2 * x >= 0
    ensures Mul(x, y) == Xor(Double(Mul(x, y / 2)), y % 2 * x)
  {
    hide Xor, Double;
    assert y % 2 == 0 || y % 2 == 1;
    if y == 0 {
      DoubleZero();
      XorZero(0);
    }
  }

  lemma {:induction false} ShiftRightByte(y: Byte, i: nat)
    ensures ShiftRight(y, i) < 256
  {
    if i > 0 {
      ShiftRightByte(y / 2, i - 1);
    }
  }

  method RsMul(x: Byte, y: Byte) returns (z: Byte)
    ensures z == Mul(x, y)
  {
    hide Xor, Double, Mul;
    z := 0;
    MulZero(x);
    assert Pow2(8) == 256;
    ShiftRightOut(y, 8);
    hide ShiftRight;
    var i := 8;
    while i > 0
      invariant 0 <= i <= 8
      invariant ShiftRight(y, i) < 256 && z == Mul(x, ShiftRight(y, i))
    {
      i := i - 1;
      ShiftRightByte(y, i);
      ShiftRightOnce(y, i);
      MulStep(x, ShiftRight(y, i));
      z := Double(z);
      XorByte(z, ShiftRight(y, i) % 2 * x);
      z := Xor(z, ShiftRight(y, i) % 2 * x);
    }
    ShiftRightNone(y);
  }

  lemma ShiftRightNone(y: nat)
    ensures ShiftRight(y, 0) == y
  {
  }

  // ----- The ring laws -------------------------------------------------------------

  /** A bit times a byte. */
  lemma ScaleXor(p: nat, q: nat, x: Byte, w: Byte)
    requires p < 2 && q < 2
    ensures Xor(p * x, q * x) == BitXor(p, q) * x
    ensures Xor(p * x, p * w) == p * Xor(x, w)
  {
    XorZero(x);
    XorSelf(x);
    XorSelf(0);
    hide Xor;
    assert p == 0 || p == 1;
    assert q == 0 || q == 1;
  }

  lemma {:induction false} MulXorRight(x: Byte, y: Byte, w: Byte)
    ensures Xor(y, w) < 256
    ensures Mul(x, Xor(y, w)) == Xor(Mul(x, y), Mul(x, w))
    decreases y + w
  {
    XorByte(y, w);
    if y == 0 && w == 0 {
      XorSelf(0);
    } else {
      hide Xor, Double, Mul, BitXor;
      MulXorRight(x, y / 2, w / 2);
      XorHalf(y, w);
      MulStep(x, y);
      MulStep(x, w);
      MulStep(x, Xor(y, w));
      DoubleXor(Mul(x, y / 2), Mul(x, w / 2));
      ScaleXor(y % 2, w % 2, x, x);
      XorShuffle(Double(Mul(x, y / 2)), Double(Mul(x, w / 2)), y % 2 * x, w % 2 * x);
    }
  }

  lemma {:induction false} MulXorLeft(x: Byte, w: Byte, y: Byte)
    ensures Xor(x, w) < 256
    ensures Mul(Xor(x, w), y) == Xor(Mul(x, y), Mul(w, y))
    decreases y
  {
    XorByte(x, w);
    if y == 0 {
      XorSelf(0);
    } else {
      hide Xor, Double, Mul, BitXor;
      MulXorLeft(x, w, y / 2);
      MulStep(x, y);
      MulStep(w, y);
      MulStep(Xor(x, w), y);
      DoubleXor(Mul(x, y / 2), Mul(w, y / 2));
      ScaleXor(y % 2, y % 2, x, w);
      XorShuffle(Double(Mul(x, y / 2)), Double(Mul(w, y / 2)), y % 2 * x, y % 2 * w);
    }
  }

  /** Multiplication distributes over addition, on both sides. */
  lemma Distributive(x: Byte, y: Byte, w: Byte)
    ensures Xor(y, w) < 256
    ensures Mul(x, Xor(y, w)) == Xor(Mul(x, y), Mul(x, w))
    ensures Mul(Xor(y, w), x) == Xor(Mul(y, x), Mul(w, x))
  {
    hide Xor, Mul;
    MulXorRight(x, y, w);
    MulXorLeft(y, w, x);
  }

  lemma {:induction false} MulZero(y: Byte)
    ensures Mul(0, y) == 0 && Mul(y, 0) == 0
  {
    if y != 0 {
      MulZero(y / 2);
      XorSelf(0);
    }
  }

  /** A byte is its upper bits, doubled, plus its last bit. */
  lemma HalfAndBit(y: Byte)
    ensures Double(y / 2) == 2 * (y / 2)
    ensures Xor(Double(y / 2), y % 2) == y
  {
    hide Xor;
    XorZero(2 * (y / 2));
    XorHalf(2 * (y / 2), y % 2);
    XorZero(y / 2);
    assert 2 * (y / 2) % 2 == 0 && y % 2 / 2 == 0;
  }

  lemma {:induction false} MulOneLeft(y: Byte)
    ensures Mul(1, y) == y
    decreases y
  {
    hide Double, Xor;
    if y != 0 {
      MulOneLeft(y / 2);
      MulStep(1, y);
      HalfAndBit(y);
    }
  }

  lemma MulOne(y: Byte)
    ensures Mul(1, y) == y && Mul(y, 1) == y
  {
    MulOneLeft(y);
    hide Double, Mul, Xor;
    MulStep(y, 1);
    MulZero(y);
    DoubleZero();
    XorZero(y);
  }

  lemma DoubleOfBit(p: nat, x: Byte)
    requires p < 2
    ensures Double(p * x) == p * Double(x)
  {
    DoubleZero();
    hide Double;
    assert p == 0 || p == 1;
  }

  lemma {:induction false} DoubleMul(x: Byte, y: Byte)
    ensures Mul(Double(x), y) == Double(Mul(x, y))
    decreases y
  {
    hide Double, Xor, BitXor;
    if y == 0 {
      DoubleZero();
    } else {
      hide Mul;
      DoubleMul(x, y / 2);
      MulStep(x, y);
      MulStep(Double(x), y);
      DoubleXor(Double(Mul(x, y / 2)), y % 2 * x);
      DoubleOfBit(y % 2, x);
    }
  }

  lemma {:induction false} Commutative(x: Byte, y: Byte)
    ensures Mul(x, y) == Mul(y, x)
    decreases y
  {
    hide Double, Xor, BitXor, Mul;
    MulZero(x);
    if y != 0 {
      Commutative(x, y / 2);
      MulStep(x, y);
      HalfAndBit(y);
      Distributive(x, Double(y / 2), y % 2);
      DoubleMul(y / 2, x);
      MulOne(x);
      assert y % 2 == 0 || y % 2 == 1;
    }
  }

  lemma MulDouble(x: Byte, y: Byte)
    ensures Mul(x, Double(y)) == Double(Mul(x, y))
    ensures Mul(x, 2) == Mul(2, x) == Double(x)
  {
    hide Xor, BitXor, Mul;
    Commutative(x, Double(y));
    Commutative(x, y);
    DoubleMul(y, x);
    HalfAndBit(2);
    XorZero(2);
    Commutative(x, 2);
    DoubleMul(1, x);
    MulOne(x);
  }

  lemma {:induction false} Associative(x: Byte, y: Byte, w: Byte)
    ensures Mul(x, Mul(y, w)) == Mul(Mul(x, y), w)
    decreases w
  {
    hide Double, Xor, BitXor, Mul;
    MulZero(x);
    MulZero(y);
    MulZero(Mul(x, y));
    if w != 0 {
      Associative(x, y, w / 2);
      MulStep(y, w);
      MulStep(Mul(x, y), w);
      Distributive(x, Double(Mul(y, w / 2)), w % 2 * y);
      MulDouble(x, Mul(y, w / 2));
      assert w % 2 == 0 || w % 2 == 1;
    }
  }
}
