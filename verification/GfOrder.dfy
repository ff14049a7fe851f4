/** The multiplicative group of GF(256): the powers of 2 run through all 255 nonzero elements, so
    a product of nonzero elements is not zero. */
module GfOrder {
  import opened Gf256
  import opened ReedSolomon
  import opened Sets

  // ----- Doubling by plain arithmetic -----------------------------------------------------------

  function Flip(bit: nat, weight: int): int {
    if bit % 2 == 0 then weight else -weight
  }

  function Doubled(z: Byte): int {
    if z < 128 then 2 * z else 2 * z - 255 + Flip(z / 2, 4) + Flip(z / 2 / 2, 8) + Flip(z / 2 / 2 / 2, 16)
  }

  lemma XorBits(h: nat, q: nat, b: nat, p: nat)
    requires q < 2 && p < 2
    ensures Xor(2 * h + q, 2 * b + p) == 2 * Xor(h, b) + if q == p then 0 else 1
  {
    XorHalf(2 * h + q, 2 * b + p);
    hide Xor;
  }

  lemma XorEight(p: nat, q: nat, r: nat)
    requires p < 2 && q < 2 && r < 2
    ensures Xor(8 + 4 * p + 2 * q + r, 8) == 4 * p + 2 * q + r
  {
    XorSelf(1);
    hide Xor;
    XorBits(1, p, 1, 0);
    XorBits(2 + p, q, 2, 0);
    XorBits(4 + 2 * p + q, r, 4, 0);
  }

  lemma LowBits(h: nat, c: nat, b: nat, a: nat, d: nat)
    requires Xor(h, 8) == h - 8 && c < 2 && b < 2 && a < 2 && d < 2
    ensures var z := 16 * h + 8 * c + 4 * b + 2 * a + d;
            Xor(2 * z, 285) == 2 * z - 255 + Flip(a, 4) + Flip(b, 8) + Flip(c, 16)
  {
    hide Xor;
    XorBits(h, c, 8, 1);
    XorBits(2 * h + c, b, 17, 1);
    XorBits(4 * h + 2 * c + b, a, 35, 1);
    XorBits(8 * h + 4 * c + 2 * b + a, d, 71, 0);
    XorBits(16 * h + 8 * c + 4 * b + 2 * a + d, 0, 142, 1);
  }

  lemma DoubleIs(z: Byte)
    ensures Double(z) == Doubled(z)
  {
    hide Xor, Flip;
    if z < 128 {
      XorZero(2 * z);
    } else {
      var z1 := z / 2;
      var z2 := z1 / 2;
      var z3 := z2 / 2;
      var h := z3 / 2;
      var h1 := h / 2;
      var h2 := h1 / 2;
      assert h2 / 2 == 1;
      XorEight(h2 % 2, h1 % 2, h % 2);
      LowBits(h, z3 % 2, z2 % 2, z1 % 2, z % 2);
      FlipOfBit(z1, 4);
      FlipOfBit(z2, 8);
      FlipOfBit(z3, 16);
    }
  }

  lemma FlipOfBit(n: nat, weight: int)
    ensures Flip(n % 2, weight) == Flip(n, weight)
  {
  }

  // ----- The powers of 2 up to 2^254 ------------------------------------------------------------

  predicate NoOneTo(k: nat) {
    forall i :: 0 < i <= k ==> Power(i) != 1
  }

  lemma Next(k: nat, v: Byte, w: Byte)
    requires Power(k) == v && NoOneTo(k) && w == Doubled(v) && w != 1
    ensures Power(k + 1) == w && NoOneTo(k + 1)
  {
    DoubleIs(v);
    hide Xor, Double;
  }

  lemma From0(k: nat)
    requires Power(k) == 1 && NoOneTo(k)
    ensures Power(k + 17) == 152 && NoOneTo(k + 17)
  {
    hide Power, NoOneTo;
    Next(k, 1, 2); Next(k + 1, 2, 4); Next(k + 2, 4, 8); Next(k + 3, 8, 16);
    Next(k + 4, 16, 32); Next(k + 5, 32, 64); Next(k + 6, 64, 128); Next(k + 7, 128, 29);
    Next(k + 8, 29, 58); Next(k + 9, 58, 116); Next(k + 10, 116, 232); Next(k + 11, 232, 205);
    Next(k + 12, 205, 135); Next(k + 13, 135, 19); Next(k + 14, 19, 38); Next(k + 15, 38, 76);
    Next(k + 16, 76, 152);
  }

  lemma From17(k: nat)
    requires Power(k) == 152 && NoOneTo(k)
    ensures Power(k + 17) == 78 && NoOneTo(k + 17)
  {
    hide Power, NoOneTo;
    Next(k, 152, 45); Next(k + 1, 45, 90); Next(k + 2, 90, 180); Next(k + 3, 180, 117);
    Next(k + 4, 117, 234); Next(k + 5, 234, 201); Next(k + 6, 201, 143); Next(k + 7, 143, 3);
    Next(k + 8, 3, 6); Next(k + 9, 6, 12); Next(k + 10, 12, 24); Next(k + 11, 24, 48);
    Next(k + 12, 48, 96); Next(k + 13, 96, 192); Next(k + 14, 192, 157); Next(k + 15, 157, 39);
    Next(k + 16, 39, 78);
  }

  lemma From34(k: nat)
    requires Power(k) == 78 && NoOneTo(k)
    ensures Power(k + 17) == 10 && NoOneTo(k + 17)
  {
    hide Power, NoOneTo;
    Next(k, 78, 156); Next(k + 1, 156, 37); Next(k + 2, 37, 74); Next(k + 3, 74, 148);
    Next(k + 4, 148, 53); Next(k + 5, 53, 106); Next(k + 6, 106, 212); Next(k + 7, 212, 181);
    Next(k + 8, 181, 119); Next(k + 9, 119, 238); Next(k + 10, 238, 193); Next(k + 11, 193, 159);
    Next(k + 12, 159, 35); Next(k + 13, 35, 70); Next(k + 14, 70, 140); Next(k + 15, 140, 5);
    Next(k + 16, 5, 10);
  }

  lemma From51(k: nat)
    requires Power(k) == 10 && NoOneTo(k)
    ensures Power(k + 17) == 153 && NoOneTo(k + 17)
  {
    hide Power, NoOneTo;
    Next(k, 10, 20); Next(k + 1, 20, 40); Next(k + 2, 40, 80); Next(k + 3, 80, 160);
    Next(k + 4, 160, 93); Next(k + 5, 93, 186); Next(k + 6, 186, 105); Next(k + 7, 105, 210);
    Next(k + 8, 210, 185); Next(k + 9, 185, 111); Next(k + 10, 111, 222); Next(k + 11, 222, 161);
    Next(k + 12, 161, 95); Next(k + 13, 95, 190); Next(k + 14, 190, 97); Next(k + 15, 97, 194);
    Next(k + 16, 194, 153);
  }

  lemma From68(k: nat)
    requires Power(k) == 153 && NoOneTo(k)
    ensures Power(k + 17) == 214 && NoOneTo(k + 17)
  {
    hide Power, NoOneTo;
    Next(k, 153, 47); Next(k + 1, 47, 94); Next(k + 2, 94, 188); Next(k + 3, 188, 101);
    Next(k + 4, 101, 202); Next(k + 5, 202, 137); Next(k + 6, 137, 15); Next(k + 7, 15, 30);
    Next(k + 8, 30, 60); Next(k + 9, 60, 120); Next(k + 10, 120, 240); Next(k + 11, 240, 253);
    Next(k + 12, 253, 231); Next(k + 13, 231, 211); Next(k + 14, 211, 187); Next(k + 15, 187, 107);
    Next(k + 16, 107, 214);
  }

  lemma From85(k: nat)
    requires Power(k) == 214 && NoOneTo(k)
    ensures Power(k + 17) == 68 && NoOneTo(k + 17)
  {
    hide Power, NoOneTo;
    Next(k, 214, 177); Next(k + 1, 177, 127); Next(k + 2, 127, 254); Next(k + 3, 254, 225);
    Next(k + 4, 225, 223); Next(k + 5, 223, 163); Next(k + 6, 163, 91); Next(k + 7, 91, 182);
    Next(k + 8, 182, 113); Next(k + 9, 113, 226); Next(k + 10, 226, 217); Next(k + 11, 217, 175);
    Next(k + 12, 175, 67); Next(k + 13, 67, 134); Next(k + 14, 134, 17); Next(k + 15, 17, 34);
    Next(k + 16, 34, 68);
  }

  lemma From102(k: nat)
    requires Power(k) == 68 && NoOneTo(k)
    ensures Power(k + 17) == 147 && NoOneTo(k + 17)
  {
    hide Power, NoOneTo;
    Next(k, 68, 136); Next(k + 1, 136, 13); Next(k + 2, 13, 26); Next(k + 3, 26, 52);
    Next(k + 4, 52, 104); Next(k + 5, 104, 208); Next(k + 6, 208, 189); Next(k + 7, 189, 103);
    Next(k + 8, 103, 206); Next(k + 9, 206, 129); Next(k + 10, 129, 31); Next(k + 11, 31, 62);
    Next(k + 12, 62, 124); Next(k + 13, 124, 248); Next(k + 14, 248, 237); Next(k + 15, 237, 199);
    Next(k + 16, 199, 147);
  }

  lemma From119(k: nat)
    requires Power(k) == 147 && NoOneTo(k)
    ensures Power(k + 17) == 79 && NoOneTo(k + 17)
  {
    hide Power, NoOneTo;
    Next(k, 147, 59); Next(k + 1, 59, 118); Next(k + 2, 118, 236); Next(k + 3, 236, 197);
    Next(k + 4, 197, 151); Next(k + 5, 151, 51); Next(k + 6, 51, 102); Next(k + 7, 102, 204);
    Next(k + 8, 204, 133); Next(k + 9, 133, 23); Next(k + 10, 23, 46); Next(k + 11, 46, 92);
    Next(k + 12, 92, 184); Next(k + 13, 184, 109); Next(k + 14, 109, 218); Next(k + 15, 218, 169);
    Next(k + 16, 169, 79);
  }

  lemma From136(k: nat)
    requires Power(k) == 79 && NoOneTo(k)
    ensures Power(k + 17) == 146 && NoOneTo(k + 17)
  {
    hide Power, NoOneTo;
    Next(k, 79, 158); Next(k + 1, 158, 33); Next(k + 2, 33, 66); Next(k + 3, 66, 132);
    Next(k + 4, 132, 21); Next(k + 5, 21, 42); Next(k + 6, 42, 84); Next(k + 7, 84, 168);
    Next(k + 8, 168, 77); Next(k + 9, 77, 154); Next(k + 10, 154, 41); Next(k + 11, 41, 82);
    Next(k + 12, 82, 164); Next(k + 13, 164, 85); Next(k + 14, 85, 170); Next(k + 15, 170, 73);
    Next(k + 16, 73, 146);
  }

  lemma From153(k: nat)
    requires Power(k) == 146 && NoOneTo(k)
    ensures Power(k + 17) == 215 && NoOneTo(k + 17)
  {
    hide Power, NoOneTo;
    Next(k, 146, 57); Next(k + 1, 57, 114); Next(k + 2, 114, 228); Next(k + 3, 228, 213);
    Next(k + 4, 213, 183); Next(k + 5, 183, 115); Next(k + 6, 115, 230); Next(k + 7, 230, 209);
    Next(k + 8, 209, 191); Next(k + 9, 191, 99); Next(k + 10, 99, 198); Next(k + 11, 198, 145);
    Next(k + 12, 145, 63); Next(k + 13, 63, 126); Next(k + 14, 126, 252); Next(k + 15, 252, 229);
    Next(k + 16, 229, 215);
  }

  lemma From170(k: nat)
    requires Power(k) == 215 && NoOneTo(k)
    ensures Power(k + 17) == 220 && NoOneTo(k + 17)
  {
    hide Power, NoOneTo;
    Next(k, 215, 179); Next(k + 1, 179, 123); Next(k + 2, 123, 246); Next(k + 3, 246, 241);
    Next(k + 4, 241, 255); Next(k + 5, 255, 227); Next(k + 6, 227, 219); Next(k + 7, 219, 171);
    Next(k + 8, 171, 75); Next(k + 9, 75, 150); Next(k + 10, 150, 49); Next(k + 11, 49, 98);
    Next(k + 12, 98, 196); Next(k + 13, 196, 149); Next(k + 14, 149, 55); Next(k + 15, 55, 110);
    Next(k + 16, 110, 220);
  }

  lemma From187(k: nat)
    requires Power(k) == 220 && NoOneTo(k)
    ensures Power(k + 17) == 221 && NoOneTo(k + 17)
  {
    hide Power, NoOneTo;
    Next(k, 220, 165); Next(k + 1, 165, 87); Next(k + 2, 87, 174); Next(k + 3, 174, 65);
    Next(k + 4, 65, 130); Next(k + 5, 130, 25); Next(k + 6, 25, 50); Next(k + 7, 50, 100);
    Next(k + 8, 100, 200); Next(k + 9, 200, 141); Next(k + 10, 141, 7); Next(k + 11, 7, 14);
    Next(k + 12, 14, 28); Next(k + 13, 28, 56); Next(k + 14, 56, 112); Next(k + 15, 112, 224);
    Next(k + 16, 224, 221);
  }

  lemma From204(k: nat)
    requires Power(k) == 221 && NoOneTo(k)
    ensures Power(k + 17) == 69 && NoOneTo(k + 17)
  {
    hide Power, NoOneTo;
    Next(k, 221, 167); Next(k + 1, 167, 83); Next(k + 2, 83, 166); Next(k + 3, 166, 81);
    Next(k + 4, 81, 162); Next(k + 5, 162, 89); Next(k + 6, 89, 178); Next(k + 7, 178, 121);
    Next(k + 8, 121, 242); Next(k + 9, 242, 249); Next(k + 10, 249, 239); Next(k + 11, 239, 195);
    Next(k + 12, 195, 155); Next(k + 13, 155, 43); Next(k + 14, 43, 86); Next(k + 15, 86, 172);
    Next(k + 16, 172, 69);
  }

  lemma From221(k: nat)
    requires Power(k) == 69 && NoOneTo(k)
    ensures Power(k + 17) == 11 && NoOneTo(k + 17)
  {
    hide Power, NoOneTo;
    Next(k, 69, 138); Next(k + 1, 138, 9); Next(k + 2, 9, 18); Next(k + 3, 18, 36);
    Next(k + 4, 36, 72); Next(k + 5, 72, 144); Next(k + 6, 144, 61); Next(k + 7, 61, 122);
    Next(k + 8, 122, 244); Next(k + 9, 244, 245); Next(k + 10, 245, 247); Next(k + 11, 247, 243);
    Next(k + 12, 243, 251); Next(k + 13, 251, 235); Next(k + 14, 235, 203); Next(k + 15, 203, 139);
    Next(k + 16, 139, 11);
  }

  lemma From238(k: nat)
    requires Power(k) == 11 && NoOneTo(k)
    ensures Power(k + 16) == 142 && NoOneTo(k + 16)
  {
    hide Power, NoOneTo;
    Next(k, 11, 22); Next(k + 1, 22, 44); Next(k + 2, 44, 88); Next(k + 3, 88, 176);
    Next(k + 4, 176, 125); Next(k + 5, 125, 250); Next(k + 6, 250, 233); Next(k + 7, 233, 207);
    Next(k + 8, 207, 131); Next(k + 9, 131, 27); Next(k + 10, 27, 54); Next(k + 11, 54, 108);
    Next(k + 12, 108, 216); Next(k + 13, 216, 173); Next(k + 14, 173, 71); Next(k + 15, 71, 142);
  }

  /** No power of 2 from the first to the 254th is 1. */
  lemma NoEarlyOne()
    ensures NoOneTo(254)
  {
    PowerZero();
    hide Power, NoOneTo;
    From0(0); From17(17); From34(34); From51(51); From68(68); From85(85);
    From102(102); From119(119); From136(136); From153(153); From170(170); From187(187);
    From204(204); From221(221); From238(238);
  }

  lemma PowerZero()
    ensures Power(0) == 1 && NoOneTo(0)
  {
  }

  // ----- The group ------------------------------------------------------------------------------

  lemma DoubleNonzero(z: Byte)
    requires z != 0
    ensures Double(z) != 0
  {
    DoubleIs(z);
    hide Double, Xor;
  }

  lemma DoubleInjective(a: Byte, b: Byte)
    requires Double(a) == Double(b)
    ensures a == b
  {
    hide Double, Xor;
    DoubleXor(a, b);
    XorSelf(Double(a));
    if Xor(a, b) != 0 {
      DoubleNonzero(Xor(a, b));
    }
    XorCancels(a, b);
  }

  lemma {:induction false} PowerNonzero(i: nat)
    ensures Power(i) != 0
  {
    hide Double;
    if i > 0 {
      PowerNonzero(i - 1);
      DoubleNonzero(Power(i - 1));
    }
  }

  lemma {:induction false} PowerCancels(i: nat, j: nat)
    requires Power(i) == Power(i + j)
    ensures Power(j) == 1
  {
    hide Double;
    if i > 0 {
      DoubleInjective(Power(i - 1), Power(i - 1 + j));
      PowerCancels(i - 1, j);
    }
  }

  /** The first 255 powers of 2 are all different. */
  lemma PowersDiffer(i: nat, j: nat)
    requires i < j < 255
    ensures Power(i) != Power(j)
  {
    NoEarlyOne();
    if Power(i) == Power(j) {
      PowerCancels(i, j - i);
    }
  }

  lemma {:induction false} PowerAdds(i: nat, j: nat)
    ensures Mul(Power(i), Power(j)) == Power(i + j)
  {
    hide Mul, Double;
    if j == 0 {
      MulOne(Power(i));
    } else {
      PowerAdds(i, j - 1);
      MulDouble(Power(i), Power(j - 1));
    }
  }

  /** The nonzero bytes below n. */
  function NonzeroBelow(n: nat): set<Byte>
    requires 1 <= n <= 256
  {
    if n == 1 then {} else NonzeroBelow(n - 1) + {n - 1}
  }

  lemma {:induction false} CountNonzero(n: nat)
    requires 1 <= n <= 256
    ensures |NonzeroBelow(n)| == n - 1
    ensures forall b :: b in NonzeroBelow(n) <==> 1 <= b < n
  {
    if n > 1 {
      CountNonzero(n - 1);
    }
  }

  function PowersTo(n: nat): set<Byte> {
    if n == 0 then {} else PowersTo(n - 1) + {Power(n - 1)}
  }

  lemma {:induction false} PowerAmong(n: nat, b: Byte) returns (i: nat)
    requires b in PowersTo(n)
    ensures i < n && Power(i) == b
  {
    hide Double;
    if b == Power(n - 1) {
      i := n - 1;
    } else {
      i := PowerAmong(n - 1, b);
    }
  }

  lemma {:induction false} CountPowers(n: nat)
    requires n <= 255
    ensures |PowersTo(n)| == n && 0 !in PowersTo(n)
  {
    hide Double;
    if n > 0 {
      CountPowers(n - 1);
      PowerNonzero(n - 1);
      if Power(n - 1) in PowersTo(n - 1) {
        var i := PowerAmong(n - 1, Power(n - 1));
        PowersDiffer(i, n - 1);
      }
    }
  }

  /** Every nonzero element is a power of 2. */
  lemma NonzeroIsPower(b: Byte) returns (i: nat)
    requires b != 0
    ensures i < 255 && Power(i) == b
  {
    hide Power, PowersTo, NonzeroBelow;
    CountPowers(255);
    CountNonzero(256);
    SameSize(PowersTo(255), NonzeroBelow(256));
    assert b in NonzeroBelow(256);
    i := PowerAmong(255, b);
  }

  /** A product is zero only if a factor is. */
  lemma NoZeroDivisors(a: Byte, b: Byte)
    requires Mul(a, b) == 0
    ensures a == 0 || b == 0
  {
    hide Mul, Power;
    if a != 0 && b != 0 {
      var i := NonzeroIsPower(a);
      var j := NonzeroIsPower(b);
      PowerAdds(i, j);
      PowerNonzero(i + j);
    }
  }
}
