/** Reed-Solomon error correction over GF(256), section 7.5.2 of ISO/IEC 18004:2015.
    A polynomial is the sequence of its coefficients, the highest power first. */
module ReedSolomon {
  import opened Gf256
  import opened Wrappers

  type Poly = seq<Byte>

  function Add(a: Byte, b: Byte): Byte {
    XorByte(a, b);
    Xor(a, b)
  }

  function Zeros(n: nat): Poly {
    seq(n, _ => 0)
  }

  function Sum(p: Poly, q: Poly): (s: Poly)
    requires |p| == |q|
  {
    seq(|p|, i requires 0 <= i < |p| => Add(p[i], q[i]))
  }

  function Times(c: Byte, p: Poly): Poly {
    seq(|p|, i requires 0 <= i < |p| => Mul(c, p[i]))
  }

  /** The product of two polynomials, by the coefficients of the first from the highest down. */
  function Product(q: Poly, g: Poly): (r: Poly)
    requires |g| > 0
    ensures |r| == |q| + |g| - 1
  {
    if q == [] then Zeros(|g| - 1)
    else
      var n := |q| - 1;
      Sum(Product(q[..n], g) + [0], Zeros(n) + Times(q[n], g))
  }

  /** The value at x, by Horner's rule. */
  function Eval(p: Poly, x: Byte): Byte {
    if p == [] then 0 else Add(Mul(Eval(p[..|p| - 1], x), x), p[|p| - 1])
  }

  /** The powers of the generator element 2. */
  function Power(i: nat): Byte {
    if i == 0 then 1 else Double(Power(i - 1))
  }

  /** The product of (x - 2^i) over i < n; minus is plus here. */
  function Generator(n: nat): (g: Poly)
    ensures |g| == n + 1
  {
    if n == 0 then [1] else Product(Generator(n - 1), [1, Power(n - 1)])
  }

  // ----- The ring of polynomials as seen by evaluation ------------------------------

  lemma {:induction false} EvalZeros(n: nat, p: Poly, x: Byte)
    ensures Eval(Zeros(n) + p, x) == Eval(p, x)
    decreases |p|, n
  {
    hide Mul, Add;
    var s := Zeros(n) + p;
    if p != [] {
      EvalZeros(n, p[..|p| - 1], x);
      assert s[..|s| - 1] == Zeros(n) + p[..|p| - 1];
    } else if n > 0 {
      EvalZeros(n - 1, p, x);
      assert s[..n - 1] == Zeros(n - 1) + p;
      AddMulZero(x);
    }
  }

  lemma AddMulZero(x: Byte)
    ensures Add(Mul(0, x), 0) == 0
  {
    MulZero(x);
    XorZero(0);
  }

  lemma AddFacts(a: Byte, b: Byte, c: Byte)
    ensures Add(a, 0) == a && Add(0, a) == a && Add(a, a) == 0
    ensures Add(a, b) == Add(b, a)
    ensures Add(a, Add(b, c)) == Add(Add(a, b), c)
  {
    hide Xor;
    XorByte(a, b);
    XorByte(b, c);
    XorZero(a);
    XorSelf(a);
    XorCommutes(a, b);
    XorAssociates(a, b, c);
  }

  lemma AddShuffle(a: Byte, b: Byte, c: Byte, d: Byte)
    ensures Add(Add(a, b), Add(c, d)) == Add(Add(a, c), Add(b, d))
  {
    hide Xor;
    XorShuffle(a, b, c, d);
  }

  lemma Distributes(x: Byte, a: Byte, b: Byte)
    ensures Mul(x, Add(a, b)) == Add(Mul(x, a), Mul(x, b))
    ensures Mul(Add(a, b), x) == Add(Mul(a, x), Mul(b, x))
  {
    hide Xor, Mul;
    Distributive(x, a, b);
  }

  lemma {:induction false} EvalSum(p: Poly, q: Poly, x: Byte)
    requires |p| == |q|
    ensures Eval(Sum(p, q), x) == Add(Eval(p, x), Eval(q, x))
  {
    hide Mul, Add;
    if p == [] {
      AddFacts(0, 0, 0);
    } else {
      var n := |p| - 1;
      EvalSum(p[..n], q[..n], x);
      assert Sum(p, q)[..n] == Sum(p[..n], q[..n]);
      var a, b := Eval(p[..n], x), Eval(q[..n], x);
      Distributes(x, a, b);
      AddShuffle(Mul(a, x), Mul(b, x), p[n], q[n]);
    }
  }

  lemma {:induction false} EvalTimes(c: Byte, p: Poly, x: Byte)
    ensures Eval(Times(c, p), x) == Mul(c, Eval(p, x))
  {
    hide Mul, Add;
    if p == [] {
      MulZero(c);
    } else {
      var n := |p| - 1;
      EvalTimes(c, p[..n], x);
      assert Times(c, p)[..n] == Times(c, p[..n]);
      Associative(c, Eval(p[..n], x), x);
      Distributes(c, Mul(Eval(p[..n], x), x), p[n]);
    }
  }

  lemma EvalShift(p: Poly, x: Byte)
    ensures Eval(p + [0], x) == Mul(Eval(p, x), x)
  {
    hide Mul, Add;
    assert (p + [0])[..|p|] == p;
    AddFacts(Mul(Eval(p, x), x), 0, 0);
  }

  /** Product is multiplication: the value of a product is the product of the values. */
  lemma {:induction false} EvalProduct(q: Poly, g: Poly, x: Byte)
    requires |g| > 0
    ensures Eval(Product(q, g), x) == Mul(Eval(q, x), Eval(g, x))
  {
    hide Mul, Add;
    if q == [] {
      EvalZeros(|g| - 1, [], x);
      assert Zeros(|g| - 1) + [] == Zeros(|g| - 1);
      MulZero(Eval(g, x));
    } else {
      var n := |q| - 1;
      var low := Product(q[..n], g);
      EvalProduct(q[..n], g, x);
      EvalSum(low + [0], Zeros(n) + Times(q[n], g), x);
      EvalShift(low, x);
      EvalZeros(n, Times(q[n], g), x);
      EvalTimes(q[n], g, x);
      var a, b := Eval(q[..n], x), Eval(g, x);
      Associative(a, b, x);
      Commutative(b, x);
      Associative(a, x, b);
      Distributes(b, Mul(a, x), q[n]);
    }
  }

  lemma EvalLinear(r: Byte, x: Byte)
    ensures Eval([1, r], x) == Add(x, r)
  {
    hide Mul, Add;
    MulZero(x);
    AddFacts(1, 0, 0);
    MulOne(x);
    var one: Poly := [1];
    assert one[..0] == [];
    assert Eval(one, x) == 1;
    assert [1, r][..1] == one;
  }

  /** The generator vanishes at 2^0, ..., 2^(n-1). */
  lemma {:induction false} GeneratorRoots(n: nat, i: nat)
    requires i < n
    ensures Eval(Generator(n), Power(i)) == 0
  {
    hide Mul, Add, Product, Eval;
    var x := Power(i);
    EvalProduct(Generator(n - 1), [1, Power(n - 1)], x);
    EvalLinear(Power(n - 1), x);
    if i < n - 1 {
      GeneratorRoots(n - 1, i);
      MulZero(Add(x, Power(n - 1)));
    } else {
      AddFacts(x, x, x);
      MulZero(Eval(Generator(n - 1), x));
    }
  }

  // ----- The divisor: the generator without its leading one ---------------------------

  /** The coefficients of a product with a monic linear factor. */
  lemma {:induction false} ProductLinear(q: Poly, r: Byte, k: nat)
    requires k <= |q|
    ensures Product(q, [1, r])[k]
         == Add(if k < |q| then q[k] else 0, if k > 0 then Mul(r, q[k - 1]) else 0)
  {
    hide Mul, Add;
    if q == [] {
      AddFacts(0, 0, 0);
    } else {
      var n := |q| - 1;
      var low := Product(q[..n], [1, r]);
      var t := Times(q[n], [1, r]);
      assert t == [Mul(q[n], 1), Mul(q[n], r)];
      MulOne(q[n]);
      Commutative(q[n], r);
      AddFacts(if k <= n then low[k] else 0, 0, 0);
      if k <= n {
        ProductLinear(q[..n], r, k);
        AddFacts(if k < n then q[k] else 0, 0, 0);
        if k == n {
          AddFacts(if k > 0 then Mul(r, q[k - 1]) else 0, q[n], 0);
          AddFacts(q[n], 0, 0);
          AddFacts(0, if k > 0 then Mul(r, q[k - 1]) else 0, q[n]);
        }
      } else {
        AddFacts(Mul(r, q[n]), 0, 0);
      }
    }
  }

  lemma {:induction false} GeneratorMonic(n: nat)
    ensures Generator(n)[0] == 1
  {
    if n > 0 {
      hide Mul, Add, Product;
      GeneratorMonic(n - 1);
      ProductLinear(Generator(n - 1), Power(n - 1), 0);
      AddFacts(1, 0, 0);
    }
  }

  /** The generator of degree i, right-aligned in degree + 1 coefficients. */
  function Aligned(i: nat, degree: nat): (f: Poly)
    requires i <= degree
    ensures |f| == degree + 1
  {
    Zeros(degree - i) + Generator(i)
  }

  lemma AlignedStep(i: nat, degree: nat, m: nat)
    requires i < degree && 1 <= m <= degree
    ensures Aligned(i + 1, degree)[m]
         == Add(Mul(Aligned(i, degree)[m], Power(i)), if m < degree then Aligned(i, degree)[m + 1] else 0)
  {
    hide Mul, Add, Product;
    var g := Generator(i);
    var k := m - (degree - i - 1);
    var here := Aligned(i, degree)[m];
    var next := if m < degree then Aligned(i, degree)[m + 1] else 0;
    Commutative(here, Power(i));
    MulZero(Power(i));
    AddFacts(Mul(Power(i), here), next, 0);
    AddFacts(next, 0, 0);
    AddFacts(0, 0, 0);
    if k >= 0 {
      ProductLinear(g, Power(i), k);
    }
  }

  /** What the inner loop of `rsDivisor` does to the coefficients. */
  function Round(s: Poly, root: Byte): Poly {
    seq(|s|, j requires 0 <= j < |s| => Add(Mul(s[j], root), if j + 1 < |s| then s[j + 1] else 0))
  }

  lemma RoundAligned(i: nat, degree: nat)
    requires i < degree
    ensures Round(Aligned(i, degree)[1..], Power(i)) == Aligned(i + 1, degree)[1..]
  {
    hide Mul, Add, Product, Aligned, Generator, Power;
    var f, f' := Aligned(i, degree), Aligned(i + 1, degree);
    var s := Round(f[1..], Power(i));
    forall j | 0 <= j < degree
      ensures s[j] == f'[1..][j]
    {
      AlignedStep(i, degree, j + 1);
      assert f[1..][j] == f[j + 1];
    }
  }

  method MultiplyByRoot(result: array<Byte>, root: Byte)
    modifies result
    ensures result[..] == Round(old(result[..]), root)
  {
    hide Mul, Add;
    var j := 0;
    while j < result.Length
      invariant 0 <= j <= result.Length
      invariant forall k :: 0 <= k < j ==> result[k] == Round(old(result[..]), root)[k]
      invariant forall k :: j <= k < result.Length ==> result[k] == old(result[k])
    {
      var p := RsMul(result[j], root);
      result[j] := p;
      AddFacts(p, 0, 0);
      if j + 1 < result.Length {
        result[j] := Add(result[j], result[j + 1]);
      }
      j := j + 1;
    }
  }

  /** None when the source throws its RangeError. */
  method RsDivisor(degree: int) returns (r: Option<Poly>)
    ensures r.Some? <==> 1 <= degree <= 255
    ensures r.Some? ==> [1] + r.value == Generator(degree)
  {
    hide Mul, Add, Product, Aligned, Generator, Double, Round;
    if degree < 1 || degree > 255 {
      return None;
    }
    var result := new Byte[degree](_ => 0);
    result[degree - 1] := 1;
    AlignedStart(degree);
    var root: Byte := 1;
    var i := 0;
    while i < degree
      invariant 0 <= i <= degree
      invariant root == Power(i)
      invariant result[..] == Aligned(i, degree)[1..]
    {
      RoundAligned(i, degree);
      MultiplyByRoot(result, root);
      MulDouble(root, 1);
      root := RsMul(root, 2);
      i := i + 1;
    }
    AlignedEnd(degree);
    r := Some(result[..]);
  }

  lemma AlignedStart(degree: nat)
    requires degree > 0
    ensures Aligned(0, degree)[1..] == Zeros(degree - 1) + [1]
  {
  }

  lemma AlignedEnd(degree: nat)
    ensures [1] + Aligned(degree, degree)[1..] == Generator(degree)
  {
    GeneratorMonic(degree);
  }

  // ----- Division ----------------------------------------------------------------------

  /** The remainder register of `rsRemainder` after it has taken in all of the data. */
  function Remainder(data: Poly, divisor: Poly): (r: Poly)
    requires |divisor| > 0
    ensures |r| == |divisor|
  {
    if data == [] then Zeros(|divisor|)
    else
      var n := |data| - 1;
      var before := Remainder(data[..n], divisor);
      Sum(before[1..] + [0], Times(Add(data[n], before[0]), divisor))
  }

  function Quotient(data: Poly, divisor: Poly): (q: Poly)
    requires |divisor| > 0
    ensures |q| == |data|
  {
    if data == [] then []
    else
      var n := |data| - 1;
      Quotient(data[..n], divisor) + [Add(data[n], Remainder(data[..n], divisor)[0])]
  }

  method RsRemainder(data: Poly, divisor: Poly) returns (result: Poly)
    requires |divisor| > 0
    ensures result == Remainder(data, divisor)
  {
    hide Mul, Add;
    result := Zeros(|divisor|);
    assert data[..0] == [];
    var k := 0;
    while k < |data|
      invariant 0 <= k <= |data|
      invariant result == Remainder(data[..k], divisor)
    {
      assert data[..k + 1][..k] == data[..k];
      var factor := Add(data[k], result[0]);
      result := result[1..];
      result := result + [0];
      ghost var shifted := result;
      var i := 0;
      while i < |divisor|
        invariant 0 <= i <= |divisor| == |result|
        invariant forall m :: 0 <= m < i ==> result[m] == Add(shifted[m], Mul(divisor[m], factor))
        invariant forall m :: i <= m < |divisor| ==> result[m] == shifted[m]
      {
        var product := RsMul(divisor[i], factor);
        result := result[i := Add(result[i], product)];
        i := i + 1;
      }
      forall m | 0 <= m < |divisor|
        ensures Mul(divisor[m], factor) == Mul(factor, divisor[m])
      {
        Commutative(divisor[m], factor);
      }
      assert result == Remainder(data[..k + 1], divisor);
      k := k + 1;
    }
    assert data[..k] == data;
  }

  lemma SumAt(p: Poly, q: Poly, k: nat)
    requires |p| == |q| && k < |p|
    ensures Sum(p, q)[k] == Add(p[k], q[k])
  {
    hide Mul, Add;
  }

  /** The last step of a product, coefficient by coefficient. */
  lemma ProductStep(q: Poly, g: Poly, k: nat)
    requires |q| > 0 && |g| > 0 && k < |q| + |g| - 1
    ensures var n := |q| - 1;
      Product(q, g)[k] == Add(if k < n + |g| - 1 then Product(q[..n], g)[k] else 0, if k >= n then Mul(q[n], g[k - n]) else 0)
  {
    hide Mul, Add, Sum;
    var n := |q| - 1;
    var before, last := Product(q[..n], g), Times(q[n], g);
    assert Product(q, g) == Sum(before + [0], Zeros(n) + last);
    hide Product;
    SumAt(before + [0], Zeros(n) + last, k);
    if k >= n {
      assert (Zeros(n) + last)[k] == last[k - n];
    }
  }

  lemma RemainderStep(data: Poly, divisor: Poly, i: nat)
    requires |data| > 0 && i < |divisor|
    ensures var n := |data| - 1; var before := Remainder(data[..n], divisor);
      Quotient(data, divisor)[n] == Add(data[n], before[0]) &&
      Quotient(data, divisor)[..n] == Quotient(data[..n], divisor) &&
      Remainder(data, divisor)[i] == Add(if i + 1 < |divisor| then before[i + 1] else 0, Mul(Quotient(data, divisor)[n], divisor[i]))
  {
    hide Mul, Add;
    var n := |data| - 1;
    var before := Remainder(data[..n], divisor);
    var factor := Add(data[n], before[0]);
    assert Remainder(data, divisor) == Sum(before[1..] + [0], Times(factor, divisor));
    assert Quotient(data, divisor) == Quotient(data[..n], divisor) + [factor];
    hide Remainder, Quotient;
    assert (before[1..] + [0])[i] == if i + 1 < |divisor| then before[i + 1] else 0;
  }

  /** Data followed by its remainder is a multiple of the divisor with its leading one. */
  lemma {:induction false} Divides(data: Poly, divisor: Poly)
    requires |divisor| > 0
    ensures Product(Quotient(data, divisor), [1] + divisor) == data + Remainder(data, divisor)
  {
    if data != [] {
      Divides(data[..|data| - 1], divisor);
      DividesStep(data, divisor);
    }
  }

  lemma DividesStep(data: Poly, divisor: Poly)
    requires |data| > 0 && |divisor| > 0
    requires var init := data[..|data| - 1];
      Product(Quotient(init, divisor), [1] + divisor) == init + Remainder(init, divisor)
    ensures Product(Quotient(data, divisor), [1] + divisor) == data + Remainder(data, divisor)
  {
    hide Mul, Add, Product, Remainder, Quotient;
    var n := |data| - 1;
    var q, g := Quotient(data, divisor), [1] + divisor;
    var before, after := Remainder(data[..n], divisor), Remainder(data, divisor);
    var factor := q[n];
    RemainderStep(data, divisor, 0);
    MulOne(factor);
    AddFacts(factor, before[0], 0);
    AddFacts(before[0], data[n], before[0]);
    AddFacts(data[n], before[0], before[0]);
    AddFacts(data[n], 0, 0);
    forall k | 0 <= k < n + 1 + |divisor|
      ensures Product(q, g)[k] == (data + after)[k]
    {
      ProductStep(q, g, k);
      if k < n {
        AddFacts(data[k], 0, 0);
        assert (data[..n] + before)[k] == data[k];
      } else if k > n {
        RemainderStep(data, divisor, k - n - 1);
        assert g[k - n] == divisor[k - n - 1];
      }
    }
  }

  /** A multiple of a monic polynomial is determined by its leading coefficients. */
  lemma {:induction false} QuotientIsUnique(p: Poly, q: Poly, g: Poly)
    requires |g| > 0 && g[0] == 1 && |p| == |q|
    requires forall k :: 0 <= k < |p| ==> Product(p, g)[k] == Product(q, g)[k]
    ensures p == q
  {
    hide Mul, Add, Product;
    if p != [] {
      var n := |p| - 1;
      var a, b := Product(p[..n], g), Product(q[..n], g);
      forall k | 0 <= k < n
        ensures a[k] == b[k]
      {
        ProductStep(p, g, k);
        ProductStep(q, g, k);
        AddFacts(a[k], 0, 0);
        AddFacts(b[k], 0, 0);
        assert Product(p, g)[k] == Product(q, g)[k];
      }
      QuotientIsUnique(p[..n], q[..n], g);
      ProductStep(p, g, n);
      ProductStep(q, g, n);
      assert Product(p, g)[n] == Product(q, g)[n];
      MulOne(p[n]);
      MulOne(q[n]);
      var z := if 1 < |g| then a[n] else 0;
      AddFacts(z, z, p[n]);
      AddFacts(z, z, q[n]);
      AddFacts(p[n], 0, 0);
      AddFacts(q[n], 0, 0);
    }
  }

  // ----- The code ------------------------------------------------------------------------

  /** The codewords with the given number of check symbols: the multiples of the generator. */
  ghost predicate Codeword(word: Poly, degree: nat)
  {
    exists q: Poly :: word == Product(q, Generator(degree))
  }

  /** Data followed by `rsRemainder(data, rsDivisor(degree))` is a multiple of the generator,
      it vanishes at every root 2^0, ..., 2^(degree-1), and no other tail of check symbols
      makes the data a multiple of the generator. */
  lemma RemainderCompletesCodeword(data: Poly, divisor: Poly, degree: nat)
    requires degree > 0 && [1] + divisor == Generator(degree)
    ensures Codeword(data + Remainder(data, divisor), degree)
    ensures forall i :: 0 <= i < degree ==> Eval(data + Remainder(data, divisor), Power(i)) == 0
    ensures forall tail: Poly :: |tail| == degree && Codeword(data + tail, degree) ==> tail == Remainder(data, divisor)
  {
    hide Mul, Add, Product, Generator, Remainder, Quotient, Eval, Power;
    var g := Generator(degree);
    var q := Quotient(data, divisor);
    Divides(data, divisor);
    forall i | 0 <= i < degree
      ensures Eval(data + Remainder(data, divisor), Power(i)) == 0
    {
      EvalProduct(q, g, Power(i));
      GeneratorRoots(degree, i);
      MulZero(Eval(q, Power(i)));
    }
    forall tail: Poly | |tail| == degree && Codeword(data + tail, degree)
      ensures tail == Remainder(data, divisor)
    {
      var p: Poly :| data + tail == Product(p, g);
      assert |p| == |data|;
      QuotientIsUnique(p, q, g);
      assert (data + tail)[|data|..] == tail;
      assert (data + Remainder(data, divisor))[|data|..] == Remainder(data, divisor);
    }
  }
}
