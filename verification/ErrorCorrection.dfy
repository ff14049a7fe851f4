/** What the check symbols are for: different codewords differ in more places than there are check
    symbols, so that damage to at most half as many places cannot turn one into another. */
module ErrorCorrection {
  import opened Gf256
  import opened GfOrder
  import opened ReedSolomon

  function Pow(x: Byte, i: nat): Byte {
    if i == 0 then 1 else Mul(Pow(x, i - 1), x)
  }

  /** One term of a sum of powers. */
  datatype Term = Term(c: Byte, x: Byte)

  /** The sum of c * x^i over the terms. */
  function PowerSum(terms: seq<Term>, i: nat): Byte {
    if terms == [] then 0 else Add(Mul(terms[0].c, Pow(terms[0].x, i)), PowerSum(terms[1..], i))
  }

  /** The terms with each c multiplied by the difference of its x from y. */
  function Scaled(terms: seq<Term>, y: Byte): seq<Term> {
    seq(|terms|, k requires 0 <= k < |terms| => Term(Mul(terms[k].c, Add(terms[k].x, y)), terms[k].x))
  }

  lemma {:induction false} ScaledSum(terms: seq<Term>, y: Byte, i: nat)
    ensures PowerSum(Scaled(terms, y), i) == Add(PowerSum(terms, i + 1), Mul(PowerSum(terms, i), y))
  {
    hide Mul, Add;
    if terms == [] {
      AddMulZero(y);
      AddFacts(0, Mul(0, y), 0);
    } else {
      var t, rest := terms[0], terms[1..];
      ScaledSum(rest, y, i);
      assert Scaled(terms, y)[1..] == Scaled(rest, y);
      TermScaled(t, y, i);
      Distributes(y, Mul(t.c, Pow(t.x, i)), PowerSum(rest, i));
      AddShuffle(Mul(t.c, Pow(t.x, i + 1)), Mul(Mul(t.c, Pow(t.x, i)), y), PowerSum(rest, i + 1), Mul(PowerSum(rest, i), y));
    }
  }

  lemma TermScaled(t: Term, y: Byte, i: nat)
    ensures Mul(Mul(t.c, Add(t.x, y)), Pow(t.x, i)) == Add(Mul(t.c, Pow(t.x, i + 1)), Mul(Mul(t.c, Pow(t.x, i)), y))
  {
    hide Mul, Add;
    var p := Pow(t.x, i);
    assert Pow(t.x, i + 1) == Mul(p, t.x);
    Associative(t.c, Add(t.x, y), p);
    Distributes(p, t.x, y);
    Distributes(t.c, Mul(t.x, p), Mul(y, p));
    Commutative(t.x, p);
    Commutative(y, p);
    Associative(t.c, p, y);
  }

  predicate Different(terms: seq<Term>) {
    forall i, j :: 0 <= i < j < |terms| ==> terms[i].x != terms[j].x
  }

  /** As many vanishing power sums as there are terms, with different x, force every c to 0. */
  lemma {:induction false} Vandermonde(terms: seq<Term>)
    requires Different(terms) && forall i :: 0 <= i < |terms| ==> PowerSum(terms, i) == 0
    ensures forall k :: 0 <= k < |terms| ==> terms[k].c == 0
    decreases |terms|
  {
    hide Mul, Add, Pow, PowerSum, Scaled;
    if terms != [] {
      var t, rest := terms[0], terms[1..];
      var scaled := Scaled(rest, t.x);
      ScaledShape(rest, t.x);
      forall i | 0 <= i < |rest|
        ensures PowerSum(scaled, i) == 0
      {
        Eliminates(terms, i);
      }
      Vandermonde(scaled);
      forall k | 0 <= k < |rest|
        ensures rest[k].c == 0
      {
        assert scaled[k].c == 0;
        assert rest[k].x != t.x by {
          assert rest[k] == terms[k + 1];
        }
        Unscale(rest[k], t.x);
      }
      FirstTerm(terms);
      forall k | 0 <= k < |terms|
        ensures terms[k].c == 0
      {
        assert k > 0 ==> terms[k] == rest[k - 1];
      }
    }
  }

  lemma ScaledShape(terms: seq<Term>, y: Byte)
    ensures |Scaled(terms, y)| == |terms|
    ensures forall k :: 0 <= k < |terms| ==>
              Scaled(terms, y)[k] == Term(Mul(terms[k].c, Add(terms[k].x, y)), terms[k].x)
    ensures Different(terms) ==> Different(Scaled(terms, y))
  {
    hide Mul, Add;
  }

  lemma Unscale(t: Term, y: Byte)
    requires Mul(t.c, Add(t.x, y)) == 0 && t.x != y
    ensures t.c == 0
  {
    hide Mul, Xor;
    NoZeroDivisors(t.c, Add(t.x, y));
    if Add(t.x, y) == 0 {
      XorCancels(t.x, y);
    }
  }

  lemma Eliminates(terms: seq<Term>, i: nat)
    requires terms != [] && PowerSum(terms, i) == 0 && PowerSum(terms, i + 1) == 0
    ensures PowerSum(Scaled(terms[1..], terms[0].x), i) == 0
  {
    hide Mul, Add;
    var t, rest := terms[0], terms[1..];
    var p := Pow(t.x, i);
    ScaledSum(rest, t.x, i);
    SumIsZero(Mul(t.c, p), PowerSum(rest, i));
    SumIsZero(Mul(t.c, Pow(t.x, i + 1)), PowerSum(rest, i + 1));
    Associative(t.c, p, t.x);
    AddFacts(PowerSum(rest, i + 1), 0, 0);
  }

  lemma SumIsZero(a: Byte, b: Byte)
    requires Add(a, b) == 0
    ensures a == b
  {
    hide Xor;
    XorCancels(a, b);
  }

  lemma FirstTerm(terms: seq<Term>)
    requires terms != [] && PowerSum(terms, 0) == 0 && forall k :: 0 <= k < |terms| - 1 ==> terms[1..][k].c == 0
    ensures terms[0].c == 0
  {
    hide Mul, Add;
    NoTerms(terms[1..], 0);
    MulOne(terms[0].c);
    AddFacts(terms[0].c, 0, 0);
  }

  lemma {:induction false} NoTerms(terms: seq<Term>, i: nat)
    requires forall k :: 0 <= k < |terms| ==> terms[k].c == 0
    ensures PowerSum(terms, i) == 0
  {
    hide Mul, Add;
    if terms != [] {
      NoTerms(terms[1..], i);
      MulZero(Pow(terms[0].x, i));
      AddFacts(0, 0, 0);
    }
  }

  // ----- Polynomials as sums of powers ------------------------------------------------------------

  lemma {:induction false} EvalHead(p: Poly, x: Byte)
    requires p != []
    ensures Eval(p, x) == Add(Mul(p[0], Pow(x, |p| - 1)), Eval(p[1..], x))
    decreases |p|
  {
    hide Mul, Add;
    var n := |p| - 1;
    var init := p[..n];
    if n == 0 {
      assert init == [] && p[1..] == [];
      AddMulZero(x);
      MulZero(x);
      MulOne(p[0]);
      AddFacts(p[0], 0, 0);
    } else {
      EvalHead(init, x);
      assert p[1..][..n - 1] == init[1..];
      var a, b := Mul(p[0], Pow(x, n - 1)), Eval(init[1..], x);
      Distributes(x, a, b);
      Associative(p[0], Pow(x, n - 1), x);
      AddFacts(Mul(a, x), Mul(b, x), p[n]);
    }
  }

  lemma {:induction false} PowOfPower(i: nat, t: nat)
    ensures Pow(Power(i), t) == Power(i * t)
  {
    hide Mul, Power;
    if t == 0 {
      PowerZero();
    } else {
      PowOfPower(i, t - 1);
      PowerAdds(i * (t - 1), i);
      assert i * (t - 1) + i == i * t;
    }
  }

  /** The nonzero coefficients, each with the power of 2 that its place stands for. */
  function Errors(e: Poly): seq<Term> {
    if e == [] then []
    else (if e[0] != 0 then [Term(e[0], Power(|e| - 1))] else []) + Errors(e[1..])
  }

  lemma {:induction false} EvalIsSum(e: Poly, i: nat)
    ensures Eval(e, Power(i)) == PowerSum(Errors(e), i)
    decreases |e|
  {
    hide Mul, Add, Power;
    if e != [] {
      var t := |e| - 1;
      EvalHead(e, Power(i));
      EvalIsSum(e[1..], i);
      PowOfPower(i, t);
      PowOfPower(t, i);
      assert i * t == t * i;
      if e[0] == 0 {
        MulZero(Pow(Power(i), t));
        AddFacts(Eval(e[1..], Power(i)), 0, 0);
        assert Errors(e) == Errors(e[1..]);
      } else {
        assert Errors(e)[1..] == Errors(e[1..]);
      }
    }
  }

  lemma {:induction false} ErrorPlace(e: Poly, k: nat) returns (j: nat)
    requires k < |Errors(e)|
    ensures j < |e| && Errors(e)[k].x == Power(j) && Errors(e)[k].c != 0
    decreases |e|
  {
    hide Power;
    if e[0] == 0 {
      j := ErrorPlace(e[1..], k);
    } else if k == 0 {
      j := |e| - 1;
    } else {
      j := ErrorPlace(e[1..], k - 1);
    }
  }

  lemma {:induction false} ErrorsDiffer(e: Poly)
    requires |e| <= 255
    ensures Different(Errors(e))
    decreases |e|
  {
    hide Power;
    if e != [] {
      var rest := Errors(e[1..]);
      ErrorsDiffer(e[1..]);
      forall k | 0 <= k < |rest|
        ensures rest[k].x != Power(|e| - 1)
      {
        var j := ErrorPlace(e[1..], k);
        PowersDiffer(j, |e| - 1);
      }
    }
  }

  lemma {:induction false} NoErrors(e: Poly)
    requires Errors(e) == []
    ensures forall k :: 0 <= k < |e| ==> e[k] == 0
    decreases |e|
  {
    hide Power;
    if e != [] {
      NoErrors(e[1..]);
      forall k | 0 <= k < |e|
        ensures e[k] == 0
      {
        assert k > 0 ==> e[k] == e[1..][k - 1];
      }
    }
  }

  /** A word of at most 255 symbols that vanishes at the first d powers of 2 and has at most d
      nonzero symbols has none. */
  lemma LightWordIsZero(e: Poly, d: nat)
    requires |e| <= 255 && |Errors(e)| <= d
    requires forall i :: 0 <= i < d ==> Eval(e, Power(i)) == 0
    ensures forall k :: 0 <= k < |e| ==> e[k] == 0
  {
    hide Power, Eval, Errors, PowerSum;
    ErrorsDiffer(e);
    forall i | 0 <= i < |Errors(e)|
      ensures PowerSum(Errors(e), i) == 0
    {
      EvalIsSum(e, i);
    }
    Vandermonde(Errors(e));
    if Errors(e) != [] {
      var j := ErrorPlace(e, 0);
      assert false;
    }
    NoErrors(e);
  }

  // ----- The distance of the code -------------------------------------------------------------------

  /** In how many places two words differ. */
  function Distance(a: Poly, b: Poly): nat
    requires |a| == |b|
  {
    if a == [] then 0 else (if a[0] == b[0] then 0 else 1) + Distance(a[1..], b[1..])
  }

  lemma {:induction false} ErrorsOfSum(a: Poly, b: Poly)
    requires |a| == |b|
    ensures |Errors(Sum(a, b))| == Distance(a, b)
    decreases |a|
  {
    hide Add, Power;
    if a != [] {
      ErrorsOfSum(a[1..], b[1..]);
      assert Sum(a, b)[1..] == Sum(a[1..], b[1..]);
      AddFacts(a[0], b[0], 0);
      if Add(a[0], b[0]) == 0 {
        SumIsZero(a[0], b[0]);
      }
    }
  }

  lemma CodewordVanishes(word: Poly, degree: nat, i: nat)
    requires Codeword(word, degree) && i < degree
    ensures Eval(word, Power(i)) == 0
  {
    hide Mul, Product, Generator, Eval, Power;
    var q: Poly :| word == Product(q, Generator(degree));
    EvalProduct(q, Generator(degree), Power(i));
    GeneratorRoots(degree, i);
    MulZero(Eval(q, Power(i)));
  }

  /** Two different codewords of at most 255 symbols differ in more places than there are check
      symbols. */
  lemma CodewordsFarApart(a: Poly, b: Poly, degree: nat)
    requires |a| == |b| <= 255 && Codeword(a, degree) && Codeword(b, degree)
    requires Distance(a, b) <= degree
    ensures a == b
  {
    hide Add, Eval, Power, Errors, Distance, Codeword;
    var e := Sum(a, b);
    ErrorsOfSum(a, b);
    forall i | 0 <= i < degree
      ensures Eval(e, Power(i)) == 0
    {
      EvalSum(a, b, Power(i));
      CodewordVanishes(a, degree, i);
      CodewordVanishes(b, degree, i);
      AddFacts(0, 0, 0);
    }
    LightWordIsZero(e, degree);
    forall k | 0 <= k < |a|
      ensures a[k] == b[k]
    {
      assert e[k] == Add(a[k], b[k]);
      SumIsZero(a[k], b[k]);
    }
  }

  lemma {:induction false} Triangle(a: Poly, b: Poly, c: Poly)
    requires |a| == |b| == |c|
    ensures Distance(a, c) <= Distance(a, b) + Distance(b, c) && Distance(a, b) == Distance(b, a)
    decreases |a|
  {
    if a != [] {
      Triangle(a[1..], b[1..], c[1..]);
    }
  }

  /** A word damaged in at most half as many places as there are check symbols still determines
      the codeword it was. */
  lemma DamageIsRepairable(a: Poly, b: Poly, damaged: Poly, degree: nat)
    requires |a| == |b| == |damaged| <= 255 && Codeword(a, degree) && Codeword(b, degree)
    requires 2 * Distance(a, damaged) <= degree && 2 * Distance(b, damaged) <= degree
    ensures a == b
  {
    hide Codeword, Distance;
    Triangle(a, damaged, b);
    Triangle(b, damaged, a);
    CodewordsFarApart(a, b, degree);
  }

  lemma {:induction false} DistanceAtMost(a: Poly, b: Poly, same: nat)
    requires |a| == |b| && same <= |a| && a[..same] == b[..same]
    ensures Distance(a, b) <= |a| - same
    decreases |a|
  {
    if a != [] {
      if same > 0 {
        assert a[0] == a[..same][0] == b[..same][0] == b[0];
        assert a[1..][..same - 1] == a[..same][1..] == b[..same][1..] == b[1..][..same - 1];
        DistanceAtMost(a[1..], b[1..], same - 1);
      } else {
        DistanceAtMost(a[1..], b[1..], 0);
      }
    }
  }

  /** The bound is sharp: the generator itself and the zero word are codewords one place further
      apart than the number of check symbols. */
  lemma BoundIsSharp(degree: nat)
    requires degree < 255
    ensures Codeword(Generator(degree), degree) && Codeword(Zeros(degree + 1), degree)
    ensures Distance(Generator(degree), Zeros(degree + 1)) == degree + 1
  {
    var g, zero := Generator(degree), Zeros(degree + 1);
    GeneratorMonic(degree);
    var one: Poly, none: Poly := [1], [0];
    assert Product(one, g) == g by {
      Multiple(1, g);
      hide Mul, Product, Times;
      forall k | 0 <= k < |g|
        ensures Times(1, g)[k] == g[k]
      {
        TimesAt(1, g, k);
        MulOne(g[k]);
      }
      assert |Times(1, g)| == |g| by {
        TimesAt(1, g, 0);
      }
      assert Times(1, g) == g;
    }
    assert Product(none, g) == zero by {
      Multiple(0, g);
      hide Mul, Product, Times;
      forall k | 0 <= k < |g|
        ensures Times(0, g)[k] == 0
      {
        TimesAt(0, g, k);
        MulZero(g[k]);
      }
      assert |Times(0, g)| == |g| by {
        TimesAt(0, g, 0);
      }
      assert Times(0, g) == zero;
    }
    hide Product, Generator, Distance;
    assert g[0] == 1 && zero[0] == 0;
    DistanceAtMost(g, zero, 0);
    if Distance(g, zero) <= degree {
      CodewordsFarApart(g, zero, degree);
    }
  }

  lemma TimesAt(c: Byte, g: Poly, k: nat)
    requires k < |g|
    ensures |Times(c, g)| == |g| && Times(c, g)[k] == Mul(c, g[k])
  {
    hide Mul;
  }

  lemma Multiple(c: Byte, g: Poly)
    requires |g| > 0
    ensures var word: Poly := [c]; Product(word, g) == Times(c, g)
  {
    hide Mul, Product;
    var word: Poly := [c];
    forall k | 0 <= k < |g|
      ensures Product(word, g)[k] == Times(c, g)[k]
    {
      ProductStep(word, g, k);
      TimesAt(c, g, k);
      NoFactor(g, k);
      AddFacts(Mul(c, g[k]), 0, 0);
    }
    TimesAt(c, g, 0);
  }

  lemma NoFactor(g: Poly, k: nat)
    requires |g| > 0
    ensures |Product([], g)| == |g| - 1
    ensures k < |g| - 1 ==> Product([], g)[k] == 0
  {
  }
}
