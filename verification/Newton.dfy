/** The polynomial whose roots are the slot-reservation messages, and Newton's
    identities, which recover its coefficients from the power sums. */
module Newton {
  import opened Field

  function Init(ms: seq<int>): seq<int>
    requires ms != []
  {
    ms[..|ms| - 1]
  }

  function Last(ms: seq<int>): int
    requires ms != []
  {
    ms[|ms| - 1]
  }

  /** m1**e + ... + mn**e */
  function PowerSum(ms: seq<int>, e: nat): int {
    if ms == [] then 0 else PowerSum(Init(ms), e) + Pow(Last(ms), e)
  }

  /** (x - m1) * ... * (x - mn) */
  function Product(ms: seq<int>, x: int): int {
    if ms == [] then 1 else Product(Init(ms), x) * (x - Last(ms))
  }

  /** The coefficient of x**(n-i) in -(x - m1)...(x - mn), over the integers. */
  function TopCoeff(ms: seq<int>, i: int): int
    decreases |ms|
  {
    if i < 0 then 0
    else if ms == [] then (if i == 0 then -1 else 0)
    else TopCoeff(Init(ms), i) - Last(ms) * TopCoeff(Init(ms), i - 1)
  }

  lemma {:induction false} TopCoeffOutside(ms: seq<int>, i: int)
    requires i > |ms|
    ensures TopCoeff(ms, i) == 0
    decreases |ms|
  {
    if ms != [] {
      TopCoeffOutside(Init(ms), i);
      TopCoeffOutside(Init(ms), i - 1);
    }
  }

  lemma {:induction false} TopCoeffLeading(ms: seq<int>)
    ensures TopCoeff(ms, 0) == -1
    decreases |ms|
  {
    if ms != [] { TopCoeffLeading(Init(ms)); }
  }

  // ---- Newton's identities --------------------------------------------------

  /** The first n terms of sum TopCoeff(i-1-j) * PowerSum(j+1). */
  function Convolution(ms: seq<int>, i: nat, n: nat): int {
    if n == 0 then 0
    else Convolution(ms, i, n - 1) + TopCoeff(ms, i - n) * PowerSum(ms, n)
  }

  /** What one more message does to the convolution: two shifted copies and a
      telescoping sum. */
  lemma {:induction false} ConvolutionStep(ms: seq<int>, i: nat, n: nat)
    requires ms != [] && 1 <= i
    ensures var m, ns := Last(ms), Init(ms);
      Convolution(ms, i, n)
      == Convolution(ns, i, n) - m * Convolution(ns, i - 1, n)
         + m * TopCoeff(ns, i - 1) - Pow(m, n + 1) * TopCoeff(ns, i - 1 - n)
  {
    var m, ns := Last(ms), Init(ms);
    if n > 0 {
      ConvolutionStep(ms, i, n - 1);
      var a, b := TopCoeff(ns, i - n), TopCoeff(ns, i - 1 - n);
      assert TopCoeff(ms, i - n) == a - m * b;
      ConvolutionAlgebra(Convolution(ns, i, n - 1), Convolution(ns, i - 1, n - 1),
                         m, TopCoeff(ns, i - 1), a, b, PowerSum(ns, n), Pow(m, n));
    }
  }

  lemma ConvolutionAlgebra(u: int, v: int, m: int, d: int, a: int, b: int, s: int, w: int)
    ensures (u - m * v + m * d - w * a) + (a - m * b) * (s + w)
         == (u + a * s) - m * (v + b * s) + m * d - (m * w) * b
  {
    assert (a - m * b) * (s + w) == a * s + a * w - (m * b) * s - (m * b) * w;
    assert (m * b) * s == m * (b * s);
    assert (m * b) * w == (m * w) * b;
  }

  /** i * a(n-i) = -(a(n-i+1)*S(1) + ... + a(n)*S(i)), for every i >= 1. */
  lemma {:induction false} NewtonIdentity(ms: seq<int>, i: nat)
    requires 1 <= i
    ensures i * TopCoeff(ms, i) == -Convolution(ms, i, i)
    decreases |ms|
  {
    if ms == [] {
      ConvolutionEmpty(i, i);
    } else {
      var m, ns := Last(ms), Init(ms);
      ConvolutionStep(ms, i, i);
      NewtonIdentity(ns, i);
      if i > 1 { NewtonIdentity(ns, i - 1); }
      NewtonAlgebra(i, m, TopCoeff(ns, i), TopCoeff(ns, i - 1),
                    Convolution(ns, i, i), Convolution(ns, i - 1, i));
    }
  }

  lemma NewtonAlgebra(i: nat, m: int, e: int, d: int, u: int, v: int)
    requires i * e == -u && (i - 1) * d == -v
    ensures i * (e - m * d) == -(u - m * v + m * d)
  {
    calc {
      i * (e - m * d);
      i * e - i * (m * d);
      { assert i * (m * d) == m * (i * d) == m * ((i - 1) * d + d); }
      -u - m * (-v + d);
    }
  }

  lemma {:induction false} ConvolutionEmpty(i: nat, n: nat)
    ensures Convolution([], i, n) == 0
  {
    if n > 0 { ConvolutionEmpty(i, n - 1); }
  }

  // ---- the roots ------------------------------------------------------------

  /** The first n terms of a[0] + a[1]*x + a[2]*x**2 + ... */
  function EvalTo(a: seq<int>, x: int, n: nat): int
    requires n <= |a|
  {
    if n == 0 then 0 else EvalTo(a, x, n - 1) + a[n - 1] * Pow(x, n - 1)
  }

  function Eval(a: seq<int>, x: int): int {
    EvalTo(a, x, |a|)
  }

  /** a[0]..a[n] of -(x - m1)...(x - mn), lowest degree first. */
  function RootPoly(ms: seq<int>): (a: seq<int>)
    ensures |a| == |ms| + 1
  {
    seq(|ms| + 1, k => TopCoeff(ms, |ms| - k))
  }

  lemma {:induction false} EvalStep(ms: seq<int>, x: int, n: nat)
    requires ms != [] && 1 <= n <= |ms|
    ensures EvalTo(RootPoly(ms), x, n)
         == x * EvalTo(RootPoly(Init(ms)), x, n - 1) - Last(ms) * EvalTo(RootPoly(Init(ms)), x, n)
  {
    var a, b, m := RootPoly(ms), RootPoly(Init(ms)), Last(ms);
    var k := n - 1;
    TopCoeffOutside(Init(ms), |ms|);
    if k == 0 {
      assert a[0] == TopCoeff(ms, |ms|) == 0 - m * b[0];
      assert EvalTo(a, x, 1) == EvalTo(a, x, 0) + a[0] * Pow(x, 0) == a[0];
      assert EvalTo(b, x, 1) == EvalTo(b, x, 0) + b[0] * Pow(x, 0) == b[0];
    } else {
      EvalStep(ms, x, k);
      assert a[k] == b[k - 1] - m * b[k] by {
        assert a[k] == TopCoeff(ms, |ms| - k);
        assert b[k] == TopCoeff(Init(ms), |ms| - 1 - k);
        assert b[k - 1] == TopCoeff(Init(ms), |ms| - k);
      }
      EvalAlgebra(x, m, EvalTo(b, x, k - 1), EvalTo(b, x, k), b[k - 1], b[k], Pow(x, k - 1));
    }
  }

  lemma EvalAlgebra(x: int, m: int, v: int, u: int, c: int, d: int, w: int)
    ensures (x * v - m * u) + (c - m * d) * (x * w) == x * (v + c * w) - m * (u + d * (x * w))
  {
    assert (c - m * d) * (x * w) == c * (x * w) - (m * d) * (x * w);
    assert c * (x * w) == x * (c * w);
    assert (m * d) * (x * w) == m * (d * (x * w));
  }

  /** The polynomial factors over the messages. */
  lemma {:induction false} RootPolyFactors(ms: seq<int>, x: int)
    ensures Eval(RootPoly(ms), x) == -Product(ms, x)
    decreases |ms|
  {
    var n := |ms|;
    if n == 0 {
      assert EvalTo(RootPoly(ms), x, 1) == RootPoly(ms)[0] * Pow(x, 0);
    } else {
      var a, b, m := RootPoly(ms), RootPoly(Init(ms)), Last(ms);
      RootPolyFactors(Init(ms), x);
      EvalStep(ms, x, n);
      TopCoeffLeading(ms);
      TopCoeffLeading(Init(ms));
      assert a[n] == b[n - 1] == -1;
      FactorAlgebra(x, m, EvalTo(b, x, n - 1), Pow(x, n - 1), Product(Init(ms), x));
    }
  }

  lemma FactorAlgebra(x: int, m: int, v: int, w: int, q: int)
    requires v + -1 * w == -q
    ensures (x * v - m * (v + -1 * w)) + -1 * (x * w) == -(q * (x - m))
  {
    assert x * v - x * w == x * (v - w);
  }

  /** A product of field elements vanishes exactly at a factor. */
  lemma {:induction false} ProductZero(ms: seq<int>, x: int, p: nat)
    requires Prime(p)
    ensures Eqm(Product(ms, x), 0, p) <==> exists k :: 0 <= k < |ms| && Eqm(x, ms[k], p)
    decreases |ms|
  {
    if ms == [] {
      DivUnique(1, 0, 1, p);
      EqmZero(1, p);
    } else {
      var ns, m := Init(ms), Last(ms);
      ProductZero(ns, x, p);
      EqmDifference(x, m, p);
      if Eqm(Product(ms, x), 0, p) {
        NoZeroDivisors(Product(ns, x), x - m, p);
        if Eqm(x - m, 0, p) { assert Eqm(x, ms[|ms| - 1], p); }
      }
      if k :| 0 <= k < |ms| && Eqm(x, ms[k], p) {
        if k < |ns| {
          assert Eqm(x, ns[k], p);
          EqmMul(Product(ns, x), 0, x - m, x - m, p);
        } else {
          EqmMul(Product(ns, x), Product(ns, x), x - m, 0, p);
        }
      }
    }
  }

  lemma EqmDifference(x: int, m: int, p: nat)
    requires p > 0
    ensures Eqm(x, m, p) <==> Eqm(x - m, 0, p)
  {
    if Eqm(x, m, p) { EqmAdd(x, m, -m, -m, p); }
    if Eqm(x - m, 0, p) { EqmAdd(x - m, 0, m, m, p); }
  }
}
