/** Recovering the slot-reservation messages from their power sums:
    `Coefficients` and `IsRoot` of mixing/dcnet.go. */
module SlotReservation {
  import opened Field
  import opened Newton

  /** Every divisor the recurrence uses has an inverse; big.Int.ModInverse
      returns nil otherwise. */
  ghost predicate Divisible(n: nat, p: nat)
    requires p > 0
  {
    forall i :: 1 <= i <= n ==> ModInverse(i, p).Inverse?
  }

  lemma PrimeDivisible(n: nat, p: nat)
    requires Prime(p) && n < p
    ensures Divisible(n, p)
  {
    forall i | 1 <= i <= n ensures ModInverse(i, p).Inverse? {
      InverseExists(i, p);
    }
  }

  /** The first n terms of t[i]*S[0] + t[i-1]*S[1] + ... */
  function Dot(t: seq<int>, S: seq<int>, i: nat, n: nat): int
    requires n <= i + 1 <= |t| && n <= |S|
  {
    if n == 0 then 0 else Dot(t, S, i, n - 1) + t[i - (n - 1)] * S[n - 1]
  }

  /** The coefficients of degree n, n-1, ..., n-i as the recurrence computes
      them, highest degree first. */
  ghost function TopDown(S: seq<int>, i: nat, p: nat): (t: seq<int>)
    requires i <= |S| && p > 0 && Divisible(|S|, p)
    ensures |t| == i + 1
  {
    if i == 0 then [p - 1]
    else
      var t := TopDown(S, i - 1, p);
      t + [(Dot(t, S, i - 1, i) * -ModInverse(i, p).value) % p]
  }

  lemma {:induction false} TopDownPrefix(S: seq<int>, i: nat, k: nat, p: nat)
    requires i <= k <= |S| && p > 0 && Divisible(|S|, p)
    ensures TopDown(S, i, p) <= TopDown(S, k, p)
  {
    if i < k { TopDownPrefix(S, i, k - 1, p); }
  }

  ghost function CoefficientsOf(S: seq<int>, p: nat): (a: seq<int>)
    requires p > 0 && Divisible(|S|, p)
    ensures |a| == |S| + 1
  {
    var t := TopDown(S, |S|, p);
    seq(|S| + 1, k requires 0 <= k <= |S| => t[|S| - k])
  }

  method Coefficients(S: seq<int>, p: nat) returns (a: seq<int>)
    requires p > 0 && Divisible(|S|, p)
    ensures a == CoefficientsOf(S, p)
  {
    var n := |S| + 1;
    var c := new int[n];
    c[n - 1] := -1 + p;
    ghost var t := TopDown(S, |S|, p);
    TopDownPrefix(S, 0, |S|, p);
    for i := 0 to n - 1
      invariant forall k :: n - 1 - i <= k < n ==> c[k] == t[n - 1 - k]
    {
      var sum := 0;
      TopDownPrefix(S, i, |S|, p);
      TopDownPrefix(S, i + 1, |S|, p);
      ghost var u := TopDown(S, i, p);
      for j := 0 to i + 1
        invariant sum == Dot(u, S, i, j)
      {
        assert c[n - 1 - i + j] == u[i - j];
        sum := sum + c[n - 1 - i + j] * S[j];
      }
      var xinv := -ModInverse(i + 1, p).value;
      c[n - 2 - i] := (sum * xinv) % p;
      assert TopDown(S, i + 1, p)[i + 1] == c[n - 2 - i];
    }
    a := c[..];
  }

  /** `sums` are the messages' power sums, as field elements. */
  ghost predicate ArePowerSums(sums: seq<int>, ms: seq<int>, p: nat)
    requires p > 0
  {
    |sums| == |ms| && forall j :: 0 <= j < |sums| ==> Eqm(sums[j], PowerSum(ms, j + 1), p)
  }

  lemma {:induction false} DotIsConvolution(t: seq<int>, sums: seq<int>, ms: seq<int>, i: nat, n: nat, p: nat)
    requires p > 0 && ArePowerSums(sums, ms, p)
    requires n <= i + 1 <= |t| && n <= |sums|
    requires forall k :: 0 <= k < |t| ==> Eqm(t[k], TopCoeff(ms, k), p)
    ensures Eqm(Dot(t, sums, i, n), Convolution(ms, i + 1, n), p)
  {
    if n > 0 {
      DotIsConvolution(t, sums, ms, i, n - 1, p);
      var k, j := i + 1 - n, n - 1;
      EqmMul(t[k], TopCoeff(ms, k), sums[j], PowerSum(ms, n), p);
      EqmAdd(Dot(t, sums, i, n - 1), Convolution(ms, i + 1, n - 1),
             t[k] * sums[j], TopCoeff(ms, k) * PowerSum(ms, n), p);
    }
  }

  /** Dividing Newton's identity by i+1 gives the recurrence. */
  lemma {:induction false} TopDownIsTopCoeff(sums: seq<int>, ms: seq<int>, i: nat, p: nat)
    requires Prime(p) && |ms| < p && ArePowerSums(sums, ms, p) && i <= |sums|
    requires Divisible(|sums|, p)
    ensures forall k :: 0 <= k <= i ==> Eqm(TopDown(sums, i, p)[k], TopCoeff(ms, k), p)
  {
    if i == 0 {
      TopCoeffLeading(ms);
      EqmIntro(p - 1, -1, 1, p);
    } else {
      TopDownIsTopCoeff(sums, ms, i - 1, p);
      var t := TopDown(sums, i - 1, p);
      DotIsConvolution(t, sums, ms, i - 1, i, p);
      NewtonIdentity(ms, i);
      InverseExists(i, p);
      DivideNewton(Dot(t, sums, i - 1, i), TopCoeff(ms, i), i, ModInverse(i, p).value, p);
    }
  }

  lemma DivideNewton(dot: int, c: int, i: nat, inv: int, p: nat)
    requires p > 0 && Eqm(dot, -(i * c), p) && Eqm(i * inv, 1, p)
    ensures Eqm((dot * -inv) % p, c, p)
  {
    EqmMod(dot * -inv, p);
    EqmMul(dot, -(i * c), -inv, -inv, p);
    EqmMul(i * inv, 1, c, c, p);
    assert -(i * c) * -inv == (i * inv) * c;
  }

  /** Newton's identities: the computed coefficients are those of
      -(x - m1)...(x - mn), as field elements. */
  lemma CoefficientsAreRootPoly(sums: seq<int>, ms: seq<int>, p: nat)
    requires Prime(p) && |ms| < p && ArePowerSums(sums, ms, p)
    ensures Divisible(|sums|, p)
    ensures |CoefficientsOf(sums, p)| == |RootPoly(ms)|
    ensures forall k :: 0 <= k <= |ms| ==> CoefficientsOf(sums, p)[k] == RootPoly(ms)[k] % p
  {
    PrimeDivisible(|sums|, p);
    TopDownIsTopCoeff(sums, ms, |sums|, p);
    TopDownReduced(sums, |sums|, p);
    var t := TopDown(sums, |sums|, p);
    forall k | 0 <= k <= |ms| ensures CoefficientsOf(sums, p)[k] == RootPoly(ms)[k] % p {
      var i := |ms| - k;
      EqmMod(TopCoeff(ms, i), p);
      EqmInField(t[i], TopCoeff(ms, i) % p, p);
    }
  }

  lemma {:induction false} TopDownReduced(S: seq<int>, i: nat, p: nat)
    requires i <= |S| && p > 0 && Divisible(|S|, p)
    ensures forall k :: 0 <= k <= i ==> InField(TopDown(S, i, p)[k], p)
  {
    if i > 0 { TopDownReduced(S, i - 1, p); }
  }

  // ---- IsRoot ---------------------------------------------------------------

  method IsRoot(m: int, a: seq<int>, p: nat) returns (r: bool)
    requires p > 0
    ensures r <==> Eqm(Eval(a, m), 0, p)
  {
    var sum := 0;
    for i := 0 to |a|
      invariant Eqm(sum, EvalTo(a, m, i), p)
    {
      var scratch := Pow(m, i) % p;
      EqmMod(Pow(m, i), p);
      EqmMul(scratch, Pow(m, i), a[i], a[i], p);
      EqmAdd(sum, EvalTo(a, m, i), scratch * a[i], Pow(m, i) * a[i], p);
      scratch := scratch * a[i];
      sum := sum + scratch;
    }
    EqmMod(sum, p);
    EqmZero(sum, p);
    r := sum % p == 0;
  }

  lemma {:induction false} EqmEvalTo(a: seq<int>, b: seq<int>, x: int, n: nat, p: nat)
    requires p > 0 && n <= |a| == |b|
    requires forall k :: 0 <= k < |a| ==> Eqm(a[k], b[k], p)
    ensures Eqm(EvalTo(a, x, n), EvalTo(b, x, n), p)
  {
    if n > 0 {
      EqmEvalTo(a, b, x, n - 1, p);
      EqmMul(a[n - 1], b[n - 1], Pow(x, n - 1), Pow(x, n - 1), p);
      EqmAdd(EvalTo(a, x, n - 1), EvalTo(b, x, n - 1),
             a[n - 1] * Pow(x, n - 1), b[n - 1] * Pow(x, n - 1), p);
    }
  }

  /** The roots of the recovered polynomial are exactly the messages. */
  lemma RootsAreMessages(sums: seq<int>, ms: seq<int>, x: int, p: nat)
    requires Prime(p) && |ms| < p && ArePowerSums(sums, ms, p)
    ensures Divisible(|sums|, p)
    ensures Eqm(Eval(CoefficientsOf(sums, p), x), 0, p)
       <==> exists k :: 0 <= k < |ms| && Eqm(x, ms[k], p)
  {
    CoefficientsAreRootPoly(sums, ms, p);
    var a, b := CoefficientsOf(sums, p), RootPoly(ms);
    forall k | 0 <= k < |a| ensures Eqm(a[k], b[k], p) {
      EqmMod(b[k], p);
    }
    EqmEvalTo(a, b, x, |a|, p);
    RootPolyFactors(ms, x);
    ProductZero(ms, x, p);
    NegateZero(Product(ms, x), p);
  }

  lemma NegateZero(v: int, p: nat)
    requires p > 0
    ensures Eqm(-v, 0, p) <==> Eqm(v, 0, p)
  {
    if Eqm(v, 0, p) { EqmMul(v, 0, -1, -1, p); }
    if Eqm(-v, 0, p) { EqmMul(-v, 0, -1, -1, p); }
  }

  /** For field elements: root exactly when it is one of the messages. */
  lemma FieldRootsAreMessages(sums: seq<int>, ms: seq<int>, x: int, p: nat)
    requires Prime(p) && |ms| < p && ArePowerSums(sums, ms, p)
    requires InField(x, p) && forall k :: 0 <= k < |ms| ==> InField(ms[k], p)
    ensures Divisible(|sums|, p)
    ensures Eqm(Eval(CoefficientsOf(sums, p), x), 0, p) <==> x in ms
  {
    RootsAreMessages(sums, ms, x, p);
    if k :| 0 <= k < |ms| && Eqm(x, ms[k], p) {
      EqmInField(x, ms[k], p);
    }
    if x in ms {
      var k :| 0 <= k < |ms| && x == ms[k];
      assert Eqm(x, ms[k], p);
    }
  }
}
