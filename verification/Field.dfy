/** Arithmetic modulo the DC-net field prime.  The Go code uses math/big
    values, which are unbounded integers; `Mod` is the Euclidean modulus,
    which is Dafny's `%`.  The modulus, 2**127 - 1 in the program, is a parameter. */
module Field {

  predicate InField(x: int, p: nat) {
    0 <= x < p
  }

  ghost predicate Prime(p: nat) {
    2 <= p && forall d {:trigger p % d} :: 2 <= d < p ==> p % d != 0
  }

  /** `a` and `b` name the same field element. */
  predicate Eqm(a: int, b: int, p: nat)
    requires p > 0
  {
    a % p == b % p
  }

  // ---- congruence -----------------------------------------------------------

  lemma {:induction false} ModShift(b: int, k: int, p: nat)
    requires p > 0
    ensures (b + k * p) % p == b % p
    decreases if k < 0 then -k else k
  {
    if k > 0 {
      ModShift(b, k - 1, p);
      assert b + k * p == (b + (k - 1) * p) + p;
      ModStep(b + (k - 1) * p, p);
    } else if k < 0 {
      ModShift(b, k + 1, p);
      assert b + (k + 1) * p == (b + k * p) + p;
      ModStep(b + k * p, p);
    }
  }

  lemma ModStep(x: int, p: nat)
    requires p > 0
    ensures (x + p) % p == x % p
  {
    var q, r := x / p, x % p;
    assert x + p == (q + 1) * p + r;
    DivUnique(x + p, q + 1, r, p);
  }

  lemma MulBound(d: int, p: nat)
    ensures d >= 1 ==> d * p >= p
    ensures d <= 0 ==> d * p <= 0
    ensures d <= -1 ==> d * p + p <= 0
  {
  }

  lemma DivUnique(x: int, q: int, r: int, p: nat)
    requires p > 0 && 0 <= r < p && x == q * p + r
    ensures x % p == r && x / p == q
  {
    var d := x / p - q;
    assert x == (x / p) * p + x % p;
    assert d * p == r - x % p;
    MulBound(d, p);
  }

  /** Equal residues differ by a multiple of p. */
  lemma EqmDiff(a: int, b: int, p: nat) returns (k: int)
    requires p > 0 && Eqm(a, b, p)
    ensures a == b + k * p
  {
    k := a / p - b / p;
    assert a == (a / p) * p + a % p;
    assert b == (b / p) * p + b % p;
    assert (a / p) * p - (b / p) * p == k * p;
  }

  lemma EqmIntro(a: int, b: int, k: int, p: nat)
    requires p > 0 && a == b + k * p
    ensures Eqm(a, b, p)
  {
    ModShift(b, k, p);
  }

  lemma EqmMod(a: int, p: nat)
    requires p > 0
    ensures Eqm(a % p, a, p)
  {
    EqmIntro(a % p, a, -(a / p), p);
  }

  lemma EqmAdd(a: int, b: int, c: int, d: int, p: nat)
    requires p > 0 && Eqm(a, b, p) && Eqm(c, d, p)
    ensures Eqm(a + c, b + d, p)
  {
    var k := EqmDiff(a, b, p);
    var l := EqmDiff(c, d, p);
    assert a + c == (b + d) + (k + l) * p;
    EqmIntro(a + c, b + d, k + l, p);
  }

  lemma EqmMul(a: int, b: int, c: int, d: int, p: nat)
    requires p > 0 && Eqm(a, b, p) && Eqm(c, d, p)
    ensures Eqm(a * c, b * d, p)
  {
    var k := EqmDiff(a, b, p);
    var l := EqmDiff(c, d, p);
    MulDiff(a, b, c, d, k, l, p);
    EqmIntro(a * c, b * d, k * c + b * l, p);
  }

  lemma MulDiff(a: int, b: int, c: int, d: int, k: int, l: int, p: int)
    requires a == b + k * p && c == d + l * p
    ensures a * c == b * d + (k * c + b * l) * p
  {
    assert a * c == b * c + (k * p) * c;
    assert b * c == b * d + b * (l * p);
    assert (k * p) * c == (k * c) * p;
    assert b * (l * p) == (b * l) * p;
  }

  /** Field elements are equal when they are congruent. */
  lemma EqmInField(a: int, b: int, p: nat)
    requires InField(a, p) && InField(b, p) && Eqm(a, b, p)
    ensures a == b
  {
    DivUnique(a, 0, a, p);
    DivUnique(b, 0, b, p);
  }

  lemma EqmZero(a: int, p: nat)
    requires p > 0
    ensures Eqm(a, 0, p) <==> a % p == 0
  {
    DivUnique(0, 0, 0, p);
  }

  // ---- powers ---------------------------------------------------------------

  function Pow(m: int, e: nat): int {
    if e == 0 then 1 else m * Pow(m, e - 1)
  }

  // ---- inverses -------------------------------------------------------------

  datatype Bezout = Bezout(g: nat, x: int, y: int)

  ghost predicate Divides(d: int, n: int) {
    exists q :: Times(d, q) == n
  }

  function Times(d: int, q: int): int { d * q }

  /** The extended Euclidean algorithm. */
  function ExtendedGcd(a: nat, b: nat): (r: Bezout)
    requires a + b > 0
    ensures r.g > 0 && a * r.x + b * r.y == r.g
    ensures Divides(r.g, a) && Divides(r.g, b)
    decreases b
  {
    if b == 0 then
      assert Times(a, 1) == a && Times(a, 0) == b;
      Bezout(a, 1, 0)
    else
      var r := ExtendedGcd(b, a % b);
      BezoutStep(a, b, r);
      Bezout(r.g, r.y, r.x - (a / b) * r.y)
  }

  lemma BezoutStep(a: nat, b: nat, r: Bezout)
    requires b > 0 && b * r.x + (a % b) * r.y == r.g
    requires Divides(r.g, b) && Divides(r.g, a % b)
    ensures a * r.y + b * (r.x - (a / b) * r.y) == r.g
    ensures Divides(r.g, a)
  {
    var s, t :| Times(r.g, s) == b && Times(r.g, t) == a % b;
    var q := a / b;
    assert a == q * b + a % b;
    assert a == r.g * (q * s + t) by { assert q * (r.g * s) == r.g * (q * s); }
    assert Times(r.g, q * s + t) == a;
    calc {
      a * r.y + b * (r.x - q * r.y);
      { assert a * r.y == (q * b + a % b) * r.y; assert (q * b) * r.y == b * (q * r.y); }
      (a % b) * r.y + b * r.x;
    }
  }

  /** big.Int.ModInverse: the inverse of g in the ring of residues modulo n,
      or nothing when g and n share a factor. */
  datatype Inverse = NoInverse | Inverse(value: int)

  function ModInverse(g: nat, n: nat): Inverse
    requires n > 0
  {
    var r := ExtendedGcd(g, n);
    if r.g == 1 then Inverse(r.x % n) else NoInverse
  }

  lemma InverseExists(g: nat, p: nat)
    requires Prime(p) && 0 < g < p
    ensures ModInverse(g, p).Inverse?
    ensures Eqm(g * ModInverse(g, p).value, 1, p)
  {
    var r := ExtendedGcd(g, p);
    PrimeGcd(g, p, r.g);
    EqmMod(r.x, p);
    EqmMul(g, g, r.x % p, r.x, p);
    EqmIntro(g * r.x, 1, -r.y, p);
  }

  lemma PrimeGcd(g: nat, p: nat, d: nat)
    requires Prime(p) && 0 < g < p && d > 0 && Divides(d, g) && Divides(d, p)
    ensures d == 1
  {
    var s, t :| Times(d, s) == g && Times(d, t) == p;
    MulBound(s, d);
    ModShift(0, t, d);
    assert p % d == 0;
  }

  /** Euclid's lemma: a prime modulus has no zero divisors. */
  lemma NoZeroDivisors(a: int, b: int, p: nat)
    requires Prime(p) && Eqm(a * b, 0, p)
    ensures Eqm(a, 0, p) || Eqm(b, 0, p)
  {
    var g := a % p;
    if g != 0 {
      InverseExists(g, p);
      var v := ModInverse(g, p).value;
      EqmMod(a, p);
      EqmMul(g, a, b, b, p);                       // g*b ~ a*b ~ 0
      EqmMul(g * b, 0, v, v, p);                   // g*b*v ~ 0
      EqmMul(g * v, 1, b, b, p);                   // g*v*b ~ b
      assert (g * b) * v == (g * v) * b;
    } else {
      EqmZero(a, p);
    }
  }
}
