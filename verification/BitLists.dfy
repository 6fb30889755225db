/** Natural numbers as bit lists, most significant bit first.  Fixed-width
    unsigned integers are natural numbers below a power of two; shifts are
    multiplications and divisions, with wrap-around written as `%`. */
module BitLists {

  function Pow2(k: nat): (r: nat)
    ensures r >= 1
  {
    if k == 0 then 1 else 2 * Pow2(k - 1)
  }

  const TWO64: nat := 0x1_0000_0000_0000_0000

  type byte = b: nat | b < 256
  type uint64 = v: nat | v < TWO64

  /** The n low bits of v. */
  function BitsOf(v: nat, n: nat): (bits: seq<bool>)
    ensures |bits| == n
  {
    if n == 0 then [] else BitsOf(v / 2, n - 1) + [v % 2 == 1]
  }

  function Value(bits: seq<bool>): nat {
    if bits == [] then 0 else 2 * Value(bits[..|bits| - 1]) + (if bits[|bits| - 1] then 1 else 0)
  }

  /** v >> k */
  function Shr(v: nat, k: nat): nat {
    if k == 0 then v else Shr(v / 2, k - 1)
  }

  /** v mod 2**k */
  function Low(v: nat, k: nat): (r: nat)
    ensures r < Pow2(k)
  {
    if k == 0 then 0 else 2 * Low(v / 2, k - 1) + v % 2
  }

  function Zeros(n: nat): (bits: seq<bool>)
    ensures |bits| == n
  {
    seq(n, _ => false)
  }

  /** Bitwise or and and. */
  function Or(a: nat, b: nat): nat {
    if a == 0 then b else if b == 0 then a
    else 2 * Or(a / 2, b / 2) + (if a % 2 == 1 || b % 2 == 1 then 1 else 0)
  }

  function And(a: nat, b: nat): nat {
    if a == 0 || b == 0 then 0
    else 2 * And(a / 2, b / 2) + (if a % 2 == 1 && b % 2 == 1 then 1 else 0)
  }

  // ---- powers of two ------------------------------------------------------------

  lemma {:induction false} Pow2Add(a: nat, b: nat)
    ensures Pow2(a + b) == Pow2(a) * Pow2(b)
  {
    if a > 0 {
      Pow2Add(a - 1, b);
      assert Pow2(a + b) == 2 * (Pow2(a - 1) * Pow2(b));
    }
  }

  lemma {:induction false} Pow2Monotone(a: nat, b: nat)
    requires a <= b
    ensures Pow2(a) <= Pow2(b)
  {
    if a < b { Pow2Monotone(a, b - 1); }
  }

  lemma Pow2Small()
    ensures Pow2(0) == 1 && Pow2(1) == 2 && Pow2(2) == 4 && Pow2(3) == 8 && Pow2(4) == 16
    ensures Pow2(5) == 32 && Pow2(6) == 64 && Pow2(7) == 128 && Pow2(8) == 256
  {
    assert Pow2(2) == 4;
    assert Pow2(4) == 16;
    assert Pow2(6) == 64;
  }

  lemma Pow2Is64()
    ensures Pow2(64) == TWO64 && Pow2(56) == 0x100_0000_0000_0000
  {
    Pow2Small();
    Pow2Add(8, 8);
    Pow2Add(16, 16);
    Pow2Add(32, 32);
    Pow2Add(32, 24);
    Pow2Add(16, 8);
  }

  // ---- shifts -------------------------------------------------------------------

  lemma DoubleMul(x: nat, y: nat)
    ensures x * (2 * y) == 2 * (x * y)
  {
  }

  lemma {:induction false} ShrLow(v: nat, k: nat)
    ensures v == Shr(v, k) * Pow2(k) + Low(v, k)
  {
    if k > 0 {
      ShrLow(v / 2, k - 1);
      DoubleMul(Shr(v, k), Pow2(k - 1));
    }
  }

  lemma {:induction false} ShrLowUnique(v: nat, x: nat, y: nat, k: nat)
    requires y < Pow2(k) && v == x * Pow2(k) + y
    ensures Shr(v, k) == x && Low(v, k) == y
  {
    if k > 0 {
      DoubleMul(x, Pow2(k - 1));
      ShrLowUnique(v / 2, x, y / 2, k - 1);
    }
  }

  lemma ShrLowSmall(y: nat, k: nat)
    requires y < Pow2(k)
    ensures Shr(y, k) == 0 && Low(y, k) == y
  {
    ShrLowUnique(y, 0, y, k);
  }

  lemma {:induction false} ShrBound(v: nat, k: nat, n: nat)
    requires v < Pow2(k + n)
    ensures Shr(v, k) < Pow2(n)
  {
    if k > 0 { ShrBound(v / 2, k - 1, n); }
  }

  // ---- bit lists ----------------------------------------------------------------

  lemma {:induction false} BitsOfSplit(v: nat, m: nat, n: nat)
    ensures BitsOf(v, m + n) == BitsOf(Shr(v, n), m) + BitsOf(v, n)
  {
    if n > 0 { BitsOfSplit(v / 2, m, n - 1); }
  }

  /** Only the low n bits matter. */
  lemma {:induction false} BitsOfLow(v: nat, n: nat)
    ensures BitsOf(Low(v, n), n) == BitsOf(v, n)
  {
    if n > 0 {
      BitsOfLow(v / 2, n - 1);
      assert Low(v, n) / 2 == Low(v / 2, n - 1);
    }
  }

  /** Appending bits to a number appends them to its bit list. */
  lemma BitsOfJoin(x: nat, m: nat, y: nat, n: nat)
    requires y < Pow2(n)
    ensures BitsOf(x * Pow2(n) + y, m + n) == BitsOf(x, m) + BitsOf(y, n)
  {
    var v := x * Pow2(n) + y;
    ShrLowUnique(v, x, y, n);
    BitsOfSplit(v, m, n);
    BitsOfLow(v, n);
  }

  lemma BitsOfTop(v: nat, n: nat)
    requires n > 0
    ensures BitsOf(v, n) == [Shr(v, n - 1) % 2 == 1] + BitsOf(v, n - 1)
  {
    BitsOfSplit(v, 1, n - 1);
    assert BitsOf(Shr(v, n - 1), 1) == BitsOf(Shr(v, n - 1) / 2, 0) + [Shr(v, n - 1) % 2 == 1];
  }

  lemma {:induction false} BitsOfZero(n: nat)
    ensures BitsOf(0, n) == Zeros(n)
  {
    if n > 0 { BitsOfZero(n - 1); }
  }

  lemma {:induction false} ValueBound(bits: seq<bool>)
    ensures Value(bits) < Pow2(|bits|)
  {
    if bits != [] { ValueBound(bits[..|bits| - 1]); }
  }

  lemma {:induction false} ValueOfBits(v: nat, n: nat)
    ensures Value(BitsOf(v, n)) == Low(v, n)
  {
    if n > 0 {
      ValueOfBits(v / 2, n - 1);
      assert BitsOf(v, n)[..n - 1] == BitsOf(v / 2, n - 1);
    }
  }

  lemma {:induction false} BitsOfValue(bits: seq<bool>)
    ensures BitsOf(Value(bits), |bits|) == bits
  {
    if bits != [] {
      var init := bits[..|bits| - 1];
      BitsOfValue(init);
      assert Value(bits) / 2 == Value(init);
      assert bits == init + [bits[|bits| - 1]];
    }
  }

  lemma {:induction false} ValueConcat(a: seq<bool>, b: seq<bool>)
    ensures Value(a + b) == Value(a) * Pow2(|b|) + Value(b)
  {
    if b == [] {
      assert a + b == a;
    } else {
      var init := b[..|b| - 1];
      ValueConcat(a, init);
      assert (a + b)[..|a + b| - 1] == a + init;
      DoubleMul(Value(a), Pow2(|init|));
    }
  }

  // ---- or and and ---------------------------------------------------------------

  /** Disjoint bits: or is addition. */
  lemma {:induction false} OrDisjoint(a: nat, b: nat, k: nat)
    requires Low(a, k) == 0 && b < Pow2(k)
    ensures Or(a, b) == a + b
    decreases k
  {
    if a != 0 && b != 0 {
      OrDisjoint(a / 2, b / 2, k - 1);
    }
  }

  lemma {:induction false} AndBit(a: nat, k: nat)
    ensures And(a, Pow2(k)) == if Shr(a, k) % 2 == 1 then Pow2(k) else 0
  {
    if a == 0 {
      ShrLowSmall(0, k);
    } else if k == 0 {
      assert And(a, 1) == 2 * And(a / 2, 0) + a % 2;
    } else {
      AndBit(a / 2, k - 1);
      assert And(a, Pow2(k)) == 2 * And(a / 2, Pow2(k - 1));
    }
  }

  lemma {:induction false} AndMask(a: nat, k: nat)
    ensures And(a, Pow2(k) - 1) == Low(a, k)
  {
    if a == 0 {
      ShrLowSmall(0, k);
    } else if k > 0 {
      AndMask(a / 2, k - 1);
      assert (Pow2(k) - 1) / 2 == Pow2(k - 1) - 1;
    }
  }
}
