/** The checksum as BIP 173 defines it: the remainder of a polynomial over GF(32),
    with the multiplication of GF(32) and of polynomials defined here. */
module Bech32Poly {
  import opened Bech32Checksum

  // ---- GF(32), with alpha**5 == alpha**3 + 1 ---------------------------------------------------

  function TimesAlpha(a: bv8): bv8 {
    if a & 16 != 0 then (a << 1) ^ 41 else a << 1
  }

  function IfBit(b: bv8, mask: bv8, a: bv8): bv8 {
    if b & mask != 0 then a else 0
  }

  /** a * b: the multiples of a by the powers of alpha that b is made of. */
  function Mul(a: bv8, b: bv8): bv8 {
    var a1 := TimesAlpha(a);
    var a2 := TimesAlpha(a1);
    var a3 := TimesAlpha(a2);
    var a4 := TimesAlpha(a3);
    IfBit(b, 1, a) ^ IfBit(b, 2, a1) ^ IfBit(b, 4, a2) ^ IfBit(b, 8, a3) ^ IfBit(b, 16, a4)
  }

  lemma MulOne(b: bv8)
    requires FiveBits(b)
    ensures Mul(1, b) == b
  {
  }

  // ---- polynomials, highest coefficient first -----------------------------------------------------

  /** x**6 + 29x**5 + 22x**4 + 20x**3 + 21x**2 + 29x + 18 */
  const GENERATOR: Symbols := [1, 29, 22, 20, 21, 29, 18]

  function Scale(c: bv8, p: Symbols): (r: Symbols)
    ensures |r| == |p|
  {
    seq(|p|, i requires 0 <= i < |p| => Mul(p[i], c))
  }

  /** q * GENERATOR */
  function Product(q: Symbols): (r: Symbols)
    ensures |r| == |q| + 6
  {
    if q == [] then ZeroSymbols(6)
    else
      var n := |q| - 1;
      XorAll(Product(q[..n]) + [0], ZeroSymbols(n) + Scale(q[n], GENERATOR))
  }

  /** p == q * GENERATOR + r, with r of degree below six. */
  ghost predicate Divides(p: Symbols, q: Symbols, r: Symbols) {
    && |r| == 6 && AllFiveBits(q) && AllFiveBits(r) && |p| == |q| + 6
    && p == XorAll(Product(q), ZeroSymbols(|q|) + r)
  }

  /** Shifting in a coefficient and reducing. */
  function NextRemainder(r: Symbols, v: bv8): (s: Symbols)
    requires |r| == 6
    ensures |s| == 6
  {
    XorAll(r[1..] + [v], Scale(r[0], GENERATOR[1..]))
  }

  lemma XorCancel(a: bv8, b: bv8, c: bv8)
    ensures Xor8(Xor8(a, b), Xor8(c, b)) == Xor8(a, c)
    ensures Xor8(Xor8(a, b), 0) == Xor8(a, b)
  {
  }

  lemma ProductSnoc(q: Symbols, c: bv8)
    ensures Product(q + [c]) == XorAll(Product(q) + [0], ZeroSymbols(|q|) + Scale(c, GENERATOR))
  {
    assert (q + [c])[..|q|] == q;
  }

  lemma DivideStep(p: Symbols, q: Symbols, r: Symbols, v: bv8)
    requires Divides(p, q, r) && FiveBits(v) && AllFiveBits(NextRemainder(r, v))
    ensures Divides(p + [v], q + [r[0]], NextRemainder(r, v))
  {
    hide Mul, Product, FiveBits, Xor8;
    var n, c, s := |q|, r[0], NextRemainder(r, v);
    ProductSnoc(q, c);
    MulOne(c);
    var P, S := Product(q) + [0], ZeroSymbols(n) + Scale(c, GENERATOR);
    var R := ZeroSymbols(n + 1) + s;
    forall i | 0 <= i < n + 7 ensures (p + [v])[i] == Xor8(Xor8(P[i], S[i]), R[i]) {
      if i <= n {
        XorCancel(P[i], S[i], 0);
      } else {
        var j := i - n - 1;
        assert S[i] == Mul(GENERATOR[j + 1], c);
        XorCancel(P[i], S[i], (r[1..] + [v])[j]);
        Xor8Zero(v);
      }
    }
    assert p + [v] == XorAll(Product(q + [c]), R);
  }

  // ---- the remainder is unique ---------------------------------------------------------------------

  /** The remainder before the last coefficient came in. */
  function Previous(c: bv8, r: Symbols): (hi: Symbols)
    requires |r| == 6
    ensures |hi| == 6
  {
    XorAll(Scale(c, GENERATOR)[..6], [0] + r[..5])
  }

  lemma DivideBack(p: Symbols, q: Symbols, r: Symbols)
    requires Divides(p, q, r) && q != []
    ensures var m, c := |q| - 1, q[|q| - 1];
      && AllFiveBits(Previous(c, r)) && Divides(p[..m + 6], q[..m], Previous(c, r))
      && Previous(c, r)[0] == c && p[m + 6] == Xor8(Mul(18, c), r[5])
  {
    hide Mul, Product, FiveBits, Xor8;
    var m, c := |q| - 1, q[|q| - 1];
    assert q == q[..m] + [c];
    ProductSnoc(q[..m], c);
    MulOne(c);
    var P, S, R := Product(q[..m]) + [0], ZeroSymbols(m) + Scale(c, GENERATOR), ZeroSymbols(m + 1) + r;
    var hi := Previous(c, r);
    forall i | 0 <= i < 6 ensures FiveBits(hi[i]) {
      MulFive(GENERATOR[i], c);
      Xor8Inverse(Mul(GENERATOR[i], c), ([0] + r[..5])[i]);
      ZeroIsFiveBits();
    }
    forall i | 0 <= i < m + 6 ensures p[i] == Xor8(Product(q[..m])[i], (ZeroSymbols(m) + hi)[i]) {
      XorShift(P[i], S[i], R[i]);
      Xor8Zero(0);
      if i >= m { assert S[i] == Mul(GENERATOR[i - m], c) && R[i] == ([0] + r[..5])[i - m]; }
    }
    assert p[..m + 6] == XorAll(Product(q[..m]), ZeroSymbols(m) + hi);
    Xor8Zero(c);
    Xor8Zero(S[m + 6]);
  }

  lemma XorShift(a: bv8, b: bv8, c: bv8)
    ensures Xor8(Xor8(a, b), c) == Xor8(a, Xor8(b, c))
  {
  }

  lemma MulFive(a: bv8, c: bv8)
    requires FiveBits(a)
    ensures FiveBits(Mul(a, c))
  {
  }

  lemma DivideNothing(p: Symbols, r: Symbols)
    requires Divides(p, [], r)
    ensures p == r
  {
    hide Xor8, FiveBits;
    forall i | 0 <= i < 6 ensures p[i] == r[i] { Xor8Zero(r[i]); }
  }

  /** A polynomial has one quotient and one remainder. */
  lemma {:induction false} DivisionUnique(p: Symbols, q: Symbols, r: Symbols, q': Symbols, r': Symbols)
    requires Divides(p, q, r) && Divides(p, q', r')
    ensures q == q' && r == r'
    decreases |q|
  {
    hide Mul, Xor8, FiveBits, Product;
    if q == [] {
      DivideNothing(p, r);
      DivideNothing(p, r');
    } else {
      var m := |q| - 1;
      var c, c' := q[m], q'[m];
      DivideBack(p, q, r);
      DivideBack(p, q', r');
      DivisionUnique(p[..m + 6], q[..m], Previous(c, r), q'[..m], Previous(c', r'));
      assert q == q[..m] + [c] && q' == q'[..m] + [c'];
      forall j | 0 <= j < 6 ensures r[j] == r'[j] {
        var g := Mul(GENERATOR[j + 1], c);
        if j < 5 { assert Xor8(g, r[j]) == Previous(c, r)[j + 1] && Xor8(g, r'[j]) == Previous(c', r')[j + 1]; }
        Xor8Inverse(g, r[j]);
        Xor8Inverse(g, r'[j]);
      }
    }
  }

  // ---- the residue is the remainder ----------------------------------------------------------------

  /** alpha * p */
  function AlphaTimes(p: Symbols): (r: Symbols)
    ensures |r| == |p|
  {
    seq(|p|, i requires 0 <= i < |p| => TimesAlpha(p[i]))
  }

  function AllIfBit(b: bv8, mask: bv8, p: Symbols): (r: Symbols)
    ensures |r| == |p|
  {
    seq(|p|, i requires 0 <= i < |p| => IfBit(b, mask, p[i]))
  }

  /** The five generator words are GENERATOR times the powers of alpha. */
  lemma GeneratorWords()
    ensures var g := GENERATOR[1..];
      && PackSix(g) == 0x3b6a57b2 && PackSix(AlphaTimes(g)) == 0x26508e6d
      && PackSix(AlphaTimes(AlphaTimes(g))) == 0x1ea119fa
      && PackSix(AlphaTimes(AlphaTimes(AlphaTimes(g)))) == 0x3d4233dd
      && PackSix(AlphaTimes(AlphaTimes(AlphaTimes(AlphaTimes(g))))) == 0x2a1462b3
  {
  }

  lemma SelectSix(b: bv8, mask: bv8, c: Symbols)
    requires |c| == 6
    ensures Select(b as bv32, mask as bv32, PackSix(c)) == PackSix(AllIfBit(b, mask, c))
  {
    SameBit(b, mask);
    if b & mask == 0 { assert AllIfBit(b, mask, c) == ZeroSymbols(6); } else { assert AllIfBit(b, mask, c) == c; }
  }

  lemma SameBit(b: bv8, mask: bv8)
    ensures (b as bv32 & mask as bv32 != 0) <==> b & mask != 0
  {
  }

  lemma PackXor(c: Symbols, d: Symbols)
    requires |c| == |d| == 6
    ensures Xor(PackSix(c), PackSix(d)) == PackSix(XorAll(c, d))
  {
    hide Six, Xor, Xor8;
    SixXor(c[0], c[1], c[2], c[3], c[4], c[5], d[0], d[1], d[2], d[3], d[4], d[5]);
  }

  /** The generators that five bits select add up to a multiple of GENERATOR. */
  lemma FeedbackIsMultiple(b: bv8)
    ensures Feedback(b as bv32) == PackSix(Scale(b, GENERATOR[1..]))
  {
    hide PackSix, Xor, Select, AllIfBit, AlphaTimes, Scale, XorAll;
    var g := GENERATOR[1..];
    var g1 := AlphaTimes(g);
    var g2 := AlphaTimes(g1);
    var g3 := AlphaTimes(g2);
    var g4 := AlphaTimes(g3);
    GeneratorWords();
    SelectSix(b, 1, g);
    SelectSix(b, 2, g1);
    SelectSix(b, 4, g2);
    SelectSix(b, 8, g3);
    SelectSix(b, 16, g4);
    var s1 := XorAll(AllIfBit(b, 1, g), AllIfBit(b, 2, g1));
    var s2 := XorAll(s1, AllIfBit(b, 4, g2));
    var s3 := XorAll(s2, AllIfBit(b, 8, g3));
    PackXor(AllIfBit(b, 1, g), AllIfBit(b, 2, g1));
    PackXor(s1, AllIfBit(b, 4, g2));
    PackXor(s2, AllIfBit(b, 8, g3));
    PackXor(s3, AllIfBit(b, 16, g4));
    ScaleIs(b, g);
  }

  lemma ScaleIs(b: bv8, g: Symbols)
    ensures var g1 := AlphaTimes(g);
      var g2 := AlphaTimes(g1);
      var g3 := AlphaTimes(g2);
      var g4 := AlphaTimes(g3);
      Scale(b, g) == XorAll(XorAll(XorAll(XorAll(AllIfBit(b, 1, g), AllIfBit(b, 2, g1)), AllIfBit(b, 4, g2)), AllIfBit(b, 8, g3)), AllIfBit(b, 16, g4))
  {
    hide IfBit, TimesAlpha;
  }

  lemma StepIsShift(c0: bv8, c1: bv8, c2: bv8, c3: bv8, c4: bv8, c5: bv8, v: bv8)
    requires FiveBits(c0) && FiveBits(c1) && FiveBits(c2) && FiveBits(c3) && FiveBits(c4) && FiveBits(c5) && FiveBits(v)
    ensures var x := Six(c0, c1, c2, c3, c4, c5); Top(x) == c0 as bv32 && Shift(x, v) == Six(c1, c2, c3, c4, c5, v)
  {
  }

  lemma SixXor(a0: bv8, a1: bv8, a2: bv8, a3: bv8, a4: bv8, a5: bv8, b0: bv8, b1: bv8, b2: bv8, b3: bv8, b4: bv8, b5: bv8)
    ensures Xor(Six(a0, a1, a2, a3, a4, a5), Six(b0, b1, b2, b3, b4, b5))
         == Six(Xor8(a0, b0), Xor8(a1, b1), Xor8(a2, b2), Xor8(a3, b3), Xor8(a4, b4), Xor8(a5, b5))
  {
  }

  /** One round of the checksum divides one coefficient further. */
  lemma StepIsDivision(r: Symbols, v: bv8)
    requires |r| == 6 && AllFiveBits(r) && FiveBits(v)
    ensures AllFiveBits(NextRemainder(r, v)) && Step(PackSix(r), v) == PackSix(NextRemainder(r, v))
  {
    hide Six, Shift, Top, Feedback, Xor, Xor8, Mul, FiveBits;
    var c := r[0];
    StepIsShift(r[0], r[1], r[2], r[3], r[4], r[5], v);
    FeedbackIsMultiple(c);
    PackXor(r[1..] + [v], Scale(c, GENERATOR[1..]));
    var s := NextRemainder(r, v);
    GeneratorFive();
    forall j | 0 <= j < 6 ensures FiveBits(s[j]) {
      MulFive(GENERATOR[j + 1], c);
      Xor8Inverse((r[1..] + [v])[j], Mul(GENERATOR[j + 1], c));
    }
  }

  lemma GeneratorFive()
    ensures AllFiveBits(GENERATOR)
  {
  }

  lemma {:induction false} RunDivides(p: Symbols, q: Symbols, r: Symbols, vs: Symbols) returns (q': Symbols, r': Symbols)
    requires Divides(p, q, r) && AllFiveBits(vs)
    ensures Divides(p + vs, q', r') && Run(PackSix(r), vs) == PackSix(r')
    decreases |vs|
  {
    hide Divides, Step, Six, NextRemainder, FiveBits;
    if vs == [] {
      q', r' := q, r;
      assert p + vs == p;
    } else {
      var n := |vs| - 1;
      q', r' := RunDivides(p, q, r, vs[..n]);
      DivisionShape(p + vs[..n], q', r');
      StepIsDivision(r', vs[n]);
      DivideStep(p + vs[..n], q', r', vs[n]);
      assert p + vs[..n] + [vs[n]] == p + vs;
      q', r' := q' + [r'[0]], NextRemainder(r', vs[n]);
    }
  }

  lemma DivisionShape(p: Symbols, q: Symbols, r: Symbols)
    requires Divides(p, q, r)
    ensures |r| == 6 && AllFiveBits(r)
  {
  }

  function Hi(c: bv8): bv8 { c / 32 }
  function Lo(c: bv8): bv8 { c % 32 }

  /** What the checksum is taken of, after leading zeros: one, the high bits of the
      prefix, zero, its low bits, and the data. */
  function Expanded(hrp: Symbols, vs: Symbols): (p: Symbols)
    ensures |p| == 2 * |hrp| + 7 + |vs|
  {
    [0, 0, 0, 0, 0, 1] + seq(|hrp|, i requires 0 <= i < |hrp| => Hi(hrp[i])) + [0]
    + seq(|hrp|, i requires 0 <= i < |hrp| => Lo(hrp[i])) + vs
  }

  lemma PartsAre(c: bv8)
    ensures HighPart(c) == Hi(c) && LowPart(c) == Lo(c)
  {
  }

  lemma ExpandedIs(hrp: Symbols, vs: Symbols)
    requires AllFiveBits(vs)
    ensures Expanded(hrp, vs) == [0, 0, 0, 0, 0, 1] + (High(hrp) + [0] + LowBits(hrp) + vs)
    ensures AllFiveBits(High(hrp) + [0] + LowBits(hrp) + vs)
  {
    hide HighPart, LowPart, Hi, Lo, FiveBits;
    ZeroIsFiveBits();
    forall i | 0 <= i < |hrp|
      ensures HighPart(hrp[i]) == Hi(hrp[i]) && LowPart(hrp[i]) == Lo(hrp[i]) && FiveBits(High(hrp)[i]) && FiveBits(LowBits(hrp)[i])
    {
      PartsAre(hrp[i]);
      PartsAreFiveBits(hrp[i]);
    }
    var n := |hrp|;
    var tail := High(hrp) + [0] + LowBits(hrp) + vs;
    forall i | 0 <= i < |tail| ensures FiveBits(tail[i]) {
      if i < n { assert tail[i] == High(hrp)[i]; }
      else if n < i < 2 * n + 1 { assert tail[i] == LowBits(hrp)[i - n - 1]; }
      else if i > 2 * n { assert tail[i] == vs[i - 2 * n - 1]; }
    }
    assert High(hrp) == seq(|hrp|, i requires 0 <= i < |hrp| => Hi(hrp[i]));
    assert LowBits(hrp) == seq(|hrp|, i requires 0 <= i < |hrp| => Lo(hrp[i]));
  }

  lemma OneDivides()
    ensures Divides([0, 0, 0, 0, 0, 1], [], [0, 0, 0, 0, 0, 1]) && PackSix([0, 0, 0, 0, 0, 1]) == 1
  {
    var r: Symbols := [0, 0, 0, 0, 0, 1];
    assert XorAll(Product([]), ZeroSymbols(0) + r) == r;
  }

  /** The residue packs the remainder of the expanded prefix and the data. */
  lemma PolymodIsRemainder(hrp: Symbols, vs: Symbols) returns (q: Symbols, r: Symbols)
    requires AllFiveBits(vs)
    ensures Divides(Expanded(hrp, vs), q, r) && Polymod(hrp, vs) == PackSix(r)
  {
    hide Divides, Step, Run, Six, FiveBits, Expanded;
    OneDivides();
    ExpandedIs(hrp, vs);
    var tail := High(hrp) + [0] + LowBits(hrp);
    q, r := RunDivides([0, 0, 0, 0, 0, 1], [], [0, 0, 0, 0, 0, 1], tail + vs);
    RunConcat(1, tail, vs);
  }

  /** Data verifies exactly when that remainder is one. */
  lemma VerifiesIffRemainderOne(hrp: Symbols, data: Symbols)
    requires AllFiveBits(data)
    ensures Verifies(hrp, data) <==> exists q :: Divides(Expanded(hrp, data), q, [0, 0, 0, 0, 0, 1])
  {
    hide Divides, Six, FiveBits, Expanded, Polymod;
    var q, r := PolymodIsRemainder(hrp, data);
    var one: Symbols := [0, 0, 0, 0, 0, 1];
    OneDivides();
    DivisionShape(Expanded(hrp, data), q, r);
    DivisionShape(one, [], one);
    if PackSix(r) == 1 { SixInjective(r, one); }
    if q' :| Divides(Expanded(hrp, data), q', one) { DivisionUnique(Expanded(hrp, data), q, r, q', one); }
  }

  // ---- changes of the prefix ------------------------------------------------------------------------

  lemma ExpandedRun(hrp: Symbols, vs: Symbols)
    requires AllFiveBits(vs)
    ensures AllFiveBits(Expanded(hrp, vs)) && Polymod(hrp, vs) == Run(0, Expanded(hrp, vs))
  {
    hide Step, Run, Six, FiveBits, Expanded;
    ExpandedIs(hrp, vs);
    OneDivides();
    var one: Symbols := [0, 0, 0, 0, 0, 1];
    RunSix(one);
    RunConcat(0, one, High(hrp) + [0] + LowBits(hrp) + vs);
    RunConcat(1, High(hrp) + [0] + LowBits(hrp), vs);
  }

  /** Prefixes of one length that differ within six adjacent characters, and there
      in the low five bits only or in the high bits only. */
  ghost predicate PrefixBurst(hrp: Symbols, hrp': Symbols, k: nat) {
    && |hrp| == |hrp'| && hrp != hrp'
    && (forall i :: 0 <= i < |hrp| && !(k <= i < k + 6) ==> hrp[i] == hrp'[i])
    && ((forall i :: 0 <= i < |hrp| ==> Hi(hrp[i]) == Hi(hrp'[i])) || (forall i :: 0 <= i < |hrp| ==> Lo(hrp[i]) == Lo(hrp'[i])))
  }

  /** The checksum covers the prefix: such prefixes never share verified data. */
  lemma PrefixBurstDetected(hrp: Symbols, hrp': Symbols, data: Symbols, k: nat)
    requires AllFiveBits(data) && PrefixBurst(hrp, hrp', k)
    ensures !(Verifies(hrp, data) && Verifies(hrp', data))
  {
    hide Run, FiveBits, Polymod;
    var p, p', n := Expanded(hrp, data), Expanded(hrp', data), |hrp|;
    ExpandedRun(hrp, data);
    ExpandedRun(hrp', data);
    var at := PrefixWindow(hrp, hrp', data, k);
    BurstDiffers(0, p, p', if at + 6 <= |p| then at else |p| - 6);
  }

  /** Where the expanded prefixes differ. */
  lemma PrefixWindow(hrp: Symbols, hrp': Symbols, data: Symbols, k: nat) returns (at: nat)
    requires PrefixBurst(hrp, hrp', k)
    ensures var p, p' := Expanded(hrp, data), Expanded(hrp', data);
      |p| == |p'| && p != p' && forall i :: 0 <= i < |p| && !(at <= i < at + 6) ==> p[i] == p'[i]
  {
    hide Hi, Lo;
    var p, p', n := Expanded(hrp, data), Expanded(hrp', data), |hrp|;
    at := (if forall i :: 0 <= i < n ==> Hi(hrp[i]) == Hi(hrp'[i]) then n + 7 else 6) + k;
    var i :| 0 <= i < n && hrp[i] != hrp'[i];
    SameParts(hrp[i], hrp'[i]);
    assert p[6 + i] == Hi(hrp[i]) && p'[6 + i] == Hi(hrp'[i]);
    assert p[n + 7 + i] == Lo(hrp[i]) && p'[n + 7 + i] == Lo(hrp'[i]);
  }

  lemma SameParts(c: bv8, d: bv8)
    ensures Hi(c) == Hi(d) && Lo(c) == Lo(d) ==> c == d
  {
  }
}
