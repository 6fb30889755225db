/** The BCH checksum of bech32/bech32.go. */
module Bech32Checksum {
  import opened Options

  type Symbols = seq<bv8>

  function Xor(a: bv32, b: bv32): bv32 { a ^ b }
  function Xor8(a: bv8, b: bv8): bv8 { a ^ b }

  /** A generator, if its bit is set. */
  function Select(b: bv32, mask: bv32, gen: bv32): bv32 {
    if b & mask != 0 then gen else 0
  }

  /** The generators selected by the top five bits. */
  function Feedback(b: bv32): bv32 {
    Xor(Xor(Xor(Xor(Select(b, 1, 0x3b6a57b2), Select(b, 2, 0x26508e6d)), Select(b, 4, 0x1ea119fa)),
            Select(b, 8, 0x3d4233dd)), Select(b, 16, 0x2a1462b3))
  }

  function Shift(chk: bv32, v: bv8): bv32 {
    ((chk & 0x1ffffff) << 5) ^ (v as bv32)
  }

  function Top(chk: bv32): bv32 { chk >> 25 }

  /** One round: shift in a symbol and reduce. */
  function Step(chk: bv32, v: bv8): bv32 {
    Xor(Shift(chk, v), Feedback(Top(chk)))
  }

  const MASKS: seq<bv32> := [1, 2, 4, 8, 16]
  const GEN: seq<bv32> := [0x3b6a57b2, 0x26508e6d, 0x1ea119fa, 0x3d4233dd, 0x2a1462b3]

  method Round(chk: bv32, v: bv8) returns (r: bv32)
    ensures r == Step(chk, v)
  {
    hide Feedback, Select, Xor, Shift, Top;
    var b := Top(chk);
    r := Shift(chk, v);
    ghost var start := r;
    XorZero(r);
    for i := 0 to 5
      invariant r == Xor(start, Partial(b, i))
    {
      XorAssoc(start, Partial(b, i), Select(b, MASKS[i], GEN[i]));
      SelectIs(b, MASKS[i], GEN[i], r);
      if b & MASKS[i] != 0 {
        r := Xor(r, GEN[i]);
      }
    }
    PartialAll(b);
  }

  ghost function Partial(b: bv32, i: nat): bv32
    requires i <= 5
  {
    if i == 0 then 0 else Xor(Partial(b, i - 1), Select(b, MASKS[i - 1], GEN[i - 1]))
  }

  lemma SelectIs(b: bv32, mask: bv32, gen: bv32, r: bv32)
    ensures Xor(r, Select(b, mask, gen)) == if b & mask != 0 then Xor(r, gen) else r
  {
  }

  lemma XorZero(r: bv32)
    ensures Xor(r, 0) == r && Xor(0, r) == r && Xor(r, r) == 0
  {
  }

  lemma XorAssoc(a: bv32, b: bv32, c: bv32)
    ensures Xor(Xor(a, b), c) == Xor(a, Xor(b, c))
  {
  }

  lemma PartialAll(b: bv32)
    ensures Partial(b, 5) == Feedback(b)
  {
    hide Select, Xor;
    XorZero(Select(b, 1, 0x3b6a57b2));
    assert Partial(b, 1) == Xor(Partial(b, 0), Select(b, 1, 0x3b6a57b2)) == Select(b, 1, 0x3b6a57b2);
    assert Partial(b, 2) == Xor(Partial(b, 1), Select(b, 2, 0x26508e6d));
    assert Partial(b, 3) == Xor(Partial(b, 2), Select(b, 4, 0x1ea119fa));
    assert Partial(b, 4) == Xor(Partial(b, 3), Select(b, 8, 0x3d4233dd));
    assert Partial(b, 5) == Xor(Partial(b, 4), Select(b, 16, 0x2a1462b3));
  }

  /** Polynomial residues have 30 bits. */
  predicate Residue(chk: bv32) {
    chk & 0xc000_0000 == 0
  }

  predicate FiveBits(v: bv8) {
    v & 0xe0 == 0
  }

  ghost predicate AllFiveBits(vs: Symbols) {
    forall i :: 0 <= i < |vs| ==> FiveBits(vs[i])
  }

  lemma StepResidue(chk: bv32, v: bv8)
    requires FiveBits(v)
    ensures Residue(Step(chk, v))
  {
  }

  lemma XorPairs(a: bv32, b: bv32, c: bv32, d: bv32)
    ensures Xor(Xor(a, b), Xor(c, d)) == Xor(Xor(a, c), Xor(b, d))
  {
    hide Xor;
    XorAssoc(a, b, Xor(c, d));
    XorAssoc(b, c, d);
    XorComm(b, c);
    XorAssoc(c, b, d);
    XorAssoc(a, c, Xor(b, d));
  }

  lemma XorComm(a: bv32, b: bv32)
    ensures Xor(a, b) == Xor(b, a)
  {
  }

  lemma SelectLinear(a: bv32, b: bv32, mask: bv32, gen: bv32)
    requires mask == 1 || mask == 2 || mask == 4 || mask == 8 || mask == 16
    ensures Select(Xor(a, b), mask, gen) == Xor(Select(a, mask, gen), Select(b, mask, gen))
  {
    hide Xor;
    MaskBit(a, b, mask);
    XorZero(gen);
    XorZero(0);
  }

  /** A bit of an XOR is set when exactly one of the two bits is. */
  lemma MaskBit(a: bv32, b: bv32, mask: bv32)
    requires mask == 1 || mask == 2 || mask == 4 || mask == 8 || mask == 16
    ensures Xor(a, b) & mask != 0 <==> ((a & mask != 0) != (b & mask != 0))
  {
    if mask == 1 { assert (a ^ b) & 1 == (a & 1) ^ (b & 1); }
    else if mask == 2 { assert (a ^ b) & 2 == (a & 2) ^ (b & 2); }
    else if mask == 4 { assert (a ^ b) & 4 == (a & 4) ^ (b & 4); }
    else if mask == 8 { assert (a ^ b) & 8 == (a & 8) ^ (b & 8); }
    else { assert (a ^ b) & 16 == (a & 16) ^ (b & 16); }
  }

  lemma FeedbackLinear(a: bv32, b: bv32)
    ensures Feedback(Xor(a, b)) == Xor(Feedback(a), Feedback(b))
  {
    hide Select, Xor;
    SelectLinear(a, b, 1, 0x3b6a57b2);
    SelectLinear(a, b, 2, 0x26508e6d);
    SelectLinear(a, b, 4, 0x1ea119fa);
    SelectLinear(a, b, 8, 0x3d4233dd);
    SelectLinear(a, b, 16, 0x2a1462b3);
    XorPairsFive(Select(a, 1, 0x3b6a57b2), Select(b, 1, 0x3b6a57b2), Select(a, 2, 0x26508e6d), Select(b, 2, 0x26508e6d),
                 Select(a, 4, 0x1ea119fa), Select(b, 4, 0x1ea119fa), Select(a, 8, 0x3d4233dd), Select(b, 8, 0x3d4233dd),
                 Select(a, 16, 0x2a1462b3), Select(b, 16, 0x2a1462b3));
  }

  lemma XorPairsFive(a0: bv32, b0: bv32, a1: bv32, b1: bv32, a2: bv32, b2: bv32, a3: bv32, b3: bv32, a4: bv32, b4: bv32)
    ensures Xor(Xor(Xor(Xor(Xor(a0, b0), Xor(a1, b1)), Xor(a2, b2)), Xor(a3, b3)), Xor(a4, b4))
         == Xor(Xor(Xor(Xor(Xor(a0, a1), a2), a3), a4), Xor(Xor(Xor(Xor(b0, b1), b2), b3), b4))
  {
    hide Xor;
    XorPairs(a0, b0, a1, b1);
    XorPairs(Xor(a0, a1), Xor(b0, b1), a2, b2);
    XorPairs(Xor(Xor(a0, a1), a2), Xor(Xor(b0, b1), b2), a3, b3);
    XorPairs(Xor(Xor(Xor(a0, a1), a2), a3), Xor(Xor(Xor(b0, b1), b2), b3), a4, b4);
  }

  lemma ShiftLinear(a: bv32, b: bv32, v: bv8, w: bv8)
    ensures Shift(Xor(a, b), Xor8(v, w)) == Xor(Shift(a, v), Shift(b, w))
    ensures Top(Xor(a, b)) == Xor(Top(a), Top(b))
  {
  }

  /** The round is linear over GF(2). */
  lemma StepLinear(a: bv32, b: bv32, v: bv8, w: bv8)
    ensures Step(Xor(a, b), Xor8(v, w)) == Xor(Step(a, v), Step(b, w))
  {
    hide Feedback, Shift, Xor, Xor8, Top;
    ShiftLinear(a, b, v, w);
    FeedbackLinear(Top(a), Top(b));
    XorPairs(Shift(a, v), Shift(b, w), Feedback(Top(a)), Feedback(Top(b)));
  }

  /** The round loses nothing: only the zero residue is taken to zero. */
  lemma StepInjective(a: bv32)
    requires Residue(a) && Step(a, 0) == 0
    ensures a == 0
  {
  }

  /** Without bits to reduce the round is a shift. */
  lemma StepShift(a: bv32, v: bv8)
    requires a & 0xfe00_0000 == 0
    ensures Step(a, v) == (a << 5) ^ (v as bv32)
  {
  }

  function Run(chk: bv32, vs: Symbols): bv32 {
    if vs == [] then chk else Step(Run(chk, vs[..|vs| - 1]), vs[|vs| - 1])
  }

  function HighPart(c: bv8): bv8 { c >> 5 }
  function LowPart(c: bv8): bv8 { c & 31 }

  function High(hrp: Symbols): Symbols { seq(|hrp|, i requires 0 <= i < |hrp| => HighPart(hrp[i])) }
  function LowBits(hrp: Symbols): Symbols { seq(|hrp|, i requires 0 <= i < |hrp| => LowPart(hrp[i])) }

  const NO_CHECKSUM: Symbols := [0, 0, 0, 0, 0, 0]

  /** The residue before the data: high bits, a zero, low bits of the prefix. */
  function Start(hrp: Symbols): bv32 {
    Run(1, High(hrp) + [0] + LowBits(hrp))
  }

  lemma RunSnoc(chk: bv32, vs: Symbols, v: bv8)
    ensures Run(chk, vs + [v]) == Step(Run(chk, vs), v)
  {
    assert (vs + [v])[..|vs|] == vs;
  }

  lemma {:induction false} RunConcat(chk: bv32, us: Symbols, vs: Symbols)
    ensures Run(chk, us + vs) == Run(Run(chk, us), vs)
  {
    hide Step;
    if vs == [] {
      assert us + vs == us;
    } else {
      RunConcat(chk, us, vs[..|vs| - 1]);
      assert (us + vs)[..|us + vs| - 1] == us + vs[..|vs| - 1];
    }
  }

  method Rounds(chk: bv32, vs: Symbols) returns (r: bv32)
    ensures r == Run(chk, vs)
  {
    hide Step;
    r := chk;
    for i := 0 to |vs|
      invariant r == Run(chk, vs[..i])
    {
      r := Round(r, vs[i]);
      assert vs[..i + 1] == vs[..i] + [vs[i]];
      RunSnoc(chk, vs[..i], vs[i]);
    }
    assert vs[..|vs|] == vs;
  }

  method Bech32Polymod(hrp: Symbols, values: Symbols, checksum: Option<Symbols>) returns (chk: bv32)
    ensures chk == Polymod(hrp, values + (if checksum.None? then NO_CHECKSUM else checksum.value))
  {
    hide Step, Run;
    chk := 1;
    // Account for the high bits of the prefix.
    RunEmpty(1);
    for i := 0 to |hrp|
      invariant chk == Run(1, High(hrp)[..i])
    {
      chk := Round(chk, HighPart(hrp[i]));
      RunNext(1, High(hrp), i);
    }
    // Account for the separator.
    ghost var hi := High(hrp) + [0];
    RunSnoc(1, High(hrp), 0);
    assert High(hrp)[..|hrp|] == High(hrp);
    chk := Round(chk, 0);
    // Account for the low bits of the prefix.
    ghost var mid := chk;
    RunEmpty(mid);
    for i := 0 to |hrp|
      invariant chk == Run(mid, LowBits(hrp)[..i])
    {
      chk := Round(chk, LowPart(hrp[i]));
      RunNext(mid, LowBits(hrp), i);
    }
    assert LowBits(hrp)[..|hrp|] == LowBits(hrp);
    RunConcat(1, hi, LowBits(hrp));
    // Account for the values and the checksum.
    ghost var start := chk;
    chk := Rounds(chk, values);
    RunConcat(start, values, if checksum.None? then NO_CHECKSUM else checksum.value);
    if checksum.None? {
      chk := Rounds(chk, NO_CHECKSUM);
    } else {
      chk := Rounds(chk, checksum.value);
    }
  }

  lemma RunEmpty(chk: bv32)
    ensures Run(chk, []) == chk
  {
  }

  lemma RunNext(chk: bv32, vs: Symbols, i: nat)
    requires i < |vs|
    ensures Run(chk, vs[..i + 1]) == Step(Run(chk, vs[..i]), vs[i])
  {
    assert vs[..i + 1] == vs[..i] + [vs[i]];
    RunSnoc(chk, vs[..i], vs[i]);
  }

  function Polymod(hrp: Symbols, vs: Symbols): bv32 {
    Run(Start(hrp), vs)
  }

  // ---- linearity over whole runs ----------------------------------------------------

  function XorAll(us: Symbols, vs: Symbols): (ws: Symbols)
    requires |us| == |vs|
    ensures |ws| == |us|
  {
    seq(|us|, i requires 0 <= i < |us| => Xor8(us[i], vs[i]))
  }

  lemma {:induction false} RunLinear(a: bv32, b: bv32, us: Symbols, vs: Symbols)
    requires |us| == |vs|
    ensures Run(Xor(a, b), XorAll(us, vs)) == Xor(Run(a, us), Run(b, vs))
  {
    hide Step, Xor, Xor8;
    if us != [] {
      var n := |us| - 1;
      RunLinear(a, b, us[..n], vs[..n]);
      assert XorAll(us, vs)[..n] == XorAll(us[..n], vs[..n]);
      StepLinear(Run(a, us[..n]), Run(b, vs[..n]), us[n], vs[n]);
    }
  }

  lemma {:induction false} RunResidue(chk: bv32, vs: Symbols)
    requires Residue(chk) && AllFiveBits(vs)
    ensures Residue(Run(chk, vs))
  {
    hide Step;
    if vs != [] {
      var n := |vs| - 1;
      RunResidue(chk, vs[..n]);
      StepResidue(Run(chk, vs[..n]), vs[n]);
    }
  }

  function ZeroSymbols(n: nat): (vs: Symbols) { seq(n, _ => 0) }

  /** A difference that is not zero stays so through unchanged symbols. */
  lemma {:induction false} RunKeepsDifference(chk: bv32, n: nat)
    requires Residue(chk) && chk != 0
    ensures Run(chk, ZeroSymbols(n)) != 0
  {
    hide Step;
    if n > 0 {
      RunKeepsDifference(chk, n - 1);
      assert ZeroSymbols(n)[..n - 1] == ZeroSymbols(n - 1);
      RunResidue(chk, ZeroSymbols(n - 1));
      if Step(Run(chk, ZeroSymbols(n - 1)), 0) == 0 { StepInjective(Run(chk, ZeroSymbols(n - 1))); }
    }
  }

  lemma {:induction false} RunOfZeros(n: nat)
    ensures Run(0, ZeroSymbols(n)) == 0
  {
    if n > 0 {
      RunOfZeros(n - 1);
      assert ZeroSymbols(n)[..n - 1] == ZeroSymbols(n - 1);
    }
  }

  /** Six symbols as a 30-bit number. */
  function Six(c0: bv8, c1: bv8, c2: bv8, c3: bv8, c4: bv8, c5: bv8): bv32 {
    (c0 as bv32 << 25) ^ (c1 as bv32 << 20) ^ (c2 as bv32 << 15) ^
    (c3 as bv32 << 10) ^ (c4 as bv32 << 5) ^ (c5 as bv32)
  }

  function PackSix(c: Symbols): bv32
    requires |c| == 6
  {
    Six(c[0], c[1], c[2], c[3], c[4], c[5])
  }

  /** Six symbols on a zero residue are just packed. */
  lemma RunSix(c: Symbols)
    requires |c| == 6 && AllFiveBits(c)
    ensures Run(0, c) == PackSix(c)
  {
    hide Step, Run, Six, FiveBits;
    RunEmpty(0);
    assert c[..0] == [] && c[..6] == c;
    RunNext(0, c, 0);
    RunNext(0, c, 1);
    RunNext(0, c, 2);
    RunNext(0, c, 3);
    RunNext(0, c, 4);
    RunNext(0, c, 5);
    SixShifts(c[0], c[1], c[2], c[3], c[4], c[5]);
  }

  lemma SixShifts(c0: bv8, c1: bv8, c2: bv8, c3: bv8, c4: bv8, c5: bv8)
    requires FiveBits(c0) && FiveBits(c1) && FiveBits(c2) && FiveBits(c3) && FiveBits(c4) && FiveBits(c5)
    ensures Step(Step(Step(Step(Step(Step(0, c0), c1), c2), c3), c4), c5) == Six(c0, c1, c2, c3, c4, c5)
  {
    hide Step;
    var a1 := c0 as bv32;
    var a2 := (a1 << 5) ^ (c1 as bv32);
    var a3 := (a2 << 5) ^ (c2 as bv32);
    var a4 := (a3 << 5) ^ (c3 as bv32);
    var a5 := (a4 << 5) ^ (c4 as bv32);
    StepShift(0, c0); StepShift(a1, c1); StepShift(a2, c2);
    StepShift(a3, c3); StepShift(a4, c4); StepShift(a5, c5);
  }

  /** Packing loses nothing. */
  lemma SixInjective(c: Symbols, d: Symbols)
    requires |c| == |d| == 6 && AllFiveBits(c) && AllFiveBits(d) && PackSix(c) == PackSix(d)
    ensures c == d
  {
    hide Six, FiveBits;
    SixParts(c[0], c[1], c[2], c[3], c[4], c[5]);
    SixParts(d[0], d[1], d[2], d[3], d[4], d[5]);
  }

  /** Symbol i of a packed number. */
  function Part(x: bv32, i: nat): bv8
    requires i < 6
  {
    match i
    case 0 => ((x >> 25) & 31) as bv8
    case 1 => ((x >> 20) & 31) as bv8
    case 2 => ((x >> 15) & 31) as bv8
    case 3 => ((x >> 10) & 31) as bv8
    case 4 => ((x >> 5) & 31) as bv8
    case _ => (x & 31) as bv8
  }

  lemma SixParts(c0: bv8, c1: bv8, c2: bv8, c3: bv8, c4: bv8, c5: bv8)
    requires FiveBits(c0) && FiveBits(c1) && FiveBits(c2) && FiveBits(c3) && FiveBits(c4) && FiveBits(c5)
    ensures var x := Six(c0, c1, c2, c3, c4, c5);
      Part(x, 0) == c0 && Part(x, 1) == c1 && Part(x, 2) == c2 && Part(x, 3) == c3 && Part(x, 4) == c4 && Part(x, 5) == c5
  {
  }

  /** Taking the parts of a residue and packing them gives it back. */
  lemma PartsOfResidue(x: bv32)
    requires Residue(x)
    ensures FiveBits(Part(x, 0)) && FiveBits(Part(x, 1)) && FiveBits(Part(x, 2))
         && FiveBits(Part(x, 3)) && FiveBits(Part(x, 4)) && FiveBits(Part(x, 5))
    ensures Six(Part(x, 0), Part(x, 1), Part(x, 2), Part(x, 3), Part(x, 4), Part(x, 5)) == x
  {
  }

  // ---- the checksum -------------------------------------------------------------------

  predicate Verifies(hrp: Symbols, data: Symbols) {
    Polymod(hrp, data) == 1
  }

  function Parts(x: bv32): (c: Symbols)
    ensures |c| == 6
  {
    [Part(x, 0), Part(x, 1), Part(x, 2), Part(x, 3), Part(x, 4), Part(x, 5)]
  }

  /** The checksum written for a payload. */
  function Checksum(hrp: Symbols, values: Symbols): (c: Symbols)
    ensures |c| == 6
  {
    Parts(Xor(Polymod(hrp, values + NO_CHECKSUM), 1))
  }

  /** The residue with a checksum is the residue without it, plus the checksum. */
  lemma ChecksumAdds(hrp: Symbols, values: Symbols, c: Symbols)
    requires |c| == 6 && AllFiveBits(c)
    ensures Polymod(hrp, values + c) == Xor(Polymod(hrp, values + NO_CHECKSUM), PackSix(c))
  {
    hide Step, Xor, Run, Six, Start, Xor8;
    var x := Run(Start(hrp), values);
    RunConcat(Start(hrp), values, c);
    RunConcat(Start(hrp), values, NO_CHECKSUM);
    RunLinear(x, 0, NO_CHECKSUM, c);
    XorZero(x);
    forall i | 0 <= i < 6 ensures Xor8(NO_CHECKSUM[i], c[i]) == c[i] { Xor8Zero(c[i]); }
    assert XorAll(NO_CHECKSUM, c) == c;
    RunSix(c);
  }

  lemma Xor8Zero(a: bv8)
    ensures Xor8(0, a) == a && Xor8(a, 0) == a && Xor8(a, a) == 0
  {
  }

  lemma Xor8Inverse(a: bv8, b: bv8)
    ensures Xor8(a, Xor8(a, b)) == b
    ensures Xor8(a, b) == 0 ==> a == b
    ensures FiveBits(a) && FiveBits(b) ==> FiveBits(Xor8(a, b))
  {
  }

  lemma XorIs(a: bv32, b: bv32, c: bv32)
    ensures Xor(a, b) == c <==> b == Xor(a, c)
  {
    hide Xor;
    XorAssoc(a, a, b);
    XorAssoc(a, a, c);
    XorZero(a);
    XorZero(b);
    XorZero(c);
  }

  lemma StartResidue(hrp: Symbols)
    ensures Residue(Start(hrp))
  {
    hide Step, Run;
    var vs := High(hrp) + [0] + LowBits(hrp);
    forall i | 0 <= i < |vs| ensures FiveBits(vs[i]) {
      if i < |hrp| { PartsAreFiveBits(hrp[i]); }
      else if i > |hrp| { PartsAreFiveBits(hrp[i - |hrp| - 1]); }
    }
    RunResidue(1, vs);
  }

  lemma PartsAreFiveBits(c: bv8)
    ensures FiveBits(HighPart(c)) && FiveBits(LowPart(c))
  {
  }

  /** Exactly one checksum verifies: the one that is written. */
  lemma ChecksumUnique(hrp: Symbols, values: Symbols, c: Symbols)
    requires AllFiveBits(values) && |c| == 6 && AllFiveBits(c)
    ensures AllFiveBits(Checksum(hrp, values))
    ensures Verifies(hrp, values + c) <==> c == Checksum(hrp, values)
  {
    hide Step, Xor, Run, Six, Start, FiveBits, Part, Residue;
    var p := Polymod(hrp, values + NO_CHECKSUM);
    var want := Xor(p, 1);
    StartResidue(hrp);
    AllFive(values);
    RunResidue(Start(hrp), values + NO_CHECKSUM);
    XorResidue(p);
    PartsOfResidue(want);
    var w := Parts(want);
    assert AllFiveBits(w);
    ChecksumAdds(hrp, values, c);
    XorIs(p, PackSix(c), 1);
    if PackSix(c) == want { SixInjective(c, w); }
  }

  lemma AllFive(values: Symbols)
    requires AllFiveBits(values)
    ensures AllFiveBits(values + NO_CHECKSUM)
  {
  }

  lemma XorResidue(p: bv32)
    requires Residue(p)
    ensures Residue(Xor(p, 1))
  {
  }

  // ---- error detection --------------------------------------------------------------------

  /** The two strings differ, and only inside the six symbols from k on. */
  ghost predicate BurstAt(data: Symbols, data': Symbols, k: nat) {
    && |data| == |data'| && k + 6 <= |data| && data != data'
    && data[..k] == data'[..k] && data[k + 6..] == data'[k + 6..]
  }

  /** Any change confined to six adjacent symbols changes the residue. */
  lemma BurstDiffers(start: bv32, data: Symbols, data': Symbols, k: nat)
    requires AllFiveBits(data) && AllFiveBits(data') && BurstAt(data, data', k)
    ensures Run(start, data) != Run(start, data')
  {
    hide Step, Xor, Run, Six, Xor8, FiveBits;
    var head, tail := data[..k], data[k + 6..];
    var c, d := data[k..k + 6], data'[k..k + 6];
    assert data == head + c + tail && data' == head + d + tail;
    var x := Run(start, head);
    RunConcat(start, head, c);
    RunConcat(start, head + c, tail);
    RunConcat(start, head, d);
    RunConcat(start, head + d, tail);
    BurstDifference(x, c, d);
    var e := Xor(Run(x, c), Run(x, d));
    RunKeepsDifference(e, |tail|);
    RunLinear(Run(x, c), Run(x, d), tail, tail);
    forall i | 0 <= i < |tail| ensures Xor8(tail[i], tail[i]) == 0 { Xor8Zero(tail[i]); }
    assert XorAll(tail, tail) == ZeroSymbols(|tail|);
    XorZero(Run(Run(x, c), tail));
  }

  /** So it is detected, at any length. */
  lemma BurstDetected(hrp: Symbols, data: Symbols, data': Symbols, k: nat)
    requires AllFiveBits(data) && AllFiveBits(data') && BurstAt(data, data', k)
    requires Verifies(hrp, data)
    ensures !Verifies(hrp, data')
  {
    BurstDiffers(Start(hrp), data, data', k);
  }

  lemma ZeroIsFiveBits()
    ensures FiveBits(0)
  {
  }

  lemma BurstDifference(x: bv32, c: Symbols, d: Symbols)
    requires |c| == |d| == 6 && AllFiveBits(c) && AllFiveBits(d) && c != d
    ensures var e := Xor(Run(x, c), Run(x, d)); e != 0 && Residue(e)
  {
    hide Step, Xor, Run, Six, Xor8, FiveBits;
    var s := XorAll(c, d);
    RunLinear(x, x, c, d);
    XorZero(x);
    forall i | 0 <= i < 6 ensures FiveBits(s[i]) && (s[i] == 0 ==> c[i] == d[i]) { Xor8Inverse(c[i], d[i]); }
    RunSix(s);
    RunResidue(0, s);
    var z := ZeroSymbols(6);
    ZeroIsFiveBits();
    RunSix(z);
    RunOfZeros(6);
    if Run(0, s) == 0 { SixInjective(s, z); }
  }
}
