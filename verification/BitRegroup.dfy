/** Regrouping bits: `ConvertBits` of bech32/bech32.go, with the base 256 forms. */
module BitRegroup {
  import opened Field

  type Bits = seq<bool>

  function Zeros(n: nat): (bits: Bits)
    ensures |bits| == n
  {
    seq(n, _ => false)
  }

  /** The eight bits of a byte, most significant first. */
  function BitsOf(b: bv8): (bits: Bits)
    ensures |bits| == 8
  {
    seq(8, i requires 0 <= i < 8 => On(b, i))
  }

  /** Bit i from the top. */
  predicate On(b: bv8, i: nat) {
    match i
    case 0 => b & 128 != 0 case 1 => b & 64 != 0 case 2 => b & 32 != 0 case 3 => b & 16 != 0
    case 4 => b & 8 != 0 case 5 => b & 4 != 0 case 6 => b & 2 != 0 case _ => b & 1 != 0
  }

  function ByteOf(bits: Bits): (b: bv8)
    requires |bits| == 8
  {
    Byte(bits[0], bits[1], bits[2], bits[3], bits[4], bits[5], bits[6], bits[7])
  }

  function Byte(b0: bool, b1: bool, b2: bool, b3: bool, b4: bool, b5: bool, b6: bool, b7: bool): bv8 {
    (if b0 then 128 else 0) | (if b1 then 64 else 0) | (if b2 then 32 else 0) | (if b3 then 16 else 0) |
    (if b4 then 8 else 0) | (if b5 then 4 else 0) | (if b6 then 2 else 0) | (if b7 then 1 else 0)
  }

  lemma ByteBits(b: bv8)
    ensures ByteOf(BitsOf(b)) == b
  {
    hide On, Byte;
    ByteOn(b);
  }

  lemma ByteOn(b: bv8)
    ensures Byte(On(b, 0), On(b, 1), On(b, 2), On(b, 3), On(b, 4), On(b, 5), On(b, 6), On(b, 7)) == b
  {
  }

  lemma BitsByte(bits: Bits)
    requires |bits| == 8
    ensures BitsOf(ByteOf(bits)) == bits
  {
    hide On, ByteOf;
    forall i | 0 <= i < 8 ensures BitsOf(ByteOf(bits))[i] == bits[i] { OnByte(bits, i); }
  }

  lemma OnByte(bits: Bits, i: nat)
    requires |bits| == 8 && i < 8
    ensures On(ByteOf(bits), i) == bits[i]
  {
  }

  function Double(b: bv8): bv8 { b << 1 }
  function Half(b: bv8): bv8 { b >> 1 }

  /** b << k and b >> k on eight bits. */
  function Shl(b: bv8, k: nat): bv8
    decreases k
  {
    if k == 0 then b else Shl(Double(b), k - 1)
  }

  function Shr(b: bv8, k: nat): bv8
    decreases k
  {
    if k == 0 then b else Shr(Half(b), k - 1)
  }

  lemma ShiftedOn(b: bv8, i: nat)
    requires i < 8
    ensures On(Double(b), i) == (i < 7 && On(b, i + 1))
    ensures On(Half(b), i) == (i > 0 && On(b, i - 1))
  {
  }

  lemma ShiftOne(b: bv8)
    ensures BitsOf(Double(b)) == BitsOf(b)[1..] + [false]
    ensures BitsOf(Half(b)) == [false] + BitsOf(b)[..7]
  {
    hide On, Double, Half;
    forall i | 0 <= i < 8
      ensures BitsOf(Double(b))[i] == (BitsOf(b)[1..] + [false])[i]
      ensures BitsOf(Half(b))[i] == ([false] + BitsOf(b)[..7])[i]
    {
      ShiftedOn(b, i);
    }
  }

  lemma {:induction false} ShlBits(b: bv8, k: nat)
    requires k <= 8
    ensures BitsOf(Shl(b, k)) == BitsOf(b)[k..] + Zeros(k)
    decreases k
  {
    hide BitsOf, Double, Half;
    if k > 0 {
      ShlBits(Double(b), k - 1);
      ShiftOne(b);
      assert (BitsOf(b)[1..] + [false])[k - 1..] == BitsOf(b)[k..] + [false];
    }
  }

  lemma {:induction false} ShrBits(b: bv8, k: nat)
    requires k <= 8
    ensures BitsOf(Shr(b, k)) == Zeros(k) + BitsOf(b)[..8 - k]
    decreases k
  {
    hide BitsOf, Double, Half;
    if k > 0 {
      ShrBits(Half(b), k - 1);
      ShiftOne(b);
      var bits, n: nat := BitsOf(b), 8 - k;
      assert bits[..7][..n] == bits[..n];
      assert ([false] + bits[..7])[..n + 1] == [false] + bits[..7][..n];
      assert Zeros(k - 1) + [false] == Zeros(k);
    }
  }

  function Or(a: bv8, b: bv8): bv8 { a | b }

  lemma OrOn(a: bv8, b: bv8, i: nat)
    requires i < 8
    ensures On(Or(a, b), i) == (On(a, i) || On(b, i))
  {
  }

  lemma OrBits(a: bv8, b: bv8)
    ensures BitsOf(Or(a, b)) == Ored(BitsOf(a), BitsOf(b))
  {
    hide On, Or;
    forall i | 0 <= i < 8 ensures BitsOf(Or(a, b))[i] == (BitsOf(a)[i] || BitsOf(b)[i]) { OrOn(a, b, i); }
  }

  function Ored(x: Bits, y: Bits): (z: Bits)
    requires |x| == |y| == 8
    ensures |z| == 8
  {
    seq(8, i requires 0 <= i < 8 => x[i] || y[i])
  }

  /** The bits of a sequence whose elements hold n bits each. */
  function Stream(data: seq<bv8>, n: nat): (bits: Bits)
    requires n <= 8
  {
    if data == [] then [] else BitsOf(data[0])[8 - n..] + Stream(data[1..], n)
  }

  /** The elements of n bits each that a bit list is made of. */
  function Group(bits: Bits, n: nat): (data: seq<bv8>)
    requires 1 <= n <= 8
  {
    if |bits| < n then [] else [ByteOf(Zeros(8 - n) + bits[..n])] + Group(bits[n..], n)
  }

  datatype Converted = Regrouped(data: seq<bv8>) | InvalidBitGroups | InvalidIncompleteGroup

  /** Regrouping by its meaning: the bit stream, filled up with zeros or without
      an incomplete group of at most four zeros. */
  function Convert(data: seq<bv8>, fromBits: nat, toBits: nat, pad: bool): (r: Converted) {
    if !(1 <= fromBits <= 8 && 1 <= toBits <= 8) then InvalidBitGroups
    else
      var bits := Stream(data, fromBits);
      var rest := |bits| % toBits;
      if pad then Regrouped(Group(bits + Zeros(if rest == 0 then 0 else toBits - rest), toBits))
      else if rest > 4 || bits[|bits| - rest..] != Zeros(rest) then InvalidIncompleteGroup
      else Regrouped(Group(bits, toBits))
  }

  // ---- whole groups ---------------------------------------------------------------------

  /** A bit list that splits into groups of n. */
  ghost predicate Whole(bits: Bits, n: nat)
    requires 1 <= n
  {
    if |bits| < n then bits == [] else Whole(bits[n..], n)
  }

  lemma {:induction false} WholeSnoc(s: Bits, chunk: Bits, n: nat)
    requires 1 <= n <= 8 && Whole(s, n) && |chunk| == n
    ensures Whole(s + chunk, n)
    ensures Group(s + chunk, n) == Group(s, n) + [ByteOf(Zeros(8 - n) + chunk)]
    decreases |s|
  {
    hide ByteOf;
    if s == [] {
      assert s + chunk == chunk && chunk[..n] == chunk && chunk[n..] == [];
    } else {
      WholeSnoc(s[n..], chunk, n);
      assert (s + chunk)[..n] == s[..n] && (s + chunk)[n..] == s[n..] + chunk;
    }
  }

  lemma {:induction false} WholeRest(s: Bits, pend: Bits, n: nat)
    requires 1 <= n <= 8 && Whole(s, n) && |pend| < n
    ensures Group(s + pend, n) == Group(s, n)
    ensures (|s| + |pend|) % n == |pend|
    decreases |s|
  {
    hide ByteOf;
    if s == [] {
      assert s + pend == pend;
      DivUnique(|pend|, 0, |pend|, n);
    } else {
      WholeRest(s[n..], pend, n);
      assert (s + pend)[..n] == s[..n] && (s + pend)[n..] == s[n..] + pend;
      ModStep(|s| - n + |pend|, n);
    }
  }

  // ---- the loop ---------------------------------------------------------------------------

  /** What has been read is the regrouped bits and the low bits of the next byte. */
  ghost predicate State(bits: Bits, s: Bits, regrouped: seq<bv8>, n: nat, nextByte: bv8, pend: Bits, rest: Bits)
    requires 1 <= n <= 8
  {
    && Whole(s, n) && regrouped == Group(s, n)
    && |pend| <= 8 && BitsOf(nextByte) == Zeros(8 - |pend|) + pend
    && bits == s + pend + rest
  }

  lemma StartState(bits: Bits, n: nat)
    requires 1 <= n <= 8
    ensures State(bits, [], [], n, 0, [], bits)
  {
    ZeroBits();
    assert [] + [] + bits == bits;
  }

  /** Moving e bits of the current element to the next byte. */
  lemma Extract(nextByte: bv8, pend: Bits, b: bv8, cur: Bits, e: nat)
    requires |cur| <= 8 && e <= |cur| && |pend| + e <= 8
    requires BitsOf(nextByte) == Zeros(8 - |pend|) + pend && BitsOf(b) == cur + Zeros(8 - |cur|)
    ensures BitsOf(Or(Shl(nextByte, e), Shr(b, 8 - e))) == Zeros(8 - |pend| - e) + (pend + cur[..e])
  {
    hide BitsOf, Shl, Shr, Or;
    Raise(nextByte, pend, e);
    Take(b, cur, e);
    OrOf(Shl(nextByte, e), Shr(b, 8 - e), pend, cur[..e]);
  }

  lemma Raise(nextByte: bv8, pend: Bits, e: nat)
    requires |pend| + e <= 8 && BitsOf(nextByte) == Zeros(8 - |pend|) + pend
    ensures BitsOf(Shl(nextByte, e)) == Zeros(8 - |pend| - e) + pend + Zeros(e)
  {
    hide BitsOf, Shl;
    ShlBits(nextByte, e);
    assert (Zeros(8 - |pend|) + pend)[e..] == Zeros(8 - |pend| - e) + pend;
  }

  lemma Take(b: bv8, cur: Bits, e: nat)
    requires e <= |cur| <= 8 && BitsOf(b) == cur + Zeros(8 - |cur|)
    ensures BitsOf(Shr(b, 8 - e)) == Zeros(8 - e) + cur[..e]
  {
    hide BitsOf, Shr;
    ShrBits(b, 8 - e);
    assert (cur + Zeros(8 - |cur|))[..e] == cur[..e];
  }

  lemma OrOf(x: bv8, y: bv8, pend: Bits, c: Bits)
    requires |pend| + |c| <= 8
    requires BitsOf(x) == Zeros(8 - |pend| - |c|) + pend + Zeros(|c|) && BitsOf(y) == Zeros(8 - |c|) + c
    ensures BitsOf(Or(x, y)) == Zeros(8 - |pend| - |c|) + (pend + c)
  {
    hide BitsOf, Or;
    OrBits(x, y);
    JoinBits(BitsOf(x), BitsOf(y), pend, c);
  }

  lemma Discard(b: bv8, cur: Bits, e: nat)
    requires e <= |cur| <= 8 && BitsOf(b) == cur + Zeros(8 - |cur|)
    ensures BitsOf(Shl(b, e)) == cur[e..] + Zeros(8 - |cur| + e)
  {
    hide BitsOf, Shl;
    ShlBits(b, e);
    assert (cur + Zeros(8 - |cur|))[e..] == cur[e..] + Zeros(8 - |cur|);
  }

  lemma JoinBits(x: Bits, y: Bits, pend: Bits, c: Bits)
    requires |x| == |y| == 8 && |pend| + |c| <= 8
    requires x == Zeros(8 - |pend| - |c|) + pend + Zeros(|c|) && y == Zeros(8 - |c|) + c
    ensures Ored(x, y) == Zeros(8 - |pend| - |c|) + (pend + c)
  {
    var z := Ored(x, y);
    var w := Zeros(8 - |pend| - |c|) + (pend + c);
    forall i | 0 <= i < 8 ensures z[i] == w[i] {
      if i < 8 - |c| { assert !y[i] && x[i] == w[i]; } else { assert !x[i] && y[i] == w[i]; }
    }
  }

  lemma ExtractState(bits: Bits, s: Bits, regrouped: seq<bv8>, n: nat, nextByte: bv8, pend: Bits, b: bv8, cur: Bits, rest: Bits, e: nat)
    requires 1 <= n <= 8 && State(bits, s, regrouped, n, nextByte, pend, cur + rest)
    requires |cur| <= 8 && e <= |cur| && |pend| + e <= n && BitsOf(b) == cur + Zeros(8 - |cur|)
    ensures State(bits, s, regrouped, n, Or(Shl(nextByte, e), Shr(b, 8 - e)), pend + cur[..e], cur[e..] + rest)
    ensures BitsOf(Shl(b, e)) == cur[e..] + Zeros(8 - |cur| + e)
  {
    hide BitsOf, Shl, Shr, Or, Whole, Group;
    Extract(nextByte, pend, b, cur, e);
    Discard(b, cur, e);
    assert s + pend + (cur + rest) == s + (pend + cur[..e]) + (cur[e..] + rest);
  }

  /** A filled byte joins the regrouped ones. */
  lemma Complete(bits: Bits, s: Bits, regrouped: seq<bv8>, n: nat, nextByte: bv8, pend: Bits, rest: Bits)
    requires 1 <= n <= 8 && State(bits, s, regrouped, n, nextByte, pend, rest) && |pend| == n
    ensures State(bits, s + pend, regrouped + [nextByte], n, 0, [], rest)
  {
    hide BitsOf, ByteOf, Whole, Group;
    WholeSnoc(s, pend, n);
    ByteBits(nextByte);
    ZeroBits();
    assert s + pend + [] + rest == s + pend + rest;
  }

  lemma ZeroBits()
    ensures BitsOf(0) == Zeros(8) + []
  {
    hide On;
    forall i | 0 <= i < 8 ensures !On(0, i) { ZeroOn(i); }
  }

  lemma ZeroOn(i: nat)
    requires i < 8
    ensures !On(0, i)
  {
  }

  lemma Element(data: seq<bv8>, i: nat, n: nat)
    requires 1 <= n <= 8 && i < |data|
    ensures Stream(data[i..], n) == BitsOf(data[i])[8 - n..] + Stream(data[i + 1..], n)
  {
    assert data[i..][1..] == data[i + 1..];
  }

  lemma FinishPadded(bits: Bits, s: Bits, regrouped: seq<bv8>, n: nat, nextByte: bv8, pend: Bits)
    requires 1 <= n <= 8 && State(bits, s, regrouped, n, nextByte, pend, []) && 0 < |pend| < n
    ensures |bits| % n == |pend|
    ensures Group(bits + Zeros(n - |pend|), n) == regrouped + [Shl(nextByte, n - |pend|)]
  {
    hide BitsOf, ByteOf, Shl, Whole, Group;
    var k := n - |pend|;
    WholeRest(s, pend, n);
    assert bits == s + pend;
    WholeSnoc(s, pend + Zeros(k), n);
    assert bits + Zeros(k) == s + (pend + Zeros(k));
    ShlBits(nextByte, k);
    assert BitsOf(Shl(nextByte, k)) == Zeros(8 - n) + (pend + Zeros(k));
    ByteBits(Shl(nextByte, k));
  }

  lemma FinishUnpadded(bits: Bits, s: Bits, regrouped: seq<bv8>, n: nat, nextByte: bv8, pend: Bits)
    requires 1 <= n <= 8 && State(bits, s, regrouped, n, nextByte, pend, []) && |pend| < n
    ensures |bits| % n == |pend| && bits[|bits| - |pend|..] == pend
    ensures Group(bits, n) == regrouped
    ensures nextByte != 0 <==> pend != Zeros(|pend|)
  {
    hide BitsOf, ByteOf, Whole, Group;
    WholeRest(s, pend, n);
    assert bits == s + pend;
    ZeroBits();
    ByteBits(nextByte);
    ByteBits(0);
    if pend == Zeros(|pend|) { assert BitsOf(nextByte) == BitsOf(0); }
    if nextByte == 0 { assert pend == BitsOf(0)[8 - |pend|..]; }
  }

  /** Regroups one element of fromBits bits, kept at the top of b. */
  method Regroup(element: bv8, fromBits: nat, toBits: nat, out: seq<bv8>, byte: bv8, filled: nat,
                 ghost bits: Bits, ghost s0: Bits, ghost pend0: Bits, ghost rest: Bits)
    returns (regrouped: seq<bv8>, nextByte: bv8, filledBits: nat, ghost s: Bits, ghost pend: Bits)
    requires 1 <= fromBits <= 8 && 1 <= toBits <= 8 && filled == |pend0| < toBits
    requires State(bits, s0, out, toBits, byte, pend0, BitsOf(element)[8 - fromBits..] + rest)
    ensures filledBits == |pend| < toBits
    ensures State(bits, s, regrouped, toBits, nextByte, pend, rest)
  {
    hide BitsOf, Shl, Shr, Or, Group, Whole, State;
    regrouped, nextByte, filledBits, s, pend := out, byte, filled, s0, pend0;
    var b := Shl(element, 8 - fromBits);
    ghost var cur := BitsOf(element)[8 - fromBits..];
    ShlBits(element, 8 - fromBits);
    var remFromBits := fromBits;
    while remFromBits > 0
      invariant filledBits == |pend| < toBits
      invariant 0 <= remFromBits == |cur| <= 8 && BitsOf(b) == cur + Zeros(8 - |cur|)
      invariant State(bits, s, regrouped, toBits, nextByte, pend, cur + rest)
    {
      var remToBits := toBits - filledBits;
      var toExtract := remFromBits;
      if remToBits < toExtract { toExtract := remToBits; }
      ExtractState(bits, s, regrouped, toBits, nextByte, pend, b, cur, rest, toExtract);
      nextByte := Or(Shl(nextByte, toExtract), Shr(b, 8 - toExtract));
      b := Shl(b, toExtract);
      pend, cur := pend + cur[..toExtract], cur[toExtract..];
      remFromBits := remFromBits - toExtract;
      filledBits := filledBits + toExtract;
      if filledBits == toBits {
        Complete(bits, s, regrouped, toBits, nextByte, pend, cur + rest);
        s, pend := s + pend, [];
        regrouped := regrouped + [nextByte];
        filledBits := 0;
        nextByte := 0;
      }
    }
    assert cur + rest == rest;
  }

  method ConvertBits(data: seq<bv8>, fromBits: nat, toBits: nat, pad: bool) returns (r: Converted)
    ensures r == Convert(data, fromBits, toBits, pad)
  {
    hide BitsOf, Shl, Group, Stream, Whole, State, Convert;
    if fromBits < 1 || fromBits > 8 || toBits < 1 || toBits > 8 {
      BadGroups(data, fromBits, toBits, pad);
      return InvalidBitGroups;
    }
    var regrouped: seq<bv8> := [];
    var nextByte: bv8 := 0;
    var filledBits := 0;
    ghost var bits, s: Bits, pend: Bits := Stream(data, fromBits), [], [];
    StartState(bits, toBits);
    assert data[0..] == data;
    for i := 0 to |data|
      invariant filledBits == |pend| < toBits
      invariant State(bits, s, regrouped, toBits, nextByte, pend, Stream(data[i..], fromBits))
    {
      Element(data, i, fromBits);
      regrouped, nextByte, filledBits, s, pend :=
        Regroup(data[i], fromBits, toBits, regrouped, nextByte, filledBits, bits, s, pend, Stream(data[i + 1..], fromBits));
    }
    Finish(data, fromBits, toBits, pad, s, regrouped, nextByte, pend);
    if pad && filledBits > 0 {
      nextByte := Shl(nextByte, toBits - filledBits);
      regrouped := regrouped + [nextByte];
      filledBits := 0;
      nextByte := 0;
    }
    if filledBits > 0 && (filledBits > 4 || nextByte != 0) { return InvalidIncompleteGroup; }
    r := Regrouped(regrouped);
  }

  lemma BadGroups(data: seq<bv8>, fromBits: nat, toBits: nat, pad: bool)
    requires !(1 <= fromBits <= 8 && 1 <= toBits <= 8)
    ensures Convert(data, fromBits, toBits, pad) == InvalidBitGroups
  {
  }

  /** What is left after the last element decides the result. */
  lemma Finish(data: seq<bv8>, fromBits: nat, n: nat, pad: bool, s: Bits, regrouped: seq<bv8>, nextByte: bv8, pend: Bits)
    requires 1 <= fromBits <= 8 && 1 <= n <= 8 && |pend| < n
    requires State(Stream(data, fromBits), s, regrouped, n, nextByte, pend, Stream(data[|data|..], fromBits))
    ensures Convert(data, fromBits, n, pad)
         == if pad then Regrouped(if |pend| > 0 then regrouped + [Shl(nextByte, n - |pend|)] else regrouped)
            else if |pend| > 0 && (|pend| > 4 || nextByte != 0) then InvalidIncompleteGroup
            else Regrouped(regrouped)
  {
    hide BitsOf, Shl, Group, Whole, State;
    var bits := Stream(data, fromBits);
    assert Stream(data[|data|..], fromBits) == [];
    FinishUnpadded(bits, s, regrouped, n, nextByte, pend);
    if |pend| > 0 {
      FinishPadded(bits, s, regrouped, n, nextByte, pend);
    } else {
      assert bits + Zeros(0) == bits && pend == Zeros(0);
    }
  }
}
