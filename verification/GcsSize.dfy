/** The worst-case size of version 2 filters: `MaxFilterV2Size` of gcs/gcs.go. */
module GcsSize {
  import opened BitLists
  import opened BitStream
  import opened VarInt
  import opened Golomb
  import opened Gcs

  /** The size formula as computed, in 64-bit words that wrap around. */
  function MaxFilterV2Size(B: nat, M: uint64, N: nat): (size: uint64)
    requires N < 0x1_0000_0000
  {
    var largestDiff := (N * M + TWO64 - 1) % TWO64;
    var maxQuoBits := Shr(largestDiff, B);
    var maxBits := (N + N * B + maxQuoBits) % TWO64;
    ((maxBits + 7) % TWO64 / 8 + VarIntSerializeSize(N)) % TWO64
  }

  /** No step of the formula wraps around. */
  predicate NoOverflow(B: nat, M: uint64, N: nat) {
    M >= 1 && 1 <= N * M < TWO64 && N + N * B + Shr(N * M - 1, B) + 7 < TWO64
  }

  lemma {:induction false} ShrMonotone(a: nat, b: nat, k: nat)
    requires a <= b
    ensures Shr(a, k) <= Shr(b, k)
  {
    if k > 0 { ShrMonotone(a / 2, b / 2, k - 1); }
  }

  /** Quotients of parts add up to at most the quotient of the whole. */
  lemma {:induction false} ShrSuperadditive(a: nat, b: nat, k: nat)
    ensures Shr(a, k) + Shr(b, k) <= Shr(a + b, k)
  {
    if k > 0 {
      ShrSuperadditive(a / 2, b / 2, k - 1);
      ShrMonotone(a / 2 + b / 2, (a + b) / 2, k - 1);
    }
  }

  /** Coded values take 1 + B bits each and a shared budget of quotient bits. */
  lemma {:induction false} EncodeLength(prev: nat, values: seq<nat>, B: nat)
    requires SortedFrom(prev, values) && values != []
    ensures prev <= values[|values| - 1]
    ensures |Encode(prev, values, B)| <= |values| * (1 + B) + Shr(values[|values| - 1] - prev, B)
    decreases |values|
  {
    hide Shr, Code;
    var v, more := values[0], values[1..];
    assert |Encode(prev, values, B)| == Shr(v - prev, B) + 1 + B + |Encode(v, more, B)|;
    if more != [] {
      EncodeLength(v, more, B);
      var last := values[|values| - 1];
      assert more[|more| - 1] == last;
      ShrSuperadditive(v - prev, last - v, B);
      assert |values| * (1 + B) == |more| * (1 + B) + (1 + B);
    }
  }

  lemma MulMonotone(a: nat, b: nat, c: nat)
    requires a <= b
    ensures a * c <= b * c
  {
  }

  lemma ValuesBounded(version: nat, N: uint64, key: Key, data: seq<Item>, h: SipHash, v: uint64)
    requires N > 0 && v in Values(version, N, key, data, h)
    ensures v < N
  {
    hide Hashes, Sort, Reduce;
    var hs := Hashes(version, key, data, h);
    var rs := ReduceAll(version, hs, N);
    SortSorts(rs);
    var i :| 0 <= i < |rs| && rs[i] == v;
    ReduceInRange(version, hs[i], N);
  }

  /** The bits of a filter of n entries are within the formula's budget for any
      number of items that is at least n. */
  lemma BitsWithinBudget(values: seq<uint64>, B: nat, M: uint64, N: nat)
    requires values != [] && SortedFrom(0, values) && |values| <= N
    requires |values| * M > 0 && values[|values| - 1] < |values| * M
    ensures N * M > 0
    ensures |Encode(0, values, B)| <= N + N * B + Shr(N * M - 1, B)
  {
    hide Shr, Encode, SortedFrom;
    EncodeLength(0, values, B);
    MulMonotone(|values|, N, M);
    MulMonotone(|values|, N, 1 + B);
    ShrMonotone(values[|values| - 1], N * M - 1, B);
    assert N * (1 + B) == N + N * B;
  }

  lemma VarIntSizeMonotone(a: uint64, b: uint64)
    requires a <= b
    ensures VarIntSerializeSize(a) <= VarIntSerializeSize(b)
  {
  }

  /** Every version 2 filter built from at most N items fits, as long as the
      formula does not wrap around. */
  lemma FilterFits(B: nat, M: uint64, key: Key, data: seq<Item>, h: SipHash, N: nat)
    requires B <= MAX_B && |data| <= MAX_INT32 && |data| <= N < 0x1_0000_0000
    requires N == 0 || NoOverflow(B, M, N)
    ensures |Build(2, B, M, key, data, h).filterNData| <= MaxFilterV2Size(B, M, N)
  {
    hide Hashes, Values, Pow2, Shr, Encode, Pack, Sort, SortedFrom;
    var f := Build(2, B, M, key, data, h);
    if f.n > 0 {
      var n := f.n;
      MulMonotone(n, N, M);
      MulBounds(1, n, M, M);
      assert f.modulusNM == n * M;
      var hs := Hashes(2, key, data, h);
      SortSorts(ReduceAll(2, hs, f.modulusNM));
      var values := SortedValues(2, f.modulusNM, key, data, h);
      ValuesBounded(2, f.modulusNM, key, data, h, values[n - 1]);
      BitsWithinBudget(values, B, M, N);
      VarIntRoundTrip(n, []);
      assert WriteVarInt(n) + [] == WriteVarInt(n);
      VarIntSizeMonotone(n, N);
      FormulaExact(B, M, N);
    }
  }

  ghost function SortedValues(version: nat, N: uint64, key: Key, data: seq<Item>, h: SipHash): (vs: seq<uint64>)
    requires version != 1
    ensures vs == Values(version, N, key, data, h)
    ensures |vs| == |Hashes(version, key, data, h)| && SortedFrom(0, vs)
  {
    SortSorts(ReduceAll(version, Hashes(version, key, data, h), N));
    Values(version, N, key, data, h)
  }

  lemma FormulaExact(B: nat, M: uint64, N: nat)
    requires N < 0x1_0000_0000 && NoOverflow(B, M, N)
    ensures MaxFilterV2Size(B, M, N) == (N + N * B + Shr(N * M - 1, B) + 7) / 8 + VarIntSerializeSize(N)
  {
    hide Shr;
    MinusOne(N * M);
    var bits := N + N * B + Shr(N * M - 1, B);
    NoWrap(bits);
    NoWrap(bits + 7);
    NoWrap((bits + 7) / 8 + VarIntSerializeSize(N));
  }

  lemma MinusOne(x: nat)
    requires 1 <= x < TWO64
    ensures (x + TWO64 - 1) % TWO64 == x - 1
  {
  }

  lemma NoWrap(x: nat)
    requires x < TWO64
    ensures x % TWO64 == x
  {
  }

  /** When the formula wraps around the bound can fail: one item, M = 0, B = 0. */
  lemma FormulaCanWrap(key: Key, h: SipHash)
    ensures MaxFilterV2Size(0, 0, 1) == 1
    ensures |Build(2, 0, 0, key, [[1]], h).filterNData| == 2
  {
    hide Pack, Sort;
    var data: seq<Item> := [[1]];
    assert data[..0] == [];
    assert Hashes(2, key, data[..0], h) == [];
    assert Hashes(2, key, data, h) == [h(key, [1])];
    var values := SortedValues(2, 0, key, data, h);
    ValuesZero(key, data, h, values[0]);
    assert values == [0];
    assert values[1..] == [];
    assert |Encode(0, values, 0)| == 1;
  }

  lemma ValuesZero(key: Key, data: seq<Item>, h: SipHash, v: uint64)
    requires v in Values(2, 0, key, data, h)
    ensures v == 0
  {
    hide Hashes, Sort;
    SortSorts(ReduceAll(2, Hashes(2, key, data, h), 0));
  }
}
