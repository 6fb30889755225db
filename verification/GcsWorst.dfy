/** The largest version 2 filter there is, and exactly when the size formula of
    gcs/gcs.go bounds every filter. */
module GcsWorst {
  import opened BitLists
  import opened BitStream
  import opened VarInt
  import opened Golomb
  import opened Gcs
  import opened GcsSize
  import Field

  /** The size of the largest filter of n entries, for any modulus n*M mod 2**64. */
  function Worst(B: nat, M: uint64, n: nat): nat
    requires 1 <= n <= MAX_INT32
  {
    var K := Modulus(n, M);
    VarIntSerializeSize(n) + (n * (1 + B) + (if K == 0 then 0 else Shr(K - 1, B)) + 7) / 8
  }

  // ---- no filter is larger -----------------------------------------------------------------

  lemma AtMostWorst(B: nat, M: uint64, key: Key, data: seq<Item>, h: SipHash)
    requires B <= MAX_B && |data| <= MAX_INT32
    ensures var f := Build(2, B, M, key, data, h);
      f.n <= |data| && if f.n == 0 then f.filterNData == [] else |f.filterNData| <= Worst(B, M, f.n)
  {
    hide Hashes, Values, Pow2, Shr, Encode, Pack, Sort, SortedFrom;
    var f := Build(2, B, M, key, data, h);
    if f.n > 0 {
      var K := f.modulusNM;
      var values := SortedValues(2, K, key, data, h);
      var last := values[f.n - 1];
      EncodeLength(0, values, B);
      if K == 0 {
        ValuesZero(key, data, h, last);
        ShrZero(B);
      } else {
        ValuesBounded(2, K, key, data, h, last);
        ShrMonotone(last, K - 1, B);
      }
      VarIntRoundTrip(f.n, []);
      assert WriteVarInt(f.n) + [] == WriteVarInt(f.n);
    }
  }

  lemma {:induction false} ShrZero(k: nat)
    ensures Shr(0, k) == 0
  {
    if k > 0 { ShrZero(k - 1); }
  }

  // ---- when the quotient bits are used up ----------------------------------------------------

  predicate Multiple(v: nat, B: nat) { Low(v, B) == 0 }

  lemma ShrOfSum(a: nat, b: nat, B: nat)
    requires Multiple(a, B)
    ensures Shr(a + b, B) == Shr(a, B) + Shr(b, B)
  {
    hide Shr, Low, Pow2;
    ShrLow(a, B);
    ShrLow(b, B);
    assert (Shr(a, B) + Shr(b, B)) * Pow2(B) == Shr(a, B) * Pow2(B) + Shr(b, B) * Pow2(B);
    ShrLowUnique(a + b, Shr(a, B) + Shr(b, B), Low(b, B), B);
  }

  lemma MultipleDiff(a: nat, b: nat, B: nat)
    requires Multiple(a, B) && Multiple(b, B) && a <= b
    ensures Multiple(b - a, B)
  {
    hide Shr, Low, Pow2;
    ShrLow(a, B);
    ShrLow(b, B);
    ShrMonotone(a, b, B);
    assert (Shr(b, B) - Shr(a, B)) * Pow2(B) == Shr(b, B) * Pow2(B) - Shr(a, B) * Pow2(B);
    ShrLowUnique(b - a, Shr(b, B) - Shr(a, B), 0, B);
  }

  lemma MultipleZero(B: nat)
    ensures Multiple(0, B)
  {
    hide Pow2;
    ShrLowUnique(0, 0, 0, B);
  }

  /** All values are multiples of 2**B, except for copies of the last. */
  ghost predicate Aligned(values: seq<nat>, last: nat, B: nat) {
    forall v :: v in values ==> v <= last && (v == last || Multiple(v, B))
  }

  lemma EncodeNext(prev: nat, values: seq<nat>, B: nat)
    requires SortedFrom(prev, values)
    ensures values == [] ==> Encode(prev, values, B) == []
    ensures values != [] ==>
      var v, more := values[0], values[1..];
      && |Encode(prev, values, B)| == Shr(v - prev, B) + (1 + B) + |Encode(v, more, B)|
      && |values| * (1 + B) == |more| * (1 + B) + (1 + B)
  {
    hide Shr;
    var m := |values| - 1;
    assert |values| * (1 + B) == m * (1 + B) + (1 + B);
  }

  /** Then no quotient bit is lost to rounding. */
  lemma {:induction false} EncodeLengthExact(prev: nat, values: seq<nat>, last: nat, B: nat)
    requires SortedFrom(prev, values) && prev <= last && Aligned(values, last, B)
    requires prev == last || (Multiple(prev, B) && values != [] && values[|values| - 1] == last)
    ensures |Encode(prev, values, B)| == |values| * (1 + B) + Shr(last - prev, B)
    decreases |values|
  {
    hide Shr, Encode, Multiple;
    ShrZero(B);
    EncodeNext(prev, values, B);
    if values != [] {
      var v, more := values[0], values[1..];
      assert v in values && forall x :: x in more ==> x in values;
      if v != last {
        assert more != [] && more[|more| - 1] == last;
        MultipleDiff(prev, v, B);
        ShrOfSum(v - prev, last - v, B);
      }
      EncodeLengthExact(v, more, last, B);
    }
  }

  // ---- hashes that reduce to multiples of 2**B -------------------------------------------------

  function Ceil(x: nat, k: nat): nat
    requires k > 0
  {
    (x + k - 1) / k
  }

  lemma CeilIs(x: nat, k: nat)
    requires k > 0
    ensures x <= Ceil(x, k) * k < x + k
  {
    var q := (x + k - 1) / k;
    assert x + k - 1 == q * k + (x + k - 1) % k;
  }

  lemma CeilLe(y: nat, k: nat, x: nat)
    requires k > 0
    ensures Ceil(y, k) <= x <==> y <= x * k
  {
    hide Ceil;
    CeilIs(y, k);
    if Ceil(y, k) <= x { MulLe(Ceil(y, k), x, k); }
    if x < Ceil(y, k) { MulLe(x + 1, Ceil(y, k), k); }
  }

  lemma QuotientIs(y: nat, r: nat)
    ensures y / TWO64 == r <==> r * TWO64 <= y < (r + 1) * TWO64
  {
  }

  /** At version 2 the hashes that reduce to r are those from one multiple of 2**64/K to the next. */
  lemma ReduceInterval(x: uint64, K: uint64, r: nat)
    requires K > 0
    ensures Reduce(2, x, K) == r <==> Ceil(r * TWO64, K) <= x < Ceil((r + 1) * TWO64, K)
  {
    hide Ceil;
    QuotientIs(x * K, r);
    CeilLe(r * TWO64, K, x);
    CeilLe((r + 1) * TWO64, K, x);
  }

  /** At version 1 they are those that leave the remainder r. */
  lemma ReduceRemainder(x: uint64, K: uint64, r: nat)
    requires K > 0
    ensures Reduce(1, x, K) == r <==> r < K && exists q: nat :: x == K * q + r
  {
    if r < K {
      forall q: nat | x == K * q + r ensures x % K == r { Remainder(K, q, r); }
    }
    assert x == K * (x / K) + x % K;
  }

  lemma Remainder(K: nat, q: nat, r: nat)
    requires r < K
    ensures (K * q + r) % K == r
  {
    var x := K * q + r;
    Apart(K, q - x / K);
    assert K * (q - x / K) == x % K - r;
  }

  lemma Apart(K: nat, d: int)
    ensures d > 0 ==> K * d >= K
    ensures d < 0 ==> K * d <= 0 - K
  {
  }

  /** The map is fair: to every value reduce 2**64/K hashes, rounded down or up. */
  lemma ReduceFair(K: uint64, r: nat)
    requires K > 0
    ensures var n := Ceil((r + 1) * TWO64, K) - Ceil(r * TWO64, K);
      n == TWO64 / K || (n == TWO64 / K + 1 && TWO64 % K != 0)
  {
    hide Ceil;
    CeilIs(r * TWO64, K);
    CeilIs((r + 1) * TWO64, K);
    var a, b := Ceil(r * TWO64, K), Ceil((r + 1) * TWO64, K);
    var q, m := TWO64 / K, TWO64 % K;
    FairBounds(a * K - r * TWO64, b * K - (r + 1) * TWO64, b - a, q, m, K, (b - a) * K);
  }

  lemma FairBounds(s: int, t: int, n: int, q: int, m: int, K: nat, nK: int)
    requires K > 0 && 0 <= s < K && 0 <= t < K && 0 <= m < K && nK == n * K && nK == TWO64 + t - s && q * K + m == TWO64
    ensures n == q || (n == q + 1 && m != 0)
  {
    if n <= q - 1 { MulStep(n, q - 1, K); }
    if n >= q + 2 { MulStep(q + 2, n, K); }
    if n == q + 1 && m == 0 { MulStep(q + 1, n, K); }
  }

  lemma MulStep(a: int, b: int, K: nat)
    requires a <= b
    ensures a * K <= b * K
  {
  }

  /** At least this many hashes reduce to each value below K. */
  function Width(K: nat): (w: nat)
    requires 0 < K < TWO64
  {
    TWO64 / K
  }

  lemma WidthIs(K: nat)
    requires 0 < K < TWO64
    ensures Width(K) >= 1 && Width(K) * K <= TWO64 < Width(K) * K + K && TWO64 < 2 * (Width(K) * K)
  {
    var w := TWO64 / K;
    assert TWO64 == w * K + TWO64 % K;
    MulLe(1, w, K);
  }

  /** The j-th hash that reduces to a multiple of 2**B. */
  function Grid(K: nat, B: nat, j: nat): nat
    requires 0 < K < TWO64
  {
    WidthIs(K);
    Ceil(j / Width(K) * Pow2(B) * TWO64, K) + j % Width(K)
  }

  /** A hash this far into the interval of r reduces to r. */
  lemma IntervalReduces(K: nat, r: nat, t: nat)
    requires 0 < K < TWO64 && r < K && t < Width(K)
    ensures var v := Ceil(r * TWO64, K) + t; v < TWO64 && FastReduce(v, K) == r
  {
    hide Ceil, Width;
    WidthIs(K);
    CeilIs(r * TWO64, K);
    var v := Ceil(r * TWO64, K) + t;
    IntervalBounds(K, r, t, Ceil(r * TWO64, K), Width(K));
    LessCancel(v, TWO64, K);
    Field.DivUnique(v * K, r, v * K - r * TWO64, TWO64);
  }

  lemma IntervalBounds(K: nat, r: nat, t: nat, c: nat, w: nat)
    requires r < K && t < w && w * K <= TWO64 && r * TWO64 <= c * K < r * TWO64 + K
    ensures 0 <= (c + t) * K - r * TWO64 < TWO64
    ensures (c + t) * K < TWO64 * K
  {
    assert (c + t) * K == c * K + t * K;
    MulLe(t + 1, w, K);
    assert (t + 1) * K == t * K + K;
    assert (r + 1) * TWO64 <= K * TWO64;
  }

  lemma LessCancel(a: nat, b: nat, c: nat)
    requires a * c < b * c
    ensures a < b
  {
    if b <= a { MulLe(b, a, c); }
  }

  /** There are at least 2**31 such hashes. */
  lemma RowInRange(K: nat, B: nat, j: nat)
    requires 0 < K < TWO64 && B <= MAX_B && j <= MAX_INT32
    ensures Width(K) >= 1 && j / Width(K) * Pow2(B) < K
  {
    hide Width, Pow2;
    WidthIs(K);
    Pow2Monotone(B, MAX_B);
    WidthBounds();
    var w, P := Width(K), Pow2(B);
    var i := j / w;
    assert i * w <= j by { assert j == i * w + j % w; }
    Reorder(i, P, w);
    MulLe(i * w, MAX_INT32, P);
    MulLe(P, 0x1_0000_0000, MAX_INT32);
    Commute(w, K);
    LessCancel(i * P, K, w);
  }

  lemma MulLe(a: nat, b: nat, c: nat)
    requires a <= b
    ensures a * c <= b * c && c * a <= c * b
  {
  }

  lemma Commute(a: nat, b: nat)
    ensures a * b == b * a
  {
  }

  lemma Reorder(i: nat, P: nat, w: nat)
    ensures i * P * w == i * w * P
  {
  }

  lemma GridReduces(K: nat, B: nat, j: nat)
    requires 0 < K < TWO64 && B <= MAX_B && j <= MAX_INT32
    ensures Width(K) >= 1 && Grid(K, B, j) < TWO64 && FastReduce(Grid(K, B, j), K) == j / Width(K) * Pow2(B)
  {
    hide Ceil, Width, Pow2, FastReduce;
    RowInRange(K, B, j);
    IntervalReduces(K, j / Width(K) * Pow2(B), j % Width(K));
  }

  lemma GridMultiple(K: nat, B: nat, j: nat)
    requires 0 < K < TWO64 && B <= MAX_B && j <= MAX_INT32
    ensures Grid(K, B, j) < TWO64 && Multiple(FastReduce(Grid(K, B, j), K), B)
  {
    hide Grid, Width, Pow2, FastReduce;
    GridReduces(K, B, j);
    var i := j / Width(K);
    ShrLowUnique(i * Pow2(B), i, 0, B);
  }

  lemma GridInjective(K: nat, B: nat, i: nat, j: nat)
    requires 0 < K < TWO64 && B <= MAX_B && i <= MAX_INT32 && j <= MAX_INT32 && Grid(K, B, i) == Grid(K, B, j)
    ensures i == j
  {
    hide Ceil, Width, Pow2, FastReduce;
    GridReduces(K, B, i);
    GridReduces(K, B, j);
    var w, x, y := Width(K), i / Width(K), j / Width(K);
    CancelPow(x, y, Pow2(B));
    assert i == x * w + i % w && j == y * w + j % w;
  }

  lemma CancelPow(x: nat, y: nat, P: nat)
    requires P >= 1 && x * P == y * P
    ensures x == y
  {
    Field.DivUnique(x * P, x, 0, P);
    Field.DivUnique(y * P, y, 0, P);
  }

  /** The greatest hash reduces to the greatest value. */
  lemma TopReduces(K: nat)
    requires 0 < K < TWO64
    ensures FastReduce(TWO64 - 1, K) == K - 1
  {
    assert (TWO64 - 1) * K == (K - 1) * TWO64 + (TWO64 - K);
    Field.DivUnique((TWO64 - 1) * K, K - 1, TWO64 - K, TWO64);
  }

  // ---- a filter of that size -------------------------------------------------------------------

  /** The j-th item: j + 1 zero bytes. */
  function Name(j: nat): (d: Item)
    ensures |d| == j + 1
  {
    seq(j + 1, _ => 0)
  }

  function Names(n: nat): (data: seq<Item>)
    ensures |data| == n
  {
    seq(n, j requires 0 <= j < n => Name(j))
  }

  /** A hash function that gives the j-th item the j-th hash. */
  function HashOf(hs: seq<uint64>): SipHash {
    (key: Key, d: Item) => if 1 <= |d| <= |hs| then hs[|d| - 1] else 0
  }

  lemma {:induction false} HashesOf(hs: seq<uint64>, key: Key, n: nat)
    requires AllDistinct(hs) && n <= |hs|
    ensures Hashes(2, key, Names(n), HashOf(hs)) == hs[..n]
  {
    if n > 0 {
      HashesOf(hs, key, n - 1);
      assert Names(n)[..n - 1] == Names(n - 1);
      assert hs[n - 1] !in hs[..n - 1];
      assert hs[..n] == hs[..n - 1] + [hs[n - 1]];
    }
  }

  /** Distinct hashes, the greatest among them, the others reducing to multiples. */
  ghost predicate Extreme(hs: seq<uint64>, K: nat, B: nat)
    requires 0 < K < TWO64
  {
    && AllDistinct(hs) && TWO64 - 1 in hs
    && forall v :: v in hs ==> v == TWO64 - 1 || Multiple(FastReduce(v, K), B)
  }

  lemma ExtremeHashes(K: nat, B: nat, n: nat) returns (hs: seq<uint64>)
    requires 0 < K < TWO64 && B <= MAX_B && 1 <= n <= MAX_INT32
    ensures |hs| == n && Extreme(hs, K, B)
  {
    hide Grid, FastReduce, Multiple;
    var grid := GridHashes(K, B, n);
    if TWO64 - 1 in grid {
      hs := grid;
    } else {
      hs := grid[..n - 1] + [TWO64 - 1];
      assert TWO64 - 1 !in grid[..n - 1];
      assert forall v :: v in grid[..n - 1] ==> v in grid;
    }
  }

  lemma GridHashes(K: nat, B: nat, n: nat) returns (hs: seq<uint64>)
    requires 0 < K < TWO64 && B <= MAX_B && n <= MAX_INT32
    ensures |hs| == n && AllDistinct(hs) && forall v :: v in hs ==> Multiple(FastReduce(v, K), B)
  {
    hide Grid, FastReduce, Multiple;
    forall j: nat | j < n ensures Grid(K, B, j) < TWO64 && Multiple(FastReduce(Grid(K, B, j), K), B) { GridMultiple(K, B, j); }
    hs := seq(n, j requires 0 <= j < n => Grid(K, B, j));
    forall i, j | 0 <= i < j < n ensures hs[i] != hs[j] {
      if hs[i] == hs[j] { GridInjective(K, B, i, j); }
    }
  }

  /** The values of such hashes use up the quotient bits. */
  lemma ExtremeValues(hs: seq<uint64>, K: nat, B: nat)
    requires 0 < K < TWO64 && Extreme(hs, K, B)
    ensures var values := Sort(ReduceAll(2, hs, K));
      |values| == |hs| && SortedFrom(0, values) && |Encode(0, values, B)| == |hs| * (1 + B) + Shr(K - 1, B)
  {
    hide Sort, FastReduce, Multiple, Shr, Encode, SortedFrom;
    var rs := ReduceAll(2, hs, K);
    var values := Sort(rs);
    SortSorts(rs);
    TopReduces(K);
    forall v | v in values ensures v <= K - 1 && (v == K - 1 || Multiple(v, B)) {
      var i :| 0 <= i < |rs| && rs[i] == v;
      assert hs[i] in hs;
      ReduceInRange(2, hs[i], K);
    }
    var i :| 0 <= i < |hs| && hs[i] == TWO64 - 1;
    assert rs[i] == K - 1 && rs[i] in rs;
    var j :| 0 <= j < |values| && values[j] == K - 1;
    SortedAt(0, values, j, |values| - 1);
    assert values[|values| - 1] in values;
    MultipleZero(B);
    EncodeLengthExact(0, values, K - 1, B);
  }

  lemma ZeroValues(hs: seq<uint64>, B: nat)
    ensures var values := Sort(ReduceAll(2, hs, 0));
      |values| == |hs| && SortedFrom(0, values) && |Encode(0, values, B)| == |hs| * (1 + B)
  {
    hide Sort, Shr, Encode, SortedFrom;
    var rs := ReduceAll(2, hs, 0);
    SortSorts(rs);
    assert forall v :: v in rs ==> v == 0;
    ShrZero(B);
    EncodeLengthExact(0, Sort(rs), 0, B);
  }

  /** Whatever the parameters, a filter of every count reaches the worst size. */
  lemma WorstAttained(B: nat, M: uint64, key: Key, n: nat) returns (hs: seq<uint64>)
    requires B <= MAX_B && 1 <= n <= MAX_INT32
    ensures var f := Build(2, B, M, key, Names(n), HashOf(hs)); f.n == n && |f.filterNData| == Worst(B, M, n)
  {
    hide Sort, Shr, Encode, SortedFrom, Hashes, Pack, Extreme, FastReduce;
    var K := Modulus(n, M);
    if K == 0 {
      hs := seq(n, j requires 0 <= j < n => j);
      ZeroValues(hs, B);
    } else {
      hs := ExtremeHashes(K, B, n);
      ExtremeValues(hs, K, B);
    }
    assert AllDistinct(hs) by { if K != 0 { ExtremeDistinct(hs, K, B); } }
    HashesOf(hs, key, n);
    assert hs[..n] == hs;
    VarIntRoundTrip(n, []);
    assert WriteVarInt(n) + [] == WriteVarInt(n);
  }

  lemma ExtremeDistinct(hs: seq<uint64>, K: nat, B: nat)
    requires 0 < K < TWO64 && Extreme(hs, K, B)
    ensures AllDistinct(hs)
  {
  }

  // ---- when the formula is a bound ---------------------------------------------------------------

  /** Every filter of at most N items fits the size computed for N. */
  ghost predicate Fits(B: nat, M: uint64, N: nat)
    requires B <= MAX_B && N < 0x1_0000_0000
  {
    forall key: Key, data: seq<Item>, h: SipHash :: |data| <= N && |data| <= MAX_INT32 ==>
      |Build(2, B, M, key, data, h).filterNData| <= MaxFilterV2Size(B, M, N)
  }

  /** The formula bounds every filter exactly when it bounds the worst of every
      count up to N, wrapped or not. */
  lemma FitsIff(B: nat, M: uint64, N: nat)
    requires B <= MAX_B && N < 0x1_0000_0000
    ensures Fits(B, M, N) <==> forall n :: 1 <= n <= N && n <= MAX_INT32 ==> Worst(B, M, n) <= MaxFilterV2Size(B, M, N)
  {
    hide Build, Worst, MaxFilterV2Size;
    if Fits(B, M, N) {
      forall n | 1 <= n <= N && n <= MAX_INT32 ensures Worst(B, M, n) <= MaxFilterV2Size(B, M, N) {
        var hs := WorstAttained(B, M, [], n);
        assert |Build(2, B, M, [], Names(n), HashOf(hs)).filterNData| <= MaxFilterV2Size(B, M, N);
      }
    }
    if forall n :: 1 <= n <= N && n <= MAX_INT32 ==> Worst(B, M, n) <= MaxFilterV2Size(B, M, N) {
      forall key: Key, data: seq<Item>, h: SipHash | |data| <= N && |data| <= MAX_INT32
        ensures |Build(2, B, M, key, data, h).filterNData| <= MaxFilterV2Size(B, M, N)
      {
        AtMostWorst(B, M, key, data, h);
      }
    }
  }

  /** Without overflow the formula is the greatest size there is: no filter of at
      most N items exceeds it and one of N items reaches it. */
  lemma FormulaIsMaximum(B: nat, M: uint64, key: Key, N: nat) returns (hs: seq<uint64>)
    requires B <= MAX_B && 1 <= N <= MAX_INT32 && NoOverflow(B, M, N)
    ensures Fits(B, M, N)
    ensures |Build(2, B, M, key, Names(N), HashOf(hs)).filterNData| == MaxFilterV2Size(B, M, N)
  {
    hide Build, MaxFilterV2Size, Shr;
    hs := WorstAttained(B, M, key, N);
    FormulaExact(B, M, N);
    NoWrap(N * M);
    assert N * (1 + B) == N + N * B;
    forall k: Key, data: seq<Item>, h: SipHash | |data| <= N && |data| <= MAX_INT32
      ensures |Build(2, B, M, k, data, h).filterNData| <= MaxFilterV2Size(B, M, N)
    {
      FilterFits(B, M, k, data, h, N);
    }
  }

  /** With a zero modulus factor the formula always wraps; it still bounds every
      filter except for unpadded unary coding of one entry over a whole byte. */
  lemma ZeroFactor(B: nat, N: nat)
    requires B <= MAX_B && 1 <= N < 0x1_0000_0000
    ensures Fits(B, 0, N) <==> !(B == 0 && N % 8 == 1 && N <= MAX_INT32)
  {
    hide Fits, Worst, MaxFilterV2Size, VarIntSerializeSize;
    FitsIff(B, 0, N);
    if B == 0 && N % 8 == 1 && N <= MAX_INT32 {
      WorstZero(0, N);
      PlainZeroFormula(N);
      assert Worst(0, 0, N) > MaxFilterV2Size(0, 0, N);
    } else {
      forall n | 1 <= n <= N && n <= MAX_INT32 ensures Worst(B, 0, n) <= MaxFilterV2Size(B, 0, N) { ZeroFactorFits(B, n, N); }
    }
  }

  lemma ZeroFactorFits(B: nat, n: nat, N: nat)
    requires B <= MAX_B && 1 <= n <= N < 0x1_0000_0000 && n <= MAX_INT32
    requires B > 0 || N % 8 != 1 || N > MAX_INT32
    ensures Worst(B, 0, n) <= MaxFilterV2Size(B, 0, N)
  {
    hide Worst, MaxFilterV2Size, VarIntSerializeSize;
    WorstZero(B, n);
    VarIntSizeMonotone(n, N);
    if B == 0 {
      PlainZeroFormula(N);
      assert n * (1 + B) == n;
    } else {
      WideZeroFormula(B, N);
      MulLe(n, N, 1 + B);
    }
  }

  lemma WorstZero(B: nat, n: nat)
    requires 1 <= n <= MAX_INT32
    ensures Worst(B, 0, n) == VarIntSerializeSize(n) + (n * (1 + B) + 7) / 8
  {
  }

  lemma PlainZeroFormula(N: nat)
    requires 1 <= N < 0x1_0000_0000
    ensures MaxFilterV2Size(0, 0, N) == (N + 6) / 8 + VarIntSerializeSize(N)
  {
    assert N * 0 == 0;
    assert (N + (TWO64 - 1)) % TWO64 == N - 1;
  }

  lemma WideZeroFormula(B: nat, N: nat)
    requires 1 <= B <= MAX_B && 1 <= N < 0x1_0000_0000
    ensures MaxFilterV2Size(B, 0, N) >= (N * (1 + B) + 7) / 8 + VarIntSerializeSize(N)
  {
    hide Shr, VarIntSerializeSize;
    MulLe(N, 0x1_0000_0000, B);
    assert N * (1 + B) == N + N * B;
    ShrHalf(TWO64 - 1, B);
    SmallSize(N);
    WideSize(N * B, Shr(TWO64 - 1, B), N, VarIntSerializeSize(N));
    assert N * 0 == 0;
  }

  lemma WideSize(nb: nat, q: nat, N: nat, size: nat)
    requires nb <= 32 * 0x1_0000_0000 && q <= TWO64 / 2 && N < 0x1_0000_0000 && size <= 9
    ensures ((N + nb + q) % TWO64 + 7) % TWO64 / 8 + size < TWO64
    ensures ((N + nb + q) % TWO64 + 7) % TWO64 / 8 + size >= (N + nb + 7) / 8 + size
  {
    NoWrap(N + nb + q);
    NoWrap(N + nb + q + 7);
  }

  lemma SmallSize(n: uint64)
    ensures VarIntSerializeSize(n) <= 9
  {
  }

  lemma ShrHalf(v: nat, k: nat)
    requires k > 0
    ensures Shr(v, k) <= v / 2
  {
    ShrAtMost(v / 2, k - 1);
  }

  lemma {:induction false} ShrAtMost(v: nat, k: nat)
    ensures Shr(v, k) <= v
  {
    if k > 0 { ShrAtMost(v / 2, k - 1); }
  }

  /** When N*M overflows the bound can fail as well: half the word, two items. */
  lemma OverflowFails()
    ensures !Fits(0, 0x8000_0000_0000_0000, 2)
  {
    hide Fits;
    FitsIff(0, 0x8000_0000_0000_0000, 2);
    assert Worst(0, 0x8000_0000_0000_0000, 1) > MaxFilterV2Size(0, 0x8000_0000_0000_0000, 2);
  }
}
