/** The Golomb-coded set filters of gcs/gcs.go.  SipHash is a parameter. */
module Gcs {
  import opened BitLists
  import opened BitStream
  import opened VarInt
  import opened Golomb

  type Key = seq<byte>
  type Item = seq<byte>
  type SipHash = (Key, Item) -> uint64

  const MAX_INT32: nat := 0x7fff_ffff
  const MAX_B: nat := 32

  datatype Filter = Filter(version: nat, n: nat, b: nat, modulusNM: uint64,
                           filterNData: seq<byte>, filterData: seq<byte>)

  datatype FilterResult = Ok(filter: Filter) | NTooBig | PTooBig | BTooBig | Misserialized

  // ---- hashing and reducing -----------------------------------------------------

  /** x mod N, version 1 */
  function ModReduceV1(x: uint64, N: uint64): (r: uint64)
    requires N > 0
  {
    x % N
  }

  /** (x * N) >> 64, later versions */
  function FastReduce(x: uint64, N: uint64): (r: uint64) {
    ReduceBound(x, N);
    x * N / TWO64
  }

  lemma ReduceBound(x: uint64, N: nat)
    ensures 0 <= x * N / TWO64 && (N > 0 ==> x * N / TWO64 < N)
  {
    if N > 0 { assert x * N < N * TWO64; }
  }

  function Reduce(version: nat, x: uint64, N: uint64): (r: uint64)
    requires version == 1 ==> N > 0
  {
    if version == 1 then ModReduceV1(x, N) else FastReduce(x, N)
  }

  /** Reduced values are in [0, N*M). */
  lemma ReduceInRange(version: nat, x: uint64, N: uint64)
    requires N > 0
    ensures Reduce(version, x, N) < N
  {
    ReduceBound(x, N);
  }

  /** The hashes a filter is built from, in order: version 1 keeps everything,
      later versions drop empty items and repeated hashes. */
  function Hashes(version: nat, key: Key, data: seq<Item>, h: SipHash): (vs: seq<uint64>)
    ensures |vs| <= |data|
  {
    if data == [] then []
    else
      var d := data[|data| - 1];
      var vs := Hashes(version, key, data[..|data| - 1], h);
      if version != 1 && (d == [] || h(key, d) in vs) then vs else vs + [h(key, d)]
  }

  ghost predicate AllDistinct(hs: seq<uint64>) {
    forall i, j :: 0 <= i < j < |hs| ==> hs[i] != hs[j]
  }

  /** The items a filter of this version takes in. */
  predicate Taken(version: nat, d: Item) {
    version == 1 || d != []
  }

  lemma {:induction false} HashesAre(version: nat, key: Key, data: seq<Item>, h: SipHash, v: uint64)
    ensures v in Hashes(version, key, data, h) <==> exists d :: d in data && Taken(version, d) && h(key, d) == v
  {
    if data != [] {
      var init, d := data[..|data| - 1], data[|data| - 1];
      HashesAre(version, key, init, h, v);
      assert data == init + [d];
      if e :| e in data && Taken(version, e) && h(key, e) == v { assert e in init || e == d; }
    }
  }

  // ---- sorting ------------------------------------------------------------------

  function Insert(v: uint64, vs: seq<uint64>): (r: seq<uint64>) {
    if vs == [] || v <= vs[0] then [v] + vs else [vs[0]] + Insert(v, vs[1..])
  }

  /** sort.Sort on uint64 values. */
  function Sort(vs: seq<uint64>): (r: seq<uint64>) {
    if vs == [] then [] else Insert(vs[0], Sort(vs[1..]))
  }

  lemma {:induction false} InsertSorted(v: uint64, vs: seq<uint64>, prev: nat)
    requires SortedFrom(prev, vs) && prev <= v
    ensures SortedFrom(prev, Insert(v, vs))
    ensures multiset(Insert(v, vs)) == multiset(vs) + multiset{v}
  {
    if vs == [] || v <= vs[0] {
      assert ([v] + vs)[1..] == vs;
    } else {
      InsertSorted(v, vs[1..], vs[0]);
      assert vs == [vs[0]] + vs[1..];
      var r := Insert(v, vs[1..]);
      assert ([vs[0]] + r)[1..] == r;
    }
  }

  lemma {:induction false} SortSorts(vs: seq<uint64>)
    ensures SortedFrom(0, Sort(vs))
    ensures multiset(Sort(vs)) == multiset(vs)
    ensures |Sort(vs)| == |vs|
    ensures forall v :: v in Sort(vs) <==> v in vs
  {
    if vs != [] {
      SortSorts(vs[1..]);
      InsertSorted(vs[0], Sort(vs[1..]), 0);
      assert vs == [vs[0]] + vs[1..];
    }
    assert |multiset(Sort(vs))| == |Sort(vs)|;
    forall v ensures v in Sort(vs) <==> v in vs {
      assert v in Sort(vs) <==> v in multiset(Sort(vs));
      assert v in vs <==> v in multiset(vs);
    }
  }

  // ---- building -----------------------------------------------------------------

  function ReduceAll(version: nat, vs: seq<uint64>, N: uint64): (r: seq<uint64>)
    requires version == 1 ==> N > 0
    ensures |r| == |vs|
  {
    seq(|vs|, i requires 0 <= i < |vs| => Reduce(version, vs[i], N))
  }

  /** The values a filter holds, sorted. */
  function Values(version: nat, N: uint64, key: Key, data: seq<Item>, h: SipHash): (vs: seq<uint64>)
    requires version == 1 ==> N > 0
  {
    Sort(ReduceAll(version, Hashes(version, key, data, h), N))
  }

  function Modulus(n: nat, M: uint64): (N: uint64) {
    n * M % TWO64
  }

  /** The number of items, as the filter's version writes it. */
  function CountBytes(version: nat, n: nat): (bytes: seq<byte>)
    requires n <= MAX_INT32
  {
    if version == 1 then BigEndian32(n) else WriteVarInt(n)
  }

  function BigEndian32(n: nat): (bytes: seq<byte>)
    requires n < 0x1_0000_0000
  {
    [n / 256 / 256 / 256, n / 256 / 256 % 256, n / 256 % 256, n % 256]
  }

  function FromBigEndian32(d: seq<byte>): (n: nat)
    requires |d| == 4
    ensures n < 0x1_0000_0000
  {
    ((d[0] as int * 256 + d[1]) * 256 + d[2]) * 256 + d[3]
  }

  lemma BigEndianRoundTrip(n: nat)
    requires n < 0x1_0000_0000
    ensures FromBigEndian32(BigEndian32(n)) == n
  {
  }

  /** Version 1 filters use M = 2**B, so the modulus is never zero. */
  predicate Parameters(version: nat, B: nat, M: uint64) {
    (version == 1 || version == 2) && B <= MAX_B && (version == 1 ==> M == Pow2(B))
  }

  lemma ModulusV1(n: nat, B: nat, M: uint64)
    requires 0 < n <= MAX_INT32 && B <= MAX_B && M == Pow2(B)
    ensures Modulus(n, M) == n * M > 0
  {
    hide Pow2;
    Pow2Monotone(B, MAX_B);
    WidthBounds();
    MulBounds(n, MAX_INT32, M, 0x1_0000_0000);
  }

  lemma MulBounds(a: nat, b: nat, c: nat, d: nat)
    requires 1 <= a <= b && 1 <= c <= d
    ensures 1 <= a * c <= b * d
  {
    assert a * c <= b * c;
    assert b * c <= b * d;
  }

  ghost function Build(version: nat, B: nat, M: uint64, key: Key, data: seq<Item>, h: SipHash): (f: Filter)
    requires Parameters(version, B, M) && |data| <= MAX_INT32
  {
    var n := |Hashes(version, key, data, h)|;
    var N := Modulus(n, M);
    if n == 0 then Filter(version, 0, B, N, [], [])
    else
      assert version == 1 ==> N > 0 by { if version == 1 { ModulusV1(n, B, M); } }
      var values := Values(version, N, key, data, h);
      SortSorts(ReduceAll(version, Hashes(version, key, data, h), N));
      var bytes := Pack(Encode(0, values, B));
      Filter(version, n, B, N, CountBytes(version, n) + bytes, bytes)
  }

  lemma SplitDelta(delta: uint64, B: nat)
    ensures And(delta, Pow2(B) - 1) <= delta
    ensures Shr(delta - And(delta, Pow2(B) - 1), B) == Shr(delta, B)
    ensures BitsOf(And(delta, Pow2(B) - 1), B) == BitsOf(delta, B)
  {
    hide And, Shr, Low, BitsOf;
    AndMask(delta, B);
    ShrLow(delta, B);
    ShrLowUnique(delta - Low(delta, B), Shr(delta, B), 0, B);
    BitsOfLow(delta, B);
  }

  /** Writes one difference: the quotient in unary, then the remainder. */
  method WriteDelta(b: BitWriter, delta: uint64, B: nat)
    requires b.Valid() && B <= MAX_B
    modifies b
    ensures b.Valid() && b.written == old(b.written) + Code(delta, B)
  {
    hide BitsOf, And, Shr, Low, Pow2, WriterState;
    var modBMask := Pow2(B) - 1;
    SplitDelta(delta, B);
    var remainder := And(delta, modBMask);
    var quotient := Shr(delta - remainder, B);
    ghost var before, q := b.written, quotient;
    while quotient > 0
      invariant quotient <= q && b.Valid()
      invariant b.written == before + Ones(q - quotient)
    {
      b.WriteOne();
      quotient := quotient - 1;
      assert Ones(q - quotient) == Ones(q - quotient - 1) + [true];
    }
    b.WriteZero();
    b.WriteNBits(remainder, B);
  }

  /** Writes the sorted values as Golomb coded differences. */
  method WriteValues(values: seq<uint64>, B: nat) returns (bytes: seq<byte>)
    requires SortedFrom(0, values) && B <= MAX_B
    ensures bytes == Pack(Encode(0, values, B))
  {
    hide Pack, WriterState, Code;
    var b := new BitWriter();
    var prevValue: uint64 := 0;
    assert values[0..] == values;
    for i := 0 to |values|
      invariant b.Valid() && fresh(b)
      invariant SortedFrom(prevValue, values[i..])
      invariant b.written + Encode(prevValue, values[i..], B) == Encode(0, values, B)
    {
      var v := values[i];
      assert values[i..][1..] == values[i + 1..];
      ghost var before, rest := b.written, Encode(v, values[i + 1..], B);
      var delta: uint64 := v - prevValue;
      WriteDelta(b, delta, B);
      prevValue := v;
      assert b.written + rest == before + (Code(delta, B) + rest);
    }
    b.BytesArePacked();
    assert b.written + [] == b.written;
    bytes := b.bytes;
  }

  /** Hashes the items, for later versions without empty items and repeats. */
  method HashItems(version: nat, key: Key, data: seq<Item>, h: SipHash) returns (values: seq<uint64>)
    ensures values == Hashes(version, key, data, h)
  {
    values := [];
    if version == 1 {
      for i := 0 to |data|
        invariant values == Hashes(version, key, data[..i], h)
      {
        assert data[..i + 1][..i] == data[..i];
        values := values + [h(key, data[i])];
      }
    } else {
      var seen: set<uint64> := {};
      for i := 0 to |data|
        invariant values == Hashes(version, key, data[..i], h)
        invariant forall v :: v in seen <==> v in values
      {
        assert data[..i + 1][..i] == data[..i];
        var d := data[i];
        if |d| == 0 { continue; }
        var v := h(key, d);
        if v in seen { continue; }
        seen := seen + {v};
        values := values + [v];
      }
    }
    assert data[..|data|] == data;
  }

  method NewFilter(version: nat, B: nat, M: uint64, key: Key, data: seq<Item>, h: SipHash) returns (r: FilterResult)
    requires Parameters(version, B, M)
    ensures r == if |data| > MAX_INT32 then NTooBig else Ok(Build(version, B, M, key, data, h))
  {
    if |data| > MAX_INT32 { return NTooBig; }
    var values := HashItems(version, key, data, h);
    var n := |values|;
    var modulusNM: uint64 := n * M % TWO64;
    if n == 0 { return Ok(Filter(version, 0, B, modulusNM, [], [])); }

    ghost var hashes := values;
    if version == 1 { ModulusV1(n, B, M); }
    for i := 0 to n
      invariant |values| == n
      invariant forall k :: 0 <= k < i ==> values[k] == Reduce(version, hashes[k], modulusNM)
      invariant forall k :: i <= k < n ==> values[k] == hashes[k]
    {
      values := values[i := Reduce(version, values[i], modulusNM)];
    }
    assert values == ReduceAll(version, hashes, modulusNM);
    SortSorts(values);
    values := Sort(values);
    var bytes := WriteValues(values, B);
    var ndata := CountBytes(version, n);
    r := Ok(Filter(version, n, B, modulusNM, ndata + bytes, bytes));
  }

  /** NewFilterV1: a false positive rate of 1/2**P. */
  method NewFilterV1(P: nat, key: Key, data: seq<Item>, h: SipHash) returns (r: FilterResult)
    ensures P > MAX_B ==> r == PTooBig
    ensures P <= MAX_B && |data| > MAX_INT32 ==> r == NTooBig
    ensures P <= MAX_B && |data| <= MAX_INT32 ==>
      Pow2(P) < TWO64 && Parameters(1, P, Pow2(P)) && r == Ok(Build(1, P, Pow2(P), key, data, h))
  {
    if P > MAX_B { return PTooBig; }
    WidthBounds();
    Pow2Monotone(P, MAX_B);
    r := NewFilter(1, P, Pow2(P), key, data, h);
  }

  method NewFilterV2(B: nat, M: uint64, key: Key, data: seq<Item>, h: SipHash) returns (r: FilterResult)
    ensures r == if B > MAX_B then BTooBig
                 else if |data| > MAX_INT32 then NTooBig
                 else Ok(Build(2, B, M, key, data, h))
  {
    if B > MAX_B { return BTooBig; }
    r := NewFilter(2, B, M, key, data, h);
  }

  // ---- deserializing --------------------------------------------------------------

  function FromBytesV1(P: nat, d: seq<byte>): (r: FilterResult) {
    if P > MAX_B then PTooBig
    else if 0 < |d| < 4 then Misserialized
    else
      var n := if d == [] then 0 else FromBigEndian32(d[..4]);
      Ok(Filter(1, n, P, n * Pow2(P) % TWO64, d, if d == [] then [] else d[4..]))
  }

  function FromBytesV2(B: nat, M: uint64, d: seq<byte>): (r: FilterResult) {
    if B > MAX_B then BTooBig
    else if d == [] then Ok(Filter(2, 0, B, 0, [], []))
    else match ReadVarInt(d)
      case Number(n) =>
        VarIntCanonical(d);
        VarIntRoundTrip(n, []);
        Ok(Filter(2, n % 0x1_0000_0000, B, n * M % TWO64, d, d[VarIntSerializeSize(n)..]))
      case _ => Misserialized
  }

  /** Deserializing what Bytes returns gives the filter back. */
  lemma FromBytesV1OfBytes(P: nat, key: Key, data: seq<Item>, h: SipHash)
    requires P <= MAX_B && |data| <= MAX_INT32
    ensures Pow2(P) < TWO64 && Parameters(1, P, Pow2(P))
    ensures var f := Build(1, P, Pow2(P), key, data, h); FromBytesV1(P, f.filterNData) == Ok(f)
  {
    hide Pow2, Encode, Pack, Values, Hashes;
    WidthBounds();
    Pow2Monotone(P, MAX_B);
    var f := Build(1, P, Pow2(P), key, data, h);
    if f.filterNData != [] {
      BigEndianRoundTrip(f.n);
      assert f.filterNData[..4] == BigEndian32(f.n) && f.filterNData[4..] == f.filterData;
    }
  }

  lemma FromBytesV2OfBytes(B: nat, M: uint64, key: Key, data: seq<Item>, h: SipHash)
    requires B <= MAX_B && |data| <= MAX_INT32
    ensures var f := Build(2, B, M, key, data, h); FromBytesV2(B, M, f.filterNData) == Ok(f)
  {
    hide Pow2, Encode, Pack, Values, Hashes, WriteVarInt, ReadVarInt;
    var f := Build(2, B, M, key, data, h);
    if f.n > 0 {
      VarIntRoundTrip(f.n, f.filterData);
      assert f.filterNData[VarIntSerializeSize(f.n)..] == f.filterData;
    }
  }
}
