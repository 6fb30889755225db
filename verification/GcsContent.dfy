/** What a filter is built from: how many entries it has, and that only the hashes
    count, not the items, their order or, after version 1, their repetition. */
module GcsContent {
  import opened BitLists
  import opened BitStream
  import opened VarInt
  import opened Golomb
  import opened Gcs

  /** The hashes of the items that are not empty. */
  ghost function ItemHashes(key: Key, data: seq<Item>, h: SipHash): set<uint64> {
    set d | d in data && d != [] :: h(key, d)
  }

  lemma {:induction false} HashesDistinct(key: Key, data: seq<Item>, h: SipHash)
    ensures AllDistinct(Hashes(2, key, data, h))
  {
    if data != [] { HashesDistinct(key, data[..|data| - 1], h); }
  }

  ghost function SetOf(hs: seq<uint64>): set<uint64> {
    set v | v in hs
  }

  lemma SetSnoc(hs: seq<uint64>)
    requires hs != []
    ensures SetOf(hs) == SetOf(hs[..|hs| - 1]) + {hs[|hs| - 1]}
  {
    assert hs == hs[..|hs| - 1] + [hs[|hs| - 1]];
  }

  lemma {:induction false} DistinctCount(hs: seq<uint64>)
    requires AllDistinct(hs)
    ensures |SetOf(hs)| == |hs|
  {
    if hs == [] {
      assert SetOf(hs) == {};
    } else {
      var n := |hs| - 1;
      var v, had := hs[n], SetOf(hs[..n]);
      DistinctCount(hs[..n]);
      assert v !in hs[..n];
      assert v !in had;
      SetSnoc(hs);
    }
  }

  /** A version 2 filter has one entry for each distinct hash of its items. */
  lemma CountV2(B: nat, M: uint64, key: Key, data: seq<Item>, h: SipHash)
    requires B <= MAX_B && |data| <= MAX_INT32
    ensures Build(2, B, M, key, data, h).n == |ItemHashes(key, data, h)|
  {
    hide Hashes, Pack, Encode, Values;
    var hs := Hashes(2, key, data, h);
    HashesDistinct(key, data, h);
    DistinctCount(hs);
    HashSet(key, data, h);
  }

  lemma HashSet(key: Key, data: seq<Item>, h: SipHash)
    ensures ItemHashes(key, data, h) == SetOf(Hashes(2, key, data, h))
  {
    hide Hashes;
    forall v ensures v in ItemHashes(key, data, h) <==> v in Hashes(2, key, data, h) { HashesAre(2, key, data, h, v); }
  }

  /** Version 1 keeps every item, repeated or empty, in order. */
  lemma {:induction false} HashesV1(key: Key, data: seq<Item>, h: SipHash)
    ensures Hashes(1, key, data, h) == seq(|data|, i requires 0 <= i < |data| => h(key, data[i]))
  {
    if data != [] { HashesV1(key, data[..|data| - 1], h); }
  }

  /** So a version 1 filter has one entry for each item. */
  lemma CountV1(B: nat, key: Key, data: seq<Item>, h: SipHash)
    requires B <= MAX_B && Pow2(B) < TWO64 && |data| <= MAX_INT32
    ensures Build(1, B, Pow2(B), key, data, h).n == |data|
  {
    hide Hashes, Pack, Encode, Values, Pow2;
    HashesV1(key, data, h);
  }

  // ---- only the hashes count ------------------------------------------------------------------

  lemma Cancel(x: uint64, a: multiset<uint64>, b: multiset<uint64>)
    requires a + multiset{x} == b + multiset{x}
    ensures a == b
  {
    forall v ensures a[v] == b[v] { assert (a + multiset{x})[v] == (b + multiset{x})[v]; }
  }

  lemma Without(b: seq<uint64>, j: nat)
    requires j < |b|
    ensures multiset(b) == multiset(b[..j] + b[j + 1..]) + multiset{b[j]}
  {
    assert b == b[..j] + [b[j]] + b[j + 1..];
  }

  lemma HeadLeast(prev: nat, a: seq<uint64>, x: uint64)
    requires SortedFrom(prev, a) && x in multiset(a)
    ensures a != [] && a[0] <= x
  {
    var j :| 0 <= j < |a| && a[j] == x;
    SortedAt(prev, a, 0, j);
  }

  lemma Tail(a: seq<uint64>)
    requires a != []
    ensures multiset(a) == multiset(a[1..]) + multiset{a[0]} && a[0] in multiset(a)
  {
    assert a == [a[0]] + a[1..];
  }

  lemma SameHead(prev: nat, a: seq<uint64>, b: seq<uint64>)
    requires SortedFrom(prev, a) && SortedFrom(prev, b) && multiset(a) == multiset(b) && a != []
    ensures b != [] && a[0] == b[0] && multiset(a[1..]) == multiset(b[1..])
  {
    hide SortedFrom;
    Tail(a);
    HeadLeast(prev, b, a[0]);
    Tail(b);
    HeadLeast(prev, a, b[0]);
    Cancel(a[0], multiset(a[1..]), multiset(b[1..]));
  }

  /** There is one sorted arrangement. */
  lemma {:induction false} SortedSame(prev: nat, a: seq<uint64>, b: seq<uint64>)
    requires SortedFrom(prev, a) && SortedFrom(prev, b) && multiset(a) == multiset(b)
    ensures a == b
    decreases |a|
  {
    if a == [] {
      assert |multiset(b)| == |b|;
    } else {
      SameHead(prev, a, b);
      SortedSame(a[0], a[1..], b[1..]);
      assert a == [a[0]] + a[1..] && b == [b[0]] + b[1..];
    }
  }

  lemma ReduceWithout(version: nat, b: seq<uint64>, j: nat, N: uint64)
    requires j < |b| && (version == 1 ==> N > 0)
    ensures multiset(ReduceAll(version, b, N)) == multiset(ReduceAll(version, b[..j] + b[j + 1..], N)) + multiset{Reduce(version, b[j], N)}
  {
    hide Reduce;
    var r := ReduceAll(version, b, N);
    Without(r, j);
    assert ReduceAll(version, b[..j] + b[j + 1..], N) == r[..j] + r[j + 1..];
  }

  lemma {:induction false} ReduceSame(version: nat, a: seq<uint64>, b: seq<uint64>, N: uint64)
    requires multiset(a) == multiset(b) && (version == 1 ==> N > 0)
    ensures multiset(ReduceAll(version, a, N)) == multiset(ReduceAll(version, b, N))
    decreases |a|
  {
    hide Reduce, ReduceAll;
    if a == [] {
      assert |multiset(b)| == |b|;
      assert a == b;
    } else {
      var x := a[0];
      assert x in multiset(b);
      var j :| 0 <= j < |b| && b[j] == x;
      Without(a, 0);
      Without(b, j);
      var a', b' := a[..0] + a[0 + 1..], b[..j] + b[j + 1..];
      Cancel(x, multiset(a'), multiset(b'));
      ReduceSame(version, a', b', N);
      ReduceWithout(version, a, 0, N);
      ReduceWithout(version, b, j, N);
    }
  }

  /** Equal hashes, however ordered, make equal filters. */
  lemma SameHashesSameFilter(version: nat, B: nat, M: uint64, key: Key, data: seq<Item>, h: SipHash,
                             key': Key, data': seq<Item>, h': SipHash)
    requires Parameters(version, B, M) && |data| <= MAX_INT32 && |data'| <= MAX_INT32
    requires multiset(Hashes(version, key, data, h)) == multiset(Hashes(version, key', data', h'))
    ensures Build(version, B, M, key, data, h) == Build(version, B, M, key', data', h')
  {
    hide Hashes, Pack, Encode, Sort, Reduce, Pow2, SortedFrom;
    var hs, hs' := Hashes(version, key, data, h), Hashes(version, key', data', h');
    assert |multiset(hs)| == |hs| && |multiset(hs')| == |hs'|;
    var n := |hs|;
    var N := Modulus(n, M);
    if n > 0 {
      if version == 1 { ModulusV1(n, B, M); }
      ReduceSame(version, hs, hs', N);
      SortSorts(ReduceAll(version, hs, N));
      SortSorts(ReduceAll(version, hs', N));
      SortedSame(0, Sort(ReduceAll(version, hs, N)), Sort(ReduceAll(version, hs', N)));
    }
  }

  lemma {:induction false} DistinctSame(a: seq<uint64>, b: seq<uint64>)
    requires AllDistinct(a) && AllDistinct(b) && forall v :: v in a <==> v in b
    ensures multiset(a) == multiset(b)
  {
    forall v ensures multiset(a)[v] == multiset(b)[v] {
      DistinctOnce(a, v);
      DistinctOnce(b, v);
    }
  }

  lemma {:induction false} DistinctOnce(a: seq<uint64>, v: uint64)
    requires AllDistinct(a)
    ensures multiset(a)[v] == if v in a then 1 else 0
  {
    if a != [] {
      var n := |a| - 1;
      DistinctOnce(a[..n], v);
      assert a == a[..n] + [a[n]];
    }
  }

  /** A version 2 filter depends on the set of its items' hashes only. */
  lemma SameSetSameFilter(B: nat, M: uint64, key: Key, data: seq<Item>, h: SipHash, key': Key, data': seq<Item>, h': SipHash)
    requires B <= MAX_B && |data| <= MAX_INT32 && |data'| <= MAX_INT32
    requires ItemHashes(key, data, h) == ItemHashes(key', data', h')
    ensures Build(2, B, M, key, data, h) == Build(2, B, M, key', data', h')
  {
    hide Hashes, Build, ItemHashes;
    HashSet(key, data, h);
    HashSet(key', data', h');
    HashesDistinct(key, data, h);
    HashesDistinct(key', data', h');
    var hs, hs' := Hashes(2, key, data, h), Hashes(2, key', data', h');
    assert forall v :: v in hs <==> v in SetOf(hs);
    assert forall v :: v in hs' <==> v in SetOf(hs');
    DistinctSame(hs, hs');
    SameHashesSameFilter(2, B, M, key, data, h, key', data', h');
  }

  // ---- bytes ------------------------------------------------------------------------------------------

  /** A number, most significant byte first. */
  ghost predicate StartsBig(d: seq<byte>, n: nat) {
    |d| >= 4 && ((d[0] as int * 256 + d[1]) * 256 + d[2]) * 256 + d[3] == n
  }

  /** A number below 0xfd, or a mark and a number, least significant byte first. */
  ghost predicate StartsVar(d: seq<byte>, n: nat) {
    && (n < 0xfd ==> |d| >= 1 && d[0] == n)
    && (0xfd <= n <= 0xffff ==> |d| >= 3 && d[0] == 0xfd && d[1] as int + 256 * d[2] as int == n)
    && (0xffff < n ==> |d| >= 5 && d[0] == 0xfe && d[1] as int + 256 * (d[2] as int + 256 * (d[3] as int + 256 * d[4] as int)) == n)
  }

  lemma BigBytes(n: nat, rest: seq<byte>)
    requires n < 0x1_0000_0000
    ensures StartsBig(BigEndian32(n) + rest, n)
  {
  }

  lemma VarBytes(n: nat, rest: seq<byte>)
    requires n <= MAX_INT32
    ensures StartsVar(WriteVarInt(n) + rest, n)
  {
    if 0xfd <= n <= 0xffff { LittleTwo(n); }
    if 0xffff < n { LittleFour(n); }
  }

  /** The serialized form of a filter starts with its count: of all items in version
      1, of the distinct hashes in version 2. */
  lemma Header(B: nat, M: uint64, key: Key, data: seq<Item>, h: SipHash)
    requires B <= MAX_B && 0 < |data| <= MAX_INT32
    ensures Parameters(1, B, M) ==> StartsBig(Build(1, B, M, key, data, h).filterNData, |data|)
    ensures ItemHashes(key, data, h) != {} ==> StartsVar(Build(2, B, M, key, data, h).filterNData, |ItemHashes(key, data, h)|)
  {
    hide Hashes, Pack, Encode, Values, Pow2, ItemHashes, StartsBig, StartsVar, BigEndian32, WriteVarInt;
    HashesV1(key, data, h);
    CountV2(B, M, key, data, h);
    if Parameters(1, B, M) { BigBytes(|data|, Build(1, B, M, key, data, h).filterData); }
    var f := Build(2, B, M, key, data, h);
    VarBytes(f.n, f.filterData);
  }

  lemma LittleTwo(v: nat)
    requires v <= 0xffff
    ensures ToLittleEndian(v, 2) == [v % 256, v / 256]
  {
    assert ToLittleEndian(v / 256 / 256, 0) == [];
    assert ToLittleEndian(v / 256, 1) == [v / 256 % 256] + ToLittleEndian(v / 256 / 256, 0);
  }

  lemma LittleFour(v: nat)
    requires v <= 0xffff_ffff
    ensures ToLittleEndian(v, 4) == [v % 256, v / 256 % 256, v / 256 / 256 % 256, v / 256 / 256 / 256]
  {
    var w := v / 256 / 256;
    LittleTwo(w);
    assert ToLittleEndian(v / 256, 3) == [v / 256 % 256] + ToLittleEndian(w, 2);
  }

  /** Which bytes are taken for a filter, and that they are kept as they are. */
  lemma FromBytesTakes(P: nat, M: uint64, d: seq<byte>)
    ensures FromBytesV1(P, d) == PTooBig <==> P > MAX_B
    ensures FromBytesV1(P, d) == Misserialized <==> P <= MAX_B && d != [] && |d| < 4
    ensures FromBytesV1(P, d).Ok? ==> FromBytesV1(P, d).filter.filterNData == d && FromBytesV1(P, d).filter.b == P
    ensures FromBytesV2(P, M, d) == BTooBig <==> P > MAX_B
    ensures FromBytesV2(P, M, d) == Misserialized <==> P <= MAX_B && d != [] && !exists n: uint64 :: WriteVarInt(n) <= d
    ensures FromBytesV2(P, M, d).Ok? ==> FromBytesV2(P, M, d).filter.filterNData == d && FromBytesV2(P, M, d).filter.b == P
  {
    hide Pow2, ReadVarInt, WriteVarInt;
    if ReadVarInt(d).Number? { VarIntCanonical(d); }
    if n: uint64 :| WriteVarInt(n) <= d {
      VarIntRoundTrip(n, d[|WriteVarInt(n)|..]);
      assert WriteVarInt(n) + d[|WriteVarInt(n)|..] == d;
    }
  }
}
