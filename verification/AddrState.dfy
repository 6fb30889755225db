/** The state of the address manager of addrmgr/addrmanager.go and its elementary
    changes.  A bucket holds keys; the known address of a key is in the index. */
module AddrState {

  type Key = string

  datatype AddrType = IPv4 | IPv6 | TorV3 | UnknownType

  datatype NetAddress = NetAddress(key: Key, addrType: AddrType, timestamp: int, services: set<nat>, routable: bool)

  datatype KnownAddress = KnownAddress(na: NetAddress, src: NetAddress, attempts: nat,
                                       lastAttempt: int, lastSuccess: int, tried: bool, refs: int)

  /** bucketStats: addresses by type, in 16-bit counters. */
  datatype Stats = Stats(ipv4: nat, ipv6: nat, torV3: nat)

  const NEW_BUCKET_COUNT: nat := 1024
  const TRIED_BUCKET_COUNT: nat := 64
  const NEW_BUCKET_SIZE: nat := 64
  const NEW_BUCKETS_PER_ADDRESS: nat := 8
  const UINT16: nat := 0x1_0000

  /** Instants in nanoseconds since the Unix epoch; the zero time is in year 1. */
  const SECOND: int := 1_000_000_000
  const MINUTE: int := 60 * SECOND
  const DAY: int := 24 * 60 * MINUTE
  const ZERO_TIME: int := -62_135_596_800 * SECOND

  function Bump(n: nat): nat { (n + 1) % UINT16 }
  function Drop(n: nat): nat { (n + UINT16 - 1) % UINT16 }

  function Increment(s: Stats, t: AddrType): Stats {
    match t
    case IPv4 => s.(ipv4 := Bump(s.ipv4))
    case IPv6 => s.(ipv6 := Bump(s.ipv6))
    case TorV3 => s.(torV3 := Bump(s.torV3))
    case UnknownType => s
  }

  function Decrement(s: Stats, t: AddrType): Stats {
    match t
    case IPv4 => s.(ipv4 := Drop(s.ipv4))
    case IPv6 => s.(ipv6 := Drop(s.ipv6))
    case TorV3 => s.(torV3 := Drop(s.torV3))
    case UnknownType => s
  }

  /** Bucket hashing, the address type that a key's text determines, and the
      size of a tried bucket, 256 unless changed. */
  datatype Config = Config(typeOf: Key -> AddrType,
                           newBucketOf: (NetAddress, NetAddress) -> nat,
                           triedBucketOf: NetAddress -> nat, triedSize: nat)

  /** A tried bucket holds at least one address, and a 16-bit counter counts it. */
  predicate SizeOk(cfg: Config) { 1 <= cfg.triedSize < UINT16 - 1 }

  datatype State = State(index: map<Key, KnownAddress>,
                         buckets: seq<set<Key>>, newStats: seq<Stats>,
                         tried: seq<seq<Key>>, triedStats: seq<Stats>,
                         nNew: int, nTried: int, changed: bool)

  /** The tables are arrays of fixed sizes. */
  predicate Shaped(s: State) {
    |s.buckets| == |s.newStats| == NEW_BUCKET_COUNT && |s.tried| == |s.triedStats| == TRIED_BUCKET_COUNT
  }

  /** What an operation gives, unless it panics: by drawing a random number from an
      empty range, by an index out of range, or on a bucket's key without entry. */
  datatype Stepped<T> = Ok(value: T) | Panic

  // ---- what the counters should say ----------------------------------------------------

  function OfType(cfg: Config, keys: set<Key>, t: AddrType): set<Key> {
    set k | k in keys && cfg.typeOf(k) == t
  }

  function StatsOf(cfg: Config, keys: set<Key>): Stats {
    Stats(|OfType(cfg, keys, IPv4)|, |OfType(cfg, keys, IPv6)|, |OfType(cfg, keys, TorV3)|)
  }

  function CountType(cfg: Config, ks: seq<Key>, t: AddrType): (n: nat)
    ensures n <= |ks|
  {
    if ks == [] then 0
    else CountType(cfg, ks[..|ks| - 1], t) + (if cfg.typeOf(ks[|ks| - 1]) == t then 1 else 0)
  }

  function StatsOfSeq(cfg: Config, ks: seq<Key>): Stats {
    Stats(CountType(cfg, ks, IPv4), CountType(cfg, ks, IPv6), CountType(cfg, ks, TorV3))
  }

  /** The number of buckets among the first n that hold a key. */
  function RefCount(buckets: seq<set<Key>>, k: Key, n: nat): (c: nat)
    requires n <= |buckets|
    ensures c <= n
  {
    if n == 0 then 0 else RefCount(buckets, k, n - 1) + (if k in buckets[n - 1] then 1 else 0)
  }

  function Refs(buckets: seq<set<Key>>, k: Key): nat {
    RefCount(buckets, k, |buckets|)
  }

  /** The number of tried slots among the first n buckets that hold a key. */
  function SlotCount(tried: seq<seq<Key>>, k: Key, n: nat): nat
    requires n <= |tried|
  {
    if n == 0 then 0 else SlotCount(tried, k, n - 1) + multiset(tried[n - 1])[k]
  }

  function Slots(tried: seq<seq<Key>>, k: Key): nat {
    SlotCount(tried, k, |tried|)
  }

  function NewKeys(index: map<Key, KnownAddress>): set<Key> {
    set k | k in index && !index[k].tried
  }

  function TriedKeys(index: map<Key, KnownAddress>): set<Key> {
    set k | k in index && index[k].tried
  }

  // ---- the invariant ---------------------------------------------------------------------

  /** One known address: tried, in exactly one tried slot and no new bucket; or
      new, in as many new buckets as it has references, one to eight. */
  ghost predicate EntryOk(cfg: Config, s: State, k: Key, loose: bool)
    requires k in s.index
  {
    var ka := s.index[k];
    && ka.na.key == k && ka.na.addrType == cfg.typeOf(k)
    && ka.refs == Refs(s.buckets, k) <= NEW_BUCKETS_PER_ADDRESS
    && (if ka.tried then Slots(s.tried, k) == 1 && ka.refs == 0
        else Slots(s.tried, k) == 0 && (loose || ka.refs >= 1))
  }

  ghost predicate BucketsOk(cfg: Config, s: State) {
    && |s.buckets| == |s.newStats| == NEW_BUCKET_COUNT
    && forall i :: 0 <= i < NEW_BUCKET_COUNT ==> NewBucketOk(cfg, s, i)
  }

  /** Known addresses only, at most one over the nominal size, exact statistics. */
  ghost predicate NewBucketOk(cfg: Config, s: State, i: nat)
    requires |s.buckets| == |s.newStats| == NEW_BUCKET_COUNT && i < NEW_BUCKET_COUNT
  {
    && (forall k :: k in s.buckets[i] ==> k in s.index)
    && |s.buckets[i]| <= NEW_BUCKET_SIZE + 1
    && s.newStats[i] == StatsOf(cfg, s.buckets[i])
  }

  ghost predicate TriedOk(cfg: Config, s: State) {
    && SizeOk(cfg) && |s.tried| == |s.triedStats| == TRIED_BUCKET_COUNT
    && forall i :: 0 <= i < TRIED_BUCKET_COUNT ==> TriedBucketOk(cfg, s, i)
  }

  ghost predicate TriedBucketOk(cfg: Config, s: State, i: nat)
    requires |s.tried| == |s.triedStats| == TRIED_BUCKET_COUNT && i < TRIED_BUCKET_COUNT
  {
    && (forall k :: k in s.tried[i] ==> k in s.index)
    && |s.tried[i]| <= cfg.triedSize
    && s.triedStats[i] == StatsOfSeq(cfg, s.tried[i])
  }

  /** The invariant, except that the loose addresses may be in no bucket yet. */
  ghost predicate LooseInv(cfg: Config, s: State, loose: set<Key>) {
    EntriesOk(cfg, s, loose) && BucketsOk(cfg, s) && TriedOk(cfg, s) && TotalsOk(s)
  }

  ghost predicate EntriesOk(cfg: Config, s: State, loose: set<Key>) {
    forall k :: k in s.index ==> EntryOk(cfg, s, k, k in loose)
  }

  ghost predicate TotalsOk(s: State) {
    s.nNew == |NewKeys(s.index)| && s.nTried == |TriedKeys(s.index)|
  }

  ghost predicate Inv(cfg: Config, s: State) {
    LooseInv(cfg, s, {})
  }

  // ---- counting ------------------------------------------------------------------------

  lemma {:induction false} RefCountUpdate(buckets: seq<set<Key>>, b: nat, keys: set<Key>, k: Key, n: nat)
    requires b < |buckets| && n <= |buckets|
    ensures RefCount(buckets[b := keys], k, n)
         == RefCount(buckets, k, n) + (if b < n then (if k in keys then 1 else 0) - (if k in buckets[b] then 1 else 0) else 0)
  {
    if n > 0 { RefCountUpdate(buckets, b, keys, k, n - 1); }
  }

  lemma {:induction false} RefCountWitness(buckets: seq<set<Key>>, k: Key, n: nat)
    requires n <= |buckets|
    ensures RefCount(buckets, k, n) == 0 <==> forall i :: 0 <= i < n ==> k !in buckets[i]
  {
    if n > 0 { RefCountWitness(buckets, k, n - 1); }
  }

  lemma {:induction false} SlotCountUpdate(tried: seq<seq<Key>>, b: nat, ks: seq<Key>, k: Key, n: nat)
    requires b < |tried| && n <= |tried|
    ensures SlotCount(tried[b := ks], k, n)
         == SlotCount(tried, k, n) + (if b < n then multiset(ks)[k] as int - multiset(tried[b])[k] as int else 0)
  {
    if n > 0 { SlotCountUpdate(tried, b, ks, k, n - 1); }
  }

  lemma {:induction false} SlotCountWitness(tried: seq<seq<Key>>, k: Key, n: nat)
    requires n <= |tried|
    ensures SlotCount(tried, k, n) == 0 <==> forall i :: 0 <= i < n ==> k !in tried[i]
  {
    if n > 0 {
      SlotCountWitness(tried, k, n - 1);
      assert k in multiset(tried[n - 1]) <==> k in tried[n - 1];
    }
  }

  lemma StatsAdd(cfg: Config, keys: set<Key>, k: Key)
    requires k !in keys && |keys| < UINT16 - 1
    ensures StatsOf(cfg, keys + {k}) == Increment(StatsOf(cfg, keys), cfg.typeOf(k))
  {
    TypeAdd(cfg, keys, k, IPv4);
    TypeAdd(cfg, keys, k, IPv6);
    TypeAdd(cfg, keys, k, TorV3);
  }

  lemma TypeAdd(cfg: Config, keys: set<Key>, k: Key, t: AddrType)
    requires k !in keys
    ensures |OfType(cfg, keys, t)| <= |keys|
    ensures |OfType(cfg, keys + {k}, t)| == |OfType(cfg, keys, t)| + (if cfg.typeOf(k) == t then 1 else 0)
  {
    SubsetSize(OfType(cfg, keys, t), keys);
    if cfg.typeOf(k) == t {
      assert OfType(cfg, keys + {k}, t) == OfType(cfg, keys, t) + {k};
    } else {
      assert OfType(cfg, keys + {k}, t) == OfType(cfg, keys, t);
    }
  }

  lemma {:induction false} SubsetSize(a: set<Key>, b: set<Key>)
    requires a <= b
    ensures |a| <= |b|
  {
    assert b == a + (b - a);
  }

  lemma StatsRemove(cfg: Config, keys: set<Key>, k: Key)
    requires k in keys && |keys| < UINT16
    ensures StatsOf(cfg, keys - {k}) == Decrement(StatsOf(cfg, keys), cfg.typeOf(k))
  {
    var rest := keys - {k};
    assert rest + {k} == keys;
    TypeAdd(cfg, rest, k, IPv4);
    TypeAdd(cfg, rest, k, IPv6);
    TypeAdd(cfg, rest, k, TorV3);
    SubsetSize(rest, keys);
    SubsetSize(OfType(cfg, keys, IPv4), keys);
    SubsetSize(OfType(cfg, keys, IPv6), keys);
    SubsetSize(OfType(cfg, keys, TorV3), keys);
  }

  lemma CountTypeSnoc(cfg: Config, ks: seq<Key>, k: Key, t: AddrType)
    ensures CountType(cfg, ks + [k], t) == CountType(cfg, ks, t) + (if cfg.typeOf(k) == t then 1 else 0)
  {
    assert (ks + [k])[..|ks|] == ks;
  }

  lemma StatsSnoc(cfg: Config, ks: seq<Key>, k: Key)
    requires |ks| < UINT16 - 1
    ensures StatsOfSeq(cfg, ks + [k]) == Increment(StatsOfSeq(cfg, ks), cfg.typeOf(k))
  {
    CountTypeSnoc(cfg, ks, k, IPv4);
    CountTypeSnoc(cfg, ks, k, IPv6);
    CountTypeSnoc(cfg, ks, k, TorV3);
  }

  lemma {:induction false} CountTypeReplace(cfg: Config, ks: seq<Key>, i: nat, k: Key, t: AddrType)
    requires i < |ks|
    ensures CountType(cfg, ks[i := k], t)
         == CountType(cfg, ks, t) + (if cfg.typeOf(k) == t then 1 else 0) - (if cfg.typeOf(ks[i]) == t then 1 else 0)
    ensures cfg.typeOf(ks[i]) == t ==> CountType(cfg, ks, t) >= 1
  {
    var n := |ks| - 1;
    if i < n {
      CountTypeReplace(cfg, ks[..n], i, k, t);
      assert ks[i := k][..n] == ks[..n][i := k];
    } else {
      assert ks[i := k][..n] == ks[..n];
    }
  }

  lemma StatsReplace(cfg: Config, ks: seq<Key>, i: nat, k: Key)
    requires i < |ks| < UINT16
    ensures StatsOfSeq(cfg, ks[i := k])
         == Increment(Decrement(StatsOfSeq(cfg, ks), cfg.typeOf(ks[i])), cfg.typeOf(k))
  {
    hide CountType;
    CountTypeReplace(cfg, ks, i, k, IPv4);
    CountTypeReplace(cfg, ks, i, k, IPv6);
    CountTypeReplace(cfg, ks, i, k, TorV3);
  }
}
