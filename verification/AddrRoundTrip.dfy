/** Loading what was saved restores the address manager. */
module AddrRoundTrip {
  import opened Options
  import opened AddrState
  import opened AddrSteps
  import opened AddrOps
  import opened AddrRuns
  import opened AddrPersist

  // ---- the state that buckets determine ------------------------------------------------------

  function Referenced(keys: set<Key>, bs: seq<set<Key>>): set<Key> {
    set k | k in keys && Refs(bs, k) > 0
  }

  function Slotted(keys: set<Key>, ts: seq<seq<Key>>): set<Key> {
    set k | k in keys && Slots(ts, k) > 0
  }

  function Entry(ka: KnownAddress, bs: seq<set<Key>>, ts: seq<seq<Key>>): KnownAddress {
    ka.(refs := Refs(bs, ka.na.key), tried := Slots(ts, ka.na.key) > 0)
  }

  /** Known addresses in the given buckets, with the counts those imply. */
  function Partial(cfg: Config, base: map<Key, KnownAddress>, bs: seq<set<Key>>, ts: seq<seq<Key>>): State {
    State(map k | k in base :: Entry(base[k], bs, ts),
          bs, seq(|bs|, i requires 0 <= i < |bs| => StatsOf(cfg, bs[i])),
          ts, seq(|ts|, i requires 0 <= i < |ts| => StatsOfSeq(cfg, ts[i])),
          |Referenced(base.Keys, bs)|, |Slotted(base.Keys, ts)|, true)
  }

  ghost predicate Keyed(cfg: Config, base: map<Key, KnownAddress>) {
    forall k :: k in base ==> base[k].na.key == k && base[k].na.addrType == cfg.typeOf(k)
  }

  lemma ListNewStep(cfg: Config, base: map<Key, KnownAddress>, bs: seq<set<Key>>, ts: seq<seq<Key>>, b: nat, k: Key)
    requires Keyed(cfg, base) && k in base && b < |bs| && k !in bs[b] && |bs[b]| < UINT16 - 1
    ensures ListNew(Partial(cfg, base, bs, ts), b, k) == Loading(Partial(cfg, base, bs[b := bs[b] + {k}], ts), None)
  {
    hide StatsOf, StatsOfSeq, Increment, Refs, Slots;
    var s, u := Partial(cfg, base, bs, ts), Partial(cfg, base, bs[b := bs[b] + {k}], ts);
    var t := ListNew(s, b, k).s;
    StatsAdd(cfg, bs[b], k);
    RefsGrow(base, bs, ts, b, k);
    assert t.newStats == u.newStats && t.triedStats == u.triedStats;
    assert t.index == u.index;
  }

  lemma RefsGrow(base: map<Key, KnownAddress>, bs: seq<set<Key>>, ts: seq<seq<Key>>, b: nat, k: Key)
    requires k in base && base[k].na.key == k && b < |bs| && k !in bs[b]
    ensures var cs := bs[b := bs[b] + {k}];
      && |Referenced(base.Keys, cs)| == |Referenced(base.Keys, bs)| + (if Refs(bs, k) == 0 then 1 else 0)
      && forall x :: Refs(cs, x) == Refs(bs, x) + (if x == k then 1 else 0)
  {
    hide RefCount;
    var cs := bs[b := bs[b] + {k}];
    forall x ensures Refs(cs, x) == Refs(bs, x) + (if x == k then 1 else 0) {
      RefCountUpdate(bs, b, bs[b] + {k}, x, |bs|);
    }
    var was := Referenced(base.Keys, bs);
    assert Referenced(base.Keys, cs) == was + {k} && (k in was <==> Refs(bs, k) > 0);
    if k in was { assert was + {k} == was; }
  }

  lemma ListTriedStep(cfg: Config, base: map<Key, KnownAddress>, bs: seq<set<Key>>, ts: seq<seq<Key>>, b: nat, k: Key)
    requires Keyed(cfg, base) && k in base && b < |ts| && Slots(ts, k) == 0 && |ts[b]| < UINT16 - 1
    ensures ListTried(Partial(cfg, base, bs, ts), b, k) == Loading(Partial(cfg, base, bs, ts[b := ts[b] + [k]]), None)
  {
    hide StatsOf, StatsOfSeq, Increment, Refs, Slots;
    var s, u := Partial(cfg, base, bs, ts), Partial(cfg, base, bs, ts[b := ts[b] + [k]]);
    var t := ListTried(s, b, k).s;
    StatsSnoc(cfg, ts[b], k);
    SlotsGrow(base, ts, b, k);
    assert t.newStats == u.newStats && t.triedStats == u.triedStats;
    assert t.index == u.index;
  }

  lemma SlotsGrow(base: map<Key, KnownAddress>, ts: seq<seq<Key>>, b: nat, k: Key)
    requires k in base && b < |ts| && Slots(ts, k) == 0
    ensures var us := ts[b := ts[b] + [k]];
      && |Slotted(base.Keys, us)| == |Slotted(base.Keys, ts)| + 1
      && forall x :: Slots(us, x) == Slots(ts, x) + (if x == k then 1 else 0)
  {
    hide SlotCount;
    var us := ts[b := ts[b] + [k]];
    forall x ensures Slots(us, x) == Slots(ts, x) + (if x == k then 1 else 0) {
      SlotCountUpdate(ts, b, ts[b] + [k], x, |ts|);
    }
    assert Slotted(base.Keys, us) == Slotted(base.Keys, ts) + {k} && k !in Slotted(base.Keys, ts);
  }

  // ---- the new buckets -------------------------------------------------------------------------

  function Head(bs: seq<set<Key>>, n: nat): seq<set<Key>>
    requires n <= |bs|
  {
    seq(|bs|, i requires 0 <= i < |bs| => if i < n then bs[i] else {})
  }

  lemma {:induction false} LoadNewBucketIs(cfg: Config, base: map<Key, KnownAddress>, bs: seq<set<Key>>, ts: seq<seq<Key>>,
                                           b: nat, ks: seq<Key>, n: nat)
    requires Keyed(cfg, base) && b < |bs| && bs[b] == {} && n <= |ks| < UINT16 - 1
    requires Distinct(ks) && forall k :: k in ks ==> k in base
    ensures LoadNewBucket(Partial(cfg, base, bs, ts), b, ks, n)
         == Loading(Partial(cfg, base, bs[b := KeySet(ks[..n])], ts), None)
    decreases n
  {
    hide Partial, ListNew, KeySet;
    KeySetGrows(ks, n);
    if n == 0 {
      assert bs[b := bs[b]] == bs;
    } else {
      LoadNewBucketIs(cfg, base, bs, ts, b, ks, n - 1);
      var had := KeySet(ks[..n - 1]);
      KeySetGrows(ks, n - 1);
      var cs := bs[b := had];
      ListNewStep(cfg, base, cs, ts, b, ks[n - 1]);
      assert cs[b := had + {ks[n - 1]}] == bs[b := KeySet(ks[..n])];
    }
  }

  lemma {:induction false} LoadNewIs(cfg: Config, base: map<Key, KnownAddress>, bs: seq<set<Key>>, ts: seq<seq<Key>>,
                                     lists: seq<seq<Key>>, n: nat)
    requires Keyed(cfg, base) && n <= |lists| == |bs|
    requires forall i :: 0 <= i < |bs| ==> Enumerates(lists[i], bs[i]) && |bs[i]| < UINT16 - 1 && bs[i] <= base.Keys
    ensures LoadNew(Partial(cfg, base, Head(bs, 0), ts), lists, n) == Loading(Partial(cfg, base, Head(bs, n), ts), None)
    decreases n
  {
    hide Partial, LoadNewBucket, Enumerates, Head;
    if n > 0 {
      LoadNewIs(cfg, base, bs, ts, lists, n - 1);
      NextNewBucket(cfg, base, bs, ts, lists[n - 1], n - 1);
    }
  }

  lemma NextNewBucket(cfg: Config, base: map<Key, KnownAddress>, bs: seq<set<Key>>, ts: seq<seq<Key>>, ks: seq<Key>, n: nat)
    requires Keyed(cfg, base) && n < |bs| && Enumerates(ks, bs[n]) && |bs[n]| < UINT16 - 1 && bs[n] <= base.Keys
    ensures LoadNewBucket(Partial(cfg, base, Head(bs, n), ts), n, ks, |ks|) == Loading(Partial(cfg, base, Head(bs, n + 1), ts), None)
  {
    hide Partial, LoadNewBucket;
    assert KeySet(ks) == bs[n];
    assert ks[..|ks|] == ks;
    KeySetGrows(ks, |ks|);
    LoadNewBucketIs(cfg, base, Head(bs, n), ts, n, ks, |ks|);
    assert Head(bs, n)[n := bs[n]] == Head(bs, n + 1);
  }

  // ---- the tried buckets -----------------------------------------------------------------------

  function HeadSlots(ts: seq<seq<Key>>, n: nat): seq<seq<Key>>
    requires n <= |ts|
  {
    seq(|ts|, i requires 0 <= i < |ts| => if i < n then ts[i] else [])
  }

  /** The slots before one slot. */
  function Before(ts: seq<seq<Key>>, b: nat, j: nat): seq<seq<Key>>
    requires b < |ts| && j <= |ts[b]|
  {
    HeadSlots(ts, b)[b := ts[b][..j]]
  }

  /** A key with a single slot does not occur before it. */
  lemma FirstOccurrence(ts: seq<seq<Key>>, b: nat, j: nat)
    requires b < |ts| && j < |ts[b]| && Slots(ts, ts[b][j]) == 1
    ensures Slots(Before(ts, b, j), ts[b][j]) == 0
  {
    hide SlotCount;
    var k, rest := ts[b][j], ts[b][..j] + ts[b][j + 1..];
    assert ts[b] == ts[b][..j] + [k] + ts[b][j + 1..];
    SlotCountUpdate(ts, b, rest, k, |ts|);
    SlotCountWitness(ts[b := rest], k, |ts|);
    var before := Before(ts, b, j);
    forall i | 0 <= i < |ts| ensures k !in before[i] {
      assert k !in ts[b := rest][i];
    }
    SlotCountWitness(before, k, |ts|);
  }

  lemma {:induction false} LoadTriedBucketIs(cfg: Config, base: map<Key, KnownAddress>, bs: seq<set<Key>>, ts: seq<seq<Key>>,
                                             b: nat, n: nat)
    requires Keyed(cfg, base) && b < |ts| && n <= |ts[b]| < UINT16 - 1
    requires forall k :: k in ts[b] ==> k in base && Slots(ts, k) == 1
    ensures LoadTriedBucket(Partial(cfg, base, bs, HeadSlots(ts, b)), b, ts[b], n)
         == Loading(Partial(cfg, base, bs, Before(ts, b, n)), None)
    decreases n
  {
    hide Partial, ListTried, SlotCount;
    if n == 0 {
      assert Before(ts, b, 0) == HeadSlots(ts, b);
    } else {
      LoadTriedBucketIs(cfg, base, bs, ts, b, n - 1);
      var k, us := ts[b][n - 1], Before(ts, b, n - 1);
      FirstOccurrence(ts, b, n - 1);
      ListTriedStep(cfg, base, bs, us, b, k);
      assert us[b] + [k] == ts[b][..n];
      assert us[b := us[b] + [k]] == Before(ts, b, n);
    }
  }

  lemma {:induction false} LoadTriedIs(cfg: Config, base: map<Key, KnownAddress>, bs: seq<set<Key>>, ts: seq<seq<Key>>, n: nat)
    requires Keyed(cfg, base) && n <= |ts|
    requires forall i, k :: 0 <= i < |ts| && k in ts[i] ==> k in base && Slots(ts, k) == 1
    requires forall i :: 0 <= i < |ts| ==> |ts[i]| < UINT16 - 1
    ensures LoadTried(Partial(cfg, base, bs, HeadSlots(ts, 0)), ts, n) == Loading(Partial(cfg, base, bs, HeadSlots(ts, n)), None)
    decreases n
  {
    hide Partial, LoadTriedBucket, SlotCount;
    if n > 0 {
      LoadTriedIs(cfg, base, bs, ts, n - 1);
      LoadTriedBucketIs(cfg, base, bs, ts, n - 1, |ts[n - 1]|);
      assert ts[n - 1][..|ts[n - 1]|] == ts[n - 1];
      assert Before(ts, n - 1, |ts[n - 1]|) == HeadSlots(ts, n);
    }
  }

  // ---- the addresses -----------------------------------------------------------------------------

  /** Keys are the text of network addresses: parsing them gives the address back. */
  ghost predicate Parses(cfg: Config, parse: Parser, s: State) {
    forall k :: k in s.index ==>
      parse(k).Some? && parse(k).value.key == k && parse(k).value.addrType == cfg.typeOf(k) && parse(s.index[k].src.key).Some?
  }

  /** What survives: the counts, flags and times to the second.  The time seen and
      the services come from parsing. */
  function Restored(parse: Parser, k: Key, ka: KnownAddress): KnownAddress
    requires parse(k).Some? && parse(ka.src.key).Some?
  {
    ka.(na := parse(k).value, src := parse(ka.src.key).value,
        lastAttempt := Unix(ka.lastAttempt) * SECOND, lastSuccess := Unix(ka.lastSuccess) * SECOND)
  }

  ghost function RestoredState(cfg: Config, parse: Parser, s: State): State
    requires Parses(cfg, parse, s)
  {
    s.(index := map k | k in s.index :: Restored(parse, k, s.index[k]), changed := true)
  }

  ghost function Bare(cfg: Config, parse: Parser, s: State): (m: map<Key, KnownAddress>)
    requires Parses(cfg, parse, s)
    ensures m.Keys == s.index.Keys
  {
    map k | k in s.index :: Restored(parse, k, s.index[k]).(tried := false, refs := 0)
  }

  lemma {:induction false} LoadAddressesIs(cfg: Config, parse: Parser, s: State, sv: Saved, t: State, n: nat)
    requires Parses(cfg, parse, s) && n <= |sv.addresses| && t.index == map[]
    requires forall a :: a in sv.addresses ==> a.addr in s.index && a == SavedOf(a.addr, s.index[a.addr])
    ensures var l := LoadAddresses(t, parse, sv.addresses, n);
      && l.err.None?
      && (forall k :: k in l.s.index ==> k in s.index && l.s.index[k] == Bare(cfg, parse, s)[k])
      && (forall a :: a in sv.addresses[..n] ==> a.addr in l.s.index)
    decreases n
  {
    hide LoadAddress, SavedOf, Bare, Parses;
    if n > 0 {
      LoadAddressesIs(cfg, parse, s, sv, t, n - 1);
      var a := sv.addresses[n - 1];
      assert a in sv.addresses;
      assert sv.addresses[..n] == sv.addresses[..n - 1] + [a];
      OneAddress(cfg, parse, s, LoadAddresses(t, parse, sv.addresses, n - 1).s, a);
    }
  }

  lemma OneAddress(cfg: Config, parse: Parser, s: State, t: State, a: SavedAddress)
    requires Parses(cfg, parse, s) && a.addr in s.index && a == SavedOf(a.addr, s.index[a.addr])
    ensures LoadAddress(t, parse, a) == Loading(t.(index := t.index[a.addr := Bare(cfg, parse, s)[a.addr]]), None)
  {
  }

  lemma AllAddresses(cfg: Config, parse: Parser, s: State, sv: Saved)
    requires Parses(cfg, parse, s) && IsSaveOf(s, sv)
    ensures LoadAddresses(Fresh(), parse, sv.addresses, |sv.addresses|) == Loading(Fresh().(index := Bare(cfg, parse, s)), None)
  {
    hide Restored, Fresh;
    assert Fresh().index == map[] by { FreshIndex(); }
    LoadAddressesIs(cfg, parse, s, sv, Fresh(), |sv.addresses|);
    assert sv.addresses[..|sv.addresses|] == sv.addresses;
    var l := LoadAddresses(Fresh(), parse, sv.addresses, |sv.addresses|);
    forall k | k in s.index ensures k in l.s.index { assert SavedOf(k, s.index[k]) in sv.addresses; }
    assert l.s.index == Bare(cfg, parse, s);
  }

  lemma FreshIndex()
    ensures Fresh().index == map[]
  {
  }

  // ---- the round trip ----------------------------------------------------------------------------

  lemma FreshIsPartial(cfg: Config, base: map<Key, KnownAddress>, bs: seq<set<Key>>, ts: seq<seq<Key>>)
    requires |bs| == NEW_BUCKET_COUNT && |ts| == TRIED_BUCKET_COUNT
    requires forall k :: k in base ==> base[k].refs == 0 && !base[k].tried
    ensures Fresh().(index := base) == Partial(cfg, base, Head(bs, 0), HeadSlots(ts, 0))
  {
    hide RefCount, SlotCount;
    var s, es, us := Fresh(), Head(bs, 0), HeadSlots(ts, 0);
    var p := Partial(cfg, base, es, us);
    forall k ensures Refs(es, k) == 0 && Slots(us, k) == 0 {
      RefCountWitness(es, k, |es|);
      SlotCountWitness(us, k, |us|);
    }
    assert Referenced(base.Keys, es) == {} && Slotted(base.Keys, us) == {};
    assert OfType(cfg, {}, IPv4) == {} && OfType(cfg, {}, IPv6) == {} && OfType(cfg, {}, TorV3) == {};
    assert s.buckets == es && s.tried == us && s.newStats == p.newStats && s.triedStats == p.triedStats;
    assert p.index == base;
  }

  lemma PartialIsRestored(cfg: Config, parse: Parser, s: State)
    requires Inv(cfg, s) && Parses(cfg, parse, s)
    ensures Partial(cfg, Bare(cfg, parse, s), s.buckets, s.tried) == RestoredState(cfg, parse, s)
  {
    hide RefCount, SlotCount, StatsOf, StatsOfSeq;
    var base := Bare(cfg, parse, s);
    var p, r := Partial(cfg, base, s.buckets, s.tried), RestoredState(cfg, parse, s);
    forall k | k in s.index ensures p.index[k] == r.index[k] { assert EntryOk(cfg, s, k, false); }
    assert p.index == r.index;
    CountsAgree(cfg, s);
    assert base.Keys == s.index.Keys;
    StatsAgree(cfg, s, p);
  }

  lemma StatsAgree(cfg: Config, s: State, p: State)
    requires BucketsOk(cfg, s) && TriedOk(cfg, s)
    requires |p.newStats| == |s.buckets| && forall i :: 0 <= i < |s.buckets| ==> p.newStats[i] == StatsOf(cfg, s.buckets[i])
    requires |p.triedStats| == |s.tried| && forall i :: 0 <= i < |s.tried| ==> p.triedStats[i] == StatsOfSeq(cfg, s.tried[i])
    ensures p.newStats == s.newStats && p.triedStats == s.triedStats
  {
    hide StatsOf, StatsOfSeq;
    forall i | 0 <= i < NEW_BUCKET_COUNT ensures p.newStats[i] == s.newStats[i] { assert NewBucketOk(cfg, s, i); }
    forall i | 0 <= i < TRIED_BUCKET_COUNT ensures p.triedStats[i] == s.triedStats[i] { assert TriedBucketOk(cfg, s, i); }
  }

  /** The totals count the addresses found in new buckets and in tried slots. */
  lemma CountsAgree(cfg: Config, s: State)
    requires EntriesOk(cfg, s, {})
    ensures Referenced(s.index.Keys, s.buckets) == NewKeys(s.index) && Slotted(s.index.Keys, s.tried) == TriedKeys(s.index)
  {
    hide RefCount, SlotCount;
    forall k | k in s.index
      ensures (Refs(s.buckets, k) > 0 <==> !s.index[k].tried) && (Slots(s.tried, k) > 0 <==> s.index[k].tried)
    {
      assert EntryOk(cfg, s, k, false);
    }
  }

  lemma RestoredKeeps(cfg: Config, parse: Parser, s: State)
    requires Inv(cfg, s) && Parses(cfg, parse, s)
    ensures Inv(cfg, RestoredState(cfg, parse, s))
  {
    hide RefCount, SlotCount, StatsOf, StatsOfSeq, BucketsOk, TriedOk;
    var t := RestoredState(cfg, parse, s);
    assert NewKeys(t.index) == NewKeys(s.index) && TriedKeys(t.index) == TriedKeys(s.index);
    forall x | x in t.index ensures EntryOk(cfg, t, x, false) { assert EntryOk(cfg, s, x, false); }
    BucketsSame(cfg, s, t);
    TriedSame(cfg, s, t);
  }

  lemma SlotsKnown(cfg: Config, s: State, i: nat, k: Key)
    requires Inv(cfg, s) && i < TRIED_BUCKET_COUNT && k in s.tried[i]
    ensures k in s.index && Slots(s.tried, k) == 1 && s.index[k].tried
  {
    hide RefCount, SlotCount, StatsOfSeq;
    assert TriedBucketOk(cfg, s, i);
    assert EntryOk(cfg, s, k, false);
    SlotCountWitness(s.tried, k, |s.tried|);
  }

  lemma NewPhase(cfg: Config, base: map<Key, KnownAddress>, s: State, ts: seq<seq<Key>>, lists: seq<seq<Key>>)
    requires BucketsOk(cfg, s) && Keyed(cfg, base) && base.Keys == s.index.Keys && |lists| == NEW_BUCKET_COUNT
    requires forall i :: 0 <= i < NEW_BUCKET_COUNT ==> Enumerates(lists[i], s.buckets[i])
    ensures LoadNew(Partial(cfg, base, Head(s.buckets, 0), ts), lists, NEW_BUCKET_COUNT) == Loading(Partial(cfg, base, s.buckets, ts), None)
  {
    hide StatsOf, LoadNew, Partial, Enumerates;
    forall i | 0 <= i < NEW_BUCKET_COUNT ensures |s.buckets[i]| < UINT16 - 1 && s.buckets[i] <= base.Keys {
      assert NewBucketOk(cfg, s, i);
    }
    LoadNewIs(cfg, base, s.buckets, ts, lists, NEW_BUCKET_COUNT);
    assert Head(s.buckets, NEW_BUCKET_COUNT) == s.buckets;
  }

  lemma TriedPhase(cfg: Config, base: map<Key, KnownAddress>, s: State)
    requires Inv(cfg, s) && Keyed(cfg, base) && base.Keys == s.index.Keys
    ensures LoadTried(Partial(cfg, base, s.buckets, HeadSlots(s.tried, 0)), s.tried, TRIED_BUCKET_COUNT)
         == Loading(Partial(cfg, base, s.buckets, s.tried), None)
  {
    hide StatsOfSeq, LoadTried, Partial, SlotCount, EntriesOk, BucketsOk, TotalsOk;
    forall i, k | 0 <= i < |s.tried| && k in s.tried[i] ensures k in base && Slots(s.tried, k) == 1 { SlotsKnown(cfg, s, i, k); }
    forall i | 0 <= i < |s.tried| ensures |s.tried[i]| < UINT16 - 1 { assert TriedBucketOk(cfg, s, i); }
    LoadTriedIs(cfg, base, s.buckets, s.tried, TRIED_BUCKET_COUNT);
    assert HeadSlots(s.tried, TRIED_BUCKET_COUNT) == s.tried;
  }

  /** Loading a saved manager into a fresh one succeeds and restores every address,
      its place in the buckets and all counts. */
  lemma LoadOfSave(cfg: Config, parse: Parser, s: State, sv: Saved)
    requires Inv(cfg, s) && IsSaveOf(s, sv) && Parses(cfg, parse, s)
    ensures Load(Fresh(), parse, sv) == Loading(RestoredState(cfg, parse, s), None)
    ensures Inv(cfg, RestoredState(cfg, parse, s))
  {
    hide LoadAddresses, LoadNew, LoadTried, Partial, Restored, EntriesOk, TotalsOk, NewBucketOk, TriedBucketOk, Fresh, Enumerates, Parses;
    var base := Bare(cfg, parse, s);
    AllAddresses(cfg, parse, s, sv);
    BareKeyed(cfg, parse, s);
    FreshIsPartial(cfg, base, s.buckets, s.tried);
    NewPhase(cfg, base, s, HeadSlots(s.tried, 0), sv.newBuckets);
    TriedPhase(cfg, base, s);
    PartialIsRestored(cfg, parse, s);
    RestoredKeeps(cfg, parse, s);
    AllConsistent(cfg, RestoredState(cfg, parse, s));
  }

  lemma BareKeyed(cfg: Config, parse: Parser, s: State)
    requires Parses(cfg, parse, s)
    ensures Keyed(cfg, Bare(cfg, parse, s))
    ensures forall k :: k in s.index ==> Bare(cfg, parse, s)[k].refs == 0 && !Bare(cfg, parse, s)[k].tried
  {
  }

  lemma AllConsistent(cfg: Config, s: State)
    requires Inv(cfg, s)
    ensures forall k :: k in s.index ==> Consistent(s.index[k])
  {
    hide RefCount, SlotCount;
    forall k | k in s.index ensures Consistent(s.index[k]) { assert EntryOk(cfg, s, k, false); }
  }
}
