/** The elementary changes of the address manager's state and what each keeps. */
module AddrSteps {
  import opened AddrState

  /** Puts an address into a new bucket. */
  function Link(s: State, b: nat, k: Key): State
    requires k in s.index && b < |s.buckets| == |s.newStats|
  {
    var ka := s.index[k];
    s.(index := s.index[k := ka.(refs := ka.refs + 1)],
       buckets := s.buckets[b := s.buckets[b] + {k}],
       newStats := s.newStats[b := Increment(s.newStats[b], ka.na.addrType)],
       changed := true)
  }

  /** Takes an address out of a new bucket. */
  function Unlink(s: State, b: nat, k: Key): State
    requires k in s.index && b < |s.buckets| == |s.newStats|
  {
    var ka := s.index[k];
    s.(index := s.index[k := ka.(refs := ka.refs - 1)],
       buckets := s.buckets[b := s.buckets[b] - {k}],
       newStats := s.newStats[b := Decrement(s.newStats[b], ka.na.addrType)],
       changed := true)
  }

  /** Drops a new address that no bucket refers to any more. */
  function Forget(s: State, k: Key): State
    requires k in s.index
  {
    if s.index[k].refs == 0 then s.(index := s.index - {k}, nNew := s.nNew - 1) else s
  }

  /** Moves an address that is in no bucket to the end of a tried bucket. */
  function Promote(s: State, b: nat, k: Key): State
    requires k in s.index && b < |s.tried| == |s.triedStats|
  {
    var ka := s.index[k];
    s.(index := s.index[k := ka.(tried := true)],
       tried := s.tried[b := s.tried[b] + [k]],
       triedStats := s.triedStats[b := Increment(s.triedStats[b], ka.na.addrType)],
       nNew := s.nNew - 1, nTried := s.nTried + 1, changed := true)
  }

  /** Gives the tried slot of one address to another. */
  function Replace(s: State, b: nat, i: nat, k: Key): State
    requires k in s.index && b < |s.tried| == |s.triedStats| && i < |s.tried[b]|
    requires s.tried[b][i] in s.index
  {
    var rm := s.tried[b][i];
    var ka, rmka := s.index[k], s.index[rm];
    s.(index := s.index[k := ka.(tried := true)][rm := rmka.(tried := false)],
       tried := s.tried[b := s.tried[b][i := k]],
       triedStats := s.triedStats[b := Increment(Decrement(s.triedStats[b], rmka.na.addrType), ka.na.addrType)])
  }

  /** Replaces a known address by one with the same key, type, flag and references. */
  function Touch(s: State, k: Key, ka: KnownAddress): State
    requires k in s.index
  {
    s.(index := s.index[k := ka])
  }

  ghost predicate SameIdentity(ka: KnownAddress, other: KnownAddress) {
    ka.na.key == other.na.key && ka.na.addrType == other.na.addrType && ka.tried == other.tried && ka.refs == other.refs
  }

  // ---- what each change keeps ------------------------------------------------------------

  /** The new buckets stay right while they and their addresses stay. */
  lemma BucketsSame(cfg: Config, s: State, t: State)
    requires BucketsOk(cfg, s) && t.buckets == s.buckets && t.newStats == s.newStats
    requires forall i, k :: 0 <= i < |s.buckets| && k in s.buckets[i] && k in s.index ==> k in t.index
    ensures BucketsOk(cfg, t)
  {
    hide StatsOf;
    forall i | 0 <= i < NEW_BUCKET_COUNT ensures NewBucketOk(cfg, t, i) { assert NewBucketOk(cfg, s, i); }
  }

  lemma TriedSame(cfg: Config, s: State, t: State)
    requires TriedOk(cfg, s) && t.tried == s.tried && t.triedStats == s.triedStats
    requires forall i, k :: 0 <= i < |s.tried| && k in s.tried[i] && k in s.index ==> k in t.index
    ensures TriedOk(cfg, t)
  {
    hide StatsOfSeq;
    forall i | 0 <= i < TRIED_BUCKET_COUNT ensures TriedBucketOk(cfg, t, i) { assert TriedBucketOk(cfg, s, i); }
  }

  /** Changing one bucket. */
  lemma BucketChanged(cfg: Config, s: State, t: State, b: nat)
    requires BucketsOk(cfg, s) && b < NEW_BUCKET_COUNT && t.index.Keys == s.index.Keys
    requires |t.buckets| == |t.newStats| == NEW_BUCKET_COUNT && NewBucketOk(cfg, t, b)
    requires forall i :: 0 <= i < NEW_BUCKET_COUNT && i != b ==> t.buckets[i] == s.buckets[i] && t.newStats[i] == s.newStats[i]
    ensures BucketsOk(cfg, t)
  {
    hide StatsOf;
    forall i | 0 <= i < NEW_BUCKET_COUNT ensures NewBucketOk(cfg, t, i) { assert NewBucketOk(cfg, s, i); }
  }

  lemma TriedChanged(cfg: Config, s: State, t: State, b: nat)
    requires TriedOk(cfg, s) && b < TRIED_BUCKET_COUNT && t.index.Keys == s.index.Keys
    requires |t.tried| == |t.triedStats| == TRIED_BUCKET_COUNT && TriedBucketOk(cfg, t, b)
    requires forall i :: 0 <= i < TRIED_BUCKET_COUNT && i != b ==> t.tried[i] == s.tried[i] && t.triedStats[i] == s.triedStats[i]
    ensures TriedOk(cfg, t)
  {
    hide StatsOfSeq;
    forall i | 0 <= i < TRIED_BUCKET_COUNT ensures TriedBucketOk(cfg, t, i) { assert TriedBucketOk(cfg, s, i); }
  }

  lemma TouchKeeps(cfg: Config, s: State, loose: set<Key>, k: Key, ka: KnownAddress)
    requires LooseInv(cfg, s, loose) && k in s.index && SameIdentity(s.index[k], ka)
    ensures LooseInv(cfg, Touch(s, k, ka), loose)
  {
    hide OfType, CountType, RefCount, SlotCount, StatsOf, StatsOfSeq, BucketsOk, TriedOk;
    var t := Touch(s, k, ka);
    assert NewKeys(t.index) == NewKeys(s.index) && TriedKeys(t.index) == TriedKeys(s.index);
    forall x | x in t.index ensures EntryOk(cfg, t, x, x in loose) { assert EntryOk(cfg, s, x, x in loose); }
    BucketsSame(cfg, s, t);
    TriedSame(cfg, s, t);
  }

  lemma LinkKeeps(cfg: Config, s: State, loose: set<Key>, b: nat, k: Key)
    requires LooseInv(cfg, s, loose) && k in s.index && b < NEW_BUCKET_COUNT
    requires !s.index[k].tried && s.index[k].refs < NEW_BUCKETS_PER_ADDRESS
    requires k !in s.buckets[b] && |s.buckets[b]| <= NEW_BUCKET_SIZE
    ensures LooseInv(cfg, Link(s, b, k), loose - {k})
  {
    hide EntriesOk, TriedOk, StatsOf;
    var t := Link(s, b, k);
    assert EntryOk(cfg, s, k, k in loose) by { TypeOfEntry(cfg, s, loose, k); }
    assert NewBucketOk(cfg, s, b);
    StatsAdd(cfg, s.buckets[b], k);
    assert NewBucketOk(cfg, t, b);
    BucketChanged(cfg, s, t, b);
    TriedSame(cfg, s, t);
    LinkEntries(cfg, s, loose, b, k);
    assert NewKeys(t.index) == NewKeys(s.index) && TriedKeys(t.index) == TriedKeys(s.index);
  }

  lemma TypeOfEntry(cfg: Config, s: State, loose: set<Key>, k: Key)
    requires EntriesOk(cfg, s, loose) && k in s.index
    ensures EntryOk(cfg, s, k, k in loose)
  {
  }

  lemma LinkEntries(cfg: Config, s: State, loose: set<Key>, b: nat, k: Key)
    requires EntriesOk(cfg, s, loose) && k in s.index && b < |s.buckets| == |s.newStats|
    requires !s.index[k].tried && s.index[k].refs < NEW_BUCKETS_PER_ADDRESS && k !in s.buckets[b]
    ensures EntriesOk(cfg, Link(s, b, k), loose - {k})
  {
    hide RefCount, SlotCount;
    var t := Link(s, b, k);
    forall x | x in t.index ensures EntryOk(cfg, t, x, x in loose - {k}) {
      assert EntryOk(cfg, s, x, x in loose);
      RefCountUpdate(s.buckets, b, s.buckets[b] + {k}, x, |s.buckets|);
    }
  }

  lemma UnlinkKeeps(cfg: Config, s: State, loose: set<Key>, b: nat, k: Key)
    requires LooseInv(cfg, s, loose) && b < NEW_BUCKET_COUNT && k in s.buckets[b]
    ensures k in s.index && LooseInv(cfg, Unlink(s, b, k), loose + {k})
    ensures !s.index[k].tried && s.index[k].refs >= 1
  {
    hide EntriesOk, TriedOk, StatsOf;
    assert NewBucketOk(cfg, s, b);
    var t := Unlink(s, b, k);
    UnlinkEntries(cfg, s, loose, b, k);
    StatsRemove(cfg, s.buckets[b], k);
    SubsetSize(t.buckets[b], s.buckets[b]);
    assert NewBucketOk(cfg, t, b);
    BucketChanged(cfg, s, t, b);
    TriedSame(cfg, s, t);
    assert NewKeys(t.index) == NewKeys(s.index) && TriedKeys(t.index) == TriedKeys(s.index);
  }

  lemma UnlinkEntries(cfg: Config, s: State, loose: set<Key>, b: nat, k: Key)
    requires EntriesOk(cfg, s, loose) && k in s.index && b < |s.buckets| == |s.newStats| && k in s.buckets[b]
    ensures EntriesOk(cfg, Unlink(s, b, k), loose + {k})
    ensures !s.index[k].tried && s.index[k].refs >= 1 && s.index[k].na.addrType == cfg.typeOf(k)
  {
    hide RefCount, SlotCount;
    var t := Unlink(s, b, k);
    RefCountWitness(s.buckets, k, |s.buckets|);
    assert EntryOk(cfg, s, k, k in loose);
    forall x | x in t.index ensures EntryOk(cfg, t, x, x in loose + {k}) {
      assert EntryOk(cfg, s, x, x in loose);
      RefCountUpdate(s.buckets, b, s.buckets[b] - {k}, x, |s.buckets|);
    }
  }

  lemma ForgetKeeps(cfg: Config, s: State, loose: set<Key>, k: Key)
    requires LooseInv(cfg, s, loose + {k}) && k !in loose && k in s.index && !s.index[k].tried
    ensures LooseInv(cfg, Forget(s, k), loose)
    ensures k !in Forget(s, k).index <==> s.index[k].refs == 0
  {
    hide RefCount, SlotCount, StatsOf, StatsOfSeq;
    assert EntryOk(cfg, s, k, true);
    var t := Forget(s, k);
    RefCountWitness(s.buckets, k, |s.buckets|);
    SlotCountWitness(s.tried, k, |s.tried|);
    if s.index[k].refs == 0 {
      assert NewKeys(t.index) == NewKeys(s.index) - {k} && TriedKeys(t.index) == TriedKeys(s.index);
      assert k in NewKeys(s.index);
    }
    forall x | x in t.index ensures EntryOk(cfg, t, x, x in loose) { assert EntryOk(cfg, s, x, x in loose + {k}); }
    BucketsSame(cfg, s, t);
    TriedSame(cfg, s, t);
  }

  lemma PromoteKeeps(cfg: Config, s: State, b: nat, k: Key)
    requires LooseInv(cfg, s, {k}) && k in s.index && !s.index[k].tried && s.index[k].refs == 0
    requires b < TRIED_BUCKET_COUNT && |s.tried[b]| < cfg.triedSize
    ensures Inv(cfg, Promote(s, b, k))
  {
    hide EntriesOk, BucketsOk, StatsOfSeq;
    assert TriedBucketOk(cfg, s, b);
    var t := Promote(s, b, k);
    PromoteEntries(cfg, s, b, k);
    StatsSnoc(cfg, s.tried[b], k);
    assert TriedBucketOk(cfg, t, b);
    TriedChanged(cfg, s, t, b);
    BucketsSame(cfg, s, t);
    assert NewKeys(t.index) == NewKeys(s.index) - {k} && k in NewKeys(s.index);
    assert TriedKeys(t.index) == TriedKeys(s.index) + {k} && k !in TriedKeys(s.index);
  }

  lemma PromoteEntries(cfg: Config, s: State, b: nat, k: Key)
    requires EntriesOk(cfg, s, {k}) && k in s.index && !s.index[k].tried && s.index[k].refs == 0
    requires b < |s.tried| == |s.triedStats|
    ensures EntriesOk(cfg, Promote(s, b, k), {}) && s.index[k].na.addrType == cfg.typeOf(k)
  {
    hide RefCount, SlotCount;
    var t := Promote(s, b, k);
    assert EntryOk(cfg, s, k, true);
    forall x | x in t.index ensures EntryOk(cfg, t, x, false) {
      assert EntryOk(cfg, s, x, x in {k});
      SlotCountUpdate(s.tried, b, s.tried[b] + [k], x, |s.tried|);
    }
  }

  lemma ReplaceKeeps(cfg: Config, s: State, b: nat, i: nat, k: Key)
    requires LooseInv(cfg, s, {k}) && k in s.index && !s.index[k].tried && s.index[k].refs == 0
    requires b < TRIED_BUCKET_COUNT && i < |s.tried[b]|
    ensures s.tried[b][i] in s.index && s.tried[b][i] != k
    ensures s.index[s.tried[b][i]].tried && s.index[s.tried[b][i]].refs == 0
    ensures LooseInv(cfg, Replace(s, b, i, k), {s.tried[b][i]})
  {
    hide EntriesOk, BucketsOk, StatsOfSeq;
    assert TriedBucketOk(cfg, s, b);
    var rm := s.tried[b][i];
    var t := Replace(s, b, i, k);
    ReplaceEntries(cfg, s, b, i, k);
    StatsReplace(cfg, s.tried[b], i, k);
    SwapSizes(s.index, t.index, k, rm);
    assert TriedBucketOk(cfg, t, b);
    TriedChanged(cfg, s, t, b);
    BucketsSame(cfg, s, t);
  }

  lemma ReplaceEntries(cfg: Config, s: State, b: nat, i: nat, k: Key)
    requires EntriesOk(cfg, s, {k}) && k in s.index && !s.index[k].tried && s.index[k].refs == 0
    requires b < |s.tried| == |s.triedStats| && i < |s.tried[b]| && s.tried[b][i] in s.index
    ensures var rm := s.tried[b][i];
      && rm != k && s.index[rm].tried && s.index[rm].refs == 0
      && s.index[k].na.addrType == cfg.typeOf(k) && s.index[rm].na.addrType == cfg.typeOf(rm)
      && EntriesOk(cfg, Replace(s, b, i, k), {rm})
  {
    hide RefCount, SlotCount;
    var rm := s.tried[b][i];
    SlotCountWitness(s.tried, rm, |s.tried|);
    SlotCountWitness(s.tried, k, |s.tried|);
    assert EntryOk(cfg, s, k, true) && EntryOk(cfg, s, rm, rm in {k});
    var t := Replace(s, b, i, k);
    forall x | x in t.index ensures EntryOk(cfg, t, x, x in {rm}) {
      assert EntryOk(cfg, s, x, x in {k});
      SlotCountUpdate(s.tried, b, s.tried[b][i := k], x, |s.tried|);
    }
  }

  lemma SwapSizes(before: map<Key, KnownAddress>, after: map<Key, KnownAddress>, k: Key, rm: Key)
    requires k in before && rm in before && k != rm && !before[k].tried && before[rm].tried
    requires after.Keys == before.Keys && after[k].tried && !after[rm].tried
    requires forall x :: x in before && x != k && x != rm ==> after[x].tried == before[x].tried
    ensures |NewKeys(after)| == |NewKeys(before)| && |TriedKeys(after)| == |TriedKeys(before)|
  {
    var n, t := NewKeys(before), TriedKeys(before);
    assert k in n && rm !in n && rm in t && k !in t;
    assert NewKeys(after) == n - {k} + {rm};
    assert TriedKeys(after) == t - {rm} + {k};
  }

  /** An unknown address enters the index. */
  function Admit(s: State, na: NetAddress, src: NetAddress): State {
    s.(index := s.index[na.key := KnownAddress(na, src, 0, ZERO_TIME, ZERO_TIME, false, 0)], nNew := s.nNew + 1, changed := true)
  }

  lemma AdmitKeeps(cfg: Config, s: State, na: NetAddress, src: NetAddress)
    requires Inv(cfg, s) && na.key !in s.index && na.addrType == cfg.typeOf(na.key)
    ensures LooseInv(cfg, Admit(s, na, src), {na.key})
  {
    hide EntriesOk, BucketsOk, TriedOk;
    var t, k := Admit(s, na, src), na.key;
    assert NewKeys(t.index) == NewKeys(s.index) + {k} && TriedKeys(t.index) == TriedKeys(s.index);
    BucketsSame(cfg, s, t);
    TriedSame(cfg, s, t);
    AbsentKey(cfg, s, k);
    AdmitEntries(cfg, s, na, src);
  }

  lemma AdmitEntries(cfg: Config, s: State, na: NetAddress, src: NetAddress)
    requires EntriesOk(cfg, s, {}) && na.key !in s.index && na.addrType == cfg.typeOf(na.key)
    requires Refs(s.buckets, na.key) == 0 && Slots(s.tried, na.key) == 0
    ensures EntriesOk(cfg, Admit(s, na, src), {na.key})
  {
    hide RefCount, SlotCount;
    var t, k := Admit(s, na, src), na.key;
    forall x | x in t.index ensures EntryOk(cfg, t, x, x in {k}) { if x != k { assert EntryOk(cfg, s, x, false); } }
  }

  lemma AbsentKey(cfg: Config, s: State, k: Key)
    requires BucketsOk(cfg, s) && TriedOk(cfg, s) && k !in s.index
    ensures Refs(s.buckets, k) == 0 && Slots(s.tried, k) == 0
  {
    hide RefCount, SlotCount, StatsOf, StatsOfSeq;
    forall i | 0 <= i < NEW_BUCKET_COUNT ensures k !in s.buckets[i] { assert NewBucketOk(cfg, s, i); }
    forall i | 0 <= i < TRIED_BUCKET_COUNT ensures k !in s.tried[i] { assert TriedBucketOk(cfg, s, i); }
    RefCountWitness(s.buckets, k, |s.buckets|);
    SlotCountWitness(s.tried, k, |s.tried|);
  }
}
