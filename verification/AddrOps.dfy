/** Adding, updating and expiring addresses. */
module AddrOps {
  import opened Options
  import opened AddrState
  import opened AddrSteps

  // ---- expireNew --------------------------------------------------------------------------

  ghost predicate Distinct(ks: seq<Key>) {
    forall i, j :: 0 <= i < j < |ks| ==> ks[i] != ks[j]
  }

  /** An iteration order of a bucket. */
  ghost predicate Enumerates(order: seq<Key>, keys: set<Key>) {
    Distinct(order) && forall k :: k in order <==> k in keys
  }

  lemma Listing(order: seq<Key>, keys: set<Key>)
    requires Enumerates(order, keys)
    ensures forall k :: k in order <==> k in keys
  {
  }

  /** Not attempted within the last minute, and from the future, unseen for a
      month, or failing too often. */
  predicate IsBad(ka: KnownAddress, now: int) {
    && ka.lastAttempt <= now - MINUTE
    && (|| ka.na.timestamp > now + 10 * MINUTE
        || ka.na.timestamp < now - 30 * DAY
        || (ka.lastSuccess == ZERO_TIME && ka.attempts >= 3)
        || (ka.lastSuccess <= now - 7 * DAY && ka.attempts >= 5))
  }

  /** The verdict on each address at the time it is looked at. */
  function Verdict(index: map<Key, KnownAddress>, clock: Key -> int): Key -> bool {
    k => k in index && IsBad(index[k], clock(k))
  }

  function KeySet(ks: seq<Key>): set<Key> {
    set k | k in ks
  }

  lemma KeySetSnoc(keys: set<Key>, ks: seq<Key>)
    ensures ks == [] ==> keys - KeySet(ks) == keys
    ensures ks != [] ==> keys - KeySet(ks) == keys - KeySet(ks[..|ks| - 1]) - {ks[|ks| - 1]}
  {
    if ks != [] { assert ks == ks[..|ks| - 1] + [ks[|ks| - 1]]; }
  }

  lemma {:induction false} KeySetGrows(ks: seq<Key>, n: nat)
    requires Distinct(ks) && n <= |ks|
    ensures |KeySet(ks[..n])| == n && (n == 0 ==> KeySet(ks[..n]) == {})
    ensures n > 0 ==> ks[n - 1] !in KeySet(ks[..n - 1]) && KeySet(ks[..n]) == KeySet(ks[..n - 1]) + {ks[n - 1]}
  {
    hide KeySet, Distinct;
    KeySetLast(ks, n);
    if n > 0 { KeySetGrows(ks, n - 1); }
  }

  lemma KeySetLast(ks: seq<Key>, n: nat)
    requires Distinct(ks) && n <= |ks|
    ensures n == 0 ==> KeySet(ks[..n]) == {}
    ensures n > 0 ==> ks[n - 1] !in KeySet(ks[..n - 1]) && KeySet(ks[..n]) == KeySet(ks[..n - 1]) + {ks[n - 1]}
  {
    if n > 0 { assert ks[..n] == ks[..n - 1] + [ks[n - 1]]; }
  }

  function BadOnes(order: seq<Key>, bad: Key -> bool): (ks: seq<Key>) {
    if order == [] then []
    else
      var ks, k := BadOnes(order[..|order| - 1], bad), order[|order| - 1];
      if bad(k) then ks + [k] else ks
  }

  /** The last visited of the addresses seen longest ago that are not bad. */
  function Oldest(index: map<Key, KnownAddress>, order: seq<Key>, bad: Key -> bool): (r: Option<Key>)
    requires forall k :: k in order ==> k in index
    ensures r.Some? ==> r.value in order && !bad(r.value)
    ensures r.None? ==> forall k :: k in order ==> bad(k)
    ensures r.Some? ==> forall k :: k in order && !bad(k) ==> index[r.value].na.timestamp <= index[k].na.timestamp
  {
    if order == [] then None
    else
      var k := order[|order| - 1];
      assert order == order[..|order| - 1] + [k];
      var r := Oldest(index, order[..|order| - 1], bad);
      if bad(k) then r
      else if r.None? || index[k].na.timestamp <= index[r.value].na.timestamp then Some(k)
      else r
  }

  function Victims(index: map<Key, KnownAddress>, order: seq<Key>, bad: Key -> bool): (ks: seq<Key>)
    requires forall k :: k in order ==> k in index
  {
    match Oldest(index, order, bad)
    case None => BadOnes(order, bad)
    case Some(k) => BadOnes(order, bad) + [k]
  }

  function Remove(s: State, b: nat, k: Key): State
    requires k in s.index && b < |s.buckets| == |s.newStats|
  {
    Forget(Unlink(s, b, k), k)
  }

  ghost function RemoveAll(s: State, b: nat, ks: seq<Key>): (t: State)
    requires b < |s.buckets| == |s.newStats| && Distinct(ks) && forall k :: k in ks ==> k in s.index
    ensures |t.buckets| == |t.newStats| == |s.buckets| && t.index.Keys <= s.index.Keys
    ensures forall x :: x in s.index && x !in ks ==> x in t.index && t.index[x] == s.index[x]
    decreases |ks|
  {
    if ks == [] then s
    else
      var n := |ks| - 1;
      assert ks == ks[..n] + [ks[n]];
      Remove(RemoveAll(s, b, ks[..n]), b, ks[n])
  }

  lemma RemoveAllSnoc(s: State, b: nat, ks: seq<Key>, k: Key)
    requires b < |s.buckets| == |s.newStats| && Distinct(ks + [k]) && forall x :: x in ks + [k] ==> x in s.index
    ensures Distinct(ks) && k !in ks && (forall x :: x in ks ==> x in s.index)
    ensures RemoveAll(s, b, ks + [k]) == Remove(RemoveAll(s, b, ks), b, k)
  {
    hide Remove, Distinct;
    DistinctInit(ks + [k]);
    assert (ks + [k])[..|ks|] == ks;
    assert forall x :: x in ks ==> x in ks + [k];
  }

  lemma RemoveFrame(s: State, b: nat, k: Key)
    requires k in s.index && b < |s.buckets| == |s.newStats|
    ensures Remove(s, b, k).buckets == s.buckets[b := s.buckets[b] - {k}] && Remove(s, b, k).tried == s.tried
  {
  }

  lemma DistinctInit(ks: seq<Key>)
    requires Distinct(ks) && ks != []
    ensures Distinct(ks[..|ks| - 1]) && ks[|ks| - 1] !in ks[..|ks| - 1]
  {
  }

  /** The bucket loses exactly the removed addresses; nothing else moves. */
  lemma {:induction false} RemoveAllFrame(s: State, b: nat, ks: seq<Key>)
    requires b < |s.buckets| == |s.newStats| && Distinct(ks) && forall k :: k in ks ==> k in s.index
    ensures RemoveAll(s, b, ks).buckets == s.buckets[b := s.buckets[b] - KeySet(ks)]
    ensures RemoveAll(s, b, ks).tried == s.tried
    decreases |ks|
  {
    hide KeySet, Remove, Distinct;
    KeySetSnoc(s.buckets[b], ks);
    if ks != [] {
      var n := |ks| - 1;
      assert Distinct(ks[..n]) && ks[n] !in ks[..n] by { DistinctInit(ks); }
      assert forall k :: k in ks[..n] ==> k in ks;
      RemoveAllFrame(s, b, ks[..n]);
      RemoveFrame(RemoveAll(s, b, ks[..n]), b, ks[n]);
    } else {
      assert s.buckets == s.buckets[b := s.buckets[b]];
    }
  }

  lemma RemoveKeeps(cfg: Config, s: State, loose: set<Key>, b: nat, k: Key)
    requires LooseInv(cfg, s, loose) && b < NEW_BUCKET_COUNT && k in s.buckets[b] && k !in loose
    ensures k in s.index && LooseInv(cfg, Remove(s, b, k), loose)
  {
    hide EntriesOk, TriedOk, TotalsOk, NewBucketOk;
    UnlinkKeeps(cfg, s, loose, b, k);
    ForgetKeeps(cfg, Unlink(s, b, k), loose, k);
  }

  lemma {:induction false} RemoveAllKeeps(cfg: Config, s: State, loose: set<Key>, b: nat, ks: seq<Key>)
    requires LooseInv(cfg, s, loose) && b < NEW_BUCKET_COUNT && Distinct(ks)
    requires forall k :: k in ks ==> k in s.buckets[b] && k in s.index && k !in loose
    ensures |s.buckets| == |s.newStats| && LooseInv(cfg, RemoveAll(s, b, ks), loose)
    decreases |ks|
  {
    hide EntriesOk, TriedOk, TotalsOk, NewBucketOk;
    if ks != [] {
      var n := |ks| - 1;
      assert ks == ks[..n] + [ks[n]];
      RemoveAllKeeps(cfg, s, loose, b, ks[..n]);
      RemoveAllFrame(s, b, ks[..n]);
      RemoveKeeps(cfg, RemoveAll(s, b, ks[..n]), loose, b, ks[n]);
    }
  }

  lemma {:induction false} BadOnesAre(order: seq<Key>, bad: Key -> bool)
    requires Distinct(order)
    ensures Distinct(BadOnes(order, bad))
    ensures forall k :: k in BadOnes(order, bad) <==> k in order && bad(k)
  {
    if order != [] {
      var n := |order| - 1;
      BadOnesAre(order[..n], bad);
      assert order == order[..n] + [order[n]];
    }
  }

  lemma VictimsAre(index: map<Key, KnownAddress>, order: seq<Key>, bad: Key -> bool)
    requires Distinct(order) && forall k :: k in order ==> k in index
    ensures var ks := Victims(index, order, bad);
      && Distinct(ks) && (forall k :: k in ks ==> k in order) && (order != [] ==> ks != [])
      && (forall k :: k in order && bad(k) ==> k in ks)
  {
    hide BadOnes;
    BadOnesAre(order, bad);
    if order != [] { assert order[0] in order; }
  }

  /** The bucket after the first n of its addresses have been looked at: the bad
      ones are gone. */
  ghost function Scanned(s: State, b: nat, order: seq<Key>, bad: Key -> bool, n: nat): (t: State)
    requires b < |s.buckets| == |s.newStats| && n <= |order|
    requires Distinct(order) && forall k :: k in order ==> k in s.index
    ensures |t.buckets| == |t.newStats| == |s.buckets| && (n == 0 ==> t == s)
    ensures forall i :: 0 <= i < |order| && (i < n ==> !bad(order[i])) ==>
                          order[i] in t.index && t.index[order[i]] == s.index[order[i]]
  {
    BadOnesAre(order[..n], bad);
    RemoveAll(s, b, BadOnes(order[..n], bad))
  }

  /** expireNew: the bad addresses go, then the oldest of the others. */
  ghost function Expire(s: State, b: nat, order: seq<Key>, bad: Key -> bool): State
    requires b < |s.buckets| == |s.newStats|
    requires Distinct(order) && forall k :: k in order ==> k in s.index
  {
    VictimsAre(s.index, order, bad);
    RemoveAll(s, b, Victims(s.index, order, bad))
  }

  lemma BadOnesNext(order: seq<Key>, bad: Key -> bool, n: nat)
    requires n < |order|
    ensures BadOnes(order[..n + 1], bad) == BadOnes(order[..n], bad) + (if bad(order[n]) then [order[n]] else [])
  {
    assert order[..n + 1][..n] == order[..n];
  }

  lemma DistinctPrefix(order: seq<Key>, n: nat)
    requires Distinct(order) && n < |order|
    ensures Distinct(order[..n]) && Distinct(order[..n + 1])
  {
  }

  lemma ScannedIs(s: State, b: nat, order: seq<Key>, bad: Key -> bool, n: nat)
    requires b < |s.buckets| == |s.newStats| && n <= |order|
    requires Distinct(order) && forall k :: k in order ==> k in s.index
    ensures var ks := BadOnes(order[..n], bad);
      Distinct(ks) && (forall k :: k in ks ==> k in s.index) && Scanned(s, b, order, bad, n) == RemoveAll(s, b, ks)
  {
    hide RemoveAll, BadOnes;
    BadOnesAre(order[..n], bad);
  }

  lemma ScanStep(s: State, b: nat, order: seq<Key>, bad: Key -> bool, n: nat)
    requires b < |s.buckets| == |s.newStats| && n < |order|
    requires Distinct(order) && forall k :: k in order ==> k in s.index
    ensures Scanned(s, b, order, bad, n + 1)
         == if bad(order[n]) then Remove(Scanned(s, b, order, bad, n), b, order[n]) else Scanned(s, b, order, bad, n)
  {
    hide Remove, RemoveAll, BadOnes, Distinct, Scanned;
    DistinctPrefix(order, n);
    BadOnesAre(order[..n + 1], bad);
    BadOnesAre(order[..n], bad);
    BadOnesNext(order, bad, n);
    var before, after := BadOnes(order[..n], bad), BadOnes(order[..n + 1], bad);
    if bad(order[n]) {
      RemoveAllSnoc(s, b, before, order[n]);
    } else {
      assert after == before;
    }
    ScannedIs(s, b, order, bad, n);
    ScannedIs(s, b, order, bad, n + 1);
  }

  lemma OldestStep(index: map<Key, KnownAddress>, order: seq<Key>, bad: Key -> bool, n: nat)
    requires n < |order| && forall k :: k in order ==> k in index
    ensures var r, k := Oldest(index, order[..n], bad), order[n];
      Oldest(index, order[..n + 1], bad)
      == if bad(k) then r
         else if r.None? || index[k].na.timestamp <= index[r.value].na.timestamp then Some(k)
         else r
  {
    assert order[..n + 1][..n] == order[..n];
  }

  lemma ScanEnd(s: State, b: nat, order: seq<Key>, bad: Key -> bool)
    requires b < |s.buckets| == |s.newStats|
    requires Distinct(order) && forall k :: k in order ==> k in s.index
    ensures Expire(s, b, order, bad)
         == match Oldest(s.index, order, bad)
            case None => Scanned(s, b, order, bad, |order|)
            case Some(k) => Remove(Scanned(s, b, order, bad, |order|), b, k)
  {
    hide Remove, RemoveAll, BadOnes, Distinct;
    assert order[..|order|] == order;
    VictimsAre(s.index, order, bad);
    var oldest := Oldest(s.index, order, bad);
    if oldest.Some? { RemoveAllSnoc(s, b, BadOnes(order, bad), oldest.value); }
  }

  // ---- addOrUpdateAddress -------------------------------------------------------------------

  function NewBucket(cfg: Config, na: NetAddress, src: NetAddress): (b: nat)
    ensures b < NEW_BUCKET_COUNT
  {
    cfg.newBucketOf(na, src) % NEW_BUCKET_COUNT
  }

  function TriedBucket(cfg: Config, na: NetAddress): (b: nat)
    ensures b < TRIED_BUCKET_COUNT
  {
    cfg.triedBucketOf(na) % TRIED_BUCKET_COUNT
  }

  /** A newer timestamp or new services replace the stored network address. */
  function Refresh(ka: KnownAddress, na: NetAddress): (r: KnownAddress) {
    if na.timestamp > ka.na.timestamp || !(na.services <= ka.na.services)
    then ka.(na := ka.na.(timestamp := na.timestamp, services := ka.na.services + na.services))
    else ka
  }

  /** Room is made and the address enters its new bucket. */
  ghost function Place(cfg: Config, s: State, na: NetAddress, src: NetAddress, order: seq<Key>, bad: Key -> bool): Stepped<State>
    requires na.key in s.index && Shaped(s) && Enumerates(order, s.buckets[NewBucket(cfg, na, src)])
  {
    var b := NewBucket(cfg, na, src);
    if na.key in s.buckets[b] then Ok(s)
    else if |s.buckets[b]| <= NEW_BUCKET_SIZE then Ok(Link(s, b, na.key))
    else if forall k :: k in order ==> k in s.index then
      VictimsAre(s.index, order, bad);
      Ok(Link(Expire(s, b, order, bad), b, na.key))
    else Panic
  }

  /** `draw` is the random number that decides whether a known address gets
      another bucket, `order` the iteration order of that bucket and `clock` the
      time at which each of its addresses is judged. */
  ghost function AddOrUpdate(cfg: Config, s: State, na: NetAddress, src: NetAddress,
                             draw: nat, order: seq<Key>, clock: Key -> int): Stepped<State>
    requires Shaped(s) && Enumerates(order, s.buckets[NewBucket(cfg, na, src)])
  {
    if !na.routable then Ok(s)
    else if na.key in s.index then
      var ka := s.index[na.key];
      var t := Touch(s, na.key, Refresh(ka, na));
      if ka.tried then Ok(t)
      else if ka.refs == NEW_BUCKETS_PER_ADDRESS then Ok(t)
      else if ka.refs <= 0 then Panic
      else if draw % (2 * ka.refs) != 0 then Ok(t)
      else Place(cfg, t, na, src, order, Verdict(t.index, clock))
    else
      var t := Admit(s, na, src);
      Place(cfg, t, na, src, order, Verdict(t.index, clock))
  }

  lemma OrderInIndex(cfg: Config, s: State, b: nat, order: seq<Key>)
    requires Inv(cfg, s) && b < NEW_BUCKET_COUNT && Enumerates(order, s.buckets[b])
    ensures forall k :: k in order ==> k in s.index
  {
    assert NewBucketOk(cfg, s, b);
  }

  lemma PlaceKeeps(cfg: Config, s: State, na: NetAddress, src: NetAddress, order: seq<Key>, bad: Key -> bool)
    requires LooseInv(cfg, s, {na.key}) && na.key in s.index
    requires !s.index[na.key].tried && s.index[na.key].refs < NEW_BUCKETS_PER_ADDRESS
    requires Enumerates(order, s.buckets[NewBucket(cfg, na, src)])
    requires forall k :: k in order ==> k in s.index
    requires na.key in s.buckets[NewBucket(cfg, na, src)] ==> Inv(cfg, s)
    ensures Shaped(s) && Place(cfg, s, na, src, order, bad).Ok? && Inv(cfg, Place(cfg, s, na, src, order, bad).value)
  {
    hide EntriesOk, TriedBucketOk, TotalsOk, NewBucketOk, Expire, Enumerates, NewBucket, Link;
    var b, k := NewBucket(cfg, na, src), na.key;
    if k !in s.buckets[b] {
      if |s.buckets[b]| > NEW_BUCKET_SIZE {
        ExpireKeeps(cfg, s, b, k, order, bad);
        LinkKeeps(cfg, Expire(s, b, order, bad), {k}, b, k);
      } else {
        LinkKeeps(cfg, s, {k}, b, k);
      }
      assert {k} - {k} == {};
    }
  }

  /** Expiring makes room and leaves an address outside the bucket alone. */
  lemma ExpireKeeps(cfg: Config, s: State, b: nat, k: Key, order: seq<Key>, bad: Key -> bool)
    requires LooseInv(cfg, s, {k}) && k in s.index && b < NEW_BUCKET_COUNT && k !in s.buckets[b]
    requires |s.buckets[b]| > NEW_BUCKET_SIZE && Enumerates(order, s.buckets[b])
    requires forall x :: x in order ==> x in s.index
    ensures Distinct(order)
    ensures var t := Expire(s, b, order, bad);
      && LooseInv(cfg, t, {k}) && k in t.index && t.index[k] == s.index[k]
      && k !in t.buckets[b] && |t.buckets[b]| <= NEW_BUCKET_SIZE
  {
    hide EntriesOk, TriedOk, TotalsOk, NewBucketOk, Victims;
    VictimsAre(s.index, order, bad);
    var ks := Victims(s.index, order, bad);
    RemoveAllKeeps(cfg, s, {k}, b, ks);
    RemoveAllFrame(s, b, ks);
    MadeRoom(cfg, s, b, order, ks);
  }

  lemma MadeRoom(cfg: Config, s: State, b: nat, order: seq<Key>, ks: seq<Key>)
    requires BucketsOk(cfg, s) && b < NEW_BUCKET_COUNT && Enumerates(order, s.buckets[b])
    requires |s.buckets[b]| > NEW_BUCKET_SIZE && (forall k :: k in ks ==> k in order) && (order != [] ==> ks != [])
    ensures |s.buckets[b] - KeySet(ks)| <= NEW_BUCKET_SIZE
  {
    hide StatsOf;
    assert NewBucketOk(cfg, s, b);
    var x :| x in s.buckets[b];
    assert x in order;
    var v := ks[0];
    assert v in order;
    var rest := s.buckets[b] - KeySet(ks);
    SubsetSize(rest, s.buckets[b] - {v});
  }

  /** addOrUpdateAddress keeps the invariant and does not panic. */
  lemma AddKeeps(cfg: Config, s: State, na: NetAddress, src: NetAddress, draw: nat, order: seq<Key>, clock: Key -> int)
    requires Inv(cfg, s) && na.addrType == cfg.typeOf(na.key)
    requires Enumerates(order, s.buckets[NewBucket(cfg, na, src)])
    ensures Shaped(s) && AddOrUpdate(cfg, s, na, src, draw, order, clock).Ok?
    ensures Inv(cfg, AddOrUpdate(cfg, s, na, src, draw, order, clock).value)
  {
    hide EntriesOk, TriedBucketOk, TotalsOk, NewBucketOk, Place, NewBucket, IsBad, Verdict;
    OrderInIndex(cfg, s, NewBucket(cfg, na, src), order);
    var k := na.key;
    if na.routable {
      if k in s.index {
        var ka := s.index[k];
        TypeOfEntry(cfg, s, {}, k);
        TouchKeeps(cfg, s, {}, k, Refresh(ka, na));
        var t := Touch(s, k, Refresh(ka, na));
        if !ka.tried && ka.refs < NEW_BUCKETS_PER_ADDRESS && draw % (2 * ka.refs) == 0 {
          LooseMore(cfg, t, {}, k);
          assert {} + {k} == {k};
          PlaceKeeps(cfg, t, na, src, order, Verdict(t.index, clock));
        }
      } else {
        AdmitKeeps(cfg, s, na, src);
        FreshKey(cfg, s, k, NewBucket(cfg, na, src));
        var t := Admit(s, na, src);
        PlaceKeeps(cfg, t, na, src, order, Verdict(t.index, clock));
      }
    }
  }

  lemma FreshKey(cfg: Config, s: State, k: Key, b: nat)
    requires BucketsOk(cfg, s) && k !in s.index && b < NEW_BUCKET_COUNT
    ensures k !in s.buckets[b]
  {
    assert NewBucketOk(cfg, s, b);
  }

  lemma LooseMore(cfg: Config, s: State, loose: set<Key>, k: Key)
    requires LooseInv(cfg, s, loose)
    ensures LooseInv(cfg, s, loose + {k})
  {
    hide TriedOk, TotalsOk, BucketsOk;
    forall x | x in s.index ensures EntryOk(cfg, s, x, x in loose + {k}) { assert EntryOk(cfg, s, x, x in loose); }
  }

  /** What an addition can touch: the address itself becomes known, and others are
      forgotten only out of its own bucket, and only when that is over its size. */
  lemma AddFrame(cfg: Config, s: State, na: NetAddress, src: NetAddress, draw: nat, order: seq<Key>, clock: Key -> int)
    requires Inv(cfg, s) && na.addrType == cfg.typeOf(na.key)
    requires Enumerates(order, s.buckets[NewBucket(cfg, na, src)])
    ensures Shaped(s) && AddOrUpdate(cfg, s, na, src, draw, order, clock).Ok?
    ensures var t := AddOrUpdate(cfg, s, na, src, draw, order, clock).value;
      var b := NewBucket(cfg, na, src);
      && t.tried == s.tried
      && (!na.routable ==> t == s) && (na.routable ==> na.key in t.index)
      && (forall x :: x in t.index ==> x in s.index || x == na.key)
      && forall x :: x in s.index && x != na.key && (x !in s.buckets[b] || |s.buckets[b]| <= NEW_BUCKET_SIZE) ==>
                       x in t.index && t.index[x] == s.index[x]
  {
    hide EntriesOk, TriedBucketOk, TotalsOk, NewBucketOk, Place, NewBucket, Verdict;
    OrderInIndex(cfg, s, NewBucket(cfg, na, src), order);
    if na.routable {
      if na.key in s.index {
        TypeOfEntry(cfg, s, {}, na.key);
        PlaceFrame(cfg, Touch(s, na.key, Refresh(s.index[na.key], na)), na, src, order, clock);
      } else {
        PlaceFrame(cfg, Admit(s, na, src), na, src, order, clock);
      }
    }
  }

  lemma PlaceFrame(cfg: Config, s: State, na: NetAddress, src: NetAddress, order: seq<Key>, clock: Key -> int)
    requires na.key in s.index && Shaped(s) && Enumerates(order, s.buckets[NewBucket(cfg, na, src)])
    requires forall k :: k in order ==> k in s.index
    ensures Place(cfg, s, na, src, order, Verdict(s.index, clock)).Ok?
    ensures var t := Place(cfg, s, na, src, order, Verdict(s.index, clock)).value;
      var b := NewBucket(cfg, na, src);
      && t.tried == s.tried && na.key in t.index && t.index.Keys <= s.index.Keys
      && forall x :: x in s.index && x != na.key && (x !in s.buckets[b] || |s.buckets[b]| <= NEW_BUCKET_SIZE) ==>
                       x in t.index && t.index[x] == s.index[x]
  {
    hide Victims, NewBucket, Verdict, Increment;
    VictimsAre(s.index, order, Verdict(s.index, clock));
    RemoveAllFrame(s, NewBucket(cfg, na, src), Victims(s.index, order, Verdict(s.index, clock)));
  }
}
