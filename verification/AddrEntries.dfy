/** What the operations record about an address, and which addresses a bucket keeps. */
module AddrEntries {
  import opened Options
  import opened AddrState
  import opened AddrSteps
  import opened AddrOps
  import opened AddrRuns
  import opened AddrOverfull

  // ---- expiry ------------------------------------------------------------------------------

  /** Expiry removes exactly the bad addresses and the one chosen among the others. */
  lemma VictimsExact(index: map<Key, KnownAddress>, order: seq<Key>, bad: Key -> bool)
    requires Distinct(order) && forall k :: k in order ==> k in index
    ensures forall k :: k in Victims(index, order, bad) <==> k in order && (bad(k) || Oldest(index, order, bad) == Some(k))
  {
    hide BadOnes, Distinct;
    BadOnesAre(order, bad);
  }

  /** Of several seen equally long ago, the last one visited is chosen. */
  lemma {:induction false} OldestIsLast(index: map<Key, KnownAddress>, order: seq<Key>, bad: Key -> bool, i: nat)
    requires forall k :: k in order ==> k in index
    requires i < |order| && !bad(order[i]) && Oldest(index, order, bad).Some?
    requires index[order[i]].na.timestamp == index[Oldest(index, order, bad).value].na.timestamp
    ensures Oldest(index, order, bad).value in order[i..]
  {
    var n := |order| - 1;
    assert order == order[..n] + [order[n]];
    var r := Oldest(index, order[..n], bad);
    if i < n && Oldest(index, order, bad) == r {
      OldestIsLast(index, order[..n], bad, i);
      assert forall k :: k in order[..n][i..] ==> k in order[i..];
    } else if i == n {
      assert order[i] in order[i..];
    }
  }

  /** Within its time window an address that never succeeded is bad from the third
      attempt on, one that did from the fifth attempt on a week later, and in both
      cases not within a minute of the last attempt. */
  lemma BadByFailures(ka: KnownAddress, now: int)
    requires ka.na.timestamp - 10 * MINUTE <= now <= ka.na.timestamp + 30 * DAY
    ensures ka.lastSuccess == ZERO_TIME ==> (IsBad(ka, now) <==> now >= ka.lastAttempt + MINUTE && ka.attempts >= 3)
    ensures ka.lastSuccess != ZERO_TIME ==>
      (IsBad(ka, now) <==> now >= ka.lastAttempt + MINUTE && ka.attempts >= 5 && now >= ka.lastSuccess + 7 * DAY)
  {
  }

  /** Outside the window an address is bad as soon as a minute has passed. */
  lemma BadByAge(ka: KnownAddress, now: int)
    requires now < ka.na.timestamp - 10 * MINUTE || now > ka.na.timestamp + 30 * DAY
    ensures IsBad(ka, now) <==> now >= ka.lastAttempt + MINUTE
  {
  }

  /** Bad addresses stay bad until something happens to them, but for those from the
      future. */
  lemma StaysBad(ka: KnownAddress, now: int, later: int)
    requires IsBad(ka, now) && now <= later && ka.na.timestamp <= now + 10 * MINUTE
    ensures IsBad(ka, later)
  {
  }

  // ---- additions ------------------------------------------------------------------------------

  lemma PlaceEntry(cfg: Config, s: State, na: NetAddress, src: NetAddress, order: seq<Key>, bad: Key -> bool)
    requires na.key in s.index && Shaped(s) && Enumerates(order, s.buckets[NewBucket(cfg, na, src)])
    requires forall k :: k in order ==> k in s.index
    ensures Place(cfg, s, na, src, order, bad).Ok?
    ensures var t, k := Place(cfg, s, na, src, order, bad).value, na.key;
      k in t.index && t.index[k] == if k in s.buckets[NewBucket(cfg, na, src)] then s.index[k] else s.index[k].(refs := s.index[k].refs + 1)
  {
    hide NewBucket, Victims, Increment;
    VictimsAre(s.index, order, bad);
  }

  /** The entry of the added address.  A known one takes the announced time when that
      is later or a new service comes with it, keeps all services it had, and keeps
      its record; an unknown one starts without a record. */
  lemma AddEntry(cfg: Config, s: State, na: NetAddress, src: NetAddress, draw: nat, order: seq<Key>, clock: Key -> int)
    requires Inv(cfg, s) && na.addrType == cfg.typeOf(na.key) && na.routable
    requires Enumerates(order, s.buckets[NewBucket(cfg, na, src)])
    ensures Shaped(s) && AddOrUpdate(cfg, s, na, src, draw, order, clock).Ok?
    ensures var t, k := AddOrUpdate(cfg, s, na, src, draw, order, clock).value, na.key;
      && k in t.index
      && (k !in s.index ==> t.index[k] == KnownAddress(na, src, 0, ZERO_TIME, ZERO_TIME, false, 1))
      && (k in s.index ==>
            var was, ka := s.index[k], t.index[k];
            && ka.na.timestamp == (if na.timestamp > was.na.timestamp || exists f :: f in na.services && f !in was.na.services
                                   then na.timestamp else was.na.timestamp)
            && ka.na.services == was.na.services + na.services
            && ka.na.key == was.na.key && ka.na.addrType == was.na.addrType && ka.na.routable == was.na.routable
            && ka.src == was.src && ka.attempts == was.attempts && ka.lastAttempt == was.lastAttempt && ka.lastSuccess == was.lastSuccess
            && ka.tried == was.tried
            && ka.refs == was.refs + (if Enters(s, na, draw) && k !in s.buckets[NewBucket(cfg, na, src)] then 1 else 0))
  {
    hide EntriesOk, TriedBucketOk, TotalsOk, NewBucketOk, Place, NewBucket, Verdict;
    OrderInIndex(cfg, s, NewBucket(cfg, na, src), order);
    var k := na.key;
    if k in s.index {
      TypeOfEntry(cfg, s, {}, k);
      var t := Touch(s, k, Refresh(s.index[k], na));
      PlaceEntry(cfg, t, na, src, order, Verdict(t.index, clock));
      RefreshIs(s.index[k], na);
    } else {
      FreshKey(cfg, s, k, NewBucket(cfg, na, src));
      var t := Admit(s, na, src);
      PlaceEntry(cfg, t, na, src, order, Verdict(t.index, clock));
    }
  }

  lemma RefreshIs(ka: KnownAddress, na: NetAddress)
    ensures var r := Refresh(ka, na);
      && r == ka.(na := ka.na.(timestamp := r.na.timestamp, services := ka.na.services + na.services))
      && r.na.timestamp == if na.timestamp > ka.na.timestamp || exists f :: f in na.services && f !in ka.na.services
                           then na.timestamp else ka.na.timestamp
  {
    if na.services <= ka.na.services { assert ka.na.services + na.services == ka.na.services; }
  }

  /** The bucket an address enters keeps, when over its size, exactly the addresses
      that are neither bad nor the oldest. */
  lemma AddContents(cfg: Config, s: State, na: NetAddress, src: NetAddress, draw: nat, order: seq<Key>, clock: Key -> int)
    requires Inv(cfg, s) && na.addrType == cfg.typeOf(na.key) && Enters(s, na, draw)
    requires Enumerates(order, s.buckets[NewBucket(cfg, na, src)]) && na.key !in s.buckets[NewBucket(cfg, na, src)]
    ensures Shaped(s) && AddOrUpdate(cfg, s, na, src, draw, order, clock).Ok? && forall k :: k in order ==> k in s.index
    ensures var b, t := NewBucket(cfg, na, src), AddOrUpdate(cfg, s, na, src, draw, order, clock).value;
      forall k :: k in t.buckets[b] <==>
        || k == na.key
        || (k in s.buckets[b] && (|s.buckets[b]| <= NEW_BUCKET_SIZE ||
              (!IsBad(s.index[k], clock(k)) && Oldest(s.index, order, Verdict(s.index, clock)) != Some(k))))
  {
    hide EntriesOk, TriedBucketOk, TotalsOk, NewBucketOk, NewBucket, IsBad, Oldest, Place, Enumerates;
    var b := NewBucket(cfg, na, src);
    OrderInIndex(cfg, s, b, order);
    Listing(order, s.buckets[b]);
    var t := if na.key in s.index then Touch(s, na.key, Refresh(s.index[na.key], na)) else Admit(s, na, src);
    if na.key in s.index { TypeOfEntry(cfg, s, {}, na.key); }
    PlaceContents(cfg, t, na, src, order, Verdict(t.index, clock));
    OldestAs(s.index, t.index, order, clock);
  }

  lemma PlaceContents(cfg: Config, s: State, na: NetAddress, src: NetAddress, order: seq<Key>, bad: Key -> bool)
    requires na.key in s.index && Shaped(s) && Enumerates(order, s.buckets[NewBucket(cfg, na, src)])
    requires na.key !in s.buckets[NewBucket(cfg, na, src)] && forall k :: k in order ==> k in s.index
    ensures Place(cfg, s, na, src, order, bad).Ok?
    ensures var b, t := NewBucket(cfg, na, src), Place(cfg, s, na, src, order, bad).value;
      forall k :: k in t.buckets[b] <==>
        || k == na.key
        || (k in s.buckets[b] && (|s.buckets[b]| <= NEW_BUCKET_SIZE || (!bad(k) && Oldest(s.index, order, bad) != Some(k))))
  {
    hide NewBucket, Oldest, Increment, Expire;
    ExpireContents(s, NewBucket(cfg, na, src), order, bad);
  }

  lemma ExpireContents(s: State, b: nat, order: seq<Key>, bad: Key -> bool)
    requires b < |s.buckets| == |s.newStats| && Enumerates(order, s.buckets[b]) && forall k :: k in order ==> k in s.index
    ensures b < |Expire(s, b, order, bad).buckets|
    ensures forall k :: k in Expire(s, b, order, bad).buckets[b] <==>
                          k in s.buckets[b] && !bad(k) && Oldest(s.index, order, bad) != Some(k)
  {
    hide Oldest, Victims, RemoveAll;
    VictimsAre(s.index, order, bad);
    VictimsExact(s.index, order, bad);
    RemoveAllFrame(s, b, Victims(s.index, order, bad));
    Listing(order, s.buckets[b]);
  }

  lemma {:induction false} OldestAs(index: map<Key, KnownAddress>, other: map<Key, KnownAddress>, order: seq<Key>, clock: Key -> int)
    requires forall k :: k in order ==> k in index && k in other && index[k] == other[k]
    ensures Oldest(other, order, Verdict(other, clock)) == Oldest(index, order, Verdict(index, clock))
  {
    OldestAsPrefix(index, other, order, clock, |order|);
    assert order[..|order|] == order;
  }

  lemma {:induction false} OldestAsPrefix(index: map<Key, KnownAddress>, other: map<Key, KnownAddress>, order: seq<Key>, clock: Key -> int, n: nat)
    requires n <= |order| && forall k :: k in order ==> k in index && k in other && index[k] == other[k]
    ensures Oldest(other, order[..n], Verdict(other, clock)) == Oldest(index, order[..n], Verdict(index, clock))
  {
    hide IsBad;
    if n > 0 {
      OldestAsPrefix(index, other, order, clock, n - 1);
      assert order[..n][..n - 1] == order[..n - 1] && order[n - 1] in order;
    }
  }
}
