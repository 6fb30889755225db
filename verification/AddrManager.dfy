/** The address manager as the program keeps it: fields updated in place. */
module AddrManager {
  import opened Options
  import opened AddrState
  import AddrSteps
  import opened AddrOps
  import AddrGood
  import opened AddrRuns

  class Manager {
    const cfg: Config
    var index: map<Key, KnownAddress>
    var buckets: seq<set<Key>>
    var newStats: seq<Stats>
    var tried: seq<seq<Key>>
    var triedStats: seq<Stats>
    var nNew: int
    var nTried: int
    var changed: bool

    ghost function View(): State
      reads this
    {
      State(index, buckets, newStats, tried, triedStats, nNew, nTried, changed)
    }

    ghost predicate Valid()
      reads this
    {
      Inv(cfg, View())
    }

    constructor (config: Config)
      requires SizeOk(config)
      ensures cfg == config && Valid() && View() == Fresh()
    {
      cfg := config;
      index, buckets, newStats := map[], seq(NEW_BUCKET_COUNT, _ => {}), seq(NEW_BUCKET_COUNT, _ => Stats(0, 0, 0));
      tried, triedStats := seq(TRIED_BUCKET_COUNT, _ => []), seq(TRIED_BUCKET_COUNT, _ => Stats(0, 0, 0));
      nNew, nTried, changed := 0, 0, true;
      new;
      FreshOk(cfg);
    }

    method Link(b: nat, k: Key)
      requires k in index && b < |buckets| == |newStats|
      modifies this
      ensures View() == AddrSteps.Link(old(View()), b, k)
    {
      index := index[k := index[k].(refs := index[k].refs + 1)];
      buckets := buckets[b := buckets[b] + {k}];
      newStats := newStats[b := Increment(newStats[b], index[k].na.addrType)];
      changed := true;
    }

    method Unlink(b: nat, k: Key)
      requires k in index && b < |buckets| == |newStats|
      modifies this
      ensures View() == AddrSteps.Unlink(old(View()), b, k)
    {
      buckets := buckets[b := buckets[b] - {k}];
      newStats := newStats[b := Decrement(newStats[b], index[k].na.addrType)];
      changed := true;
      index := index[k := index[k].(refs := index[k].refs - 1)];
    }

    /** Drops an address from a bucket, and altogether with its last reference. */
    method Remove(b: nat, k: Key)
      requires k in index && b < |buckets| == |newStats|
      modifies this
      ensures View() == AddrOps.Remove(old(View()), b, k)
    {
      Unlink(b, k);
      if index[k].refs == 0 {
        nNew := nNew - 1;
        index := index - {k};
      }
    }

    method ExpireNew(b: nat, order: seq<Key>, clock: Key -> int)
      requires b < |buckets| == |newStats| && Enumerates(order, buckets[b]) && forall k :: k in order ==> k in index
      modifies this
      ensures View() == Expire(old(View()), b, order, Verdict(old(index), clock))
    {
      hide AddrOps.Remove, Scanned, Expire, Oldest;
      ghost var s, bad := View(), Verdict(index, clock);
      var oldest: Option<Key> := None;
      for i := 0 to |order|
        invariant View() == Scanned(s, b, order, bad, i)
        invariant oldest == Oldest(s.index, order[..i], bad)
      {
        var k := order[i];
        ScanStep(s, b, order, bad, i);
        OldestStep(s.index, order, bad, i);
        if IsBad(index[k], clock(k)) {
          Remove(b, k);
        } else if oldest.None? {
          oldest := Some(k);
        } else if index[k].na.timestamp <= index[oldest.value].na.timestamp {
          oldest := Some(k);
        }
      }
      assert order[..|order|] == order;
      ScanEnd(s, b, order, bad);
      if oldest.Some? { Remove(b, oldest.value); }
    }

    /** Makes room in the bucket of an address and puts the address into it. */
    method PutInBucket(na: NetAddress, src: NetAddress, order: seq<Key>, clock: Key -> int)
      requires na.key in index && Shaped(View())
      requires Enumerates(order, buckets[NewBucket(cfg, na, src)]) && forall k :: k in order ==> k in index
      modifies this
      ensures Place(cfg, old(View()), na, src, order, Verdict(old(index), clock)) == Ok(View())
    {
      hide Victims, Verdict, NewBucket;
      var b := NewBucket(cfg, na, src);
      if na.key in buckets[b] { return; }
      if |buckets[b]| > NEW_BUCKET_SIZE {
        VictimsAre(index, order, Verdict(index, clock));
        ExpireNew(b, order, clock);
      }
      Link(b, na.key);
    }

    method AddOrUpdateAddress(na: NetAddress, src: NetAddress, draw: nat, order: seq<Key>, clock: Key -> int)
      requires Valid() && Provided(cfg, View(), Add(na, src, draw, order, clock))
      modifies this
      ensures Valid() && AddOrUpdate(cfg, old(View()), na, src, draw, order, clock) == Ok(View())
    {
      hide EntriesOk, TriedBucketOk, TotalsOk, NewBucketOk, Verdict, Place, NewBucket;
      AddKeeps(cfg, View(), na, src, draw, order, clock);
      OrderInIndex(cfg, View(), NewBucket(cfg, na, src), order);
      if !na.routable { return; }
      if na.key in index {
        var ka := index[na.key];
        AddrSteps.TypeOfEntry(cfg, View(), {}, na.key);
        if na.timestamp > ka.na.timestamp || !(na.services <= ka.na.services) {
          ka := ka.(na := ka.na.(timestamp := na.timestamp, services := ka.na.services + na.services));
        }
        index := index[na.key := ka];
        if ka.tried { return; }
        if ka.refs == NEW_BUCKETS_PER_ADDRESS { return; }
        if draw % (2 * ka.refs) != 0 { return; }
      } else {
        index := index[na.key := KnownAddress(na, src, 0, ZERO_TIME, ZERO_TIME, false, 0)];
        nNew := nNew + 1;
        changed := true;
      }
      PutInBucket(na, src, order, clock);
    }

    method OldestTried(b: nat) returns (idx: nat)
      requires b < |tried| && forall k :: k in tried[b] ==> k in index
      ensures idx == if tried[b] == [] then 0 else AddrGood.OldestIndex(index, tried[b], |tried[b]|)
    {
      idx := 0;
      if tried[b] == [] { return; }
      for i := 1 to |tried[b]|
        invariant idx == AddrGood.OldestIndex(index, tried[b], i)
      {
        if index[tried[b][idx]].na.timestamp > index[tried[b][i]].na.timestamp { idx := i; }
      }
    }

    /** Takes an address out of every new bucket and says which was the first. */
    method UnlinkEverywhere(k: Key) returns (first: Option<nat>)
      requires k in index && |buckets| == |newStats| == NEW_BUCKET_COUNT
      modifies this
      ensures View() == AddrGood.UnlinkFirst(old(View()), k, NEW_BUCKET_COUNT)
      ensures first == AddrGood.FirstBucket(old(buckets), k, NEW_BUCKET_COUNT)
    {
      hide AddrSteps.Unlink;
      first := None;
      ghost var s := View();
      for i := 0 to NEW_BUCKET_COUNT
        invariant View() == AddrGood.UnlinkFirst(s, k, i)
        invariant first == AddrGood.FirstBucket(s.buckets, k, i)
      {
        if k in buckets[i] {
          Unlink(i, k);
          if first.None? { first := Some(i); }
        }
      }
    }

    method Good(k: Key, now: int) returns (outcome: AddrGood.Outcome)
      requires Valid()
      modifies this
      ensures Valid() && AddrGood.Good(cfg, old(View()), k, now) == Ok((View(), outcome))
    {
      hide EntriesOk, TriedBucketOk, TotalsOk, NewBucketOk, AddrGood.UnlinkFirst, AddrGood.FirstBucket, AddrGood.Settle;
      ghost var s := View();
      if k !in index { return AddrGood.AddressNotFound; }
      index := index[k := index[k].(lastSuccess := now, lastAttempt := now, attempts := 0)];
      if index[k].tried {
        AddrGood.GoodKeeps(cfg, s, k, now);
        return AddrGood.Done;
      }
      AddrGood.Released(cfg, s, k, now);
      var first := UnlinkEverywhere(k);
      if first.None? {
        nNew := nNew - 1;
        AddrGood.GoodKeeps(cfg, s, k, now);
        return AddrGood.NotMarkedNew;
      }
      Settle(k, first.value);
      AddrGood.GoodKeeps(cfg, s, k, now);
      return AddrGood.Done;
    }

    /** Gives an address in no bucket a tried slot, evicting the oldest when full. */
    method Settle(k: Key, first: nat)
      requires LooseInv(cfg, View(), {k}) && k in index && first < NEW_BUCKET_COUNT
      requires !index[k].tried && index[k].refs == 0
      modifies this
      ensures AddrGood.Settle(cfg, old(View()), k, first) == Ok(View())
    {
      hide EntriesOk, TotalsOk, NewBucketOk, AddrGood.OldestIndex, StatsOfSeq, AddrSteps.Replace, AddrSteps.Link;
      var b := TriedBucket(cfg, index[k].na);
      assert TriedBucketOk(cfg, View(), b);
      if |tried[b]| < cfg.triedSize {
        index := index[k := index[k].(tried := true)];
        tried := tried[b := tried[b] + [k]];
        triedStats := triedStats[b := Increment(triedStats[b], index[k].na.addrType)];
        changed := true;
        nNew, nTried := nNew - 1, nTried + 1;
        return;
      }
      var i := OldestTried(b);
      var rm := tried[b][i];
      AddrSteps.ReplaceKeeps(cfg, View(), b, i, k);
      var nb := NewBucket(cfg, index[rm].na, index[rm].src);
      if |buckets[nb]| >= NEW_BUCKET_SIZE { nb := first; }
      Replace(b, i, k);
      Link(nb, rm);
    }

    /** Swaps an address into a tried slot; the totals stay. */
    method Replace(b: nat, i: nat, k: Key)
      requires k in index && b < |tried| == |triedStats| && i < |tried[b]| && tried[b][i] in index
      requires tried[b][i] != k
      modifies this
      ensures View() == AddrSteps.Replace(old(View()), b, i, k)
      ensures buckets == old(buckets) && newStats == old(newStats) && index.Keys == old(index.Keys)
    {
      var rm := tried[b][i];
      index := index[k := index[k].(tried := true)];
      tried := tried[b := tried[b][i := k]];
      triedStats := triedStats[b := Decrement(triedStats[b], index[rm].na.addrType)];
      triedStats := triedStats[b := Increment(triedStats[b], index[k].na.addrType)];
      index := index[rm := index[rm].(tried := false)];
    }

    method Attempt(k: Key, now: int) returns (known: bool)
      requires Valid()
      modifies this
      ensures Valid() && Step(cfg, old(View()), AddrRuns.Attempt(k, now)) == Ok(View()) && known == (k in old(index))
    {
      StepKeeps(cfg, View(), AddrRuns.Attempt(k, now));
      if k !in index { return false; }
      index := index[k := index[k].(attempts := index[k].attempts + 1, lastAttempt := now)];
      return true;
    }

    method Connected(k: Key, now: int) returns (known: bool)
      requires Valid()
      modifies this
      ensures Valid() && Step(cfg, old(View()), AddrRuns.Connected(k, now)) == Ok(View()) && known == (k in old(index))
    {
      ghost var s := View();
      StepKeeps(cfg, s, AddrRuns.Connected(k, now));
      if k !in index { return false; }
      var ka := index[k];
      if now > ka.na.timestamp + 20 * MINUTE { index := index[k := ka.(na := ka.na.(timestamp := now))]; }
      else { assert s.index[k := ka] == s.index; }
      return true;
    }

    method SetServices(k: Key, services: set<nat>) returns (known: bool)
      requires Valid()
      modifies this
      ensures Valid() && Step(cfg, old(View()), AddrRuns.SetServices(k, services)) == Ok(View()) && known == (k in old(index))
    {
      ghost var s := View();
      StepKeeps(cfg, s, AddrRuns.SetServices(k, services));
      if k !in index { return false; }
      var ka := index[k];
      if ka.na.services != services { index := index[k := ka.(na := ka.na.(services := services))]; }
      else { assert s.index[k := ka] == s.index; }
      return true;
    }
  }
}
