/** savePeers, deserializePeers and loadPeers on the manager itself. */
module AddrFile {
  import opened Options
  import opened AddrState
  import opened AddrOps
  import opened AddrRuns
  import opened AddrManager
  import opened AddrPersist

  /** The keys of a map in some order, as ranging over it visits them. */
  method Range(keys: set<Key>) returns (order: seq<Key>)
    ensures Enumerates(order, keys) && |order| == |keys|
  {
    order := [];
    var left := keys;
    while left != {}
      invariant left <= keys && Enumerates(order, keys - left) && |order| + |left| == |keys|
      decreases |left|
    {
      var k :| k in left;
      order, left := order + [k], left - {k};
    }
  }

  method SaveAddresses(m: Manager) returns (saved: seq<SavedAddress>)
    ensures forall a :: a in saved ==> a.addr in m.index && a == SavedOf(a.addr, m.index[a.addr])
    ensures forall k :: k in m.index ==> SavedOf(k, m.index[k]) in saved
    ensures |saved| == |m.index|
  {
    hide Enumerates;
    var order := Range(m.index.Keys);
    assert forall k :: k in order <==> k in m.index.Keys by { Listing(order, m.index.Keys); }
    saved := [];
    for i := 0 to |order|
      invariant |saved| == i && forall j :: 0 <= j < i ==> saved[j] == SavedOf(order[j], m.index[order[j]])
    {
      var k := order[i];
      var ka := m.index[k];
      saved := saved + [SavedAddress(k, Unix(ka.na.timestamp), ka.src.key, ka.attempts, Unix(ka.lastAttempt), Unix(ka.lastSuccess))];
    }
    forall k | k in m.index ensures SavedOf(k, m.index[k]) in saved {
      var j :| 0 <= j < |order| && order[j] == k;
      assert saved[j] in saved;
    }
  }

  method SaveNew(m: Manager) returns (lists: seq<seq<Key>>)
    ensures |lists| == |m.buckets| && forall i :: 0 <= i < |m.buckets| ==> Enumerates(lists[i], m.buckets[i])
  {
    lists := [];
    for i := 0 to |m.buckets|
      invariant |lists| == i && forall j :: 0 <= j < i ==> Enumerates(lists[j], m.buckets[j])
    {
      var keys := Range(m.buckets[i]);
      lists := lists + [keys];
    }
  }

  method SaveTried(m: Manager) returns (lists: seq<seq<Key>>)
    requires m.Valid()
    ensures lists == m.tried
  {
    hide EntriesOk, BucketsOk, TotalsOk, StatsOfSeq;
    lists := [];
    for i := 0 to |m.tried|
      invariant |lists| == i && forall j :: 0 <= j < i ==> lists[j] == m.tried[j]
    {
      assert TriedBucketOk(m.cfg, m.View(), i);
      var keys := [];
      for j := 0 to |m.tried[i]|
        invariant keys == m.tried[i][..j]
      {
        var k := m.tried[i][j];
        OwnKey(m, k);
        keys := keys + [m.index[k].na.key];
      }
      lists := lists + [keys];
    }
  }

  lemma OwnKey(m: Manager, k: Key)
    requires m.Valid() && k in m.index
    ensures m.index[k].na.key == k
  {
    hide BucketsOk, TriedOk, TotalsOk, RefCount, SlotCount;
    assert EntryOk(m.cfg, m.View(), k, false);
  }

  /** Saves what has changed.  `written` says whether encoding and writing the file
      succeed; if not, the change stays marked. */
  method SavePeers(m: Manager, written: bool) returns (sv: Option<Saved>)
    requires m.Valid()
    modifies m
    ensures m.View() == old(m.View()).(changed := old(m.changed) && !written)
    ensures sv.Some? <==> old(m.changed)
    ensures sv.Some? ==> IsSaveOf(old(m.View()), sv.value)
  {
    hide EntriesOk, TriedBucketOk, NewBucketOk, TotalsOk, SavedOf, Enumerates;
    if !m.changed { return None; }
    var addresses := SaveAddresses(m);
    var lists := SaveNew(m);
    var tried := SaveTried(m);
    if written { m.changed := false; }
    sv := Some(Saved(VERSION, addresses, lists, tried));
  }

  // ---- loading -----------------------------------------------------------------------------

  lemma {:induction false} AddressesStuck(s: State, parse: Parser, vs: seq<SavedAddress>, n: nat)
    requires n <= |vs| && LoadAddresses(s, parse, vs, n).err.Some?
    ensures LoadAddresses(s, parse, vs, |vs|) == LoadAddresses(s, parse, vs, n)
    decreases |vs| - n
  {
    if n < |vs| { AddressesStuck(s, parse, vs, n + 1); }
  }

  lemma {:induction false} NewBucketStuck(s: State, b: nat, ks: seq<Key>, n: nat)
    requires b < |s.buckets| == |s.newStats| && n <= |ks| && LoadNewBucket(s, b, ks, n).err.Some?
    ensures LoadNewBucket(s, b, ks, |ks|) == LoadNewBucket(s, b, ks, n)
    decreases |ks| - n
  {
    if n < |ks| { NewBucketStuck(s, b, ks, n + 1); }
  }

  lemma {:induction false} NewStuck(s: State, lists: seq<seq<Key>>, n: nat)
    requires n <= |lists| == |s.buckets| == |s.newStats| && LoadNew(s, lists, n).err.Some?
    ensures LoadNew(s, lists, |lists|) == LoadNew(s, lists, n)
    decreases |lists| - n
  {
    if n < |lists| { NewStuck(s, lists, n + 1); }
  }

  lemma {:induction false} TriedBucketStuck(s: State, b: nat, ks: seq<Key>, n: nat)
    requires b < |s.tried| == |s.triedStats| && n <= |ks| && LoadTriedBucket(s, b, ks, n).err.Some?
    ensures LoadTriedBucket(s, b, ks, |ks|) == LoadTriedBucket(s, b, ks, n)
    decreases |ks| - n
  {
    if n < |ks| { TriedBucketStuck(s, b, ks, n + 1); }
  }

  lemma {:induction false} TriedStuck(s: State, lists: seq<seq<Key>>, n: nat)
    requires n <= |lists| == |s.tried| == |s.triedStats| && LoadTried(s, lists, n).err.Some?
    ensures LoadTried(s, lists, |lists|) == LoadTried(s, lists, n)
    decreases |lists| - n
  {
    if n < |lists| { TriedStuck(s, lists, n + 1); }
  }

  method ReadAddresses(m: Manager, parse: Parser, vs: seq<SavedAddress>) returns (err: Option<LoadError>)
    modifies m
    ensures Loading(m.View(), err) == LoadAddresses(old(m.View()), parse, vs, |vs|)
  {
    ghost var s := m.View();
    for i := 0 to |vs|
      invariant Loading(m.View(), None) == LoadAddresses(s, parse, vs, i)
    {
      var v := vs[i];
      var na, src := parse(v.addr), parse(v.src);
      if na.None? || src.None? {
        AddressesStuck(s, parse, vs, i + 1);
        return Some(BadAddress);
      }
      m.index := m.index[na.value.key := Loaded(v, na.value, src.value)];
    }
    return None;
  }

  method ReadNewBucket(m: Manager, b: nat, ks: seq<Key>) returns (err: Option<LoadError>)
    requires b < |m.buckets| == |m.newStats|
    modifies m
    ensures Loading(m.View(), err) == LoadNewBucket(old(m.View()), b, ks, |ks|)
  {
    ghost var s := m.View();
    for i := 0 to |ks|
      invariant |m.buckets| == |m.newStats| == |s.buckets|
      invariant Loading(m.View(), None) == LoadNewBucket(s, b, ks, i)
    {
      var k := ks[i];
      if k !in m.index {
        NewBucketStuck(s, b, ks, i + 1);
        return Some(NewNotListed);
      }
      ReadNewEntry(m, b, k);
    }
    return None;
  }

  method ReadNewEntry(m: Manager, b: nat, k: Key)
    requires b < |m.buckets| == |m.newStats| && k in m.index
    modifies m
    ensures Loading(m.View(), None) == ListNew(old(m.View()), b, k)
  {
    if m.index[k].refs == 0 { m.nNew := m.nNew + 1; }
    m.index := m.index[k := m.index[k].(refs := m.index[k].refs + 1)];
    m.buckets := m.buckets[b := m.buckets[b] + {k}];
    m.newStats := m.newStats[b := Increment(m.newStats[b], m.index[k].na.addrType)];
  }

  method ReadNew(m: Manager, lists: seq<seq<Key>>) returns (err: Option<LoadError>)
    requires |lists| == |m.buckets| == |m.newStats|
    modifies m
    ensures Loading(m.View(), err) == LoadNew(old(m.View()), lists, |lists|)
  {
    hide LoadNewBucket;
    ghost var s := m.View();
    for i := 0 to |lists|
      invariant |m.buckets| == |m.newStats| == |lists|
      invariant Loading(m.View(), None) == LoadNew(s, lists, i)
    {
      err := ReadNewBucket(m, i, lists[i]);
      if err.Some? {
        NewStuck(s, lists, i + 1);
        return;
      }
    }
    return None;
  }

  method ReadTriedBucket(m: Manager, b: nat, ks: seq<Key>) returns (err: Option<LoadError>)
    requires b < |m.tried| == |m.triedStats|
    modifies m
    ensures Loading(m.View(), err) == LoadTriedBucket(old(m.View()), b, ks, |ks|)
  {
    ghost var s := m.View();
    for i := 0 to |ks|
      invariant |m.tried| == |m.triedStats| == |s.tried|
      invariant Loading(m.View(), None) == LoadTriedBucket(s, b, ks, i)
    {
      var k := ks[i];
      if k !in m.index {
        TriedBucketStuck(s, b, ks, i + 1);
        return Some(TriedNotListed);
      }
      m.index := m.index[k := m.index[k].(tried := true)];
      m.nTried := m.nTried + 1;
      m.tried := m.tried[b := m.tried[b] + [k]];
      m.triedStats := m.triedStats[b := Increment(m.triedStats[b], m.index[k].na.addrType)];
    }
    return None;
  }

  method ReadTried(m: Manager, lists: seq<seq<Key>>) returns (err: Option<LoadError>)
    requires |lists| == |m.tried| == |m.triedStats|
    modifies m
    ensures Loading(m.View(), err) == LoadTried(old(m.View()), lists, |lists|)
  {
    hide LoadTriedBucket;
    ghost var s := m.View();
    for i := 0 to |lists|
      invariant |m.tried| == |m.triedStats| == |lists|
      invariant Loading(m.View(), None) == LoadTried(s, lists, i)
    {
      err := ReadTriedBucket(m, i, lists[i]);
      if err.Some? {
        TriedStuck(s, lists, i + 1);
        return;
      }
    }
    return None;
  }

  method CheckConsistent(m: Manager) returns (ok: bool)
    ensures ok <==> forall k :: k in m.index ==> Consistent(m.index[k])
  {
    var order := Range(m.index.Keys);
    for i := 0 to |order|
      invariant forall k :: k in order[..i] ==> k in m.index && Consistent(m.index[k])
    {
      var k := order[i];
      assert k in order;
      if m.index[k].refs == 0 && !m.index[k].tried { return false; }
      if m.index[k].refs > 0 && m.index[k].tried { return false; }
    }
    assert order[..|order|] == order;
    return true;
  }

  method DeserializePeers(m: Manager, parse: Parser, sv: Saved) returns (err: Option<LoadError>)
    requires |m.buckets| == |m.newStats| == |sv.newBuckets| && |m.tried| == |m.triedStats| == |sv.triedBuckets|
    modifies m
    ensures Loading(m.View(), err) == Load(old(m.View()), parse, sv)
  {
    hide LoadAddresses, LoadNew, LoadTried, Consistent;
    if sv.version != VERSION { return Some(UnknownVersion); }
    err := ReadAddresses(m, parse, sv.addresses);
    if err.Some? { return; }
    err := ReadNew(m, sv.newBuckets);
    if err.Some? { return; }
    err := ReadTried(m, sv.triedBuckets);
    if err.Some? { return; }
    var ok := CheckConsistent(m);
    if !ok { return Some(Inconsistent); }
  }

  /** After a failed load the tables are emptied; the two totals are not. */
  method LoadPeers(m: Manager, parse: Parser, sv: Saved) returns (err: Option<LoadError>)
    requires m.View() == Fresh() && |sv.newBuckets| == NEW_BUCKET_COUNT && |sv.triedBuckets| == TRIED_BUCKET_COUNT
    modifies m
    ensures err == Load(Fresh(), parse, sv).err
    ensures m.View() == if err.None? then Load(Fresh(), parse, sv).s else Emptied(Load(Fresh(), parse, sv).s)
  {
    hide Load;
    err := DeserializePeers(m, parse, sv);
    if err.Some? { Reset(m); }
  }

  method Reset(m: Manager)
    modifies m
    ensures m.View() == Emptied(old(m.View()))
  {
    m.index := map[];
    m.buckets, m.newStats := seq(NEW_BUCKET_COUNT, _ => {}), seq(NEW_BUCKET_COUNT, _ => Stats(0, 0, 0));
    m.tried, m.triedStats := seq(TRIED_BUCKET_COUNT, _ => []), seq(TRIED_BUCKET_COUNT, _ => Stats(0, 0, 0));
    m.changed := true;
  }

  lemma {:induction false} FirstKeyAtFront(lists: seq<seq<Key>>, n: nat)
    requires 0 < n <= |lists| && lists[0] != []
    ensures FirstKey(lists, n) == Some(lists[0][0])
  {
    if n > 1 { FirstKeyAtFront(lists, n - 1); }
  }

  /** A file that lists a known address and then an unknown one: the manager ends
      up empty but still counts one new address. */
  lemma TotalsLeftOver(cfg: Config)
    requires SizeOk(cfg)
    ensures exists parse: Parser, sv: Saved ::
      && |sv.newBuckets| == NEW_BUCKET_COUNT && |sv.triedBuckets| == TRIED_BUCKET_COUNT
      && Load(Fresh(), parse, sv).err == Some(NewNotListed) && !Inv(cfg, Emptied(Load(Fresh(), parse, sv).s))
  {
    hide Inv;
    var na := NetAddress("a", IPv4, 0, {}, true);
    var parse: Parser := k => Some(na);
    var a := SavedAddress("a", 0, "a", 0, 0, 0);
    var sv := Saved(VERSION, [a], seq(NEW_BUCKET_COUNT, i => if i == 0 then ["a", "b"] else []), seq(TRIED_BUCKET_COUNT, _ => []));
    var l1 := LoadAddresses(Fresh(), parse, [a], 1);
    assert LoadAddresses(Fresh(), parse, [a], 0) == Loading(Fresh(), None);
    assert l1 == LoadAddress(Fresh(), parse, a) && l1.s.index == map["a" := Loaded(a, na, na)];
    UnknownSecond(l1.s, sv.newBuckets);
    FirstKeyAtFront(sv.newBuckets, NEW_BUCKET_COUNT);
    assert !NothingCounted(parse, sv);
    FailedLoad(cfg, parse, sv);
  }

  lemma UnknownSecond(s: State, lists: seq<seq<Key>>)
    requires 0 < |lists| == |s.buckets| == |s.newStats| && lists[0] == ["a", "b"] && s.index.Keys == {"a"}
    ensures LoadNew(s, lists, |lists|).err == Some(NewNotListed)
  {
    hide Increment;
    var ks := lists[0];
    assert LoadNewBucket(s, 0, ks, 0) == Loading(s, None);
    assert LoadNewBucket(s, 0, ks, 1) == ListNew(s, 0, "a");
    assert LoadNewBucket(s, 0, ks, 2).err == Some(NewNotListed);
    assert LoadNew(s, lists, 0) == Loading(s, None);
    NewStuck(s, lists, 1);
  }
}
