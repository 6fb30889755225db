/** Exactly which files load, and what a loaded manager holds. */
module AddrLoad {
  import opened Options
  import opened AddrState
  import opened AddrRuns
  import opened AddrPersist

  /** The key an entry of the file stands for, if its addresses parse. */
  function EntryKey(parse: Parser, a: SavedAddress): Option<Key> {
    if parse(a.addr).Some? && parse(a.src).Some? then Some(parse(a.addr).value.key) else None
  }

  ghost predicate Names(parse: Parser, vs: seq<SavedAddress>, k: Key) {
    exists a :: a in vs && EntryKey(parse, a) == Some(k)
  }

  ghost predicate ListedIn(lists: seq<seq<Key>>, k: Key) {
    exists i :: 0 <= i < |lists| && k in lists[i]
  }

  /** A file in order: the known version, entries that parse, buckets that list keys of
      entries only, and every entry's key listed among the new or the tried buckets
      but not both. */
  ghost predicate Acceptable(parse: Parser, sv: Saved) {
    && sv.version == VERSION
    && (forall a :: a in sv.addresses ==> EntryKey(parse, a).Some?)
    && (forall k :: ListedIn(sv.newBuckets, k) || ListedIn(sv.triedBuckets, k) ==> Names(parse, sv.addresses, k))
    && (forall k :: Names(parse, sv.addresses, k) ==> (ListedIn(sv.newBuckets, k) <==> !ListedIn(sv.triedBuckets, k)))
  }

  ghost predicate Blank(s: State) {
    forall k :: k in s.index ==> s.index[k].refs == 0 && !s.index[k].tried
  }

  lemma {:induction false} AddressesIff(s: State, parse: Parser, vs: seq<SavedAddress>, n: nat)
    requires n <= |vs| && s.index == map[]
    ensures var l := LoadAddresses(s, parse, vs, n);
      && (l.err.None? <==> forall a :: a in vs[..n] ==> EntryKey(parse, a).Some?)
      && (l.err.None? ==> Blank(l.s) && forall k :: k in l.s.index <==> Names(parse, vs[..n], k))
  {
    if n > 0 {
      AddressesIff(s, parse, vs, n - 1);
      var a := vs[n - 1];
      assert vs[..n] == vs[..n - 1] + [a];
      assert a in vs[..n];
      NamesSnoc(parse, vs[..n - 1], a);
    }
  }

  lemma NamesSnoc(parse: Parser, vs: seq<SavedAddress>, a: SavedAddress)
    ensures forall k :: Names(parse, vs + [a], k) <==> Names(parse, vs, k) || EntryKey(parse, a) == Some(k)
  {
    forall k ensures Names(parse, vs + [a], k) <==> Names(parse, vs, k) || EntryKey(parse, a) == Some(k) {
      if x :| x in vs && EntryKey(parse, x) == Some(k) { assert x in vs + [a]; }
      if EntryKey(parse, a) == Some(k) { assert a in vs + [a]; }
    }
  }

  /** The entries after some keys were listed in new buckets. */
  ghost predicate Counted(s: State, t: State, count: Key -> nat) {
    t.index.Keys == s.index.Keys && forall x :: x in s.index ==> t.index[x] == s.index[x].(refs := s.index[x].refs + count(x))
  }

  lemma CountedMore(s: State, t: State, u: State, f: Key -> nat, g: Key -> nat, h: Key -> nat)
    requires Counted(s, t, f) && Counted(t, u, g) && forall x :: h(x) == f(x) + g(x)
    ensures Counted(s, u, h)
  {
  }

  lemma ListNewCounts(s: State, b: nat, k: Key)
    requires b < |s.buckets| == |s.newStats|
    ensures ListNew(s, b, k).err.None? <==> k in s.index
    ensures k in s.index ==> Counted(s, ListNew(s, b, k).s, x => if x == k then 1 else 0)
  {
    hide Increment;
  }

  lemma CountSnoc(ks: seq<Key>, n: nat)
    requires n < |ks|
    ensures forall x :: multiset(ks[..n + 1])[x] == multiset(ks[..n])[x] + (if x == ks[n] then 1 else 0)
    ensures forall x :: x in ks[..n + 1] <==> x in ks[..n] || x == ks[n]
  {
    assert ks[..n + 1] == ks[..n] + [ks[n]];
  }

  lemma {:induction false} NewBucketIff(s: State, b: nat, ks: seq<Key>, n: nat)
    requires b < |s.buckets| == |s.newStats| && n <= |ks|
    ensures var l := LoadNewBucket(s, b, ks, n);
      && (l.err.None? <==> forall k :: k in ks[..n] ==> k in s.index)
      && (l.err.None? ==> Counted(s, l.s, x => multiset(ks[..n])[x]))
  {
    hide ListNew;
    if n > 0 {
      NewBucketIff(s, b, ks, n - 1);
      CountSnoc(ks, n - 1);
      var l := LoadNewBucket(s, b, ks, n - 1);
      ListNewCounts(l.s, b, ks[n - 1]);
      if l.err.None? && ks[n - 1] in s.index {
        CountedMore(s, l.s, LoadNewBucket(s, b, ks, n).s,
                    x => multiset(ks[..n - 1])[x], x => if x == ks[n - 1] then 1 else 0, x => multiset(ks[..n])[x]);
      }
    }
  }

  lemma {:induction false} NewIff(s: State, lists: seq<seq<Key>>, n: nat)
    requires n <= |lists| == |s.buckets| == |s.newStats|
    ensures var l := LoadNew(s, lists, n);
      && (l.err.None? <==> forall i, k :: 0 <= i < n && k in lists[i] ==> k in s.index)
      && (l.err.None? ==> Counted(s, l.s, x => SlotCount(lists, x, n)))
  {
    hide LoadNewBucket;
    if n > 0 {
      NewIff(s, lists, n - 1);
      var ks, l := lists[n - 1], LoadNew(s, lists, n - 1);
      NewBucketIff(l.s, n - 1, ks, |ks|);
      assert ks[..|ks|] == ks;
      if LoadNew(s, lists, n).err.None? {
        CountedMore(s, l.s, LoadNew(s, lists, n).s, x => SlotCount(lists, x, n - 1), x => multiset(ks[..|ks|])[x], x => SlotCount(lists, x, n));
      }
    }
  }

  ghost predicate Flagged(s: State, t: State, listed: Key -> bool) {
    t.index.Keys == s.index.Keys && forall x :: x in s.index ==> t.index[x] == s.index[x].(tried := s.index[x].tried || listed(x))
  }

  lemma FlaggedMore(s: State, t: State, u: State, f: Key -> bool, g: Key -> bool, h: Key -> bool)
    requires Flagged(s, t, f) && Flagged(t, u, g) && forall x :: h(x) <==> f(x) || g(x)
    ensures Flagged(s, u, h)
  {
  }

  lemma ListTriedFlags(s: State, b: nat, k: Key)
    requires b < |s.tried| == |s.triedStats|
    ensures ListTried(s, b, k).err.None? <==> k in s.index
    ensures k in s.index ==> Flagged(s, ListTried(s, b, k).s, x => x == k)
  {
    hide Increment;
  }

  lemma {:induction false} TriedBucketIff(s: State, b: nat, ks: seq<Key>, n: nat)
    requires b < |s.tried| == |s.triedStats| && n <= |ks|
    ensures var l := LoadTriedBucket(s, b, ks, n);
      && (l.err.None? <==> forall k :: k in ks[..n] ==> k in s.index)
      && (l.err.None? ==> Flagged(s, l.s, x => x in ks[..n]))
  {
    hide ListTried;
    if n > 0 {
      TriedBucketIff(s, b, ks, n - 1);
      CountSnoc(ks, n - 1);
      var l := LoadTriedBucket(s, b, ks, n - 1);
      ListTriedFlags(l.s, b, ks[n - 1]);
      if l.err.None? && ks[n - 1] in s.index {
        FlaggedMore(s, l.s, LoadTriedBucket(s, b, ks, n).s, x => x in ks[..n - 1], x => x == ks[n - 1], x => x in ks[..n]);
      }
    }
  }

  lemma {:induction false} TriedIff(s: State, lists: seq<seq<Key>>, n: nat)
    requires n <= |lists| == |s.tried| == |s.triedStats|
    ensures var l := LoadTried(s, lists, n);
      && (l.err.None? <==> forall i, k :: 0 <= i < n && k in lists[i] ==> k in s.index)
      && (l.err.None? ==> Flagged(s, l.s, x => SlotCount(lists, x, n) > 0))
  {
    hide LoadTriedBucket;
    if n > 0 {
      TriedIff(s, lists, n - 1);
      var ks, l := lists[n - 1], LoadTried(s, lists, n - 1);
      TriedBucketIff(l.s, n - 1, ks, |ks|);
      assert ks[..|ks|] == ks;
      if LoadTried(s, lists, n).err.None? {
        SlotSnoc(lists, n);
        FlaggedMore(s, l.s, LoadTried(s, lists, n).s, x => SlotCount(lists, x, n - 1) > 0, x => x in ks[..|ks|], x => SlotCount(lists, x, n) > 0);
      }
    }
  }

  lemma SlotSnoc(lists: seq<seq<Key>>, n: nat)
    requires 0 < n <= |lists|
    ensures forall x :: SlotCount(lists, x, n) > 0 <==> SlotCount(lists, x, n - 1) > 0 || x in lists[n - 1]
  {
    forall x ensures SlotCount(lists, x, n) > 0 <==> SlotCount(lists, x, n - 1) > 0 || x in lists[n - 1] {
      assert x in multiset(lists[n - 1]) <==> x in lists[n - 1];
    }
  }

  lemma CountListed(lists: seq<seq<Key>>, k: Key)
    ensures Slots(lists, k) > 0 <==> ListedIn(lists, k)
  {
    hide SlotCount;
    SlotCountWitness(lists, k, |lists|);
  }

  /** A file loads into a new manager if and only if it is in order. */
  lemma LoadSucceedsIff(parse: Parser, sv: Saved)
    requires |sv.newBuckets| == NEW_BUCKET_COUNT && |sv.triedBuckets| == TRIED_BUCKET_COUNT
    ensures Load(Fresh(), parse, sv).err.None? <==> Acceptable(parse, sv)
    ensures Load(Fresh(), parse, sv).err.None? ==> forall k :: k in Load(Fresh(), parse, sv).s.index ==>
      var ka := Load(Fresh(), parse, sv).s.index[k];
      && ka.refs == Slots(sv.newBuckets, k) && (ka.tried <==> Slots(sv.triedBuckets, k) > 0) && (ka.refs > 0 <==> !ka.tried)
  {
    hide LoadAddresses, LoadNew, LoadTried, SlotCount, EntryKey;
    var l1 := LoadAddresses(Fresh(), parse, sv.addresses, |sv.addresses|);
    AddressesIff(Fresh(), parse, sv.addresses, |sv.addresses|);
    assert sv.addresses[..|sv.addresses|] == sv.addresses;
    if sv.version == VERSION && l1.err.None? {
      NewIff(l1.s, sv.newBuckets, NEW_BUCKET_COUNT);
      var l2 := LoadNew(l1.s, sv.newBuckets, NEW_BUCKET_COUNT);
      if l2.err.None? {
        TriedIff(l2.s, sv.triedBuckets, TRIED_BUCKET_COUNT);
        forall k ensures (Slots(sv.newBuckets, k) > 0 <==> ListedIn(sv.newBuckets, k)) && (Slots(sv.triedBuckets, k) > 0 <==> ListedIn(sv.triedBuckets, k)) {
          CountListed(sv.newBuckets, k);
          CountListed(sv.triedBuckets, k);
        }
      }
    }
  }

  /** Saved times are cut to the second. */
  lemma SavedTimes(k: Key, ka: KnownAddress)
    ensures var a := SavedOf(k, ka);
      && a.timestamp * SECOND <= ka.na.timestamp < a.timestamp * SECOND + SECOND
      && a.lastAttempt * SECOND <= ka.lastAttempt < a.lastAttempt * SECOND + SECOND
      && a.lastSuccess * SECOND <= ka.lastSuccess < a.lastSuccess * SECOND + SECOND
      && a.addr == k && a.src == ka.src.key && a.attempts == ka.attempts
  {
  }
}
