/** New buckets over their nominal size: that there are some, and exactly when an
    addition leaves one. */
module AddrOverfull {
  import opened AddrState
  import opened AddrSteps
  import opened AddrOps
  import opened AddrRuns

  // ---- when a bucket ends up over its size -------------------------------------------------------

  /** The addition gets as far as the bucket. */
  predicate Enters(s: State, na: NetAddress, draw: nat) {
    && na.routable
    && (na.key in s.index ==>
          var ka := s.index[na.key];
          !ka.tried && 0 < ka.refs && ka.refs != NEW_BUCKETS_PER_ADDRESS && draw % (2 * ka.refs) == 0)
  }

  lemma ExactSize(keys: set<Key>, ks: seq<Key>)
    requires Distinct(ks) && forall k :: k in ks ==> k in keys
    ensures |keys - KeySet(ks)| == |keys| - |ks|
  {
    KeySetGrows(ks, |ks|);
    assert ks[..|ks|] == ks;
    assert keys == (keys - KeySet(ks)) + KeySet(ks);
  }

  /** Expiry removes a single address of several exactly when none is bad. */
  lemma SingleVictim(index: map<Key, KnownAddress>, order: seq<Key>, bad: Key -> bool)
    requires Distinct(order) && |order| >= 2 && forall k :: k in order ==> k in index
    ensures |Victims(index, order, bad)| == 1 <==> forall k :: k in order ==> !bad(k)
  {
    hide Oldest, BadOnes, Distinct;
    BadOnesAre(order, bad);
    var ks := BadOnes(order, bad);
    if ks != [] { assert ks[0] in ks; }
    assert order[0] in order;
    if Oldest(index, order, bad).None? {
      BadOnesAll(order, bad);
    }
  }

  lemma {:induction false} BadOnesAll(order: seq<Key>, bad: Key -> bool)
    requires forall k :: k in order ==> bad(k)
    ensures BadOnes(order, bad) == order
  {
    if order != [] {
      var n := |order| - 1;
      assert order == order[..n] + [order[n]];
      assert order[n] in order;
      BadOnesAll(order[..n], bad);
    }
  }

  lemma OrderSize(order: seq<Key>, keys: set<Key>)
    requires Enumerates(order, keys)
    ensures |order| == |keys|
  {
    KeySetGrows(order, |order|);
    assert order[..|order|] == order;
    assert KeySet(order) == keys;
  }

  /** The size a full bucket has after expiry. */
  lemma ExpiredSize(s: State, b: nat, order: seq<Key>, bad: Key -> bool)
    requires b < |s.buckets| == |s.newStats| && Enumerates(order, s.buckets[b]) && |s.buckets[b]| >= 2
    requires forall k :: k in order ==> k in s.index
    ensures Distinct(order)
    ensures var t := Expire(s, b, order, bad);
      && t.buckets == s.buckets[b := t.buckets[b]]
      && |t.buckets[b]| < |s.buckets[b]|
      && (|t.buckets[b]| == |s.buckets[b]| - 1 <==> forall k :: k in s.buckets[b] ==> !bad(k))
  {
    hide Victims, Distinct, KeySet;
    OrderSize(order, s.buckets[b]);
    VictimsAre(s.index, order, bad);
    SingleVictim(s.index, order, bad);
    var ks := Victims(s.index, order, bad);
    RemoveAllFrame(s, b, ks);
    ExactSize(s.buckets[b], ks);
  }

  lemma PlacedSize(cfg: Config, s: State, na: NetAddress, src: NetAddress, order: seq<Key>, bad: Key -> bool)
    requires na.key in s.index && Shaped(s) && Enumerates(order, s.buckets[NewBucket(cfg, na, src)])
    requires forall k :: k in order ==> k in s.index
    ensures Place(cfg, s, na, src, order, bad).Ok?
    ensures var b, t := NewBucket(cfg, na, src), Place(cfg, s, na, src, order, bad).value;
      && t.buckets == s.buckets[b := t.buckets[b]]
      && (na.key in s.buckets[b] ==> t.buckets[b] == s.buckets[b])
      && (na.key !in s.buckets[b] && |s.buckets[b]| <= NEW_BUCKET_SIZE ==> |t.buckets[b]| == |s.buckets[b]| + 1)
      && (na.key !in s.buckets[b] && |s.buckets[b]| > NEW_BUCKET_SIZE ==>
            |t.buckets[b]| <= |s.buckets[b]| && (|t.buckets[b]| == |s.buckets[b]| <==> forall k :: k in s.buckets[b] ==> !bad(k)))
  {
    hide NewBucket, Expire, Increment;
    var b := NewBucket(cfg, na, src);
    assert s.buckets == s.buckets[b := s.buckets[b]];
    if na.key !in s.buckets[b] && |s.buckets[b]| > NEW_BUCKET_SIZE {
      ExpiredSize(s, b, order, bad);
      ExpireSubset(s, b, order, bad);
    }
  }

  lemma ExpireSubset(s: State, b: nat, order: seq<Key>, bad: Key -> bool)
    requires b < |s.buckets| == |s.newStats| && Distinct(order)
    requires forall k :: k in order ==> k in s.index
    ensures Expire(s, b, order, bad).buckets == s.buckets[b := Expire(s, b, order, bad).buckets[b]]
    ensures Expire(s, b, order, bad).buckets[b] <= s.buckets[b]
    ensures forall k :: k in s.index && k !in order ==> k in Expire(s, b, order, bad).index
  {
    hide Victims, Distinct;
    VictimsAre(s.index, order, bad);
    RemoveAllFrame(s, b, Victims(s.index, order, bad));
  }

  /** An addition leaves its bucket over the nominal size exactly when it enters a
      bucket of just that size, or a fuller one in which nothing is bad, or does not
      enter a bucket that was over it before.  No other bucket changes. */
  lemma AddOverfull(cfg: Config, s: State, na: NetAddress, src: NetAddress, draw: nat, order: seq<Key>, clock: Key -> int)
    requires Inv(cfg, s) && na.addrType == cfg.typeOf(na.key)
    requires Enumerates(order, s.buckets[NewBucket(cfg, na, src)])
    ensures Shaped(s) && AddOrUpdate(cfg, s, na, src, draw, order, clock).Ok?
    ensures var b, t := NewBucket(cfg, na, src), AddOrUpdate(cfg, s, na, src, draw, order, clock).value;
      && t.buckets == s.buckets[b := t.buckets[b]]
      && (|t.buckets[b]| > NEW_BUCKET_SIZE <==>
            if Enters(s, na, draw) && na.key !in s.buckets[b]
            then |s.buckets[b]| == NEW_BUCKET_SIZE
              || (|s.buckets[b]| > NEW_BUCKET_SIZE && forall k :: k in s.buckets[b] ==> !IsBad(s.index[k], clock(k)))
            else |s.buckets[b]| > NEW_BUCKET_SIZE)
  {
    hide EntriesOk, TriedBucketOk, TotalsOk, Place, NewBucket, IsBad, StatsOf;
    var b := NewBucket(cfg, na, src);
    assert NewBucketOk(cfg, s, b);
    OrderInIndex(cfg, s, b, order);
    assert s.buckets == s.buckets[b := s.buckets[b]];
    if na.key in s.index { TypeOfEntry(cfg, s, {}, na.key); }
    if Enters(s, na, draw) {
      var t := if na.key in s.index then Touch(s, na.key, Refresh(s.index[na.key], na)) else Admit(s, na, src);
      PlacedSize(cfg, t, na, src, order, Verdict(t.index, clock));
      assert forall k :: k in s.buckets[b] && k != na.key ==> t.index[k] == s.index[k];
    }
  }

  // ---- such a bucket is reached -------------------------------------------------------------------

  /** All addresses of one type and one bucket. */
  const ONE_BUCKET: Config := Config(_ => IPv4, (_, _) => 0, _ => 0, 256)

  function Name(n: nat): (k: Key)
    ensures |k| == n
  {
    seq(n, _ => 'a')
  }

  function Names(n: nat): (ks: seq<Key>)
    ensures |ks| == n && forall i :: 0 <= i < n ==> |ks[i]| == i
  {
    seq(n, i requires 0 <= i < n => Name(i))
  }

  function Address(n: nat): NetAddress {
    NetAddress(Name(n), IPv4, 0, {}, true)
  }

  /** The first n addresses are known and in the bucket. */
  ghost predicate Holds(s: State, n: nat) {
    && Reachable(ONE_BUCKET, s) && Shaped(s) && Enumerates(Names(n), s.buckets[0])
    && forall k :: k in s.index <==> k in Names(n)
  }

  /** Adding one more address to at most 64 of them. */
  lemma AddNext(s: State, n: nat) returns (t: State)
    requires Holds(s, n) && n <= NEW_BUCKET_SIZE
    ensures Holds(t, n + 1)
  {
    hide Reachable, Enumerates, Increment;
    var na := Address(n);
    var op := Add(na, na, 0, Names(n), _ => 0);
    assert NewBucket(ONE_BUCKET, na, na) == 0;
    NextName(n, s.buckets[0]);
    OrderSize(Names(n), s.buckets[0]);
    assert Step(ONE_BUCKET, s, op) == Ok(Link(Admit(s, na, na), 0, na.key));
    ReachableNext(ONE_BUCKET, s, op);
    t := Step(ONE_BUCKET, s, op).value;
  }

  lemma NextName(n: nat, keys: set<Key>)
    requires Enumerates(Names(n), keys)
    ensures Name(n) !in keys && Name(n) !in Names(n) && Enumerates(Names(n + 1), keys + {Name(n)})
    ensures forall k :: k in Names(n + 1) <==> k in Names(n) || k == Name(n)
  {
    assert Names(n + 1) == Names(n) + [Name(n)];
  }

  lemma {:induction false} HoldsAll(n: nat) returns (s: State)
    requires n <= NEW_BUCKET_SIZE + 1
    ensures Holds(s, n)
  {
    hide Reachable;
    if n == 0 {
      ReachableStart(ONE_BUCKET);
      assert Names(0) == [];
      s := Fresh();
    } else {
      s := HoldsAll(n - 1);
      s := AddNext(s, n - 1);
    }
  }

  /** A run of additions puts 65 addresses into one bucket. */
  lemma OverfullReachable()
    ensures exists s :: Reachable(ONE_BUCKET, s) && Shaped(s) && |s.buckets[0]| == NEW_BUCKET_SIZE + 1
  {
    hide Reachable;
    var s := HoldsAll(NEW_BUCKET_SIZE + 1);
    OrderSize(Names(NEW_BUCKET_SIZE + 1), s.buckets[0]);
  }
}
