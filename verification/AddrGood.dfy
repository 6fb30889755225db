/** Good: moving an address from the new buckets to a tried bucket. */
module AddrGood {
  import opened Options
  import opened AddrState
  import opened AddrSteps
  import opened AddrOps

  datatype Outcome = Done | AddressNotFound | NotMarkedNew

  /** Takes an address out of the first n new buckets. */
  function UnlinkFirst(s: State, k: Key, n: nat): (t: State)
    requires k in s.index && n <= |s.buckets| == |s.newStats|
    ensures k in t.index && t.index.Keys == s.index.Keys && |t.buckets| == |t.newStats| == |s.buckets|
    ensures forall x :: x in s.index && x != k ==> t.index[x] == s.index[x]
    ensures t.index[k] == s.index[k].(refs := t.index[k].refs)
    ensures t.tried == s.tried && t.triedStats == s.triedStats && t.nNew == s.nNew && t.nTried == s.nTried
    ensures forall i :: 0 <= i < |s.buckets| ==> t.buckets[i] == if i < n then s.buckets[i] - {k} else s.buckets[i]
  {
    if n == 0 then s
    else
      var t := UnlinkFirst(s, k, n - 1);
      if k in t.buckets[n - 1] then Unlink(t, n - 1, k) else t
  }

  /** The first of n new buckets that holds a key. */
  function FirstBucket(buckets: seq<set<Key>>, k: Key, n: nat): (r: Option<nat>)
    requires n <= |buckets|
    ensures r.Some? ==> r.value < n && k in buckets[r.value] && forall i :: 0 <= i < r.value ==> k !in buckets[i]
    ensures r.None? <==> forall i :: 0 <= i < n ==> k !in buckets[i]
  {
    if n == 0 then None
    else
      var r := FirstBucket(buckets, k, n - 1);
      if r.None? && k in buckets[n - 1] then Some(n - 1) else r
  }

  /** The first of the tried addresses seen longest ago. */
  function OldestIndex(index: map<Key, KnownAddress>, ks: seq<Key>, n: nat): (r: nat)
    requires 0 < n <= |ks| && forall k :: k in ks ==> k in index
    ensures r < n
    ensures forall i :: 0 <= i < r ==> index[ks[r]].na.timestamp < index[ks[i]].na.timestamp
    ensures forall i :: r < i < n ==> index[ks[r]].na.timestamp <= index[ks[i]].na.timestamp
  {
    if n == 1 then 0
    else
      var r := OldestIndex(index, ks, n - 1);
      if index[ks[r]].na.timestamp > index[ks[n - 1]].na.timestamp then n - 1 else r
  }

  /** The bucket an evicted address goes to: its own, or when that is full the
      one its successor just left. */
  function EvictionBucket(cfg: Config, s: State, rm: Key, first: nat): nat
    requires rm in s.index && |s.buckets| == NEW_BUCKET_COUNT
  {
    var b := NewBucket(cfg, s.index[rm].na, s.index[rm].src);
    if |s.buckets[b]| >= NEW_BUCKET_SIZE then first else b
  }

  function Settle(cfg: Config, s: State, k: Key, first: nat): Stepped<State>
    requires Shaped(s) && k in s.index && first < NEW_BUCKET_COUNT
  {
    var b := TriedBucket(cfg, s.index[k].na);
    if |s.tried[b]| < cfg.triedSize then Ok(Promote(s, b, k))
    else if s.tried[b] != [] && forall x :: x in s.tried[b] ==> x in s.index then
      var i := OldestIndex(s.index, s.tried[b], |s.tried[b]|);
      var rm := s.tried[b][i];
      Ok(Link(Replace(s, b, i, k), EvictionBucket(cfg, s, rm, first), rm))
    else Panic
  }

  function Good(cfg: Config, s: State, k: Key, now: int): (r: Stepped<(State, Outcome)>)
    requires Shaped(s)
  {
    if k !in s.index then Ok((s, AddressNotFound))
    else
      var ka := s.index[k];
      var t := Touch(s, k, ka.(lastSuccess := now, lastAttempt := now, attempts := 0));
      if ka.tried then Ok((t, Done))
      else
        var u := UnlinkFirst(t, k, NEW_BUCKET_COUNT);
        var first := FirstBucket(t.buckets, k, NEW_BUCKET_COUNT);
        if first.None? then Ok((u.(nNew := u.nNew - 1), NotMarkedNew))
        else match Settle(cfg, u, k, first.value)
          case Ok(v) => Ok((v, Done))
          case Panic => Panic
  }

  lemma {:induction false} UnlinkFirstKeeps(cfg: Config, s: State, k: Key, n: nat)
    requires Inv(cfg, s) && k in s.index && n <= NEW_BUCKET_COUNT
    ensures |s.buckets| == |s.newStats| == NEW_BUCKET_COUNT
    ensures LooseInv(cfg, UnlinkFirst(s, k, n), {k})
  {
    hide EntriesOk, TriedOk, TotalsOk, NewBucketOk, RefCount;
    if n == 0 {
      LooseMore(cfg, s, {}, k);
      assert {} + {k} == {k};
    } else {
      UnlinkFirstKeeps(cfg, s, k, n - 1);
      var t := UnlinkFirst(s, k, n - 1);
      if k in t.buckets[n - 1] {
        UnlinkKeeps(cfg, t, {k}, n - 1, k);
        assert {k} + {k} == {k};
      }
    }
  }

  /** Once out of every bucket, the address has no references left. */
  lemma Released(cfg: Config, s: State, k: Key, now: int)
    requires Inv(cfg, s) && k in s.index && !s.index[k].tried
    ensures var t := Touch(s, k, s.index[k].(lastSuccess := now, lastAttempt := now, attempts := 0));
      && |t.buckets| == |t.newStats| == NEW_BUCKET_COUNT
      && var u := UnlinkFirst(t, k, NEW_BUCKET_COUNT);
      LooseInv(cfg, u, {k}) && u.index[k].refs == 0 && !u.index[k].tried
  {
    hide TriedOk, TotalsOk, NewBucketOk, RefCount, SlotCount, UnlinkFirst;
    var t := Touch(s, k, s.index[k].(lastSuccess := now, lastAttempt := now, attempts := 0));
    TouchKeeps(cfg, s, {}, k, t.index[k]);
    UnlinkFirstKeeps(cfg, t, k, NEW_BUCKET_COUNT);
    var u := UnlinkFirst(t, k, NEW_BUCKET_COUNT);
    assert EntryOk(cfg, u, k, true);
    RefCountWitness(u.buckets, k, NEW_BUCKET_COUNT);
  }

  /** A new address is in some bucket, so the second error is never returned. */
  lemma NewIsSomewhere(cfg: Config, s: State, k: Key)
    requires Inv(cfg, s) && k in s.index && !s.index[k].tried
    ensures FirstBucket(s.buckets, k, NEW_BUCKET_COUNT).Some?
  {
    hide RefCount, SlotCount, FirstBucket;
    assert EntryOk(cfg, s, k, false);
    RefCountWitness(s.buckets, k, NEW_BUCKET_COUNT);
  }

  /** Good keeps the invariant, fails exactly on unknown addresses and does not
      panic. */
  lemma GoodKeeps(cfg: Config, s: State, k: Key, now: int)
    requires Inv(cfg, s)
    ensures Shaped(s) && Good(cfg, s, k, now).Ok?
    ensures var (t, outcome) := Good(cfg, s, k, now).value;
      && Inv(cfg, t) && outcome == (if k in s.index then Done else AddressNotFound)
      && (k in s.index ==> k in t.index && t.index[k].tried)
  {
    hide EntriesOk, TriedBucketOk, TotalsOk, NewBucketOk, RefCount, UnlinkFirst, FirstBucket, Settle;
    if k in s.index {
      var ka := s.index[k];
      var t := Touch(s, k, ka.(lastSuccess := now, lastAttempt := now, attempts := 0));
      TouchKeeps(cfg, s, {}, k, t.index[k]);
      if !ka.tried {
        NewIsSomewhere(cfg, t, k);
        Released(cfg, s, k, now);
        var u := UnlinkFirst(t, k, NEW_BUCKET_COUNT);
        var first := FirstBucket(t.buckets, k, NEW_BUCKET_COUNT);
        RoomAtFirst(cfg, t, k, first.value);
        SettleKeeps(cfg, u, k, first.value);
      }
    }
  }

  lemma RoomAtFirst(cfg: Config, s: State, k: Key, first: nat)
    requires BucketsOk(cfg, s) && first < NEW_BUCKET_COUNT && k in s.buckets[first]
    ensures |s.buckets[first] - {k}| <= NEW_BUCKET_SIZE
  {
    hide StatsOf;
    assert NewBucketOk(cfg, s, first);
  }

  lemma SettleKeeps(cfg: Config, s: State, k: Key, first: nat)
    requires LooseInv(cfg, s, {k}) && k in s.index && first < NEW_BUCKET_COUNT
    requires !s.index[k].tried && s.index[k].refs == 0 && |s.buckets[first]| <= NEW_BUCKET_SIZE
    ensures Shaped(s) && Settle(cfg, s, k, first).Ok?
    ensures var t := Settle(cfg, s, k, first).value; Inv(cfg, t) && k in t.index && t.index[k].tried
  {
    hide EntriesOk, TotalsOk, NewBucketOk, OldestIndex, StatsOfSeq;
    var b := TriedBucket(cfg, s.index[k].na);
    if |s.tried[b]| < cfg.triedSize {
      PromoteKeeps(cfg, s, b, k);
    } else {
      assert TriedBucketOk(cfg, s, b);
      var i := OldestIndex(s.index, s.tried[b], |s.tried[b]|);
      var rm := s.tried[b][i];
      ReplaceKeeps(cfg, s, b, i, k);
      var t := Replace(s, b, i, k);
      var nb := EvictionBucket(cfg, s, rm, first);
      Unreferenced(cfg, s, rm, nb);
      LinkKeeps(cfg, t, {rm}, nb, rm);
      assert {rm} - {rm} == {};
    }
  }

  lemma Unreferenced(cfg: Config, s: State, k: Key, b: nat)
    requires exists loose :: EntriesOk(cfg, s, loose)
    requires k in s.index && s.index[k].refs == 0 && b < |s.buckets|
    ensures k !in s.buckets[b]
  {
    hide RefCount, SlotCount;
    var loose :| EntriesOk(cfg, s, loose);
    assert EntryOk(cfg, s, k, k in loose);
    RefCountWitness(s.buckets, k, |s.buckets|);
  }

  /** What moves: the address takes a slot of its tried bucket; when the bucket is
      full, exactly its oldest address gives the slot up and becomes new again.
      No address is lost and no other address changes. */
  lemma GoodMoves(cfg: Config, s: State, k: Key, now: int)
    requires Inv(cfg, s) && k in s.index && !s.index[k].tried
    ensures Shaped(s) && Good(cfg, s, k, now).Ok?
    ensures var t := Good(cfg, s, k, now).value.0;
      var b := TriedBucket(cfg, s.index[k].na);
      && t.index.Keys == s.index.Keys && t.nNew + t.nTried == s.nNew + s.nTried
      && (forall x :: x in s.index ==> t.index[x].na == s.index[x].na && t.index[x].src == s.index[x].src)
      && (forall x :: x in s.tried[b] ==> x in s.index)
      && if |s.tried[b]| < cfg.triedSize
         then t.tried == s.tried[b := s.tried[b] + [k]] && forall x :: x in s.index && x != k ==> t.index[x] == s.index[x]
         else var i := OldestIndex(s.index, s.tried[b], |s.tried[b]|);
              && t.tried == s.tried[b := s.tried[b][i := k]]
              && !t.index[s.tried[b][i]].tried && t.index[s.tried[b][i]].refs == 1
              && forall x :: x in s.index && x != k && x != s.tried[b][i] ==> t.index[x] == s.index[x]
  {
    hide EntriesOk, TotalsOk, NewBucketOk, RefCount, UnlinkFirst, FirstBucket, OldestIndex, StatsOfSeq, Settle;
    var t := Touch(s, k, s.index[k].(lastSuccess := now, lastAttempt := now, attempts := 0));
    TouchKeeps(cfg, s, {}, k, t.index[k]);
    NewIsSomewhere(cfg, t, k);
    Released(cfg, s, k, now);
    var u := UnlinkFirst(t, k, NEW_BUCKET_COUNT);
    var b := TriedBucket(cfg, s.index[k].na);
    assert TriedBucketOk(cfg, s, b);
    SettleMoves(cfg, u, k, FirstBucket(t.buckets, k, NEW_BUCKET_COUNT).value);
    if |s.tried[b]| >= cfg.triedSize { OldestSame(s.index, u.index, s.tried[b], |s.tried[b]|); }
  }

  lemma SettleMoves(cfg: Config, s: State, k: Key, first: nat)
    requires LooseInv(cfg, s, {k}) && k in s.index && first < NEW_BUCKET_COUNT
    requires !s.index[k].tried && s.index[k].refs == 0
    ensures Shaped(s) && Settle(cfg, s, k, first).Ok?
    ensures var t := Settle(cfg, s, k, first).value;
      var b := TriedBucket(cfg, s.index[k].na);
      && t.index.Keys == s.index.Keys && t.nNew + t.nTried == s.nNew + s.nTried
      && (forall x :: x in s.index ==> t.index[x].na == s.index[x].na && t.index[x].src == s.index[x].src)
      && (forall x :: x in s.tried[b] ==> x in s.index)
      && if |s.tried[b]| < cfg.triedSize
         then t.tried == s.tried[b := s.tried[b] + [k]] && forall x :: x in s.index && x != k ==> t.index[x] == s.index[x]
         else var i := OldestIndex(s.index, s.tried[b], |s.tried[b]|);
              && t.tried == s.tried[b := s.tried[b][i := k]]
              && !t.index[s.tried[b][i]].tried && t.index[s.tried[b][i]].refs == 1
              && forall x :: x in s.index && x != k && x != s.tried[b][i] ==> t.index[x] == s.index[x]
  {
    hide EntriesOk, TotalsOk, NewBucketOk, OldestIndex, StatsOfSeq, Increment, Decrement;
    var b := TriedBucket(cfg, s.index[k].na);
    assert TriedBucketOk(cfg, s, b);
    if |s.tried[b]| >= cfg.triedSize {
      ReplaceKeeps(cfg, s, b, OldestIndex(s.index, s.tried[b], |s.tried[b]|), k);
    }
  }

  lemma {:induction false} OldestSame(index: map<Key, KnownAddress>, other: map<Key, KnownAddress>, ks: seq<Key>, n: nat)
    requires 0 < n <= |ks| && forall k :: k in ks ==> k in index && k in other && index[k].na == other[k].na
    ensures OldestIndex(index, ks, n) == OldestIndex(other, ks, n)
  {
    if n > 1 { OldestSame(index, other, ks, n - 1); }
  }
}
