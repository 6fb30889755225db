/** What the manager records over whole runs: attempts and successes of every address,
    where Good puts an address it evicts, and when a change is marked for saving. */
module AddrHistory {
  import opened Options
  import opened AddrState
  import opened AddrSteps
  import opened AddrOps
  import opened AddrGood
  import opened AddrRuns
  import opened AddrEntries

  // ---- Good -----------------------------------------------------------------------------------

  /** Equal but for the flag and the references. */
  ghost predicate SameRecord(ka: KnownAddress, other: KnownAddress) {
    other == ka.(tried := other.tried, refs := other.refs)
  }

  lemma SettleRecords(cfg: Config, s: State, k: Key, first: nat)
    requires Shaped(s) && k in s.index && first < NEW_BUCKET_COUNT && Settle(cfg, s, k, first).Ok?
    ensures var t := Settle(cfg, s, k, first).value;
      t.changed && t.index.Keys == s.index.Keys && forall x :: x in s.index ==> SameRecord(s.index[x], t.index[x])
  {
    hide OldestIndex, Increment, Decrement;
  }

  /** Good records the success; nothing else of any record changes. */
  lemma GoodRecords(cfg: Config, s: State, k: Key, now: int)
    requires Inv(cfg, s) && k in s.index
    ensures Shaped(s) && Good(cfg, s, k, now).Ok?
    ensures var t := Good(cfg, s, k, now).value.0;
      && t.index.Keys == s.index.Keys
      && SameRecord(s.index[k].(lastSuccess := now, lastAttempt := now, attempts := 0), t.index[k])
      && (forall x :: x in s.index && x != k ==> SameRecord(s.index[x], t.index[x]))
      && (s.index[k].tried ==> t == s.(index := s.index[k := s.index[k].(lastSuccess := now, lastAttempt := now, attempts := 0)]))
  {
    hide EntriesOk, TriedBucketOk, TotalsOk, NewBucketOk, UnlinkFirst, FirstBucket, Settle;
    GoodKeeps(cfg, s, k, now);
    if !s.index[k].tried {
      var t := Touch(s, k, s.index[k].(lastSuccess := now, lastAttempt := now, attempts := 0));
      TouchKeeps(cfg, s, {}, k, t.index[k]);
      NewIsSomewhere(cfg, t, k);
      SettleRecords(cfg, UnlinkFirst(t, k, NEW_BUCKET_COUNT), k, FirstBucket(t.buckets, k, NEW_BUCKET_COUNT).value);
    }
  }

  /** The new buckets after Good: the address has left them all; an evicted one is in
      its own bucket if that then has fewer than 64, else in the first the address
      was in. */
  lemma GoodBuckets(cfg: Config, s: State, k: Key, now: int)
    requires Inv(cfg, s) && k in s.index && !s.index[k].tried
    ensures Shaped(s) && Good(cfg, s, k, now).Ok?
    ensures var t, b := Good(cfg, s, k, now).value.0, TriedBucket(cfg, s.index[k].na);
      && |t.buckets| == NEW_BUCKET_COUNT && (forall x :: x in s.tried[b] ==> x in s.index)
      && if |s.tried[b]| < cfg.triedSize then forall i :: 0 <= i < NEW_BUCKET_COUNT ==> t.buckets[i] == s.buckets[i] - {k}
         else
           var rm := s.tried[b][OldestIndex(s.index, s.tried[b], |s.tried[b]|)];
           var own := NewBucket(cfg, s.index[rm].na, s.index[rm].src);
           var nb := FirstBucket(s.buckets, k, NEW_BUCKET_COUNT);
           && nb.Some?
           && var to := if |s.buckets[own] - {k}| < NEW_BUCKET_SIZE then own else nb.value;
              forall i :: 0 <= i < NEW_BUCKET_COUNT ==> t.buckets[i] == s.buckets[i] - {k} + (if i == to then {rm} else {})
  {
    hide EntriesOk, TotalsOk, NewBucketOk, FirstBucket, OldestIndex, StatsOfSeq, NewBucket, Settle, Good;
    var u, first := GoodSettles(cfg, s, k, now);
    var b := TriedBucket(cfg, s.index[k].na);
    assert TriedBucketOk(cfg, s, b);
    SettleBuckets(cfg, u, k, first);
    if |s.tried[b]| >= cfg.triedSize { OldestSame(s.index, u.index, s.tried[b], |s.tried[b]|); }
  }

  /** The state from which Good finds the address its slot. */
  lemma GoodSettles(cfg: Config, s: State, k: Key, now: int) returns (u: State, first: nat)
    requires Inv(cfg, s) && k in s.index && !s.index[k].tried
    ensures Shaped(s) && Shaped(u) && u.tried == s.tried && u.index.Keys == s.index.Keys
    ensures forall x :: x in s.index ==> u.index[x].na == s.index[x].na && u.index[x].src == s.index[x].src
    ensures forall i :: 0 <= i < NEW_BUCKET_COUNT ==> u.buckets[i] == s.buckets[i] - {k}
    ensures FirstBucket(s.buckets, k, NEW_BUCKET_COUNT) == Some(first) && first < NEW_BUCKET_COUNT
    ensures Good(cfg, s, k, now).Ok? && Settle(cfg, u, k, first) == Ok(Good(cfg, s, k, now).value.0)
  {
    hide EntriesOk, TriedBucketOk, TotalsOk, NewBucketOk, UnlinkFirst, FirstBucket, Settle;
    GoodKeeps(cfg, s, k, now);
    var t := Touch(s, k, s.index[k].(lastSuccess := now, lastAttempt := now, attempts := 0));
    NewIsSomewhere(cfg, s, k);
    u := UnlinkFirst(t, k, NEW_BUCKET_COUNT);
    first := FirstBucket(t.buckets, k, NEW_BUCKET_COUNT).value;
  }

  lemma SettleBuckets(cfg: Config, s: State, k: Key, first: nat)
    requires Shaped(s) && k in s.index && first < NEW_BUCKET_COUNT && SizeOk(cfg)
    requires forall x :: x in s.tried[TriedBucket(cfg, s.index[k].na)] ==> x in s.index
    ensures Settle(cfg, s, k, first).Ok?
    ensures var t, b := Settle(cfg, s, k, first).value, TriedBucket(cfg, s.index[k].na);
      if |s.tried[b]| < cfg.triedSize then t.buckets == s.buckets
      else
        var rm := s.tried[b][OldestIndex(s.index, s.tried[b], |s.tried[b]|)];
        var own := NewBucket(cfg, s.index[rm].na, s.index[rm].src);
        var nb := if |s.buckets[own]| < NEW_BUCKET_SIZE then own else first;
        t.buckets == s.buckets[nb := s.buckets[nb] + {rm}]
  {
    hide OldestIndex, Increment, Decrement, NewBucket;
  }

  /** So no new bucket grows over 64 by an eviction. */
  lemma GoodNoGrowth(cfg: Config, s: State, k: Key, now: int, i: nat)
    requires Inv(cfg, s) && k in s.index && !s.index[k].tried && i < NEW_BUCKET_COUNT
    ensures Shaped(s) && Good(cfg, s, k, now).Ok? && |Good(cfg, s, k, now).value.0.buckets| == NEW_BUCKET_COUNT
    ensures |Good(cfg, s, k, now).value.0.buckets[i]| <= if |s.buckets[i]| > NEW_BUCKET_SIZE then |s.buckets[i]| else NEW_BUCKET_SIZE
  {
    hide EntriesOk, TriedBucketOk, TotalsOk, StatsOf, Good, OldestIndex, NewBucket;
    GoodBuckets(cfg, s, k, now);
    assert NewBucketOk(cfg, s, i);
    SubsetSize(s.buckets[i] - {k}, s.buckets[i]);
    SizeWithout(s.buckets[i], k);
  }

  lemma SizeWithout(keys: set<Key>, k: Key)
    ensures |keys - {k}| == if k in keys then |keys| - 1 else |keys|
  {
    if k !in keys { assert keys - {k} == keys; }
  }

  // ---- records over runs ------------------------------------------------------------------------

  /** What is remembered about an address besides its place. */
  datatype Record = Record(attempts: nat, lastAttempt: int, lastSuccess: int, timestamp: int, services: set<nat>)

  function RecordOf(ka: KnownAddress): Record {
    Record(ka.attempts, ka.lastAttempt, ka.lastSuccess, ka.na.timestamp, ka.na.services)
  }

  /** How an operation moves the record of a known address. */
  function NextRecord(op: Op, k: Key, r: Record): Record {
    match op
    case Attempt(key, now) => if key == k then r.(attempts := r.attempts + 1, lastAttempt := now) else r
    case MarkGood(key, now) => if key == k then r.(attempts := 0, lastAttempt := now, lastSuccess := now) else r
    case Connected(key, now) => if key == k && now - r.timestamp > 20 * MINUTE then r.(timestamp := now) else r
    case SetServices(key, services) => if key == k then r.(services := services) else r
    case Add(na, _, _, _, _) =>
      if na.key == k && na.routable then
        r.(timestamp := if na.timestamp > r.timestamp || na.services - r.services != {} then na.timestamp else r.timestamp,
           services := r.services + na.services)
      else r
  }

  /** The record an address has after the first i operations of a run, from when it
      last became known. */
  function History(states: seq<State>, ops: seq<Op>, i: nat, k: Key): Record
    requires i <= |ops| < |states| && k in states[i].index
  {
    if i == 0 then Record(0, ZERO_TIME, ZERO_TIME, 0, {})
    else if k in states[i - 1].index then NextRecord(ops[i - 1], k, History(states, ops, i - 1, k))
    else if ops[i - 1].Add? then Record(0, ZERO_TIME, ZERO_TIME, ops[i - 1].na.timestamp, ops[i - 1].na.services)
    else Record(0, ZERO_TIME, ZERO_TIME, 0, {})
  }

  lemma {:induction false} RemoveAllRecords(s: State, b: nat, ks: seq<Key>)
    requires b < |s.buckets| == |s.newStats| && Distinct(ks) && forall k :: k in ks ==> k in s.index
    ensures forall x :: x in RemoveAll(s, b, ks).index ==> x in s.index && SameRecord(s.index[x], RemoveAll(s, b, ks).index[x])
    decreases |ks|
  {
    hide Distinct, Decrement;
    if ks != [] {
      var n := |ks| - 1;
      DistinctInit(ks);
      assert forall k :: k in ks[..n] ==> k in ks;
      RemoveAllRecords(s, b, ks[..n]);
    }
  }

  lemma PlaceRecords(cfg: Config, s: State, na: NetAddress, src: NetAddress, order: seq<Key>, bad: Key -> bool)
    requires na.key in s.index && Shaped(s) && Enumerates(order, s.buckets[NewBucket(cfg, na, src)])
    requires forall k :: k in order ==> k in s.index
    ensures Place(cfg, s, na, src, order, bad).Ok?
    ensures var t := Place(cfg, s, na, src, order, bad).value; forall x :: x in t.index ==> x in s.index && SameRecord(s.index[x], t.index[x])
  {
    hide NewBucket, Expire, Increment;
    ExpireRecords(s, NewBucket(cfg, na, src), order, bad);
  }

  lemma ExpireRecords(s: State, b: nat, order: seq<Key>, bad: Key -> bool)
    requires b < |s.buckets| == |s.newStats| && Distinct(order) && forall k :: k in order ==> k in s.index
    ensures var t := Expire(s, b, order, bad);
      && |t.buckets| == |t.newStats| == |s.buckets|
      && (forall x :: x in t.index ==> x in s.index && SameRecord(s.index[x], t.index[x]))
      && (forall x :: x in s.index && x !in order ==> x in t.index && t.index[x] == s.index[x])
  {
    hide Victims, RemoveAll;
    VictimsAre(s.index, order, bad);
    RemoveAllRecords(s, b, Victims(s.index, order, bad));
  }

  lemma NewService(a: set<nat>, b: set<nat>)
    ensures (exists f :: f in a && f !in b) <==> a - b != {}
  {
    if f :| f in a && f !in b { assert f in a - b; }
    if a - b != {} { var f :| f in a - b; }
  }

  lemma AddRecords(cfg: Config, s: State, op: Op, k: Key)
    requires Inv(cfg, s) && op.Add? && Provided(cfg, s, op) && Shaped(s)
    requires AddOrUpdate(cfg, s, op.na, op.src, op.draw, op.order, op.clock).Ok?
    requires k in AddOrUpdate(cfg, s, op.na, op.src, op.draw, op.order, op.clock).value.index
    ensures var r := RecordOf(AddOrUpdate(cfg, s, op.na, op.src, op.draw, op.order, op.clock).value.index[k]);
      if k in s.index then r == NextRecord(op, k, RecordOf(s.index[k]))
      else r == Record(0, ZERO_TIME, ZERO_TIME, op.na.timestamp, op.na.services)
  {
    hide EntriesOk, TriedBucketOk, TotalsOk, NewBucketOk, Place, NewBucket, Verdict;
    var na := op.na;
    OrderInIndex(cfg, s, NewBucket(cfg, na, op.src), op.order);
    if na.routable {
      if na.key in s.index {
        RefreshIs(s.index[na.key], na);
        NewService(na.services, s.index[na.key].na.services);
        var t := Touch(s, na.key, Refresh(s.index[na.key], na));
        TypeOfEntry(cfg, s, {}, na.key);
        PlaceRecords(cfg, t, na, op.src, op.order, Verdict(t.index, op.clock));
      } else {
        var t := Admit(s, na, op.src);
        PlaceRecords(cfg, t, na, op.src, op.order, Verdict(t.index, op.clock));
      }
    }
  }

  lemma StepRecords(cfg: Config, s: State, op: Op, k: Key)
    requires Inv(cfg, s) && Provided(cfg, s, op) && Step(cfg, s, op).Ok? && k in Step(cfg, s, op).value.index
    ensures var r := RecordOf(Step(cfg, s, op).value.index[k]);
      if k in s.index then r == NextRecord(op, k, RecordOf(s.index[k]))
      else op.Add? && r == Record(0, ZERO_TIME, ZERO_TIME, op.na.timestamp, op.na.services)
  {
    hide LooseInv, AddOrUpdate, Good;
    InvShaped(cfg, s);
    if op.Add? { AddRecords(cfg, s, op, k); }
    else if op.MarkGood? {
      if op.key in s.index { GoodRecords(cfg, s, op.key, op.now); } else { GoodUnknown(cfg, s, op.key, op.now); }
    }
  }

  lemma GoodUnknown(cfg: Config, s: State, k: Key, now: int)
    requires Shaped(s) && k !in s.index
    ensures Good(cfg, s, k, now) == Ok((s, AddressNotFound))
  {
  }

  /** In every run the manager remembers of every address exactly what the operations
      since it became known say: the attempts since its last success, when it was last
      attempted and last succeeded, when it was last seen and with which services. */
  lemma {:induction false} RecordsExact(cfg: Config, states: seq<State>, ops: seq<Op>, i: nat, k: Key)
    requires IsRun(cfg, states, ops) && i <= |ops| && k in states[i].index
    ensures RecordOf(states[i].index[k]) == History(states, ops, i, k)
  {
    hide Inv, Step, Provided, NextRecord;
    if i > 0 {
      RunKeeps(cfg, states, ops);
      var s, op := states[i - 1], ops[i - 1];
      assert s in states && Provided(cfg, s, op) && Step(cfg, s, op) == Ok(states[i]);
      StepRecords(cfg, s, op, k);
      if k in s.index { RecordsExact(cfg, states, ops, i - 1, k); }
    }
  }

  // ---- the mark for saving -----------------------------------------------------------------------

  /** A change of the addresses or of their places is always marked, and no operation
      takes the mark away. */
  lemma StepMarks(cfg: Config, s: State, op: Op)
    requires Inv(cfg, s) && Provided(cfg, s, op) && Step(cfg, s, op).Ok?
    ensures var t := Step(cfg, s, op).value;
      && (s.changed ==> t.changed)
      && (t.index.Keys != s.index.Keys || t.buckets != s.buckets || t.tried != s.tried ==> t.changed)
  {
    hide LooseInv, AddOrUpdate, Good;
    InvShaped(cfg, s);
    if op.Add? { AddMarks(cfg, s, op); }
    else if op.MarkGood? {
      if op.key !in s.index { GoodUnknown(cfg, s, op.key, op.now); }
      else {
        GoodRecords(cfg, s, op.key, op.now);
        if !s.index[op.key].tried {
          var u, first := GoodSettles(cfg, s, op.key, op.now);
          SettleRecords(cfg, u, op.key, first);
        }
      }
    } else {
      assert forall k, ka :: k in s.index ==> Touch(s, k, ka).index.Keys == s.index.Keys;
    }
  }

  lemma AddMarks(cfg: Config, s: State, op: Op)
    requires Inv(cfg, s) && op.Add? && Provided(cfg, s, op) && Shaped(s)
    requires AddOrUpdate(cfg, s, op.na, op.src, op.draw, op.order, op.clock).Ok?
    ensures var t := AddOrUpdate(cfg, s, op.na, op.src, op.draw, op.order, op.clock).value;
      && (s.changed ==> t.changed)
      && (t.index.Keys != s.index.Keys || t.buckets != s.buckets || t.tried != s.tried ==> t.changed)
  {
    hide EntriesOk, TriedBucketOk, TotalsOk, NewBucketOk, NewBucket, Verdict, Expire, Increment;
    OrderInIndex(cfg, s, NewBucket(cfg, op.na, op.src), op.order);
  }
}
