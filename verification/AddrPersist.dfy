/** The saved form of the address manager and its loading. */
module AddrPersist {
  import opened Options
  import opened AddrState
  import opened AddrOps
  import opened AddrRuns

  /** Times are saved in seconds, network addresses as their keys. */
  datatype SavedAddress = SavedAddress(addr: Key, timestamp: int, src: Key, attempts: nat, lastAttempt: int, lastSuccess: int)

  datatype Saved = Saved(version: int, addresses: seq<SavedAddress>, newBuckets: seq<seq<Key>>, triedBuckets: seq<seq<Key>>)

  const VERSION: int := 1

  function Unix(t: int): int { t / SECOND }

  function SavedOf(k: Key, ka: KnownAddress): SavedAddress {
    SavedAddress(k, Unix(ka.na.timestamp), ka.src.key, ka.attempts, Unix(ka.lastAttempt), Unix(ka.lastSuccess))
  }

  /** A saved form of a state, for any iteration order of its maps. */
  ghost predicate IsSaveOf(s: State, sv: Saved) {
    && sv.version == VERSION
    && (forall a :: a in sv.addresses ==> a.addr in s.index && a == SavedOf(a.addr, s.index[a.addr]))
    && (forall k :: k in s.index ==> SavedOf(k, s.index[k]) in sv.addresses)
    && |sv.addresses| == |s.index|
    && |sv.newBuckets| == |s.buckets| && (forall i :: 0 <= i < |s.buckets| ==> Enumerates(sv.newBuckets[i], s.buckets[i]))
    && sv.triedBuckets == s.tried
  }

  // ---- loading -----------------------------------------------------------------------------

  type Parser = Key -> Option<NetAddress>

  datatype LoadError = UnknownVersion | BadAddress | NewNotListed | TriedNotListed | Inconsistent

  /** The state so far, and the error that ended the loading. */
  datatype Loading = Loading(s: State, err: Option<LoadError>)

  function Loaded(v: SavedAddress, na: NetAddress, src: NetAddress): KnownAddress {
    KnownAddress(na, src, v.attempts, v.lastAttempt * SECOND, v.lastSuccess * SECOND, false, 0)
  }

  function LoadAddress(s: State, parse: Parser, v: SavedAddress): (l: Loading)
    ensures l.s == s.(index := l.s.index)
  {
    match (parse(v.addr), parse(v.src))
    case (Some(na), Some(src)) => Loading(s.(index := s.index[na.key := Loaded(v, na, src)]), None)
    case _ => Loading(s, Some(BadAddress))
  }

  function LoadAddresses(s: State, parse: Parser, vs: seq<SavedAddress>, n: nat): (l: Loading)
    requires n <= |vs|
    ensures l.s == s.(index := l.s.index)
  {
    if n == 0 then Loading(s, None)
    else
      var l := LoadAddresses(s, parse, vs, n - 1);
      if l.err.Some? then l else LoadAddress(l.s, parse, vs[n - 1])
  }

  function ListNew(s: State, b: nat, k: Key): (l: Loading)
    requires b < |s.buckets| == |s.newStats|
    ensures |l.s.buckets| == |l.s.newStats| == |s.buckets| && l.s.tried == s.tried && l.s.triedStats == s.triedStats
  {
    if k !in s.index then Loading(s, Some(NewNotListed))
    else
      var ka := s.index[k];
      Loading(s.(nNew := if ka.refs == 0 then s.nNew + 1 else s.nNew,
                 index := s.index[k := ka.(refs := ka.refs + 1)],
                 buckets := s.buckets[b := s.buckets[b] + {k}],
                 newStats := s.newStats[b := Increment(s.newStats[b], ka.na.addrType)]), None)
  }

  function LoadNewBucket(s: State, b: nat, ks: seq<Key>, n: nat): (l: Loading)
    requires b < |s.buckets| == |s.newStats| && n <= |ks|
    ensures |l.s.buckets| == |l.s.newStats| == |s.buckets| && l.s.tried == s.tried && l.s.triedStats == s.triedStats
  {
    if n == 0 then Loading(s, None)
    else
      var l := LoadNewBucket(s, b, ks, n - 1);
      if l.err.Some? then l else ListNew(l.s, b, ks[n - 1])
  }

  function LoadNew(s: State, lists: seq<seq<Key>>, n: nat): (l: Loading)
    requires n <= |lists| == |s.buckets| == |s.newStats|
    ensures |l.s.buckets| == |l.s.newStats| == |s.buckets| && l.s.tried == s.tried && l.s.triedStats == s.triedStats
  {
    if n == 0 then Loading(s, None)
    else
      var l := LoadNew(s, lists, n - 1);
      if l.err.Some? then l else LoadNewBucket(l.s, n - 1, lists[n - 1], |lists[n - 1]|)
  }

  function ListTried(s: State, b: nat, k: Key): (l: Loading)
    requires b < |s.tried| == |s.triedStats|
    ensures |l.s.tried| == |l.s.triedStats| == |s.tried|
  {
    if k !in s.index then Loading(s, Some(TriedNotListed))
    else
      var ka := s.index[k];
      Loading(s.(index := s.index[k := ka.(tried := true)],
                 nTried := s.nTried + 1,
                 tried := s.tried[b := s.tried[b] + [k]],
                 triedStats := s.triedStats[b := Increment(s.triedStats[b], ka.na.addrType)]), None)
  }

  function LoadTriedBucket(s: State, b: nat, ks: seq<Key>, n: nat): (l: Loading)
    requires b < |s.tried| == |s.triedStats| && n <= |ks|
    ensures |l.s.tried| == |l.s.triedStats| == |s.tried|
  {
    if n == 0 then Loading(s, None)
    else
      var l := LoadTriedBucket(s, b, ks, n - 1);
      if l.err.Some? then l else ListTried(l.s, b, ks[n - 1])
  }

  function LoadTried(s: State, lists: seq<seq<Key>>, n: nat): (l: Loading)
    requires n <= |lists| == |s.tried| == |s.triedStats|
    ensures |l.s.tried| == |l.s.triedStats| == |s.tried|
  {
    if n == 0 then Loading(s, None)
    else
      var l := LoadTried(s, lists, n - 1);
      if l.err.Some? then l else LoadTriedBucket(l.s, n - 1, lists[n - 1], |lists[n - 1]|)
  }

  /** Every address is referenced, and none is both new and tried. */
  predicate Consistent(ka: KnownAddress) {
    !(ka.refs == 0 && !ka.tried) && !(ka.refs > 0 && ka.tried)
  }

  /** deserializePeers, from the state of a manager. */
  ghost function Load(s: State, parse: Parser, sv: Saved): Loading
    requires |s.buckets| == |s.newStats| == |sv.newBuckets| && |s.tried| == |s.triedStats| == |sv.triedBuckets|
  {
    if sv.version != VERSION then Loading(s, Some(UnknownVersion))
    else
      var l1 := LoadAddresses(s, parse, sv.addresses, |sv.addresses|);
      if l1.err.Some? then l1
      else
        var l2 := LoadNew(l1.s, sv.newBuckets, |sv.newBuckets|);
        if l2.err.Some? then l2
        else
          var l3 := LoadTried(l2.s, sv.triedBuckets, |sv.triedBuckets|);
          if l3.err.Some? then l3
          else if exists k :: k in l3.s.index && !Consistent(l3.s.index[k]) then Loading(l3.s, Some(Inconsistent))
          else l3
  }

  /** reset. */
  function Emptied(s: State): State {
    Fresh().(nNew := s.nNew, nTried := s.nTried)
  }

  // ---- when a failed load leaves the totals right ----------------------------------------------

  /** The first key listed in the first n buckets. */
  function FirstKey(lists: seq<seq<Key>>, n: nat): Option<Key>
    requires n <= |lists|
  {
    if n == 0 then None
    else if FirstKey(lists, n - 1).Some? then FirstKey(lists, n - 1)
    else if lists[n - 1] != [] then Some(lists[n - 1][0])
    else None
  }

  ghost predicate Unreferenced(s: State) {
    forall k :: k in s.index ==> s.index[k].refs == 0
  }

  lemma {:induction false} NewBucketCounts(s: State, b: nat, ks: seq<Key>, n: nat)
    requires b < |s.buckets| == |s.newStats| && n <= |ks| && s.nNew >= 0
    ensures LoadNewBucket(s, b, ks, n).s.nNew >= s.nNew
    ensures n == 0 || (ks[0] !in s.index) ==> LoadNewBucket(s, b, ks, n).s == s
    ensures n > 0 && ks[0] in s.index && s.index[ks[0]].refs == 0 ==> LoadNewBucket(s, b, ks, n).s.nNew > s.nNew
    ensures n > 0 && ks[0] !in s.index ==> LoadNewBucket(s, b, ks, n).err.Some?
    ensures n == 0 ==> LoadNewBucket(s, b, ks, n).err.None?
  {
    hide Increment;
    if n > 0 { NewBucketCounts(s, b, ks, n - 1); }
  }

  lemma {:induction false} NewCounts(s: State, lists: seq<seq<Key>>, n: nat)
    requires n <= |lists| == |s.buckets| == |s.newStats| && s.nNew == 0 && Unreferenced(s)
    ensures var l, first := LoadNew(s, lists, n), FirstKey(lists, n);
      && l.s.nNew >= 0
      && (l.s.nNew == 0 <==> first.None? || first.value !in s.index)
      && (first.None? || first.value !in s.index ==> l.s == s)
      && (first.None? ==> l.err.None?) && (first.Some? && first.value !in s.index ==> l.err.Some?)
  {
    hide LoadNewBucket;
    if n > 0 {
      NewCounts(s, lists, n - 1);
      var l := LoadNew(s, lists, n - 1);
      NewBucketCounts(l.s, n - 1, lists[n - 1], |lists[n - 1]|);
    }
  }

  lemma {:induction false} TriedBucketCounts(s: State, b: nat, ks: seq<Key>, n: nat)
    requires b < |s.tried| == |s.triedStats| && n <= |ks| && s.nTried >= 0
    ensures var l := LoadTriedBucket(s, b, ks, n);
      && l.s.nTried >= s.nTried && l.s.nNew == s.nNew && l.s.index.Keys == s.index.Keys
      && (l.s.nTried == s.nTried <==> n == 0 || ks[0] !in s.index)
      && (n > 0 && ks[0] !in s.index ==> l.err.Some?) && (n == 0 ==> l.err.None?)
  {
    hide Increment;
    if n > 0 { TriedBucketCounts(s, b, ks, n - 1); }
  }

  lemma {:induction false} TriedCounts(s: State, lists: seq<seq<Key>>, n: nat)
    requires n <= |lists| == |s.tried| == |s.triedStats| && s.nTried == 0
    ensures var l, first := LoadTried(s, lists, n), FirstKey(lists, n);
      && l.s.nTried >= 0 && l.s.nNew == s.nNew && l.s.index.Keys == s.index.Keys
      && (l.s.nTried == 0 <==> first.None? || first.value !in s.index)
      && (first.None? ==> l.err.None?) && (first.Some? && first.value !in s.index ==> l.err.Some?)
  {
    hide LoadTriedBucket;
    if n > 0 {
      TriedCounts(s, lists, n - 1);
      var l := LoadTried(s, lists, n - 1);
      TriedBucketCounts(l.s, n - 1, lists[n - 1], |lists[n - 1]|);
    }
  }

  lemma {:induction false} AddressesUnreferenced(s: State, parse: Parser, vs: seq<SavedAddress>, n: nat)
    requires n <= |vs| && Unreferenced(s)
    ensures Unreferenced(LoadAddresses(s, parse, vs, n).s)
  {
    if n > 0 { AddressesUnreferenced(s, parse, vs, n - 1); }
  }

  /** The file is refused before anything is counted: by its version, by an address
      that does not parse, or by listing in its buckets no key, or first an unknown
      one. */
  ghost predicate NothingCounted(parse: Parser, sv: Saved) {
    || sv.version != VERSION
    || var l := LoadAddresses(Fresh(), parse, sv.addresses, |sv.addresses|);
       var first, tried := FirstKey(sv.newBuckets, |sv.newBuckets|), FirstKey(sv.triedBuckets, |sv.triedBuckets|);
       || l.err.Some?
       || (first.Some? && first.value !in l.s.index)
       || (first.None? && (tried.None? || tried.value !in l.s.index))
  }

  lemma EmptiedOk(cfg: Config, s: State)
    requires SizeOk(cfg)
    ensures Inv(cfg, Emptied(s)) <==> s.nNew == 0 && s.nTried == 0
  {
    FreshOk(cfg);
    hide LooseInv;
    var t := Emptied(s);
    if s.nNew == 0 && s.nTried == 0 { assert t == Fresh(); }
    assert NewKeys(t.index) == {} && TriedKeys(t.index) == {};
    TotalsOf(cfg, t);
  }

  lemma TotalsOf(cfg: Config, s: State)
    ensures Inv(cfg, s) ==> TotalsOk(s)
  {
  }

  /** A failed load leaves a manager in order exactly when nothing was counted. */
  lemma FailedLoad(cfg: Config, parse: Parser, sv: Saved)
    requires SizeOk(cfg) && |sv.newBuckets| == NEW_BUCKET_COUNT && |sv.triedBuckets| == TRIED_BUCKET_COUNT
    requires Load(Fresh(), parse, sv).err.Some?
    ensures Inv(cfg, Emptied(Load(Fresh(), parse, sv).s)) <==> NothingCounted(parse, sv)
  {
    hide Inv, LoadAddresses, LoadNew, LoadTried, FirstKey, Consistent;
    EmptiedOk(cfg, Load(Fresh(), parse, sv).s);
    var l1 := LoadAddresses(Fresh(), parse, sv.addresses, |sv.addresses|);
    AddressesUnreferenced(Fresh(), parse, sv.addresses, |sv.addresses|);
    NewCounts(l1.s, sv.newBuckets, NEW_BUCKET_COUNT);
    var l2 := LoadNew(l1.s, sv.newBuckets, NEW_BUCKET_COUNT);
    NewKeepsTried(l1.s, sv.newBuckets, NEW_BUCKET_COUNT);
    TriedCounts(l2.s, sv.triedBuckets, TRIED_BUCKET_COUNT);
  }

  lemma {:induction false} NewKeepsTried(s: State, lists: seq<seq<Key>>, n: nat)
    requires n <= |lists| == |s.buckets| == |s.newStats|
    ensures LoadNew(s, lists, n).s.nTried == s.nTried && LoadNew(s, lists, n).s.index.Keys == s.index.Keys
  {
    hide LoadNewBucket;
    if n > 0 {
      NewKeepsTried(s, lists, n - 1);
      NewBucketKeepsTried(LoadNew(s, lists, n - 1).s, n - 1, lists[n - 1], |lists[n - 1]|);
    }
  }

  lemma {:induction false} NewBucketKeepsTried(s: State, b: nat, ks: seq<Key>, n: nat)
    requires b < |s.buckets| == |s.newStats| && n <= |ks|
    ensures LoadNewBucket(s, b, ks, n).s.nTried == s.nTried && LoadNewBucket(s, b, ks, n).s.index.Keys == s.index.Keys
  {
    hide Increment;
    if n > 0 { NewBucketKeepsTried(s, b, ks, n - 1); }
  }
}
