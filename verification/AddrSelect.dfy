/** GetAddress: choosing a known address of a wanted type at random. */
module AddrSelect {
  import opened Options
  import opened AddrState
  import opened AddrOps
  import opened AddrManager

  datatype Filter = Filter(wantIPv4: bool, wantIPv6: bool, wantTorV3: bool)

  predicate Wants(f: Filter, t: AddrType) {
    (f.wantIPv4 && t == IPv4) || (f.wantIPv6 && t == IPv6) || (f.wantTorV3 && t == TorV3)
  }

  function Total(s: Stats, f: Filter): nat {
    (if f.wantIPv4 then s.ipv4 else 0) + (if f.wantIPv6 then s.ipv6 else 0) + (if f.wantTorV3 then s.torV3 else 0)
  }

  predicate HasWanted(s: Stats, f: Filter) {
    (f.wantIPv4 && s.ipv4 > 0) || (f.wantIPv6 && s.ipv6 > 0) || (f.wantTorV3 && s.torV3 > 0)
  }

  /** A filter wants exactly the types it names, and never an unknown one. */
  lemma FilterMeans(f: Filter)
    ensures Wants(f, IPv4) == f.wantIPv4 && Wants(f, IPv6) == f.wantIPv6 && Wants(f, TorV3) == f.wantTorV3
    ensures !Wants(f, UnknownType)
  {
  }

  // ---- what the statistics promise ---------------------------------------------------------

  /** The wanted addresses of a list, in order. */
  function Wanted(cfg: Config, f: Filter, ks: seq<Key>): (r: seq<Key>)
    ensures forall k :: k in r <==> k in ks && Wants(f, cfg.typeOf(k))
  {
    if ks == [] then []
    else
      var n := |ks| - 1;
      assert ks == ks[..n] + [ks[n]];
      Wanted(cfg, f, ks[..n]) + (if Wants(f, cfg.typeOf(ks[n])) then [ks[n]] else [])
  }

  /** The statistics of a bucket count exactly its wanted addresses. */
  lemma {:induction false} TotalIsWanted(cfg: Config, f: Filter, ks: seq<Key>)
    ensures Total(StatsOfSeq(cfg, ks), f) == |Wanted(cfg, f, ks)|
    ensures HasWanted(StatsOfSeq(cfg, ks), f) <==> Wanted(cfg, f, ks) != []
  {
    if ks != [] { TotalIsWanted(cfg, f, ks[..|ks| - 1]); }
  }

  lemma {:induction false} CountEnumerated(cfg: Config, ks: seq<Key>, t: AddrType)
    requires Distinct(ks)
    ensures CountType(cfg, ks, t) == |OfType(cfg, KeySet(ks), t)|
  {
    if ks == [] {
      assert OfType(cfg, KeySet(ks), t) == {};
    } else {
      var n := |ks| - 1;
      CountEnumerated(cfg, ks[..n], t);
      assert ks == ks[..n] + [ks[n]];
      assert KeySet(ks) == KeySet(ks[..n]) + {ks[n]};
      TypeAdd(cfg, KeySet(ks[..n]), ks[n], t);
    }
  }

  lemma StatsEnumerated(cfg: Config, ks: seq<Key>, keys: set<Key>)
    requires Enumerates(ks, keys)
    ensures StatsOfSeq(cfg, ks) == StatsOf(cfg, keys)
  {
    hide CountType, OfType;
    assert KeySet(ks) == keys;
    CountEnumerated(cfg, ks, IPv4);
    CountEnumerated(cfg, ks, IPv6);
    CountEnumerated(cfg, ks, TorV3);
  }

  // ---- the chance of an address, and why the loop ends ----------------------------------------

  function PowOneAndHalf(n: nat): (r: real)
    ensures r >= 1.0
  {
    if n == 0 then 1.0 else 1.5 * PowOneAndHalf(n - 1)
  }

  const MIN_CHANCE: real := 0.01
  const LARGE: nat := 0x4000_0000

  function Chance(ka: KnownAddress, now: int): (c: real)
    ensures MIN_CHANCE <= c <= 1.0
  {
    if ka.lastAttempt == ZERO_TIME || now - ka.lastAttempt < 10 * MINUTE then MIN_CHANCE
    else
      var c := 1.0 / PowOneAndHalf(ka.attempts);
      if c < MIN_CHANCE then MIN_CHANCE else c
  }

  function Factor(n: nat): (r: real)
    ensures r >= 1.0
  {
    if n == 0 then 1.0 else 1.2 * Factor(n - 1)
  }

  const LAST_TRY: nat := 26

  lemma {:induction false} FactorAdd(a: nat, b: nat)
    ensures Factor(a + b) == Factor(a) * Factor(b)
  {
    if a > 0 { FactorAdd(a - 1, b); }
  }

  /** After 26 refusals even the least chance exceeds certainty. */
  lemma FactorGrows()
    ensures Factor(LAST_TRY) * MIN_CHANCE >= 1.0
  {
    assert Factor(2) == 1.44;
    FactorAdd(2, 2);
    FactorAdd(4, 4);
    FactorAdd(8, 8);
    FactorAdd(16, 8);
    FactorAdd(24, 2);
  }

  // ---- the operation ------------------------------------------------------------------------

  /** The indices of the buckets that have a wanted address, in increasing order. */
  ghost predicate Matching(stats: seq<Stats>, f: Filter, idxs: seq<nat>) {
    && (forall i: nat :: i in idxs <==> i < |stats| && HasWanted(stats[i], f))
    && (forall i, j :: 0 <= i < j < |idxs| ==> idxs[i] < idxs[j])
  }

  method MatchingBuckets(stats: seq<Stats>, f: Filter) returns (idxs: seq<nat>)
    ensures Matching(stats, f, idxs)
  {
    hide HasWanted;
    idxs := [];
    for i := 0 to |stats|
      invariant forall j: nat :: j in idxs <==> j < i && HasWanted(stats[j], f)
      invariant forall k :: 0 <= k < |idxs| ==> idxs[k] in idxs && idxs[k] < i
      invariant forall k, j :: 0 <= k < j < |idxs| ==> idxs[k] < idxs[j]
    {
      if HasWanted(stats[i], f) { idxs := idxs + [i]; }
    }
  }

  /** The nth wanted address of a bucket, or none when there are fewer. */
  method Nth(m: Manager, f: Filter, bucket: seq<Key>, nth: nat) returns (ka: Option<Key>)
    requires forall x :: x in bucket ==> x in m.index && m.index[x].na.addrType == m.cfg.typeOf(x)
    ensures ka == if nth < |Wanted(m.cfg, f, bucket)| then Some(Wanted(m.cfg, f, bucket)[nth]) else None
  {
    var left := nth;
    for i := 0 to |bucket|
      invariant left == nth - |Wanted(m.cfg, f, bucket[..i])| && left >= 0
    {
      WantedStep(m.cfg, f, bucket, i);
      if Wants(f, m.index[bucket[i]].na.addrType) {
        if left == 0 { return Some(bucket[i]); }
        left := left - 1;
      }
    }
    assert bucket[..|bucket|] == bucket;
    return None;
  }

  lemma WantedStep(cfg: Config, f: Filter, ks: seq<Key>, n: nat)
    requires n < |ks|
    ensures var before := Wanted(cfg, f, ks[..n]);
      && Wanted(cfg, f, ks[..n + 1]) == before + (if Wants(f, cfg.typeOf(ks[n])) then [ks[n]] else [])
      && Wanted(cfg, f, ks[..n + 1]) <= Wanted(cfg, f, ks)
  {
    assert ks[..n + 1][..n] == ks[..n];
    WantedPrefix(cfg, f, ks, n + 1);
  }

  lemma {:induction false} WantedPrefix(cfg: Config, f: Filter, ks: seq<Key>, n: nat)
    requires n <= |ks|
    ensures Wanted(cfg, f, ks[..n]) <= Wanted(cfg, f, ks)
    decreases |ks|
  {
    if n < |ks| {
      var l := |ks| - 1;
      assert ks[..l][..n] == ks[..n];
      WantedPrefix(cfg, f, ks[..l], n);
    } else {
      assert ks[..n] == ks;
    }
  }

  /** What a table of buckets must be for the choice to be safe. */
  ghost predicate Table(m: Manager, f: Filter, idxs: seq<nat>, stats: seq<Stats>, contents: (nat, nat) -> seq<Key>)
    reads m
  {
    && idxs != []
    && (forall b: nat :: b in idxs ==> b < |stats| && HasWanted(stats[b], f))
    && (forall n: nat, b: nat :: b in idxs && b < |stats| ==> Listed(m, stats[b], contents(n, b)))
  }

  /** A bucket as iterated: known addresses, counted by the statistics. */
  ghost predicate Listed(m: Manager, stats: Stats, ks: seq<Key>)
    reads m
  {
    && stats == StatsOfSeq(m.cfg, ks)
    && forall x :: x in ks ==> x in m.index && m.index[x].na.addrType == m.cfg.typeOf(x)
  }

  /** rand.IntN, which panics on zero. */
  function IntN(draw: nat, n: nat): (r: nat)
    requires n > 0
    ensures r < n
  {
    draw % n
  }

  predicate Accepts(randval: nat, factor: real, chance: real) {
    (randval as real) < factor * chance * LARGE as real
  }

  lemma LastTryAccepts(randval: nat, chance: real)
    requires randval < LARGE && chance >= MIN_CHANCE
    ensures Accepts(randval, Factor(LAST_TRY), chance)
  {
    hide Factor;
    FactorGrows();
    var x := Factor(LAST_TRY);
    assert x * (chance - MIN_CHANCE) >= 0.0;
    assert x * chance >= 1.0;
  }

  /** A random wanted address of a bucket that has one: the search finds it. */
  method Pick(m: Manager, f: Filter, stats: Stats, bucket: seq<Key>, draw: nat) returns (k: Key)
    requires Listed(m, stats, bucket) && HasWanted(stats, f)
    ensures k in bucket && k in m.index && Wants(f, m.cfg.typeOf(k))
    ensures var w := Wanted(m.cfg, f, bucket); w != [] && k == w[IntN(draw, |w|)]
  {
    TotalIsWanted(m.cfg, f, bucket);
    var nth := IntN(draw, Total(stats, f));
    var ka := Nth(m, f, bucket, nth);
    k := ka.value;
    assert k in Wanted(m.cfg, f, bucket);
  }

  lemma TableWanted(m: Manager, f: Filter, idxs: seq<nat>, stats: seq<Stats>, contents: (nat, nat) -> seq<Key>, n: nat, b: nat)
    requires Table(m, f, idxs, stats, contents) && b in idxs
    ensures Wanted(m.cfg, f, contents(n, b)) != []
    ensures forall k :: k in Wanted(m.cfg, f, contents(n, b)) ==> k in m.index
  {
    hide HasWanted;
    assert Listed(m, stats[b], contents(n, b));
    TotalIsWanted(m.cfg, f, contents(n, b));
  }

  /** The address that the draws of the n-th try point at. */
  ghost function Candidate(m: Manager, f: Filter, idxs: seq<nat>, stats: seq<Stats>, contents: (nat, nat) -> seq<Key>,
                           draws: nat -> nat, pos: nat, n: nat): (k: Key)
    requires Table(m, f, idxs, stats, contents)
    reads m
    ensures k in m.index
  {
    var b := idxs[IntN(draws(pos + 3 * n), |idxs|)];
    TableWanted(m, f, idxs, stats, contents, n, b);
    var w := Wanted(m.cfg, f, contents(n, b));
    w[IntN(draws(pos + 3 * n + 1), |w|)]
  }

  /** The third draw of the n-th try falls below the chance of its candidate, raised
      by 1.2 for every try before. */
  ghost predicate Accepted(m: Manager, f: Filter, idxs: seq<nat>, stats: seq<Stats>, contents: (nat, nat) -> seq<Key>,
                           draws: nat -> nat, pos: nat, clock: nat -> int, n: nat)
    requires Table(m, f, idxs, stats, contents)
    reads m
  {
    IntN(draws(pos + 3 * n + 2), LARGE) as real / LARGE as real
    < Factor(n) * Chance(m.index[Candidate(m, f, idxs, stats, contents, draws, pos, n)], clock(n))
  }

  /** The candidate of the first try that is accepted. */
  ghost predicate Chosen(m: Manager, f: Filter, idxs: seq<nat>, stats: seq<Stats>, contents: (nat, nat) -> seq<Key>,
                         draws: nat -> nat, pos: nat, clock: nat -> int, k: Key, used: nat)
    requires Table(m, f, idxs, stats, contents)
    reads m
  {
    exists n: nat ::
      && used == 3 * n + 3 && k == Candidate(m, f, idxs, stats, contents, draws, pos, n)
      && Accepted(m, f, idxs, stats, contents, draws, pos, clock, n)
      && forall i: nat :: i < n ==> !Accepted(m, f, idxs, stats, contents, draws, pos, clock, i)
  }

  lemma AcceptsIs(randval: nat, factor: real, chance: real)
    ensures Accepts(randval, factor, chance) <==> randval as real / LARGE as real < factor * chance
  {
    var x, y := randval as real / LARGE as real, factor * chance;
    assert randval as real == x * LARGE as real;
  }

  /** One try: its candidate, and whether the third draw accepts it. */
  method Try(m: Manager, f: Filter, idxs: seq<nat>, stats: seq<Stats>, contents: (nat, nat) -> seq<Key>,
             draws: nat -> nat, pos: nat, clock: nat -> int, n: nat, factor: real) returns (k: Key, accepted: bool)
    requires Table(m, f, idxs, stats, contents) && factor == Factor(n)
    ensures k == Candidate(m, f, idxs, stats, contents, draws, pos, n)
    ensures accepted <==> Accepted(m, f, idxs, stats, contents, draws, pos, clock, n)
    ensures n == LAST_TRY ==> accepted
    ensures k in m.index && Wants(f, m.cfg.typeOf(k)) && exists b: nat :: b in idxs && k in contents(n, b)
  {
    hide IntN, Accepts, HasWanted, Listed, Wants, Factor, Chance;
    var b := idxs[IntN(draws(pos + 3 * n), |idxs|)];
    assert b in idxs && Listed(m, stats[b], contents(n, b));
    k := Pick(m, f, stats[b], contents(n, b), draws(pos + 3 * n + 1));
    var randval := IntN(draws(pos + 3 * n + 2), LARGE);
    var chance := Chance(m.index[k], clock(n));
    LastTryAccepts(randval, chance);
    AcceptsIs(randval, factor, chance);
    accepted := Accepts(randval, factor, chance);
  }

  /** Draws bucket and address until one is accepted: at most 27 times, three
      random numbers each. */
  method Choose(m: Manager, f: Filter, idxs: seq<nat>, stats: seq<Stats>, contents: (nat, nat) -> seq<Key>,
                draws: nat -> nat, pos: nat, clock: nat -> int) returns (k: Key, used: nat)
    requires Table(m, f, idxs, stats, contents)
    ensures exists n: nat, b: nat :: b in idxs && k in contents(n, b)
    ensures k in m.index && Wants(f, m.cfg.typeOf(k)) && used <= 3 * (LAST_TRY + 1)
    ensures Chosen(m, f, idxs, stats, contents, draws, pos, clock, k, used)
  {
    hide Accepted, Candidate, Table, Wants;
    var factor, n := 1.0, 0;
    while true
      invariant n <= LAST_TRY && factor == Factor(n)
      invariant forall i: nat :: i < n ==> !Accepted(m, f, idxs, stats, contents, draws, pos, clock, i)
      decreases LAST_TRY - n
    {
      var accepted;
      k, accepted := Try(m, f, idxs, stats, contents, draws, pos, clock, n, factor);
      if accepted { return k, 3 * n + 3; }
      factor := 1.2 * factor;
      n := n + 1;
    }
  }

  /** Whatever the table holds of the wanted types, some draws choose it at once. */
  lemma EveryWantedChosen(m: Manager, f: Filter, idxs: seq<nat>, stats: seq<Stats>, contents: (nat, nat) -> seq<Key>,
                          pos: nat, clock: nat -> int, b: nat, k: Key)
    requires Table(m, f, idxs, stats, contents) && b in idxs && k in contents(0, b) && Wants(f, m.cfg.typeOf(k))
    ensures exists draws: nat -> nat :: Chosen(m, f, idxs, stats, contents, draws, pos, clock, k, 3)
  {
    hide Table, Wants, Accepted, Candidate;
    var i :| 0 <= i < |idxs| && idxs[i] == b;
    var w := Wanted(m.cfg, f, contents(0, b));
    assert k in w;
    var j :| 0 <= j < |w| && w[j] == k;
    var draws: nat -> nat := x => if x == pos then i else if x == pos + 1 then j else 0;
    PointsAt(m, f, idxs, stats, contents, draws, pos, i, j);
    ZeroAccepted(m, f, idxs, stats, contents, draws, pos, clock);
    assert Chosen(m, f, idxs, stats, contents, draws, pos, clock, k, 3);
  }

  lemma PointsAt(m: Manager, f: Filter, idxs: seq<nat>, stats: seq<Stats>, contents: (nat, nat) -> seq<Key>,
                 draws: nat -> nat, pos: nat, i: nat, j: nat)
    requires Table(m, f, idxs, stats, contents) && i < |idxs| && j < |Wanted(m.cfg, f, contents(0, idxs[i]))|
    requires draws(pos) == i && draws(pos + 1) == j
    ensures Candidate(m, f, idxs, stats, contents, draws, pos, 0) == Wanted(m.cfg, f, contents(0, idxs[i]))[j]
  {
    hide Table, Wanted;
    assert IntN(i, |idxs|) == i && IntN(j, |Wanted(m.cfg, f, contents(0, idxs[i]))|) == j;
    assert pos + 3 * 0 == pos && pos + 3 * 0 + 1 == pos + 1;
  }

  lemma ZeroAccepted(m: Manager, f: Filter, idxs: seq<nat>, stats: seq<Stats>, contents: (nat, nat) -> seq<Key>,
                     draws: nat -> nat, pos: nat, clock: nat -> int)
    requires Table(m, f, idxs, stats, contents) && draws(pos + 2) == 0
    ensures Accepted(m, f, idxs, stats, contents, draws, pos, clock, 0)
  {
    hide Table, Candidate, Chance;
    assert IntN(0, LARGE) == 0 && Factor(0) == 1.0;
    assert pos + 3 * 0 + 2 == pos + 2;
  }

  /** Never or just attempted, an address has the least chance; else certainty
      without failures, and each failure divides the chance by 1.5 down to the
      least. */
  lemma ChanceFalls(ka: KnownAddress, now: int)
    ensures ka.lastAttempt == ZERO_TIME || now - ka.lastAttempt < 10 * MINUTE ==> Chance(ka, now) == 0.01
    ensures ka.lastAttempt != ZERO_TIME && now - ka.lastAttempt >= 10 * MINUTE ==>
      && Chance(ka.(attempts := 0), now) == 1.0
      && var c := Chance(ka, now) / 1.5; Chance(ka.(attempts := ka.attempts + 1), now) == if c < 0.01 then 0.01 else c
  {
    var p := PowOneAndHalf(ka.attempts);
    assert 1.0 / (1.5 * p) == 1.0 / p / 1.5;
  }

  /** Every iteration order of every bucket, for each try. */
  ghost predicate Orders(m: Manager, order: (nat, nat) -> seq<Key>)
    reads m
  {
    forall n: nat, b: nat :: b < |m.buckets| ==> Enumerates(order(n, b), m.buckets[b])
  }

  /** A known address of a wanted type exists, among the tried or the new ones. */
  ghost predicate SomeWanted(m: Manager, f: Filter, tried: bool)
    reads m
  {
    exists k :: k in m.index && m.index[k].tried == tried && Wants(f, m.index[k].na.addrType)
  }

  /** The address comes from the tried or from the new buckets, as the draws say. */
  ghost predicate ChosenFrom(m: Manager, f: Filter, tried: bool, order: (nat, nat) -> seq<Key>, draws: nat -> nat, pos: nat,
                             clock: nat -> int, k: Key, used: nat)
    reads m
  {
    var stats, contents := if tried then m.triedStats else m.newStats, if tried then SliceOrder(m.tried) else order;
    exists idxs: seq<nat> ::
      Matching(stats, f, idxs) && Table(m, f, idxs, stats, contents) && Chosen(m, f, idxs, stats, contents, draws, pos, clock, k, used)
  }

  /** Chooses among the tried or among the new addresses. */
  method ChooseFrom(m: Manager, f: Filter, tried: bool, order: (nat, nat) -> seq<Key>, idxs: seq<nat>,
                    draws: nat -> nat, pos: nat, clock: nat -> int) returns (k: Key, used: nat)
    requires m.Valid() && Orders(m, order) && idxs != [] && Matching(if tried then m.triedStats else m.newStats, f, idxs)
    ensures k in m.index && Wants(f, m.index[k].na.addrType) && m.index[k].tried == tried && used <= 3 * (LAST_TRY + 1)
    ensures ChosenFrom(m, f, tried, order, draws, pos, clock, k, used)
  {
    hide HasWanted, Wants, EntriesOk, TriedBucketOk, NewBucketOk, Listed, Chosen;
    if tried {
      TriedTable(m, f, idxs);
      k, used := Choose(m, f, idxs, m.triedStats, SliceOrder(m.tried), draws, pos, clock);
      TriedSlotIsTried(m, k);
    } else {
      NewTable(m, f, idxs, order);
      k, used := Choose(m, f, idxs, m.newStats, order, draws, pos, clock);
      NewSlotIsNew(m, k);
    }
    TypeKnown(m, k);
  }

  /** An address comes back exactly when a wanted one is known, and it is one;
      no entry is missing where one is counted, no bound of a random draw is zero,
      and at most 82 random numbers are used.  A tried and a new address are
      equally likely where both exist. */
  method GetAddress(m: Manager, f: Filter, order: (nat, nat) -> seq<Key>, draws: nat -> nat, clock: nat -> int)
    returns (r: Option<Key>, used: nat)
    requires m.Valid() && Orders(m, order)
    ensures r.Some? <==> SomeWanted(m, f, true) || SomeWanted(m, f, false)
    ensures r.Some? ==> r.value in m.index && Wants(f, m.index[r.value].na.addrType)
    ensures r.Some? ==> m.index[r.value].tried ==
                        if SomeWanted(m, f, true) && SomeWanted(m, f, false) then IntN(draws(0), 2) == 0 else SomeWanted(m, f, true)
    ensures used <= 3 * (LAST_TRY + 1) + 1
    ensures r.Some? ==>
      var pos: nat := if SomeWanted(m, f, true) && SomeWanted(m, f, false) then 1 else 0;
      used >= pos && ChosenFrom(m, f, m.index[r.value].tried, order, draws, pos, clock, r.value, used - pos)
  {
    hide IntN, HasWanted, Wants, EntriesOk, TriedBucketOk, NewBucketOk, ChosenFrom;
    r, used := None, 0;
    if m.nTried + m.nNew == 0 {
      NothingKnown(m);
      return;
    }
    if !f.wantIPv4 && !f.wantIPv6 && !f.wantTorV3 {
      NothingWanted(m, f);
      return;
    }
    var triedIdxs := MatchingBuckets(m.triedStats, f);
    var newIdxs := MatchingBuckets(m.newStats, f);
    Populated(m, f);
    EmptyMatching(m.triedStats, f, triedIdxs);
    EmptyMatching(m.newStats, f, newIdxs);
    if triedIdxs == [] && newIdxs == [] { return; }
    var fromTried := triedIdxs != [];
    if triedIdxs != [] && newIdxs != [] {
      fromTried := IntN(draws(0), 2) == 0;
      used := 1;
    }
    var k, more := ChooseFrom(m, f, fromTried, order, if fromTried then triedIdxs else newIdxs, draws, used, clock);
    r, used := Some(k), used + more;
  }

  lemma EmptyMatching(stats: seq<Stats>, f: Filter, idxs: seq<nat>)
    requires Matching(stats, f, idxs)
    ensures idxs == [] <==> !exists b: nat :: b < |stats| && HasWanted(stats[b], f)
  {
    hide HasWanted;
    if idxs != [] { assert idxs[0] in idxs; }
    if b: nat :| b < |stats| && HasWanted(stats[b], f) { assert b in idxs; }
  }

  /** A tried bucket is a slice and is iterated in its own order. */
  function SliceOrder(tried: seq<seq<Key>>): (nat, nat) -> seq<Key> {
    (n: nat, b: nat) => if b < |tried| then tried[b] else []
  }

  lemma TriedTable(m: Manager, f: Filter, idxs: seq<nat>)
    requires m.Valid() && idxs != []
    requires forall b: nat :: b in idxs ==> b < |m.triedStats| && HasWanted(m.triedStats[b], f)
    ensures Table(m, f, idxs, m.triedStats, SliceOrder(m.tried))
  {
    hide HasWanted, StatsOfSeq, EntriesOk, BucketsOk, TotalsOk;
    forall n: nat, b: nat | b in idxs ensures Listed(m, m.triedStats[b], SliceOrder(m.tried)(n, b)) {
      assert TriedBucketOk(m.cfg, m.View(), b);
      forall x | x in m.tried[b] ensures m.index[x].na.addrType == m.cfg.typeOf(x) { TypeKnown(m, x); }
    }
  }

  lemma NewTable(m: Manager, f: Filter, idxs: seq<nat>, order: (nat, nat) -> seq<Key>)
    requires m.Valid() && Orders(m, order) && idxs != []
    requires forall b: nat :: b in idxs ==> b < |m.newStats| && HasWanted(m.newStats[b], f)
    ensures Table(m, f, idxs, m.newStats, order)
  {
    hide HasWanted, StatsOfSeq, StatsOf, EntriesOk, TriedOk, TotalsOk;
    forall n: nat, b: nat | b in idxs ensures Listed(m, m.newStats[b], order(n, b)) {
      assert NewBucketOk(m.cfg, m.View(), b);
      assert Enumerates(order(n, b), m.buckets[b]);
      StatsEnumerated(m.cfg, order(n, b), m.buckets[b]);
      forall x | x in order(n, b) ensures m.index[x].na.addrType == m.cfg.typeOf(x) { TypeKnown(m, x); }
    }
  }

  lemma WantedInBucket(cfg: Config, f: Filter, keys: set<Key>)
    ensures HasWanted(StatsOf(cfg, keys), f) <==> exists k :: k in keys && Wants(f, cfg.typeOf(k))
  {
    if k :| k in keys && Wants(f, cfg.typeOf(k)) {
      assert k in OfType(cfg, keys, cfg.typeOf(k));
    }
    if HasWanted(StatsOf(cfg, keys), f) {
      var t := if f.wantIPv4 && |OfType(cfg, keys, IPv4)| > 0 then IPv4
               else if f.wantIPv6 && |OfType(cfg, keys, IPv6)| > 0 then IPv6 else TorV3;
      var k :| k in OfType(cfg, keys, t);
      assert k in keys && Wants(f, cfg.typeOf(k));
    }
  }

  /** Statistics show a wanted type exactly when some address in them has it. */
  lemma Populated(m: Manager, f: Filter)
    requires m.Valid()
    ensures SomeWanted(m, f, false) <==> exists b: nat :: b < |m.newStats| && HasWanted(m.newStats[b], f)
    ensures SomeWanted(m, f, true) <==> exists b: nat :: b < |m.triedStats| && HasWanted(m.triedStats[b], f)
  {
    hide HasWanted, Wants, StatsOf, StatsOfSeq, LooseInv;
    if k :| k in m.index && !m.index[k].tried && Wants(f, m.index[k].na.addrType) { NewWantedIsCounted(m, f, k); }
    if k :| k in m.index && m.index[k].tried && Wants(f, m.index[k].na.addrType) { TriedWantedIsCounted(m, f, k); }
    forall b: nat | b < |m.newStats| && HasWanted(m.newStats[b], f) ensures SomeWanted(m, f, false) { NewCountedIsWanted(m, f, b); }
    forall b: nat | b < |m.triedStats| && HasWanted(m.triedStats[b], f) ensures SomeWanted(m, f, true) { TriedCountedIsWanted(m, f, b); }
  }

  lemma TriedWantedIsCounted(m: Manager, f: Filter, k: Key)
    requires m.Valid() && k in m.index && m.index[k].tried && Wants(f, m.index[k].na.addrType)
    ensures exists b: nat :: b < |m.triedStats| && HasWanted(m.triedStats[b], f)
  {
    hide HasWanted, Wants, StatsOfSeq, RefCount, SlotCount, BucketsOk, TotalsOk;
    var s := m.View();
    assert EntryOk(m.cfg, s, k, false);
    SlotCountWitness(s.tried, k, |s.tried|);
    var i: nat :| i < |s.tried| && k in s.tried[i];
    assert TriedBucketOk(m.cfg, s, i);
    TotalIsWanted(m.cfg, f, s.tried[i]);
    assert k in Wanted(m.cfg, f, s.tried[i]);
  }

  lemma NewWantedIsCounted(m: Manager, f: Filter, k: Key)
    requires m.Valid() && k in m.index && !m.index[k].tried && Wants(f, m.index[k].na.addrType)
    ensures exists b: nat :: b < |m.newStats| && HasWanted(m.newStats[b], f)
  {
    hide HasWanted, Wants, StatsOf, RefCount, SlotCount, TriedOk, TotalsOk;
    var s := m.View();
    assert EntryOk(m.cfg, s, k, false);
    RefCountWitness(s.buckets, k, |s.buckets|);
    var i: nat :| i < |s.buckets| && k in s.buckets[i];
    assert NewBucketOk(m.cfg, s, i);
    WantedInBucket(m.cfg, f, s.buckets[i]);
  }

  lemma NewCountedIsWanted(m: Manager, f: Filter, b: nat)
    requires m.Valid() && b < |m.newStats| && HasWanted(m.newStats[b], f)
    ensures SomeWanted(m, f, false)
  {
    hide HasWanted, Wants, StatsOf, EntriesOk, TriedOk, TotalsOk;
    assert NewBucketOk(m.cfg, m.View(), b);
    WantedInBucket(m.cfg, f, m.buckets[b]);
    var k :| k in m.buckets[b] && Wants(f, m.cfg.typeOf(k));
    TypeKnown(m, k);
    NewSlotIsNew(m, k);
  }

  lemma TriedCountedIsWanted(m: Manager, f: Filter, b: nat)
    requires m.Valid() && b < |m.triedStats| && HasWanted(m.triedStats[b], f)
    ensures SomeWanted(m, f, true)
  {
    hide HasWanted, Wants, StatsOfSeq, EntriesOk, BucketsOk, TotalsOk;
    assert TriedBucketOk(m.cfg, m.View(), b);
    TotalIsWanted(m.cfg, f, m.tried[b]);
    var k := Wanted(m.cfg, f, m.tried[b])[0];
    assert k in Wanted(m.cfg, f, m.tried[b]);
    TypeKnown(m, k);
    TriedSlotIsTried(m, k);
  }

  lemma NewSlotIsNew(m: Manager, k: Key)
    requires m.Valid() && k in m.index && exists b: nat :: b < |m.buckets| && k in m.buckets[b]
    ensures !m.index[k].tried
  {
    hide BucketsOk, TriedOk, TotalsOk, RefCount, SlotCount;
    assert EntryOk(m.cfg, m.View(), k, false);
    RefCountWitness(m.buckets, k, |m.buckets|);
  }

  lemma TriedSlotIsTried(m: Manager, k: Key)
    requires m.Valid() && k in m.index && exists b: nat :: b < |m.tried| && k in m.tried[b]
    ensures m.index[k].tried
  {
    hide BucketsOk, TriedOk, TotalsOk, RefCount, SlotCount;
    assert EntryOk(m.cfg, m.View(), k, false);
    SlotCountWitness(m.tried, k, |m.tried|);
  }

  lemma TypeKnown(m: Manager, k: Key)
    requires m.Valid() && k in m.index
    ensures m.index[k].na.addrType == m.cfg.typeOf(k)
  {
    hide BucketsOk, TriedOk, TotalsOk, RefCount, SlotCount;
    assert EntryOk(m.cfg, m.View(), k, false);
  }

  lemma NothingKnown(m: Manager)
    requires m.Valid() && m.nTried + m.nNew == 0
    ensures m.index == map[]
  {
    hide EntriesOk, BucketsOk, TriedOk;
    assert NewKeys(m.index) + TriedKeys(m.index) == m.index.Keys;
    assert m.index.Keys == {};
  }

  lemma NothingWanted(m: Manager, f: Filter)
    requires !f.wantIPv4 && !f.wantIPv6 && !f.wantTorV3
    ensures !SomeWanted(m, f, true) && !SomeWanted(m, f, false)
  {
  }
}
