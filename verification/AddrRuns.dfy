/** Every run of the address manager's operations, from a fresh manager. */
module AddrRuns {
  import opened AddrState
  import opened AddrSteps
  import opened AddrOps
  import opened AddrGood

  function Fresh(): State {
    State(map[], seq(NEW_BUCKET_COUNT, _ => {}), seq(NEW_BUCKET_COUNT, _ => Stats(0, 0, 0)),
          seq(TRIED_BUCKET_COUNT, _ => []), seq(TRIED_BUCKET_COUNT, _ => Stats(0, 0, 0)), 0, 0, true)
  }

  function Attempted(ka: KnownAddress, now: int): KnownAddress {
    ka.(attempts := ka.attempts + 1, lastAttempt := now)
  }

  /** The time seen moves forward once twenty minutes have passed. */
  function ConnectedAt(ka: KnownAddress, now: int): KnownAddress {
    if now > ka.na.timestamp + 20 * MINUTE then ka.(na := ka.na.(timestamp := now)) else ka
  }

  function WithServices(ka: KnownAddress, services: set<nat>): KnownAddress {
    if ka.na.services != services then ka.(na := ka.na.(services := services)) else ka
  }

  datatype Op =
    | Add(na: NetAddress, src: NetAddress, draw: nat, order: seq<Key>, clock: Key -> int)
    | MarkGood(key: Key, now: int)
    | Attempt(key: Key, now: int)
    | Connected(key: Key, now: int)
    | SetServices(key: Key, services: set<nat>)

  /** What the environment provides: an added address has the type its key says,
      and the iteration order is one of the bucket as it is. */
  ghost predicate Provided(cfg: Config, s: State, op: Op) {
    op.Add? ==>
      && op.na.addrType == cfg.typeOf(op.na.key)
      && (Shaped(s) ==> Enumerates(op.order, s.buckets[NewBucket(cfg, op.na, op.src)]))
  }

  /** One operation, on any state whatever. */
  ghost function Step(cfg: Config, s: State, op: Op): Stepped<State>
    requires Provided(cfg, s, op)
  {
    if !Shaped(s) then Panic
    else match op
      case Add(na, src, draw, order, clock) => AddOrUpdate(cfg, s, na, src, draw, order, clock)
      case MarkGood(key, now) => (match Good(cfg, s, key, now) case Ok(r) => Ok(r.0) case Panic => Panic)
      case Attempt(key, now) => Ok(if key in s.index then Touch(s, key, Attempted(s.index[key], now)) else s)
      case Connected(key, now) => Ok(if key in s.index then Touch(s, key, ConnectedAt(s.index[key], now)) else s)
      case SetServices(key, services) => Ok(if key in s.index then Touch(s, key, WithServices(s.index[key], services)) else s)
  }

  lemma FreshOk(cfg: Config)
    requires SizeOk(cfg)
    ensures Inv(cfg, Fresh())
  {
    hide RefCount, SlotCount;
    var s := Fresh();
    assert NewKeys(s.index) == {} && TriedKeys(s.index) == {};
    assert OfType(cfg, {}, IPv4) == {} && OfType(cfg, {}, IPv6) == {} && OfType(cfg, {}, TorV3) == {};
  }

  lemma InvShaped(cfg: Config, s: State)
    requires Inv(cfg, s)
    ensures Shaped(s)
  {
  }

  /** On a state in order no operation panics, and every operation leaves one. */
  lemma StepKeeps(cfg: Config, s: State, op: Op)
    requires Inv(cfg, s) && Provided(cfg, s, op)
    ensures Step(cfg, s, op).Ok? && Inv(cfg, Step(cfg, s, op).value)
  {
    hide LooseInv, AddOrUpdate, Good;
    InvShaped(cfg, s);
    match op
    case Add(na, src, draw, order, clock) => AddKeeps(cfg, s, na, src, draw, order, clock);
    case MarkGood(key, now) => GoodKeeps(cfg, s, key, now);
    case Attempt(key, now) => if key in s.index { TouchKeeps(cfg, s, {}, key, Attempted(s.index[key], now)); }
    case Connected(key, now) => if key in s.index { TouchKeeps(cfg, s, {}, key, ConnectedAt(s.index[key], now)); }
    case SetServices(key, services) => if key in s.index { TouchKeeps(cfg, s, {}, key, WithServices(s.index[key], services)); }
  }

  /** A run from a new manager: each operation takes one state to the next.  That
      the states are in order is no part of it. */
  ghost predicate IsRun(cfg: Config, states: seq<State>, ops: seq<Op>) {
    && SizeOk(cfg) && |states| == |ops| + 1 && states[0] == Fresh()
    && forall i :: 0 <= i < |ops| ==> Provided(cfg, states[i], ops[i]) && Step(cfg, states[i], ops[i]) == Ok(states[i + 1])
  }

  /** In every reachable state the index, the buckets, the reference counts, the
      bucket statistics and the totals agree. */
  lemma RunKeeps(cfg: Config, states: seq<State>, ops: seq<Op>)
    requires IsRun(cfg, states, ops)
    ensures forall s :: s in states ==> Inv(cfg, s)
  {
    hide Inv, Step, Provided;
    FreshOk(cfg);
    for i := 0 to |ops|
      invariant forall j :: 0 <= j <= i ==> Inv(cfg, states[j])
    {
      assert Provided(cfg, states[i], ops[i]);
      StepKeeps(cfg, states[i], ops[i]);
    }
  }

  /** No run ends in a panic: whatever comes next, there is a next state. */
  lemma RunNeverPanics(cfg: Config, states: seq<State>, ops: seq<Op>, s: State, op: Op)
    requires IsRun(cfg, states, ops) && s in states && Provided(cfg, s, op)
    ensures Step(cfg, s, op).Ok?
  {
    hide Inv, Step, IsRun;
    RunKeeps(cfg, states, ops);
    StepKeeps(cfg, s, op);
  }

  ghost predicate Reachable(cfg: Config, s: State) {
    exists states: seq<State>, ops: seq<Op> :: IsRun(cfg, states, ops) && states[|ops|] == s
  }

  lemma ReachableNext(cfg: Config, s: State, op: Op)
    requires Reachable(cfg, s) && Provided(cfg, s, op) && Step(cfg, s, op).Ok?
    ensures Reachable(cfg, Step(cfg, s, op).value)
  {
    hide Provided, Step;
    var states: seq<State>, ops: seq<Op> :| IsRun(cfg, states, ops) && states[|ops|] == s;
    var longer, more := states + [Step(cfg, s, op).value], ops + [op];
    forall i | 0 <= i < |more| ensures Provided(cfg, longer[i], more[i]) && Step(cfg, longer[i], more[i]) == Ok(longer[i + 1]) {
      if i < |ops| { assert ops[i] == more[i] && states[i] == longer[i] && states[i + 1] == longer[i + 1]; }
    }
    assert IsRun(cfg, longer, more);
  }

  lemma ReachableStart(cfg: Config)
    requires SizeOk(cfg)
    ensures Reachable(cfg, Fresh())
  {
    assert IsRun(cfg, [Fresh()], []);
  }

  /** The counters never leave the range of their 16 bits, so they never wrap, and
      the totals count every known address exactly once. */
  lemma CountersExact(cfg: Config, s: State)
    requires Inv(cfg, s)
    ensures s.nNew + s.nTried == |s.index|
    ensures forall i :: 0 <= i < NEW_BUCKET_COUNT ==> s.newStats[i].ipv4 + s.newStats[i].ipv6 + s.newStats[i].torV3 <= NEW_BUCKET_SIZE + 1
  {
    hide EntriesOk, RefCount, SlotCount, TriedOk, OfType;
    var n, t := NewKeys(s.index), TriedKeys(s.index);
    assert n + t == s.index.Keys && n !! t;
    assert |s.index.Keys| == |s.index|;
    forall i | 0 <= i < NEW_BUCKET_COUNT
      ensures s.newStats[i].ipv4 + s.newStats[i].ipv6 + s.newStats[i].torV3 <= NEW_BUCKET_SIZE + 1
    {
      assert NewBucketOk(cfg, s, i);
      TypesFit(cfg, s.buckets[i]);
    }
  }

  lemma TypesFit(cfg: Config, keys: set<Key>)
    ensures StatsOf(cfg, keys).ipv4 + StatsOf(cfg, keys).ipv6 + StatsOf(cfg, keys).torV3 <= |keys|
  {
    var a, b, c := OfType(cfg, keys, IPv4), OfType(cfg, keys, IPv6), OfType(cfg, keys, TorV3);
    assert |a + b| == |a| + |b| && |a + b + c| == |a| + |b| + |c|;
    SubsetSize(a + b + c, keys);
  }
}
