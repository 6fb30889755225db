/** A mixing session carried out: every peer encapsulates, derives its secrets and
    publishes its vectors, and the messages come back.  Of the primitives it is
    only assumed that both sides of an exchange agree. */
module MixRun {
  import opened Options
  import opened Field
  import opened Newton
  import opened SlotReservation
  import opened DcNet
  import opened KeyAgreement
  import opened MixSession

  /** The key pairs of one peer. */
  datatype KeyPairs = KeyPairs(ecdhPrivate: Bytes, ecdhPublic: Bytes, pqPrivate: Bytes, pqPublic: Bytes)

  /** ECDH is symmetric, decapsulation inverts encapsulation, and the generator
      returns vectors of the length asked for. */
  ghost predicate Agree(prims: Primitives, keys: seq<KeyPairs>) {
    && (forall a, b :: 0 <= a < |keys| && 0 <= b < |keys| ==>
          prims.ecdh(keys[a].ecdhPrivate, keys[b].ecdhPublic) == prims.ecdh(keys[b].ecdhPrivate, keys[a].ecdhPublic))
    && (forall a, draw: nat :: 0 <= a < |keys| ==> Opens(prims, keys[a], draw))
    && (forall seed, nonce, n :: |prims.randVec(seed, nonce, n)| == n)
  }

  ghost predicate Opens(prims: Primitives, k: KeyPairs, draw: nat) {
    var r := prims.encapsulate(k.pqPublic, draw);
    r.Some? && prims.decapsulate(r.value.0, k.pqPrivate) == Some(r.value.1)
  }

  function PqPublics(keys: seq<KeyPairs>): (pks: seq<Bytes>)
    ensures |pks| == |keys|
  {
    seq(|keys|, a requires 0 <= a < |keys| => keys[a].pqPublic)
  }

  /** What peer a ends up with after encapsulating. */
  ghost predicate Encapsulated(prims: Primitives, keys: seq<KeyPairs>, peer: Peer, a: nat)
    requires a < |keys|
  {
    && peer.ecdhPrivate == keys[a].ecdhPrivate && peer.ecdhPublic == keys[a].ecdhPublic && peer.pqPrivate == keys[a].pqPrivate
    && |peer.cleartexts| == |peer.ciphertexts| == |keys|
    && forall b :: 0 <= b < |keys| ==>
         prims.decapsulate(peer.ciphertexts[b], keys[b].pqPrivate) == Some(peer.cleartexts[b])
  }

  /** One peer's key exchange object after encapsulation. */
  method Encapsulate(prims: Primitives, keys: seq<KeyPairs>, a: nat, draw: nat) returns (kx: KX, peer: Peer)
    requires Agree(prims, keys) && a < |keys|
    ensures fresh(kx) && kx.prims == prims && kx.ecdhPrivate == peer.ecdhPrivate && kx.pqPrivate == peer.pqPrivate
    ensures kx.pqCleartexts == peer.cleartexts && Encapsulated(prims, keys, peer, a)
  {
    kx := new KX(prims, keys[a].ecdhPrivate, keys[a].pqPrivate);
    var pks := PqPublics(keys);
    forall b | 0 <= b < |pks| ensures prims.encapsulate(pks[b], draw + b).Some? { assert Opens(prims, keys[b], draw + b); }
    var cts := kx.Encapsulate(draw, pks);
    peer := Peer(keys[a].ecdhPrivate, keys[a].ecdhPublic, keys[a].pqPrivate, kx.pqCleartexts, cts.value);
    forall b | 0 <= b < |keys|
      ensures prims.decapsulate(peer.ciphertexts[b], keys[b].pqPrivate) == Some(peer.cleartexts[b])
    {
      assert Opens(prims, keys[b], draw + b);
      assert prims.encapsulate(pks[b], draw + b) == Some((peer.ciphertexts[b], peer.cleartexts[b]));
    }
  }

  lemma SessionHonest(prims: Primitives, keys: seq<KeyPairs>, s: Session)
    requires Agree(prims, keys) && s.prims == prims && |s.peers| == |s.mcounts| == |keys|
    requires forall a :: 0 <= a < |keys| ==> Encapsulated(prims, keys, s.peers[a], a)
    ensures s.Honest()
  {
    forall a | 0 <= a < |keys| ensures |s.peers[a].cleartexts| == |s.peers[a].ciphertexts| == |s.peers| {
      assert Encapsulated(prims, keys, s.peers[a], a);
    }
    forall a, b | 0 <= a < |keys| && 0 <= b < |keys|
      ensures prims.ecdh(s.peers[a].ecdhPrivate, s.peers[b].ecdhPublic) == prims.ecdh(s.peers[b].ecdhPrivate, s.peers[a].ecdhPublic)
      ensures prims.decapsulate(s.peers[a].ciphertexts[b], s.peers[b].pqPrivate) == Some(s.peers[a].cleartexts[b])
    {
      assert Encapsulated(prims, keys, s.peers[a], a) && Encapsulated(prims, keys, s.peers[b], b);
    }
  }

  /** What is revealed to one peer: all public keys, and the ciphertexts made for it. */
  function Revealed(peers: seq<Peer>, a: nat): RevealedKeys
    requires forall b :: 0 <= b < |peers| ==> a < |peers[b].ciphertexts|
  {
    RevealedKeys(seq(|peers|, b requires 0 <= b < |peers| => peers[b].ecdhPublic),
                 seq(|peers|, b requires 0 <= b < |peers| => peers[b].ciphertexts[a]), a)
  }

  /** One peer derives its secrets; it sees no error. */
  method DeriveSecrets(kx: KX, s: Session, a: nat) returns (sr: seq<seq<Bytes>>, dc: seq<seq<Vec>>)
    requires s.Honest() && a < |s.peers| && Holds(kx, s.prims, s.peers[a])
    ensures s.ViewOf(a).AreSecrets(sr, dc)
  {
    hide View.AreSecrets, View.FirstFailure;
    var k := Revealed(s.peers, a);
    assert kx.ViewOf(k, s.sid, s.mcounts) == s.ViewOf(a);
    HonestDecapsulates(s, a, a);
    var r := kx.Secrets(k, s.sid, s.mcounts);
    sr, dc := r.sr, r.dc;
  }

  method DeriveTables(kxs: seq<KX>, s: Session) returns (sr: seq<seq<seq<Bytes>>>, dc: seq<seq<seq<Vec>>>)
    requires s.Honest() && |kxs| == |s.peers| && forall a :: 0 <= a < |kxs| ==> Holds(kxs[a], s.prims, s.peers[a])
    ensures Tables(s, sr, dc)
  {
    hide View.AreSecrets;
    sr, dc := [], [];
    for a := 0 to |kxs|
      invariant |sr| == |dc| == a
      invariant forall b :: 0 <= b < a ==> s.ViewOf(b).AreSecrets(sr[b], dc[b])
    {
      var srA, dcA := DeriveSecrets(kxs[a], s, a);
      sr, dc := sr + [srA], dc + [dcA];
    }
  }

  /** All peers exchange keys; none sees an error and all get their tables. */
  method Exchange(prims: Primitives, keys: seq<KeyPairs>, draws: seq<nat>, sid: Bytes, mcounts: seq<nat>)
    returns (sr: seq<seq<seq<Bytes>>>, dc: seq<seq<seq<Vec>>>, s: Session)
    requires Agree(prims, keys) && |draws| == |mcounts| == |keys|
    ensures s.prims == prims && s.mcounts == mcounts && s.Honest() && Tables(s, sr, dc)
  {
    hide Agree, Encapsulated, Tables, Session.Honest;
    var kxs: seq<KX>, peers: seq<Peer> := [], [];
    for a := 0 to |keys|
      invariant |kxs| == |peers| == a
      invariant forall b :: 0 <= b < a ==> Encapsulated(prims, keys, peers[b], b)
      invariant forall b :: 0 <= b < a ==> Holds(kxs[b], prims, peers[b])
    {
      var kx, peer := Encapsulate(prims, keys, a, draws[a]);
      kxs, peers := kxs + [kx], peers + [peer];
    }
    s := Session(prims, sid, mcounts, peers);
    SessionHonest(prims, keys, s);
    sr, dc := DeriveTables(kxs, s);
  }

  ghost predicate Holds(kx: KX, prims: Primitives, peer: Peer)
    reads kx
  {
    kx.prims == prims && kx.ecdhPrivate == peer.ecdhPrivate && kx.pqPrivate == peer.pqPrivate && kx.pqCleartexts == peer.cleartexts
  }

  /** Slot reservation over all positions: the recovered polynomial. */
  method ReserveSlots(secrets: seq<seq<Bytes>>, ms: seq<int>, p: nat, h: PadHash) returns (a: seq<int>)
    requires p > 0 && |ms| == |secrets| && Symmetric(secrets) && Divisible(|ms|, p)
    ensures a == CoefficientsOf(Sums(Published(secrets, ms, p, h), p), p)
  {
    var vs: seq<seq<int>> := [];
    for x := 0 to |ms|
      invariant |vs| == x && forall y :: 0 <= y < x ==> vs[y] == Mix(ms[y], Pads(secrets[y], y, p, h), p)
    {
      var pads := SRMixPads(secrets[x], x, p, h);
      var mix := SRMix(ms[x], pads, p);
      vs := vs + [mix];
    }
    assert vs == Published(secrets, ms, p, h);
    var sums := AddVectors(vs, p);
    a := Coefficients(sums, p);
  }

  /** The XOR exchange over all positions. */
  method ExchangeMessages(secrets: seq<seq<Vec>>, msgs: seq<Block>, slots: seq<nat>) returns (res: Vec)
    requires VecSecrets(secrets) && |msgs| == |slots| == |secrets|
    requires forall a :: 0 <= a < |slots| ==> slots[a] < |slots|
    ensures res == XorAll(DcPublished(secrets, msgs, slots), |msgs|, -1, |msgs|)
  {
    var vs: seq<Vec> := [];
    for x := 0 to |msgs|
      invariant |vs| == x && forall y :: 0 <= y < x ==> vs[y] == DcPublished(secrets, msgs, slots)[y]
    {
      var pads := DCMixPads(secrets[x], x);
      var mix := DCMix(pads, msgs[x], slots[x]);
      vs := vs + [mix];
    }
    assert vs == DcPublished(secrets, msgs, slots);
    if vs == [] { return []; }
    res := XorVectors(vs);
  }

  /** The whole session, from key pairs to messages: for every field element, being
      a root of the polynomial is being a reservation, and every message stands in
      its slot. */
  method RunSession(prims: Primitives, keys: seq<KeyPairs>, draws: seq<nat>, sid: Bytes, mcounts: seq<nat>,
                    p: nat, h: PadHash, ms: seq<int>, msgs: seq<Block>, slots: seq<nat>)
    returns (a: seq<int>, res: Vec)
    requires Agree(prims, keys) && |draws| == |mcounts| == |keys|
    requires Prime(p) && Offset(mcounts, |mcounts|) < p
    requires |ms| == |msgs| == |slots| == Offset(mcounts, |mcounts|)
    requires forall k :: 0 <= k < |ms| ==> InField(ms[k], p)
    requires forall k :: 0 <= k < |slots| ==> slots[k] < |slots|
    requires forall k, l :: 0 <= k < l < |slots| ==> slots[k] != slots[l]
    ensures forall x :: InField(x, p) ==> (Eqm(Eval(a, x), 0, p) <==> x in ms)
    ensures |res| == |msgs| && forall k :: 0 <= k < |msgs| ==> res[slots[k]] == msgs[k]
  {
    hide Agree, Tables;
    var sr, dc, s := Exchange(prims, keys, draws, sid, mcounts);
    SessionRecoversMessages(s, sr, dc, p, h, ms, 0, msgs, slots);
    var K, D := Concat(sr), Concat(dc);
    a := ReserveSlots(K, ms, p, h);
    res := ExchangeMessages(D, msgs, slots);
    forall x | InField(x, p) ensures Eqm(Eval(a, x), 0, p) <==> x in ms {
      SlotReservationRecoversMessages(K, ms, x, p, h);
    }
  }
}
