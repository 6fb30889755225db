/** What goes into a pair's secrets: every key of the exchange, and generator inputs
    that no other pair of messages uses. */
module MixKeys {
  import opened Options
  import opened DcNet
  import opened KeyAgreement

  /** The shared key is the XOR of the ECDH key, the decapsulated key and, for another
      peer, the cleartext sent to it. */
  lemma SharedKeyBytes(v: View, peer: nat, t: nat)
    requires v.Counted() && peer < |v.mcounts| && v.Decapsulates(peer) && t < KEY_SIZE
    ensures v.SharedKey(peer)[t]
         == v.prims.ecdh(v.ecdhPrivate, v.keys.ecdhPublicKeys[peer])[t]
            ^ v.prims.decapsulate(v.keys.ciphertexts[peer], v.pqPrivate).value[t]
            ^ (if peer == v.keys.myIndex then 0 else v.cleartexts[peer][t])
  {
  }

  /** So the key hides behind each part alone: views of one peer whose keys differ in
      the ECDH key only, or in the decapsulated key only, or in the cleartext only,
      have different shared keys. */
  lemma EveryPartCounts(u: View, v: View, peer: nat)
    requires u.Counted() && v.Counted() && peer < |u.mcounts| && peer < |v.mcounts| && peer != u.keys.myIndex && peer != v.keys.myIndex
    requires u.Decapsulates(peer) && v.Decapsulates(peer)
    ensures var e, e' := u.prims.ecdh(u.ecdhPrivate, u.keys.ecdhPublicKeys[peer]), v.prims.ecdh(v.ecdhPrivate, v.keys.ecdhPublicKeys[peer]);
      var q, q' := u.prims.decapsulate(u.keys.ciphertexts[peer], u.pqPrivate).value, v.prims.decapsulate(v.keys.ciphertexts[peer], v.pqPrivate).value;
      var c, c' := u.cleartexts[peer], v.cleartexts[peer];
      && (q == q' && c == c' && u.SharedKey(peer) == v.SharedKey(peer) ==> e == e')
      && (e == e' && c == c' && u.SharedKey(peer) == v.SharedKey(peer) ==> q == q')
      && (e == e' && q == q' && u.SharedKey(peer) == v.SharedKey(peer) ==> c == c')
  {
    hide View.SharedKey;
    forall t | 0 <= t < KEY_SIZE
      ensures var e, e' := u.prims.ecdh(u.ecdhPrivate, u.keys.ecdhPublicKeys[peer]), v.prims.ecdh(v.ecdhPrivate, v.keys.ecdhPublicKeys[peer]);
        var q, q' := u.prims.decapsulate(u.keys.ciphertexts[peer], u.pqPrivate).value, v.prims.decapsulate(v.keys.ciphertexts[peer], v.pqPrivate).value;
        var c, c' := u.cleartexts[peer], v.cleartexts[peer];
        u.SharedKey(peer)[t] == e[t] ^ q[t] ^ c[t] && v.SharedKey(peer)[t] == e'[t] ^ q'[t] ^ c'[t]
    {
      SharedKeyBytes(u, peer, t);
      SharedKeyBytes(v, peer, t);
    }
  }

  function Max(i: nat, j: nat): nat { if i < j then j else i }
  function Min(i: nat, j: nat): nat { if i < j then i else j }

  /** The secrets of own message i and the peer's message j come from the generator
      seeded with session, shared key and the message of the lower peer, at the
      message of the higher peer; within one peer, with the greater message and at
      the lesser. */
  lemma CellInputs(v: View, key: Key, peer: nat, i: nat, j: nat)
    requires v.keys.myIndex != peer || i != j
    ensures var counter := if v.keys.myIndex < peer then i else if v.keys.myIndex > peer then j else Max(i, j);
      var nonce := if v.keys.myIndex < peer then j else if v.keys.myIndex > peer then i else Min(i, j);
      var seed := v.prims.seed(v.sid, key, counter);
      v.CellOf(key, peer, i, j) == Cell(v.prims.next(seed, nonce), v.prims.randVec(seed, nonce, v.Total()))
  {
  }

  /** No two pairs of messages of the same two peers use the same inputs. */
  lemma InputsDistinct(v: View, peer: nat, i: nat, j: nat, i': nat, j': nat)
    requires v.Counter(peer, i, j) == v.Counter(peer, i', j')
    ensures v.keys.myIndex != peer ==> i == i' && j == j'
    ensures v.keys.myIndex == peer ==> (i == i' && j == j') || (i == j' && j == i')
  {
  }

  /** Deriving the secrets fails exactly when a ciphertext that is needed does not open,
      and names the first: every other peer's, and one's own only with several messages. */
  lemma FailsOnNeeded(v: View, q: nat)
    requires v.Counted() && q < |v.mcounts|
    ensures v.FirstFailure(0) == Some(q) <==>
      && !v.Decapsulates(q) && (q == v.keys.myIndex ==> v.mcounts[q] != 1)
      && forall p :: 0 <= p < q && !v.Decapsulates(p) ==> p == v.keys.myIndex && v.mcounts[p] == 1
  {
    hide View.Decapsulates;
    var f := v.FirstFailure(0);
    assert f.Some? && f.value < q ==> !v.Decapsulates(f.value);
  }

  /** A peer with one message never opens the ciphertext it sent to itself. */
  lemma OwnCiphertextUnused(v: View, c: Bytes, sr: seq<seq<Bytes>>, dc: seq<seq<Vec>>)
    requires v.Counted() && v.MyCount() == 1
    ensures var w := v.(keys := v.keys.(ciphertexts := v.keys.ciphertexts[v.keys.myIndex := c]));
      w.FirstFailure(0) == v.FirstFailure(0) && (w.AreSecrets(sr, dc) <==> v.AreSecrets(sr, dc))
  {
    var w := v.(keys := v.keys.(ciphertexts := v.keys.ciphertexts[v.keys.myIndex := c]));
    SameFailure(v, w, 0);
    if v.AreSecrets(sr, dc) { SameRows(v, w, sr, dc); }
    if w.AreSecrets(sr, dc) { SameRows(w, v, sr, dc); }
  }

  lemma {:induction false} SameFailure(v: View, w: View, peer: nat)
    requires v.Counted() && w.Counted() && w.mcounts == v.mcounts && w.keys.myIndex == v.keys.myIndex && peer <= |v.mcounts|
    requires forall q :: 0 <= q < |v.mcounts| && !v.Skipped(q) ==> (w.Decapsulates(q) <==> v.Decapsulates(q))
    ensures w.FirstFailure(peer) == v.FirstFailure(peer)
    decreases |v.mcounts| - peer
  {
    hide View.Decapsulates;
    if peer < |v.mcounts| { SameFailure(v, w, peer + 1); }
  }

  lemma SameRows(v: View, w: View, sr: seq<seq<Bytes>>, dc: seq<seq<Vec>>)
    requires v.Counted() && w.Counted() && v.MyCount() == 1 && v.AreSecrets(sr, dc)
    requires w == v.(keys := w.keys) && v.keys == w.keys.(ciphertexts := v.keys.ciphertexts)
    requires forall q :: 0 <= q < |v.mcounts| && q != v.keys.myIndex ==> w.keys.ciphertexts[q] == v.keys.ciphertexts[q]
    ensures w.AreSecrets(sr, dc)
  {
    hide XorBytes, Offset;
    forall i, peer, j | 0 <= i < w.MyCount() && 0 <= peer < |w.mcounts| && 0 <= j < w.mcounts[peer]
      ensures w.CellOf(w.SharedKey(peer), peer, i, j) == v.CellOf(v.SharedKey(peer), peer, i, j)
    {
    }
    forall i | 0 <= i < w.MyCount() ensures w.IsRow(sr[i], dc[i], i) {
      assert v.IsRow(sr[i], dc[i], i);
    }
  }
}
