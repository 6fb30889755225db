/** A whole mixing session between honest peers: key agreement, slot
    reservation and the XOR DC-net put together. */
module MixSession {
  import opened Options
  import opened Field
  import opened Newton
  import opened SlotReservation
  import opened DcNet
  import opened KeyAgreement

  datatype Peer = Peer(ecdhPrivate: Bytes, ecdhPublic: Bytes, pqPrivate: Bytes,
                       cleartexts: seq<Key>, ciphertexts: seq<Bytes>)

  datatype Session = Session(prims: Primitives, sid: Bytes, mcounts: seq<nat>, peers: seq<Peer>) {

    /** ECDH is symmetric, every KEM ciphertext opens to the cleartext its maker
        kept, and the generator returns vectors of the length asked for. */
    ghost predicate Honest() {
      && |peers| == |mcounts|
      && (forall a :: 0 <= a < |peers| ==> |peers[a].cleartexts| == |peers[a].ciphertexts| == |peers|)
      && (forall a, b :: 0 <= a < |peers| && 0 <= b < |peers| ==>
            prims.ecdh(peers[a].ecdhPrivate, peers[b].ecdhPublic) == prims.ecdh(peers[b].ecdhPrivate, peers[a].ecdhPublic))
      && (forall a, b :: 0 <= a < |peers| && 0 <= b < |peers| ==>
            prims.decapsulate(peers[a].ciphertexts[b], peers[b].pqPrivate) == Some(peers[a].cleartexts[b]))
      && (forall seed, nonce, n :: |prims.randVec(seed, nonce, n)| == n)
    }

    ghost function ViewOf(a: nat): (v: View)
      requires Honest() && a < |peers|
      ensures v.Counted()
    {
      View(prims, peers[a].ecdhPrivate, peers[a].pqPrivate, peers[a].cleartexts,
           RevealedKeys(seq(|peers|, b requires 0 <= b < |peers| => peers[b].ecdhPublic),
                        seq(|peers|, b requires 0 <= b < |peers| => peers[b].ciphertexts[a]), a),
           sid, mcounts)
    }

    function Total(): nat { Offset(mcounts, |mcounts|) }
  }

  lemma XorSwap(a: Bytes, b: Bytes, c: Bytes)
    requires |a| == |b| == |c|
    ensures XorBytes(XorBytes(a, b), c) == XorBytes(XorBytes(a, c), b)
  {
    forall i | 0 <= i < |a| ensures XorBytes(XorBytes(a, b), c)[i] == XorBytes(XorBytes(a, c), b)[i] {
      assert (a[i] ^ b[i]) ^ c[i] == (a[i] ^ c[i]) ^ b[i];
    }
  }

  /** No honest peer sees a decapsulation failure. */
  lemma HonestDecapsulates(s: Session, a: nat, b: nat)
    requires s.Honest() && a < |s.peers| && b < |s.peers|
    ensures s.ViewOf(a).Decapsulates(b)
    ensures s.ViewOf(a).FirstFailure(0).None?
  {
    var v := s.ViewOf(a);
    forall q | 0 <= q < |s.peers| ensures v.Decapsulates(q) {
      assert v.keys.ciphertexts[q] == s.peers[q].ciphertexts[a];
    }
  }

  lemma SharedKeysAgree(s: Session, a: nat, b: nat)
    requires s.Honest() && a < |s.peers| && b < |s.peers|
    ensures s.ViewOf(a).SharedKey(b) == s.ViewOf(b).SharedKey(a)
  {
    var u, v := s.ViewOf(a), s.ViewOf(b);
    assert u.keys.ciphertexts[b] == s.peers[b].ciphertexts[a] && v.keys.ciphertexts[a] == s.peers[a].ciphertexts[b];
    assert u.keys.ecdhPublicKeys[b] == s.peers[b].ecdhPublic && v.keys.ecdhPublicKeys[a] == s.peers[a].ecdhPublic;
    if a != b {
      XorSwap(s.prims.ecdh(s.peers[a].ecdhPrivate, s.peers[b].ecdhPublic),
              s.peers[b].cleartexts[a], s.peers[a].cleartexts[b]);
    }
  }

  /** Peer a for its message i and peer b for its message j derive the same
      secrets, also when a == b and i != j. */
  lemma SecretsAgree(s: Session, a: nat, i: nat, b: nat, j: nat)
    requires s.Honest() && a < |s.peers| && b < |s.peers| && (a != b || i != j)
    ensures s.ViewOf(a).CellOf(s.ViewOf(a).SharedKey(b), b, i, j)
         == s.ViewOf(b).CellOf(s.ViewOf(b).SharedKey(a), a, j, i)
  {
    SharedKeysAgree(s, a, b);
    assert s.ViewOf(a).Counter(b, i, j) == s.ViewOf(b).Counter(a, j, i);
  }

  // ---- all peers' tables as one matrix ---------------------------------------------

  function Concat<T>(xs: seq<seq<T>>): seq<T> {
    if xs == [] then [] else Concat(xs[..|xs| - 1]) + xs[|xs| - 1]
  }

  ghost predicate Sized<T>(xs: seq<seq<T>>, mcounts: seq<nat>) {
    |xs| == |mcounts| && forall a :: 0 <= a < |xs| ==> |xs[a]| == mcounts[a]
  }

  lemma {:induction false} OffsetPrefix(mcounts: seq<nat>, n: nat, a: nat)
    requires a <= n <= |mcounts|
    ensures Offset(mcounts[..n], a) == Offset(mcounts, a)
  {
    if a > 0 { OffsetPrefix(mcounts, n, a - 1); }
  }

  lemma {:induction false} ConcatAt<T>(xs: seq<seq<T>>, mcounts: seq<nat>, a: nat, i: nat)
    requires Sized(xs, mcounts) && a < |xs| && i < mcounts[a]
    ensures |Concat(xs)| == Offset(mcounts, |mcounts|)
    ensures Offset(mcounts, a) + i < |Concat(xs)| && Concat(xs)[Offset(mcounts, a) + i] == xs[a][i]
    decreases |xs|
  {
    var n := |xs| - 1;
    var ys, ns := xs[..n], mcounts[..n];
    ConcatSize(ys, ns);
    OffsetPrefix(mcounts, n, n);
    if a < n {
      ConcatAt(ys, ns, a, i);
      OffsetPrefix(mcounts, n, a);
    }
  }

  lemma {:induction false} ConcatSize<T>(xs: seq<seq<T>>, mcounts: seq<nat>)
    requires Sized(xs, mcounts)
    ensures |Concat(xs)| == Offset(mcounts, |mcounts|)
    decreases |xs|
  {
    if xs != [] {
      var n := |xs| - 1;
      ConcatSize(xs[..n], mcounts[..n]);
      OffsetPrefix(mcounts, n, n);
    }
  }

  /** Every global position belongs to one peer's message. */
  lemma {:induction false} Locate(mcounts: seq<nat>, n: nat, x: nat) returns (a: nat, i: nat)
    requires n <= |mcounts| && x < Offset(mcounts, n)
    ensures a < n && i < mcounts[a] && x == Offset(mcounts, a) + i
  {
    if x >= Offset(mcounts, n - 1) {
      a, i := n - 1, x - Offset(mcounts, n - 1);
    } else {
      a, i := Locate(mcounts, n - 1, x);
    }
  }

  /** The tables every peer computed. */
  ghost predicate Tables(s: Session, sr: seq<seq<seq<Bytes>>>, dc: seq<seq<seq<Vec>>>)
    requires s.Honest()
  {
    && |sr| == |dc| == |s.peers|
    && forall a :: 0 <= a < |s.peers| ==> s.ViewOf(a).AreSecrets(sr[a], dc[a])
  }

  lemma TablesSized(s: Session, sr: seq<seq<seq<Bytes>>>, dc: seq<seq<seq<Vec>>>)
    requires s.Honest() && Tables(s, sr, dc)
    ensures Sized(sr, s.mcounts) && Sized(dc, s.mcounts)
    ensures |Concat(sr)| == |Concat(dc)| == s.Total()
  {
    forall a | 0 <= a < |s.peers| ensures |sr[a]| == |dc[a]| == s.mcounts[a] {
      assert s.ViewOf(a).MyCount() == s.mcounts[a];
    }
    ConcatSize(sr, s.mcounts);
    ConcatSize(dc, s.mcounts);
  }

  lemma RowEntry(v: View, sr: seq<Bytes>, dc: seq<Vec>, i: nat, b: nat, j: nat)
    requires v.Counted() && v.IsRow(sr, dc, i) && b < |v.mcounts| && j < v.mcounts[b]
    ensures var y, c := Offset(v.mcounts, b) + j, v.CellOf(v.SharedKey(b), b, i, j);
      && y < v.Total() == |sr| == |dc|
      && sr[y] == c.sr && dc[y] == c.dc
  {
    OffsetMonotone(v.mcounts, b, |v.mcounts|);
    var c := v.CellOf(v.SharedKey(b), b, i, j);
    assert At(sr, v.mcounts, b, j) == Some(c.sr) && At(dc, v.mcounts, b, j) == Some(c.dc);
  }

  lemma CellSize(s: Session, a: nat, i: nat, b: nat, j: nat)
    requires s.Honest() && a < |s.peers| && b < |s.peers| && (a != b || i != j)
    ensures |s.ViewOf(a).CellOf(s.ViewOf(a).SharedKey(b), b, i, j).dc| == s.Total()
  {
  }

  /** Peer a's entry for b's message j is peer b's entry for a's message i. */
  lemma EntriesAgree(u: View, i: nat, srA: seq<Bytes>, dcA: seq<Vec>, v: View, j: nat, srB: seq<Bytes>, dcB: seq<Vec>)
    requires u.Counted() && v.Counted() && u.mcounts == v.mcounts
    requires i < u.MyCount() && u.IsRow(srA, dcA, i) && j < v.MyCount() && v.IsRow(srB, dcB, j)
    requires u.CellOf(u.SharedKey(v.keys.myIndex), v.keys.myIndex, i, j)
          == v.CellOf(v.SharedKey(u.keys.myIndex), u.keys.myIndex, j, i)
    ensures var x, y := Offset(u.mcounts, u.keys.myIndex) + i, Offset(u.mcounts, v.keys.myIndex) + j;
      && x < |srB| == |dcB| == u.Total() && y < |srA| == |dcA| == u.Total()
      && srA[y] == srB[x] && dcA[y] == dcB[x]
      && dcA[y] == u.CellOf(u.SharedKey(v.keys.myIndex), v.keys.myIndex, i, j).dc
  {
    RowEntry(u, srA, dcA, i, v.keys.myIndex, j);
    RowEntry(v, srB, dcB, j, u.keys.myIndex, i);
  }

  /** The row at the global position of peer a's message i is peer a's. */
  ghost predicate OwnersRow(s: Session, K: seq<seq<Bytes>>, D: seq<seq<Vec>>, a: nat, i: nat)
    requires s.Honest() && a < |s.peers|
  {
    var x := Offset(s.mcounts, a) + i;
    x < |K| && x < |D| && s.ViewOf(a).IsRow(K[x], D[x], i)
  }

  ghost predicate Matrices(s: Session, K: seq<seq<Bytes>>, D: seq<seq<Vec>>)
    requires s.Honest()
  {
    && |K| == |D| == s.Total()
    && forall a, i :: 0 <= a < |s.peers| && 0 <= i < s.mcounts[a] ==> OwnersRow(s, K, D, a, i)
  }

  lemma TableRow(s: Session, sr: seq<seq<seq<Bytes>>>, dc: seq<seq<seq<Vec>>>, a: nat, i: nat)
    requires s.Honest() && Sized(sr, s.mcounts) && Sized(dc, s.mcounts)
    requires a < |s.peers| && i < s.mcounts[a] && s.ViewOf(a).AreSecrets(sr[a], dc[a])
    ensures OwnersRow(s, Concat(sr), Concat(dc), a, i)
  {
    ConcatAt(sr, s.mcounts, a, i);
    ConcatAt(dc, s.mcounts, a, i);
    OwnRow(s.ViewOf(a), sr[a], dc[a], i);
  }

  lemma TablesMakeMatrices(s: Session, sr: seq<seq<seq<Bytes>>>, dc: seq<seq<seq<Vec>>>)
    requires s.Honest() && Tables(s, sr, dc)
    ensures Matrices(s, Concat(sr), Concat(dc))
  {
    TablesSized(s, sr, dc);
    forall a, i | 0 <= a < |s.peers| && 0 <= i < s.mcounts[a]
      ensures OwnersRow(s, Concat(sr), Concat(dc), a, i)
    {
      TableRow(s, sr, dc, a, i);
    }
  }

  lemma OwnRow(v: View, sr: seq<seq<Bytes>>, dc: seq<seq<Vec>>, i: nat)
    requires v.Counted() && v.AreSecrets(sr, dc) && i < v.MyCount()
    ensures v.IsRow(sr[i], dc[i], i)
  {
  }

  lemma RowLength(v: View, sr: seq<Bytes>, dc: seq<Vec>, i: nat)
    requires v.Counted() && v.IsRow(sr, dc, i)
    ensures |sr| == |dc| == v.Total()
  {
  }

  lemma PairSymmetric(s: Session, K: seq<seq<Bytes>>, D: seq<seq<Vec>>, x: nat, y: nat)
    requires s.Honest() && Matrices(s, K, D) && x < s.Total() && y < s.Total()
    ensures |K[x]| == |D[x]| == |K[y]| == |D[y]| == s.Total()
    ensures x != y ==> K[x][y] == K[y][x] && D[x][y] == D[y][x] && |D[x][y]| == s.Total()
  {
    hide View.IsRow, View.CellOf, View.SharedKey, Offset;
    var a, i := Locate(s.mcounts, |s.mcounts|, x);
    var b, j := Locate(s.mcounts, |s.mcounts|, y);
    assert OwnersRow(s, K, D, a, i) && OwnersRow(s, K, D, b, j);
    RowLength(s.ViewOf(a), K[x], D[x], i);
    RowLength(s.ViewOf(b), K[y], D[y], j);
    if x != y {
      SecretsAgree(s, a, i, b, j);
      CellSize(s, a, i, b, j);
      EntriesAgree(s.ViewOf(a), i, K[x], D[x], s.ViewOf(b), j, K[y], D[y]);
    }
  }

  /** The secret matrices of honest peers are symmetric. */
  lemma SecretsSymmetric(s: Session, K: seq<seq<Bytes>>, D: seq<seq<Vec>>)
    requires s.Honest() && Matrices(s, K, D)
    ensures Symmetric(K) && VecSecrets(D)
  {
    forall x | 0 <= x < s.Total() ensures |K[x]| == |D[x]| == s.Total() {
      PairSymmetric(s, K, D, x, x);
    }
    forall x, y | 0 <= x < s.Total() && 0 <= y < s.Total() && x != y
      ensures K[x][y] == K[y][x] && D[x][y] == D[y][x]
    {
      PairSymmetric(s, K, D, x, y);
    }
    forall x, y | 0 <= x < s.Total() && 0 <= y < s.Total() && x != y
      ensures |D[x][y]| == s.Total()
    {
      PairSymmetric(s, K, D, x, y);
    }
  }

  /** The end-to-end theorem.  Honest peers run the key exchange, publish their
      padded slot-reservation vectors and then their DC-net vectors.  A field
      element is a root of the recovered polynomial exactly when it is one of
      the slot-reservation messages, and every message XORed into a slot of its
      own comes out in that slot. */
  lemma SessionRecoversMessages(s: Session, sr: seq<seq<seq<Bytes>>>, dc: seq<seq<seq<Vec>>>, p: nat, h: PadHash,
                                ms: seq<int>, x: int, msgs: seq<Block>, slots: seq<nat>)
    requires s.Honest() && Tables(s, sr, dc)
    requires Prime(p) && s.Total() < p
    requires |ms| == s.Total() && InField(x, p) && forall k :: 0 <= k < |ms| ==> InField(ms[k], p)
    requires |msgs| == |slots| == s.Total()
    requires forall a :: 0 <= a < |slots| ==> slots[a] < |slots|
    requires forall a, b :: 0 <= a < b < |slots| ==> slots[a] != slots[b]
    ensures |Concat(sr)| == |Concat(dc)| == s.Total() && Symmetric(Concat(sr)) && VecSecrets(Concat(dc))
    ensures Divisible(s.Total(), p)
    ensures Eqm(Eval(CoefficientsOf(Sums(Published(Concat(sr), ms, p, h), p), p), x), 0, p) <==> x in ms
    ensures forall a :: 0 <= a < s.Total() ==>
      XorAll(DcPublished(Concat(dc), msgs, slots), s.Total(), -1, s.Total())[slots[a]] == msgs[a]
  {
    TablesMakeMatrices(s, sr, dc);
    SecretsSymmetric(s, Concat(sr), Concat(dc));
    SlotReservationRecoversMessages(Concat(sr), ms, x, p, h);
    DcNetRecoversMessages(Concat(dc), msgs, slots);
  }
}
