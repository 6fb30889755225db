/** Pairwise shared secrets of mixing/keyagreement.go.  The primitives (ECDH,
    the sntrup4591761 KEM, BLAKE-256, the ChaCha20 PRNG) are parameters. */
module KeyAgreement {
  import opened Options
  import opened DcNet

  const KEY_SIZE: nat := 32
  type Key = b: Bytes | |b| == KEY_SIZE witness seq(KEY_SIZE, _ => 0)

  const ZERO_KEY: Key := seq(KEY_SIZE, _ => 0)

  datatype Primitives = Primitives(
    ecdh: (Bytes, Bytes) -> Key,                   // private, public: hash of the ECDH secret
    encapsulate: (Bytes, nat) -> Option<(Bytes, Key)>, // public key, draw: ciphertext, cleartext
    decapsulate: (Bytes, Bytes) -> Option<Key>,    // ciphertext, private
    seed: (Bytes, Key, nat) -> Key,                // hash of session id, shared key and counter
    next: (Key, nat) -> Bytes,                     // seed, nonce: the first 32 bytes
    randVec: (Key, nat, nat) -> Vec                // seed, nonce, length: the bytes after those
  )

  datatype RevealedKeys = RevealedKeys(ecdhPublicKeys: seq<Bytes>, ciphertexts: seq<Bytes>, myIndex: nat)

  datatype Outcome =
    | SharedSecrets(sr: seq<seq<Bytes>>, dc: seq<seq<Vec>>)
    | EcdhCountError
    | CiphertextCountError
    | DecapsulateError(submittingIndex: nat)

  function XorBytes(a: Bytes, b: Bytes): (c: Bytes)
    requires |a| == |b|
    ensures |c| == |a|
  {
    seq(|a|, i requires 0 <= i < |a| => a[i] ^ b[i])
  }

  method XorInto(dst: array<bv8>, src: Bytes)
    requires dst.Length == |src|
    modifies dst
    ensures dst[..] == XorBytes(old(dst[..]), src)
  {
    for i := 0 to dst.Length
      invariant forall k :: 0 <= k < i ==> dst[k] == old(dst[k]) ^ src[k]
      invariant forall k :: i <= k < dst.Length ==> dst[k] == old(dst[k])
    {
      dst[i] := dst[i] ^ src[i];
    }
  }

  /** Messages of the peers before `peer`. */
  function Offset(mcounts: seq<nat>, peer: nat): nat
    requires peer <= |mcounts|
  {
    if peer == 0 then 0 else Offset(mcounts, peer - 1) + mcounts[peer - 1]
  }

  /** What one peer knows: its keys, the cleartexts it encapsulated, and the
      keys revealed to it. */
  datatype View = View(prims: Primitives, ecdhPrivate: Bytes, pqPrivate: Bytes, cleartexts: seq<Key>,
                       keys: RevealedKeys, sid: Bytes, mcounts: seq<nat>)
  {
    predicate Wellformed() {
      && keys.myIndex < |mcounts|
      && |cleartexts| == |mcounts|
    }

    predicate Counted() {
      && Wellformed()
      && |keys.ecdhPublicKeys| == |mcounts|
      && |keys.ciphertexts| == |mcounts|
    }

    function MyCount(): nat requires Wellformed() { mcounts[keys.myIndex] }

    function Total(): nat { Offset(mcounts, |mcounts|) }

    /** A peer mixing one message shares nothing with itself. */
    predicate Skipped(peer: nat)
      requires Wellformed()
    {
      peer == keys.myIndex && MyCount() == 1
    }

    predicate Decapsulates(peer: nat)
      requires Counted() && peer < |mcounts|
    {
      prims.decapsulate(keys.ciphertexts[peer], pqPrivate).Some?
    }

    function FirstFailure(peer: nat): (r: Option<nat>)
      requires Counted() && peer <= |mcounts|
      ensures r.Some? ==> peer <= r.value < |mcounts| && !Skipped(r.value) && !Decapsulates(r.value)
      ensures r.Some? ==> forall q :: peer <= q < r.value ==> Skipped(q) || Decapsulates(q)
      ensures r.None? ==> forall q :: peer <= q < |mcounts| ==> Skipped(q) || Decapsulates(q)
      decreases |mcounts| - peer
    {
      if peer == |mcounts| then None
      else if !Skipped(peer) && !Decapsulates(peer) then Some(peer)
      else FirstFailure(peer + 1)
    }

    /** The key shared with a peer: ECDH and both KEM keys, the KEM key only once
        for the peer itself. */
    function SharedKey(peer: nat): Key
      requires Counted() && peer < |mcounts|
    {
      var ecdhKey := prims.ecdh(ecdhPrivate, keys.ecdhPublicKeys[peer]);
      match prims.decapsulate(keys.ciphertexts[peer], pqPrivate)
      case None => ecdhKey
      case Some(pqKey) =>
        if peer == keys.myIndex then XorBytes(ecdhKey, pqKey)
        else XorBytes(XorBytes(ecdhKey, pqKey), cleartexts[peer])
    }

    /** Seed counter and nonce for own message i and the peer's message j. */
    function Counter(peer: nat, i: nat, j: nat): (nat, nat) {
      if keys.myIndex > peer || (keys.myIndex == peer && j > i) then (j, i) else (i, j)
    }

    /** The secrets own message i shares with the peer's message j; nothing with
        itself. */
    function CellOf(key: Key, peer: nat, i: nat, j: nat): Cell {
      if keys.myIndex == peer && i == j then Cell([], [])
      else
        var (counter, nonce) := Counter(peer, i, j);
        var seed := prims.seed(sid, key, counter);
        Cell(prims.next(seed, nonce), prims.randVec(seed, nonce, Total()))
    }

    /** Row i holds the secrets for the peer's message j at position
        Offset(peer) + j. */
    ghost predicate IsRow(sr: seq<Bytes>, dc: seq<Vec>, i: nat)
      requires Counted()
    {
      |sr| == |dc| == Total() &&
      forall peer, j :: 0 <= peer < |mcounts| && 0 <= j < mcounts[peer] ==>
        var c := CellOf(SharedKey(peer), peer, i, j);
        At(sr, mcounts, peer, j) == Some(c.sr) && At(dc, mcounts, peer, j) == Some(c.dc)
    }

    ghost predicate AreSecrets(sr: seq<seq<Bytes>>, dc: seq<seq<Vec>>)
      requires Counted()
    {
      && |sr| == |dc| == MyCount()
      && forall i :: 0 <= i < MyCount() ==> IsRow(sr[i], dc[i], i)
    }
  }

  datatype Cell = Cell(sr: Bytes, dc: Vec)

  function At<T>(row: seq<T>, mcounts: seq<nat>, peer: nat, j: nat): Option<T>
    requires peer < |mcounts|
  {
    var m := Offset(mcounts, peer) + j;
    if m < |row| then Some(row[m]) else None
  }

  lemma {:induction false} OffsetMonotone(mcounts: seq<nat>, a: nat, b: nat)
    requires a <= b <= |mcounts|
    ensures Offset(mcounts, a) <= Offset(mcounts, b)
    ensures a < b ==> Offset(mcounts, a) + mcounts[a] <= Offset(mcounts, b)
  {
    if a < b { OffsetMonotone(mcounts, a, b - 1); }
  }

  /** Own message i against the messages of the first `peer` peers and the first
      j messages of the next one, in order of position. */
  ghost function Row(v: View, ks: seq<Key>, i: nat, peer: nat, j: nat): (row: seq<Cell>)
    requires peer <= |ks| == |v.mcounts| && (j > 0 ==> peer < |ks|)
    ensures |row| == Offset(v.mcounts, peer) + j
    decreases peer, j
  {
    if j > 0 then Row(v, ks, i, peer, j - 1) + [v.CellOf(ks[peer], peer, i, j - 1)]
    else if peer > 0 then Row(v, ks, i, peer - 1, v.mcounts[peer - 1])
    else []
  }

  lemma {:induction false} RowAt(v: View, ks: seq<Key>, i: nat, peer: nat, j: nat, q: nat, k: nat)
    requires peer <= |ks| == |v.mcounts| && (j > 0 ==> peer < |ks|)
    requires q < |ks| && k < v.mcounts[q] && (q < peer || (q == peer && k < j))
    ensures At(Row(v, ks, i, peer, j), v.mcounts, q, k) == Some(v.CellOf(ks[q], q, i, k))
    decreases peer, j
  {
    if j > 0 {
      if q < peer {
        OffsetMonotone(v.mcounts, q, peer);
        RowAt(v, ks, i, peer, j - 1, q, k);
      } else if k < j - 1 {
        RowAt(v, ks, i, peer, j - 1, q, k);
      }
    } else {
      RowAt(v, ks, i, peer - 1, v.mcounts[peer - 1], q, k);
    }
  }

  /** The arrays agree with the row so far and are unset beyond it. */
  ghost predicate Filled(sr: seq<Bytes>, dc: seq<Vec>, row: seq<Cell>) {
    && |row| <= |sr| == |dc|
    && (forall m :: 0 <= m < |row| ==> sr[m] == row[m].sr && dc[m] == row[m].dc)
    && (forall m :: |row| <= m < |sr| ==> sr[m] == [] && dc[m] == [])
  }

  lemma FilledNext(v: View, ks: seq<Key>, i: nat, peer: nat, j: nat, sr: seq<Bytes>, dc: seq<Vec>, cell: Cell)
    requires peer < |ks| == |v.mcounts| && Filled(sr, dc, Row(v, ks, i, peer, j))
    requires Offset(v.mcounts, peer) + j < |sr| && cell == v.CellOf(ks[peer], peer, i, j)
    ensures var m := Offset(v.mcounts, peer) + j;
      |sr| == |dc| && Filled(sr[m := cell.sr], dc[m := cell.dc], Row(v, ks, i, peer, j + 1))
  {
    assert Row(v, ks, i, peer, j + 1) == Row(v, ks, i, peer, j) + [cell];
  }

  /** A message's own position stays unset. */
  lemma FilledOwn(v: View, ks: seq<Key>, i: nat, peer: nat, sr: seq<Bytes>, dc: seq<Vec>)
    requires peer == v.keys.myIndex < |ks| == |v.mcounts| && Filled(sr, dc, Row(v, ks, i, peer, i))
    requires Offset(v.mcounts, peer) + i < |sr|
    ensures Filled(sr, dc, Row(v, ks, i, peer, i + 1))
  {
    assert Row(v, ks, i, peer, i + 1) == Row(v, ks, i, peer, i) + [Cell([], [])];
  }

  lemma PeerDone(v: View, ks: seq<Key>, i: nat, peer: nat)
    requires peer < |ks| == |v.mcounts|
    ensures Row(v, ks, i, peer + 1, 0) == Row(v, ks, i, peer, v.mcounts[peer])
  {
  }

  lemma NothingFilled(v: View, ks: seq<Key>, i: nat, sr: seq<Bytes>, dc: seq<Vec>)
    requires |ks| == |v.mcounts| && |sr| == |dc| && forall m :: 0 <= m < |sr| ==> sr[m] == [] && dc[m] == []
    ensures Filled(sr, dc, Row(v, ks, i, 0, 0))
  {
  }

  ghost function AllKeys(v: View): (ks: seq<Key>)
    requires v.Counted()
    ensures |ks| == |v.mcounts|
  {
    seq(|v.mcounts|, q requires 0 <= q < |v.mcounts| => v.SharedKey(q))
  }

  lemma RowComplete(v: View, sr: seq<Bytes>, dc: seq<Vec>, i: nat)
    requires v.Counted()
    requires |sr| == v.Total() && Filled(sr, dc, Row(v, AllKeys(v), i, |v.mcounts|, 0))
    ensures v.IsRow(sr, dc, i)
  {
    forall q, j | 0 <= q < |v.mcounts| && 0 <= j < v.mcounts[q]
      ensures At(sr, v.mcounts, q, j) == Some(v.CellOf(v.SharedKey(q), q, i, j).sr)
      ensures At(dc, v.mcounts, q, j) == Some(v.CellOf(v.SharedKey(q), q, i, j).dc)
    {
      RowAt(v, AllKeys(v), i, |v.mcounts|, 0, q, j);
    }
  }

  class KX {
    const prims: Primitives
    const ecdhPrivate: Bytes
    const pqPrivate: Bytes
    var pqCleartexts: seq<Key>

    constructor (prims: Primitives, ecdhPrivate: Bytes, pqPrivate: Bytes)
      ensures this.prims == prims && this.ecdhPrivate == ecdhPrivate && this.pqPrivate == pqPrivate
      ensures pqCleartexts == []
    {
      this.prims, this.ecdhPrivate, this.pqPrivate := prims, ecdhPrivate, pqPrivate;
      pqCleartexts := [];
    }

    /** The cleartext kept for a peer: that of its encapsulation, or the zero key
        from the first failure on. */
    ghost function CleartextAfter(draw: nat, pubkeys: seq<Bytes>, k: nat): Key
      requires k < |pubkeys|
    {
      if forall j :: 0 <= j <= k ==> prims.encapsulate(pubkeys[j], draw + j).Some?
      then prims.encapsulate(pubkeys[k], draw + k).value.1
      else ZERO_KEY
    }

    /** The k-th encapsulation draws from the PRNG at position draw + k. */
    method Encapsulate(draw: nat, pubkeys: seq<Bytes>) returns (cts: Option<seq<Bytes>>)
      modifies this
      ensures cts.Some? <==> forall k :: 0 <= k < |pubkeys| ==> prims.encapsulate(pubkeys[k], draw + k).Some?
      ensures |pqCleartexts| == |pubkeys| && (cts.Some? ==> |cts.value| == |pubkeys|)
      ensures cts.Some? ==> forall k :: 0 <= k < |pubkeys| ==>
        prims.encapsulate(pubkeys[k], draw + k) == Some((cts.value[k], pqCleartexts[k]))
      ensures forall k :: 0 <= k < |pubkeys| ==> pqCleartexts[k] == CleartextAfter(draw, pubkeys, k)
    {
      var out := new Bytes[|pubkeys|];
      pqCleartexts := seq(|pubkeys|, _ => ZERO_KEY);
      for i := 0 to |pubkeys|
        invariant |pqCleartexts| == |pubkeys|
        invariant forall k :: 0 <= k < i ==>
          prims.encapsulate(pubkeys[k], draw + k) == Some((out[k], pqCleartexts[k]))
        invariant forall k :: i <= k < |pubkeys| ==> pqCleartexts[k] == ZERO_KEY
      {
        var r := prims.encapsulate(pubkeys[i], draw + i);
        if r.None? { return None; }
        out[i] := r.value.0;
        pqCleartexts := pqCleartexts[i := r.value.1];
      }
      cts := Some(out[..]);
    }

    function ViewOf(k: RevealedKeys, sid: Bytes, mcounts: seq<nat>): View
      reads this
    {
      View(prims, ecdhPrivate, pqPrivate, pqCleartexts, k, sid, mcounts)
    }

    /** The shared key with one peer. */
    method PeerKey(k: RevealedKeys, sid: Bytes, mcounts: seq<nat>, peer: nat) returns (key: Option<Key>)
      requires ViewOf(k, sid, mcounts).Counted() && peer < |mcounts|
      ensures var v := ViewOf(k, sid, mcounts);
        key == if v.Decapsulates(peer) then Some(v.SharedKey(peer)) else None
    {
      var decapsulated := prims.decapsulate(k.ciphertexts[peer], pqPrivate);
      if decapsulated.None? { return None; }
      var ecdhKey := prims.ecdh(ecdhPrivate, k.ecdhPublicKeys[peer]);
      var sharedKey := new bv8[KEY_SIZE](n requires 0 <= n < KEY_SIZE => ecdhKey[n]);
      assert sharedKey[..] == ecdhKey;
      XorInto(sharedKey, decapsulated.value);
      if peer != k.myIndex {
        XorInto(sharedKey, pqCleartexts[peer]);
      }
      key := Some(sharedKey[..]);
    }

    /** Own message i against every message of one peer. */
    method FillPeer(k: RevealedKeys, sid: Bytes, mcounts: seq<nat>, i: nat, peer: nat, key: Key, mtot: nat,
                    srRow: array<Bytes>, dcRow: array<Vec>, start: nat, ghost ks: seq<Key>) returns (m: nat)
      requires peer < |mcounts| == |ks| && key == ks[peer] && srRow as object != dcRow
      requires mtot == srRow.Length == Offset(mcounts, |mcounts|) && start == Offset(mcounts, peer)
      requires Filled(srRow[..], dcRow[..], Row(ViewOf(k, sid, mcounts), ks, i, peer, 0))
      modifies srRow, dcRow
      ensures m == Offset(mcounts, peer + 1)
      ensures Filled(srRow[..], dcRow[..], Row(ViewOf(k, sid, mcounts), ks, i, peer + 1, 0))
    {
      hide Row, Filled;
      ghost var v := ViewOf(k, sid, mcounts);
      m := start;
      OffsetMonotone(mcounts, peer + 1, |mcounts|);
      PeerDone(v, ks, i, peer);
      for j := 0 to mcounts[peer]
        invariant m == Offset(mcounts, peer) + j
        invariant Filled(srRow[..], dcRow[..], Row(v, ks, i, peer, j))
      {
        ghost var sr, dc := srRow[..], dcRow[..];
        FilledNext(v, ks, i, peer, j, sr, dc, v.CellOf(key, peer, i, j));
        if k.myIndex == peer && j == i {
          FilledOwn(v, ks, i, peer, sr, dc);
          m := m + 1;
          continue;
        }
        var seedCounter, nonce := i, j;
        if k.myIndex > peer || (k.myIndex == peer && j > i) {
          seedCounter, nonce := j, i;
        }
        var prngSeed := prims.seed(sid, key, seedCounter);
        srRow[m] := prims.next(prngSeed, nonce);
        dcRow[m] := prims.randVec(prngSeed, nonce, mtot);
        assert v.CellOf(key, peer, i, j) == Cell(srRow[m], dcRow[m]);
        assert srRow[..] == sr[m := srRow[m]] && dcRow[..] == dc[m := dcRow[m]];
        m := m + 1;
      }
    }

    /** Own message i against every message of every peer. */
    method FillRow(k: RevealedKeys, sid: Bytes, mcounts: seq<nat>, i: nat, mtot: nat)
      returns (failed: Option<nat>, sr: seq<Bytes>, dc: seq<Vec>)
      requires ViewOf(k, sid, mcounts).Counted() && i < mcounts[k.myIndex] && mtot == Offset(mcounts, |mcounts|)
      ensures failed == ViewOf(k, sid, mcounts).FirstFailure(0)
      ensures failed.None? ==> ViewOf(k, sid, mcounts).IsRow(sr, dc, i)
    {
      hide Row, Filled, View.SharedKey, View.IsRow;
      ghost var v := ViewOf(k, sid, mcounts);
      ghost var ks := AllKeys(v);
      var mcount := mcounts[k.myIndex];
      var srRow, dcRow := new Bytes[mtot](_ => []), new Vec[mtot](_ => []);
      var m := 0;
      NothingFilled(v, ks, i, srRow[..], dcRow[..]);
      for peer := 0 to |mcounts|
        invariant m == Offset(mcounts, peer)
        invariant forall q :: 0 <= q < peer ==> v.Skipped(q) || v.Decapsulates(q)
        invariant Filled(srRow[..], dcRow[..], Row(v, ks, i, peer, 0))
      {
        if peer == k.myIndex && mcount == 1 {
          OffsetMonotone(mcounts, peer + 1, |mcounts|);
          FilledOwn(v, ks, i, peer, srRow[..], dcRow[..]);
          PeerDone(v, ks, i, peer);
          m := m + 1;
          continue;
        }
        var key := PeerKey(k, sid, mcounts, peer);
        if key.None? {
          assert !v.Skipped(peer) && !v.Decapsulates(peer);
          return Some(peer), [], [];
        }
        m := FillPeer(k, sid, mcounts, i, peer, key.value, mtot, srRow, dcRow, m, ks);
      }
      RowComplete(v, srRow[..], dcRow[..], i);
      failed, sr, dc := None, srRow[..], dcRow[..];
    }

    method Secrets(k: RevealedKeys, sid: Bytes, mcounts: seq<nat>) returns (r: Outcome)
      requires ViewOf(k, sid, mcounts).Wellformed()
      ensures var v := ViewOf(k, sid, mcounts);
        if |k.ecdhPublicKeys| != |mcounts| then r == EcdhCountError
        else if |k.ciphertexts| != |mcounts| then r == CiphertextCountError
        else if v.MyCount() > 0 && v.FirstFailure(0).Some? then r == DecapsulateError(v.FirstFailure(0).value)
        else r.SharedSecrets? && v.AreSecrets(r.sr, r.dc)
    {
      if |k.ecdhPublicKeys| != |mcounts| { return EcdhCountError; }
      if |k.ciphertexts| != |mcounts| { return CiphertextCountError; }
      ghost var v := ViewOf(k, sid, mcounts);
      var mcount := mcounts[k.myIndex];
      var mtot := 0;
      for i := 0 to |mcounts|
        invariant mtot == Offset(mcounts, i)
      {
        mtot := mtot + mcounts[i];
      }
      var sr: seq<seq<Bytes>>, dc: seq<seq<Vec>> := [], [];
      for i := 0 to mcount
        invariant i > 0 ==> v.FirstFailure(0).None?
        invariant |sr| == |dc| == i
        invariant forall n :: 0 <= n < i ==> v.IsRow(sr[n], dc[n], n)
      {
        var failed, srRow, dcRow := FillRow(k, sid, mcounts, i, mtot);
        if failed.Some? { return DecapsulateError(failed.value); }
        sr, dc := sr + [srRow], dc + [dcRow];
      }
      r := SharedSecrets(sr, dc);
    }
  }
}
