/** One participant's pads: what each is made of, and how each secret enters it. */
module MixPads {
  import opened Field
  import opened DcNet

  // ---- slot reservation ------------------------------------------------------------------------

  /** The hashes of a list of secrets at one counter, added up. */
  function HashSum(ks: seq<Bytes>, counter: nat, h: PadHash): int {
    if ks == [] then 0 else HashSum(ks[..|ks| - 1], counter, h) + h(ks[|ks| - 1], counter)
  }

  lemma HashSumSnoc(ks: seq<Bytes>, n: nat, from: nat, counter: nat, h: PadHash)
    requires from <= n < |ks|
    ensures HashSum(ks[from..n + 1], counter, h) == HashSum(ks[from..n], counter, h) + h(ks[n], counter)
  {
    assert ks[from..n + 1][..n - from] == ks[from..n];
  }

  lemma {:induction false} PadSumIs(kp: seq<Bytes>, my: nat, n: nat, counter: nat, h: PadHash)
    requires n <= |kp|
    ensures PadSum(kp, my, n, counter, h)
         == if n <= my then HashSum(kp[..n], counter, h) else HashSum(kp[..my], counter, h) - HashSum(kp[my + 1..n], counter, h)
  {
    if n > 0 {
      PadSumIs(kp, my, n - 1, counter, h);
      if n <= my { HashSumSnoc(kp, n - 1, 0, counter, h); }
      else if n > my + 1 { HashSumSnoc(kp, n - 1, my + 1, counter, h); }
      assert kp[0..n] == kp[..n] && kp[0..n - 1] == kp[..n - 1];
    }
  }

  /** Pad j: the hashes at counter j + 1 of the secrets before one's own position
      added, those after it subtracted. */
  lemma PadsAre(kp: seq<Bytes>, my: nat, p: nat, h: PadHash, j: nat)
    requires p > 0 && my < |kp| && j < |kp|
    ensures Pads(kp, my, p, h)[j] == (HashSum(kp[..my], j + 1, h) - HashSum(kp[my + 1..], j + 1, h)) % p
  {
    PadSumIs(kp, my, |kp|, j + 1, h);
    assert kp[my + 1..|kp|] == kp[my + 1..];
  }

  lemma {:induction false} PadSumReplaced(kp: seq<Bytes>, my: nat, i: nat, k: Bytes, n: nat, counter: nat, h: PadHash)
    requires i < |kp| && n <= |kp|
    ensures PadSum(kp[i := k], my, n, counter, h)
         == PadSum(kp, my, n, counter, h)
            + (if n <= i || i == my then 0 else if i < my then h(k, counter) - h(kp[i], counter) else h(kp[i], counter) - h(k, counter))
  {
    if n > 0 { PadSumReplaced(kp, my, i, k, n - 1, counter, h); }
  }

  /** Another secret at position i moves pad j by the difference of the two hashes,
      up for an earlier position and down for a later one.  One's own position has
      no influence. */
  lemma PadReplaced(kp: seq<Bytes>, my: nat, p: nat, h: PadHash, i: nat, k: Bytes, j: nat)
    requires p > 0 && i < |kp| && j < |kp|
    ensures var before, after := Pads(kp, my, p, h)[j], Pads(kp[i := k], my, p, h)[j];
      && (i < my ==> Eqm(after, before + (h(k, j + 1) - h(kp[i], j + 1)), p))
      && (i > my ==> Eqm(after, before - (h(k, j + 1) - h(kp[i], j + 1)), p))
      && (i == my ==> after == before)
  {
    var s := PadSum(kp, my, |kp|, j + 1, h);
    var d := h(k, j + 1) - h(kp[i], j + 1);
    PadSumReplaced(kp, my, i, k, |kp|, j + 1, h);
    EqmMod(s, p);
    EqmMod(s + d, p);
    EqmMod(s - d, p);
    EqmAdd(s % p, s, d, d, p);
    EqmAdd(s % p, s, -d, -d, p);
  }

  /** Alone, a participant pads with zero. */
  lemma PadsAlone(kp: seq<Bytes>, p: nat, h: PadHash)
    requires p > 0 && |kp| == 1
    ensures Pads(kp, 0, p, h) == [0]
  {
    PadsAre(kp, 0, p, h, 0);
    assert kp[..0] == [] && kp[0 + 1..] == [];
  }

  // ---- what one participant publishes --------------------------------------------------------------

  /** Entry j of a published vector: the message to the power j + 1, hidden by the
      hashes of the secrets shared with all other positions. */
  lemma PublishedIs(secrets: seq<seq<Bytes>>, ms: seq<int>, p: nat, h: PadHash, a: nat, j: nat)
    requires p > 0 && |ms| == |secrets| && Symmetric(secrets) && a < |ms| && j < |ms|
    ensures var x := Published(secrets, ms, p, h)[a][j];
      && 0 <= x < p
      && Eqm(x, Pow(ms[a], j + 1) + (HashSum(secrets[a][..a], j + 1, h) - HashSum(secrets[a][a + 1..], j + 1, h)), p)
  {
    hide Pow, HashSum;
    PadsAre(secrets[a], a, p, h, j);
    var pad := HashSum(secrets[a][..a], j + 1, h) - HashSum(secrets[a][a + 1..], j + 1, h);
    var power := Pow(ms[a], j + 1);
    EqmMod(pad, p);
    EqmMod(power, p);
    EqmAdd(power, power, pad % p, pad, p);
    MixEntry(ms[a], Pads(secrets[a], a, p, h), p, j);
    EqmTrans(Published(secrets, ms, p, h)[a][j], power + pad % p, power + pad, p);
  }

  lemma EqmTrans(a: int, b: int, c: int, p: nat)
    requires p > 0 && Eqm(a, b, p) && Eqm(b, c, p)
    ensures Eqm(a, c, p)
  {
  }

  lemma MixEntry(m: int, pads: seq<int>, p: nat, j: nat)
    requires p > 0 && j < |pads|
    ensures 0 <= Mix(m, pads, p)[j] < p && Eqm(Mix(m, pads, p)[j], Pow(m, j + 1) + pads[j], p)
  {
    EqmMod(Pow(m, j + 1) + pads[j], p);
  }

  /** One byte of a list of vectors, XORed. */
  function XorAt(ks: seq<Vec>, s: nat, t: nat): bv8
    requires t < MSIZE && forall i :: 0 <= i < |ks| ==> s < |ks[i]|
  {
    if ks == [] then 0 else XorAt(ks[..|ks| - 1], s, t) ^ ks[|ks| - 1][s][t]
  }

  lemma XorAtSnoc(ks: seq<Vec>, n: nat, from: nat, s: nat, t: nat)
    requires from <= n < |ks| && t < MSIZE && forall i :: from <= i <= n ==> s < |ks[i]|
    ensures XorAt(ks[from..n + 1], s, t) == XorAt(ks[from..n], s, t) ^ ks[n][s][t]
  {
    assert ks[from..n + 1][..n - from] == ks[from..n];
  }

  lemma XorAtNone(s: nat, t: nat)
    requires t < MSIZE
    ensures XorAt([], s, t) == 0
  {
  }

  lemma XorAssoc8(a: bv8, b: bv8, c: bv8)
    ensures (a ^ b) ^ c == a ^ (b ^ c) && a ^ 0 == a
  {
  }

  lemma {:induction false} PadByteIs(kp: seq<Vec>, my: nat, n: nat, s: nat, t: nat)
    requires n <= |kp| && s < |kp| && t < MSIZE && forall i :: 0 <= i < |kp| && i != my ==> |kp[i]| == |kp|
    ensures PadByte(kp, my, n, s, t) == if n <= my then XorAt(kp[..n], s, t) else XorAt(kp[..my], s, t) ^ XorAt(kp[my + 1..n], s, t)
  {
    hide XorAt;
    XorAtNone(s, t);
    assert kp[..0] == [];
    if n > 0 {
      PadByteIs(kp, my, n - 1, s, t);
      assert kp[0..n] == kp[..n] && kp[0..n - 1] == kp[..n - 1];
      if n <= my {
        XorAtSnoc(kp, n - 1, 0, s, t);
      } else if n == my + 1 {
        assert kp[my + 1..n] == [];
      } else {
        XorAtSnoc(kp, n - 1, my + 1, s, t);
        XorAssoc8(XorAt(kp[..my], s, t), XorAt(kp[my + 1..n - 1], s, t), kp[n - 1][s][t]);
      }
    }
  }

  /** A byte of the pads of the XOR exchange: the secrets shared with all other
      positions, so nothing for a participant alone. */
  lemma DcPadsAre(kp: seq<Vec>, my: nat, s: nat, t: nat)
    requires my < |kp| && s < |kp| && t < MSIZE && forall i :: 0 <= i < |kp| && i != my ==> |kp[i]| == |kp|
    ensures XorAll(kp, |kp|, my, |kp|)[s][t] == XorAt(kp[..my], s, t) ^ XorAt(kp[my + 1..], s, t)
    ensures |kp| == 1 ==> XorAll(kp, |kp|, my, |kp|)[s][t] == 0
  {
    hide XorAll, PadByte;
    PadByteIsXorAll(kp, my, |kp|, s, t);
    PadByteIs(kp, my, |kp|, s, t);
    assert kp[my + 1..|kp|] == kp[my + 1..];
  }

  /** A byte of a published vector of the XOR exchange: the secrets shared with all
      other positions, and in the own slot the message. */
  lemma DcPublishedIs(secrets: seq<seq<Vec>>, msgs: seq<Block>, slots: seq<nat>, a: nat, s: nat, t: nat)
    requires VecSecrets(secrets) && |msgs| == |slots| == |secrets| && a < |msgs|
    requires forall b :: 0 <= b < |slots| ==> slots[b] < |slots|
    requires s < |msgs| && t < MSIZE
    ensures DcPublished(secrets, msgs, slots)[a][s][t]
         == (XorAt(secrets[a][..a], s, t) ^ XorAt(secrets[a][a + 1..], s, t)) ^ (if slots[a] == s then msgs[a][t] else 0)
  {
    hide DcPublished, PadByte, XorAt;
    PublishedByte(secrets, msgs, slots, a, s, t);
    PadByteIs(secrets[a], a, |msgs|, s, t);
    assert secrets[a][a + 1..|msgs|] == secrets[a][a + 1..];
  }
}
