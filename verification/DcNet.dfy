/** The two DC-nets of mixing/dcnet.go: additive pads over the field for slot
    reservation, XOR pads for the anonymous messages. */
module DcNet {
  import opened Field
  import opened Newton
  import opened SlotReservation

  type Bytes = seq<bv8>

  /** The integer value of BLAKE-256 over a secret followed by a counter. */
  type PadHash = (Bytes, nat) -> nat

  // ---- exponential (slot reservation) pads ------------------------------------

  /** The share of the pad between positions `my` and `i`: the higher position
      adds what the lower one subtracts. */
  function Partial(kp: seq<Bytes>, my: nat, i: nat, counter: nat, h: PadHash): int
    requires i < |kp|
  {
    if my == i then 0 else if my > i then h(kp[i], counter) else 0 - h(kp[i], counter)
  }

  function PadSum(kp: seq<Bytes>, my: nat, n: nat, counter: nat, h: PadHash): int
    requires n <= |kp|
  {
    if n == 0 then 0 else PadSum(kp, my, n - 1, counter, h) + Partial(kp, my, n - 1, counter, h)
  }

  function Pads(kp: seq<Bytes>, my: nat, p: nat, h: PadHash): (pads: seq<int>)
    requires p > 0
    ensures |pads| == |kp|
  {
    seq(|kp|, j requires 0 <= j => PadSum(kp, my, |kp|, j + 1, h) % p)
  }

  method SRMixPads(kp: seq<Bytes>, my: nat, p: nat, h: PadHash) returns (pads: seq<int>)
    requires p > 0
    ensures pads == Pads(kp, my, p, h)
  {
    var out := new int[|kp|];
    for j := 0 to |kp|
      invariant forall k :: 0 <= k < j ==> out[k] == PadSum(kp, my, |kp|, k + 1, h) % p
    {
      var pad := 0;
      for i := 0 to |kp|
        invariant pad == PadSum(kp, my, i, j + 1, h)
      {
        if my == i { continue; }
        var partialPad := h(kp[i], j + 1);
        if my > i {
          pad := pad + partialPad;
        } else {
          pad := pad - partialPad;
        }
      }
      out[j] := pad % p;
    }
    pads := out[..];
  }

  /** The padded vector {m**1, m**2, ..., m**n}. */
  function Mix(m: int, pads: seq<int>, p: nat): (mix: seq<int>)
    requires p > 0
    ensures |mix| == |pads|
  {
    seq(|pads|, i requires 0 <= i < |pads| => (Pow(m, i + 1) + pads[i]) % p)
  }

  method SRMix(m: int, pads: seq<int>, p: nat) returns (mix: seq<int>)
    requires p > 0
    ensures mix == Mix(m, pads, p)
  {
    var out := new int[|pads|];
    for i := 0 to |pads|
      invariant forall k :: 0 <= k < i ==> out[k] == (Pow(m, k + 1) + pads[k]) % p
    {
      var mexp := Pow(m, i + 1);
      mexp := mexp + pads[i];
      out[i] := mexp % p;
    }
    mix := out[..];
  }

  function ColumnSum(vs: seq<seq<int>>, i: nat, n: nat): int
    requires n <= |vs| && forall j :: 0 <= j < |vs| ==> i < |vs[j]|
  {
    if n == 0 then 0 else ColumnSum(vs, i, n - 1) + vs[n - 1][i]
  }

  /** One element per vector, so each of the n vectors must hold n elements. */
  ghost predicate Square(vs: seq<seq<int>>) {
    forall j :: 0 <= j < |vs| ==> |vs[j]| >= |vs|
  }

  ghost function Sums(vs: seq<seq<int>>, p: nat): (sums: seq<int>)
    requires p > 0 && Square(vs)
    ensures |sums| == |vs|
  {
    seq(|vs|, i requires 0 <= i < |vs| => ColumnSum(vs, i, |vs|) % p)
  }

  method AddVectors(vs: seq<seq<int>>, p: nat) returns (sums: seq<int>)
    requires p > 0 && Square(vs)
    ensures sums == Sums(vs, p)
  {
    var out := new int[|vs|];
    for i := 0 to |vs|
      invariant forall k :: 0 <= k < i ==> out[k] == ColumnSum(vs, k, |vs|) % p
    {
      var sum := 0;
      for j := 0 to |vs|
        invariant sum == ColumnSum(vs, i, j)
      {
        sum := sum + vs[j][i];
      }
      out[i] := sum % p;
    }
    sums := out[..];
  }

  /** The secret two positions share is the same seen from either side. */
  ghost predicate Symmetric<T(!new)>(secrets: seq<seq<T>>) {
    && (forall a :: 0 <= a < |secrets| ==> |secrets[a]| == |secrets|)
    && forall a, b :: 0 <= a < |secrets| && 0 <= b < |secrets| && a != b ==> secrets[a][b] == secrets[b][a]
  }

  /** Every participant's published vector. */
  ghost function Published(secrets: seq<seq<Bytes>>, ms: seq<int>, p: nat, h: PadHash): (vs: seq<seq<int>>)
    requires p > 0 && |ms| == |secrets| && Symmetric(secrets)
    ensures |vs| == |ms| && Square(vs)
  {
    seq(|ms|, a requires 0 <= a < |ms| => Mix(ms[a], Pads(secrets[a], a, p, h), p))
  }

  /** Sum of Partial over the first m rows and n columns. */
  ghost function GridSum(secrets: seq<seq<Bytes>>, m: nat, n: nat, c: nat, h: PadHash): int
    requires m <= |secrets| && n <= |secrets| && Symmetric(secrets)
  {
    if m == 0 then 0 else GridSum(secrets, m - 1, n, c, h) + PadSum(secrets[m - 1], m - 1, n, c, h)
  }

  /** A new column undoes a new row. */
  lemma {:induction false} GridColumn(secrets: seq<seq<Bytes>>, m: nat, n: nat, c: nat, h: PadHash)
    requires m <= n < |secrets| && Symmetric(secrets)
    ensures GridSum(secrets, m, n + 1, c, h) == GridSum(secrets, m, n, c, h) - PadSum(secrets[n], n, m, c, h)
  {
    if m > 0 {
      GridColumn(secrets, m - 1, n, c, h);
      assert Partial(secrets[m - 1], m - 1, n, c, h) == -Partial(secrets[n], n, m - 1, c, h);
    }
  }

  /** The pads of all participants cancel, in every column. */
  lemma {:induction false} PadsCancel(secrets: seq<seq<Bytes>>, n: nat, c: nat, h: PadHash)
    requires n <= |secrets| && Symmetric(secrets)
    ensures GridSum(secrets, n, n, c, h) == 0
  {
    if n > 0 {
      PadsCancel(secrets, n - 1, c, h);
      GridColumn(secrets, n - 1, n - 1, c, h);
    }
  }

  lemma {:induction false} ColumnIsPadsPlusPowers(secrets: seq<seq<Bytes>>, ms: seq<int>, p: nat, h: PadHash, i: nat, n: nat)
    requires p > 0 && |ms| == |secrets| && Symmetric(secrets) && i < |ms| && n <= |ms|
    ensures Eqm(ColumnSum(Published(secrets, ms, p, h), i, n),
                PowerSum(ms[..n], i + 1) + GridSum(secrets, n, |secrets|, i + 1, h), p)
  {
    if n > 0 {
      ColumnIsPadsPlusPowers(secrets, ms, p, h, i, n - 1);
      assert Init(ms[..n]) == ms[..n - 1] && Last(ms[..n]) == ms[n - 1];
      var a := n - 1;
      var w := PadSum(secrets[a], a, |secrets|, i + 1, h);
      var pads := Pads(secrets[a], a, p, h);
      EqmMod(w, p);
      EqmAdd(Pow(ms[a], i + 1), Pow(ms[a], i + 1), pads[i], w, p);
      EqmMod(Pow(ms[a], i + 1) + pads[i], p);
      EqmAdd(ColumnSum(Published(secrets, ms, p, h), i, a),
             PowerSum(ms[..a], i + 1) + GridSum(secrets, a, |secrets|, i + 1, h),
             (Pow(ms[a], i + 1) + pads[i]) % p, Pow(ms[a], i + 1) + w, p);
    }
  }

  /** Adding every published vector leaves the unpadded power sums. */
  lemma SumsArePowerSums(secrets: seq<seq<Bytes>>, ms: seq<int>, p: nat, h: PadHash)
    requires p > 0 && |ms| == |secrets| && Symmetric(secrets)
    ensures ArePowerSums(Sums(Published(secrets, ms, p, h), p), ms, p)
  {
    var vs := Published(secrets, ms, p, h);
    forall i | 0 <= i < |ms| ensures Eqm(Sums(vs, p)[i], PowerSum(ms, i + 1), p) {
      ColumnIsPadsPlusPowers(secrets, ms, p, h, i, |ms|);
      PadsCancel(secrets, |ms|, i + 1, h);
      assert ms[..|ms|] == ms;
      EqmMod(ColumnSum(vs, i, |ms|), p);
    }
  }

  /** One slot-reservation run: whatever the secrets hash to, the roots of the
      polynomial recovered from the published vectors are the messages. */
  lemma SlotReservationRecoversMessages(secrets: seq<seq<Bytes>>, ms: seq<int>, x: int, p: nat, h: PadHash)
    requires Prime(p) && |ms| < p && |ms| == |secrets| && Symmetric(secrets)
    requires InField(x, p) && forall k :: 0 <= k < |ms| ==> InField(ms[k], p)
    ensures Divisible(|ms|, p)
    ensures Eqm(Eval(CoefficientsOf(Sums(Published(secrets, ms, p, h), p), p), x), 0, p) <==> x in ms
  {
    SumsArePowerSums(secrets, ms, p, h);
    FieldRootsAreMessages(Sums(Published(secrets, ms, p, h), p), ms, x, p);
  }

  // ---- XOR pads -----------------------------------------------------------------

  const MSIZE: nat := 20

  type Block = b: Bytes | |b| == MSIZE witness seq(MSIZE, _ => 0)
  type Vec = seq<Block>

  const ZERO_BLOCK: Block := seq(MSIZE, _ => 0)

  function XorBlock(a: Block, b: Block): (c: Block)
  {
    seq(MSIZE, t requires 0 <= t < MSIZE => a[t] ^ b[t])
  }

  function XorVec(u: Vec, v: Vec): (w: Vec)
    requires |u| == |v|
    ensures |w| == |u|
  {
    seq(|u|, s requires 0 <= s < |u| => XorBlock(u[s], v[s]))
  }

  function ZeroVec(n: nat): (v: Vec) { seq(n, _ => ZERO_BLOCK) }

  /** Vec.Xor: the destination may be the first source. */
  method Xor(v: array<Block>, src1: array<Block>, src2: Vec)
    requires v.Length == src1.Length == |src2|
    modifies v
    ensures v[..] == XorVec(old(src1[..]), src2)
  {
    for i := 0 to v.Length
      invariant forall s :: 0 <= s < i ==> v[s] == XorBlock(old(src1[s]), src2[s])
      invariant forall s :: i <= s < v.Length ==> src1[s] == old(src1[s])
    {
      for j := 0 to MSIZE
        invariant forall s :: 0 <= s < i ==> v[s] == XorBlock(old(src1[s]), src2[s])
        invariant forall s :: i < s < v.Length ==> src1[s] == old(src1[s])
        invariant forall t :: 0 <= t < j ==> v[i][t] == old(src1[i])[t] ^ src2[i][t]
        invariant forall t :: j <= t < MSIZE ==> src1[i][t] == old(src1[i])[t]
      {
        v[i] := v[i][j := src1[i][j] ^ src2[i][j]];
      }
      assert v[i] == XorBlock(old(src1[i]), src2[i]);
    }
  }

  /** XOR of the first n vectors, `skip` left out. */
  function XorAll(vs: seq<Vec>, len: nat, skip: int, n: nat): (v: Vec)
    requires n <= |vs| && forall i :: 0 <= i < |vs| && i != skip ==> |vs[i]| == len
    ensures |v| == len
  {
    if n == 0 then ZeroVec(len)
    else if n - 1 == skip then XorAll(vs, len, skip, n - 1)
    else XorVec(XorAll(vs, len, skip, n - 1), vs[n - 1])
  }

  method DCMixPads(kp: seq<Vec>, my: nat) returns (pads: Vec)
    requires forall i :: 0 <= i < |kp| && i != my ==> |kp[i]| == |kp|
    ensures pads == XorAll(kp, |kp|, my, |kp|)
  {
    var out := new Block[|kp|](_ => ZERO_BLOCK);
    assert out[..] == ZeroVec(|kp|);
    for i := 0 to |kp|
      invariant out[..] == XorAll(kp, |kp|, my, i)
    {
      if i == my { continue; }
      Xor(out, out, kp[i]);
    }
    pads := out[..];
  }

  /** `dcmix` is `pads` with m XORed into one slot. */
  function MixInto(pads: Vec, m: Block, slot: nat): (dcmix: Vec)
    requires slot < |pads|
    ensures |dcmix| == |pads|
  {
    pads[slot := XorBlock(pads[slot], m)]
  }

  method DCMix(pads: Vec, m: Bytes, slot: nat) returns (dcmix: Vec)
    requires |m| == MSIZE && slot < |pads|
    ensures dcmix == MixInto(pads, m, slot)
  {
    var out := new Block[|pads|](i requires 0 <= i < |pads| => pads[i]);
    for i := 0 to |m|
      invariant forall s :: 0 <= s < |pads| && s != slot ==> out[s] == pads[s]
      invariant forall t :: 0 <= t < i ==> out[slot][t] == pads[slot][t] ^ m[t]
      invariant forall t :: i <= t < MSIZE ==> out[slot][t] == pads[slot][t]
    {
      out[slot] := out[slot][i := out[slot][i] ^ m[i]];
    }
    dcmix := out[..];
    assert dcmix[slot] == XorBlock(pads[slot], m);
  }

  method XorVectors(vs: seq<Vec>) returns (res: Vec)
    requires |vs| > 0 && forall i :: 0 <= i < |vs| ==> |vs[i]| == |vs[0]|
    ensures res == XorAll(vs, |vs[0]|, -1, |vs|)
  {
    var out := new Block[|vs[0]|](_ => ZERO_BLOCK);
    assert out[..] == ZeroVec(|vs[0]|);
    for i := 0 to |vs|
      invariant out[..] == XorAll(vs, |vs[0]|, -1, i)
    {
      Xor(out, out, vs[i]);
    }
    res := out[..];
  }

  // One byte of one slot is enough to follow the cancellation.

  function PadByte(kp: seq<Vec>, my: nat, n: nat, s: nat, t: nat): bv8
    requires n <= |kp| && s < |kp| && t < MSIZE
    requires forall i :: 0 <= i < |kp| && i != my ==> |kp[i]| == |kp|
  {
    if n == 0 then 0
    else PadByte(kp, my, n - 1, s, t) ^ (if n - 1 == my then 0 else kp[n - 1][s][t])
  }

  lemma XorVecAt(u: Vec, v: Vec, s: nat, t: nat)
    requires |u| == |v| && s < |u| && t < MSIZE
    ensures XorVec(u, v)[s][t] == u[s][t] ^ v[s][t]
  {
    assert XorVec(u, v)[s] == XorBlock(u[s], v[s]);
  }

  lemma XorZero(a: bv8)
    ensures a ^ 0 == a
  {
  }

  lemma {:induction false} PadByteIsXorAll(kp: seq<Vec>, my: nat, n: nat, s: nat, t: nat)
    requires n <= |kp| && s < |kp| && t < MSIZE
    requires forall i :: 0 <= i < |kp| && i != my ==> |kp[i]| == |kp|
    ensures XorAll(kp, |kp|, my, n)[s][t] == PadByte(kp, my, n, s, t)
  {
    if n == 0 {
      assert ZeroVec(|kp|)[s] == ZERO_BLOCK;
    } else {
      PadByteIsXorAll(kp, my, n - 1, s, t);
      XorZero(PadByte(kp, my, n - 1, s, t));
      if n - 1 != my { XorVecAt(XorAll(kp, |kp|, my, n - 1), kp[n - 1], s, t); }
    }
  }

  ghost predicate VecSecrets(secrets: seq<seq<Vec>>) {
    && Symmetric(secrets)
    && forall a, b :: 0 <= a < |secrets| && 0 <= b < |secrets| && a != b ==> |secrets[a][b]| == |secrets|
  }

  ghost function GridByte(secrets: seq<seq<Vec>>, m: nat, n: nat, s: nat, t: nat): bv8
    requires VecSecrets(secrets) && m <= |secrets| && n <= |secrets| && s < |secrets| && t < MSIZE
  {
    if m == 0 then 0 else GridByte(secrets, m - 1, n, s, t) ^ PadByte(secrets[m - 1], m - 1, n, s, t)
  }

  lemma {:induction false} GridByteColumn(secrets: seq<seq<Vec>>, m: nat, n: nat, s: nat, t: nat)
    requires VecSecrets(secrets) && m <= n < |secrets| && s < |secrets| && t < MSIZE
    ensures GridByte(secrets, m, n + 1, s, t) == GridByte(secrets, m, n, s, t) ^ PadByte(secrets[n], n, m, s, t)
  {
    if m > 0 {
      GridByteColumn(secrets, m - 1, n, s, t);
      assert secrets[m - 1][n] == secrets[n][m - 1];
      XorShuffle(GridByte(secrets, m - 1, n, s, t), PadByte(secrets[n], n, m - 1, s, t),
                 PadByte(secrets[m - 1], m - 1, n, s, t), secrets[n][m - 1][s][t]);
    }
  }

  lemma XorShuffle(u: bv8, v: bv8, w: bv8, k: bv8)
    ensures (u ^ v) ^ (w ^ k) == (u ^ w) ^ (v ^ k)
  {
  }

  lemma {:induction false} PadBytesCancel(secrets: seq<seq<Vec>>, n: nat, s: nat, t: nat)
    requires VecSecrets(secrets) && n <= |secrets| && s < |secrets| && t < MSIZE
    ensures GridByte(secrets, n, n, s, t) == 0
  {
    if n > 0 {
      PadBytesCancel(secrets, n - 1, s, t);
      GridByteColumn(secrets, n - 1, n - 1, s, t);
      var k := PadByte(secrets[n - 1], n - 1, n - 1, s, t);
      XorShuffle(0, k, k, 0);
    }
  }

  /** Every participant's DC-net vector. */
  ghost function DcPublished(secrets: seq<seq<Vec>>, msgs: seq<Block>, slots: seq<nat>): (vs: seq<Vec>)
    requires VecSecrets(secrets) && |msgs| == |slots| == |secrets|
    requires forall a :: 0 <= a < |slots| ==> slots[a] < |slots|
    ensures |vs| == |msgs| && forall a :: 0 <= a < |vs| ==> |vs[a]| == |msgs|
  {
    seq(|msgs|, a requires 0 <= a < |msgs| =>
      MixInto(XorAll(secrets[a], |msgs|, a, |msgs|), msgs[a], slots[a]))
  }

  /** XOR of the messages sent to slot s by the first n participants. */
  function SlotByte(msgs: seq<Block>, slots: seq<nat>, n: nat, s: nat, t: nat): bv8
    requires n <= |msgs| == |slots| && t < MSIZE
  {
    if n == 0 then 0
    else SlotByte(msgs, slots, n - 1, s, t) ^ (if slots[n - 1] == s then msgs[n - 1][t] else 0)
  }

  lemma {:induction false} DcColumn(secrets: seq<seq<Vec>>, msgs: seq<Block>, slots: seq<nat>, n: nat, s: nat, t: nat)
    requires VecSecrets(secrets) && |msgs| == |slots| == |secrets| && n <= |msgs|
    requires forall a :: 0 <= a < |slots| ==> slots[a] < |slots|
    requires s < |msgs| && t < MSIZE
    ensures XorAll(DcPublished(secrets, msgs, slots), |msgs|, -1, n)[s][t]
         == GridByte(secrets, n, |msgs|, s, t) ^ SlotByte(msgs, slots, n, s, t)
  {
    if n > 0 {
      DcColumn(secrets, msgs, slots, n - 1, s, t);
      var vs := DcPublished(secrets, msgs, slots);
      XorVecAt(XorAll(vs, |msgs|, -1, n - 1), vs[n - 1], s, t);
      PublishedByte(secrets, msgs, slots, n - 1, s, t);
      XorShuffle(GridByte(secrets, n - 1, |msgs|, s, t), SlotByte(msgs, slots, n - 1, s, t),
                 PadByte(secrets[n - 1], n - 1, |msgs|, s, t), if slots[n - 1] == s then msgs[n - 1][t] else 0);
    } else {
      assert ZeroVec(|msgs|)[s] == ZERO_BLOCK;
    }
  }

  lemma PublishedByte(secrets: seq<seq<Vec>>, msgs: seq<Block>, slots: seq<nat>, a: nat, s: nat, t: nat)
    requires VecSecrets(secrets) && |msgs| == |slots| == |secrets| && a < |msgs|
    requires forall a :: 0 <= a < |slots| ==> slots[a] < |slots|
    requires s < |msgs| && t < MSIZE
    ensures DcPublished(secrets, msgs, slots)[a][s][t]
         == PadByte(secrets[a], a, |msgs|, s, t) ^ (if slots[a] == s then msgs[a][t] else 0)
  {
    PadByteIsXorAll(secrets[a], a, |msgs|, s, t);
    XorZero(PadByte(secrets[a], a, |msgs|, s, t));
  }

  lemma {:induction false} SlotByteUnique(msgs: seq<Block>, slots: seq<nat>, n: nat, a: nat, t: nat)
    requires n <= |msgs| == |slots| && a < |msgs| && t < MSIZE
    requires forall b :: 0 <= b < |slots| && b != a ==> slots[b] != slots[a]
    ensures SlotByte(msgs, slots, n, slots[a], t) == if a < n then msgs[a][t] else 0
  {
    if n > 0 { SlotByteUnique(msgs, slots, n - 1, a, t); }
  }

  /** XORing every published vector: slot s holds the XOR of the messages sent
      to it, whatever the slots are. */
  lemma DcNetHoldsSlotXor(secrets: seq<seq<Vec>>, msgs: seq<Block>, slots: seq<nat>, s: nat, t: nat)
    requires VecSecrets(secrets) && |msgs| == |slots| == |secrets|
    requires forall a :: 0 <= a < |slots| ==> slots[a] < |slots|
    requires s < |msgs| && t < MSIZE
    ensures XorAll(DcPublished(secrets, msgs, slots), |msgs|, -1, |msgs|)[s][t]
         == SlotByte(msgs, slots, |msgs|, s, t)
  {
    DcColumn(secrets, msgs, slots, |msgs|, s, t);
    PadBytesCancel(secrets, |msgs|, s, t);
  }

  /** With distinct slots every participant finds its message in its slot. */
  lemma DcNetRecoversMessages(secrets: seq<seq<Vec>>, msgs: seq<Block>, slots: seq<nat>)
    requires VecSecrets(secrets) && |msgs| == |slots| == |secrets|
    requires forall a :: 0 <= a < |slots| ==> slots[a] < |slots|
    requires forall a, b :: 0 <= a < b < |slots| ==> slots[a] != slots[b]
    ensures forall a :: 0 <= a < |msgs| ==>
      XorAll(DcPublished(secrets, msgs, slots), |msgs|, -1, |msgs|)[slots[a]] == msgs[a]
  {
    var res := XorAll(DcPublished(secrets, msgs, slots), |msgs|, -1, |msgs|);
    forall a | 0 <= a < |msgs| ensures res[slots[a]] == msgs[a] {
      forall t | 0 <= t < MSIZE ensures res[slots[a]][t] == msgs[a][t] {
        DcNetHoldsSlotXor(secrets, msgs, slots, slots[a], t);
        SlotByteUnique(msgs, slots, |msgs|, a, t);
      }
    }
  }
}
