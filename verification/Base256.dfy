/** Round trips of bit regrouping, and of base 256 data through bech32 strings:
    `EncodeFromBase256` and `DecodeToBase256` of bech32/bech32.go. */
module Base256 {
  import opened Field
  import opened Bech32Checksum
  import opened Bech32
  import opened Bech32RoundTrip
  import opened BitRegroup

  /** An element that uses only its n low bits. */
  ghost predicate Fits(b: bv8, n: nat)
    requires n <= 8
  {
    BitsOf(b)[..8 - n] == Zeros(8 - n)
  }

  ghost predicate AllFit(data: seq<bv8>, n: nat)
    requires n <= 8
  {
    forall i :: 0 <= i < |data| ==> Fits(data[i], n)
  }

  /** The zeros that complete the last group. */
  function PadBits(len: nat, n: nat): (k: nat)
    requires n >= 1
  {
    var rest := len % n;
    if rest == 0 then 0 else n - rest
  }

  // ---- streams and groups -------------------------------------------------------------

  lemma StreamEmpty(n: nat)
    requires n <= 8
    ensures Stream([], n) == []
  {
  }

  lemma StreamCons(b: bv8, data: seq<bv8>, n: nat)
    requires n <= 8
    ensures Stream([b] + data, n) == BitsOf(b)[8 - n..] + Stream(data, n)
  {
    hide BitsOf;
    assert ([b] + data)[1..] == data;
  }

  lemma {:induction false} StreamOfGroup(bits: Bits, n: nat)
    requires 1 <= n <= 8 && Whole(bits, n)
    ensures Stream(Group(bits, n), n) == bits
    decreases |bits|
  {
    hide ByteOf, BitsOf, Stream;
    if |bits| < n {
      assert Group(bits, n) == [];
      StreamEmpty(n);
    } else {
      StreamOfGroup(bits[n..], n);
      var chunk := Zeros(8 - n) + bits[..n];
      BitsByte(chunk);
      assert chunk[8 - n..] == bits[..n];
      StreamCons(ByteOf(chunk), Group(bits[n..], n), n);
      assert bits == bits[..n] + bits[n..];
    }
  }

  lemma {:induction false} GroupOfStream(data: seq<bv8>, n: nat)
    requires 1 <= n <= 8 && AllFit(data, n)
    ensures Whole(Stream(data, n), n) && Group(Stream(data, n), n) == data
  {
    hide ByteOf, BitsOf;
    if data != [] {
      var bits, b := Stream(data, n), data[0];
      GroupOfStream(data[1..], n);
      assert bits[..n] == BitsOf(b)[8 - n..] && bits[n..] == Stream(data[1..], n);
      assert Fits(b, n);
      assert BitsOf(b) == Zeros(8 - n) + bits[..n];
      ByteBits(b);
    }
  }

  lemma {:induction false} PaddedWhole(bits: Bits, n: nat)
    requires n >= 1
    ensures PadBits(|bits|, n) < n && Whole(bits + Zeros(PadBits(|bits|, n)), n)
    decreases |bits|
  {
    if |bits| < n {
      DivUnique(|bits|, 0, |bits|, n);
      var all := bits + Zeros(PadBits(|bits|, n));
      if bits != [] { assert |all| == n && all[n..] == []; } else { assert all == []; }
    } else {
      PaddedWhole(bits[n..], n);
      ModStep(|bits| - n, n);
      var k := PadBits(|bits|, n);
      assert (bits + Zeros(k))[n..] == bits[n..] + Zeros(k);
    }
  }

  lemma {:induction false} GroupGrows(s: Bits, more: Bits, n: nat)
    requires 1 <= n <= 8 && Whole(s, n)
    ensures |Group(s, n)| <= |Group(s + more, n)|
    decreases |s|
  {
    hide ByteOf;
    if s != [] {
      GroupGrows(s[n..], more, n);
      assert (s + more)[n..] == s[n..] + more;
    }
  }

  // ---- round trips ---------------------------------------------------------------------

  /** Regrouping preserves the bit stream: filled up to a whole group with zeros, or
      less an incomplete group of at most four zeros.  It fails exactly on group sizes
      outside one to eight and, without padding, on any other incomplete group. */
  lemma ConvertPreserves(data: seq<bv8>, from: nat, to: nat, pad: bool) returns (k: nat)
    ensures Convert(data, from, to, pad) == InvalidBitGroups <==> !(1 <= from <= 8 && 1 <= to <= 8)
    ensures 1 <= from <= 8 && 1 <= to <= 8 ==>
      var bits, r := Stream(data, from), Convert(data, from, to, pad);
      && k < to
      && (pad ==> r.Regrouped? && Stream(r.data, to) == bits + Zeros(k))
      && (!pad ==> k <= |bits| && (r.Regrouped? <==> k <= 4 && bits[|bits| - k..] == Zeros(k)))
      && (!pad && r.Regrouped? ==> Stream(r.data, to) + Zeros(k) == bits)
      && (r.Regrouped? ==> AllFit(r.data, to))
  {
    hide Stream, Group, Whole, AllFit;
    k := 0;
    if 1 <= from <= 8 && 1 <= to <= 8 {
      var bits := Stream(data, from);
      if pad {
        k := PadBits(|bits|, to);
        PaddedWhole(bits, to);
        StreamOfGroup(bits + Zeros(k), to);
        GroupFits(bits + Zeros(k), to);
      } else {
        k := |bits| % to;
        WholePart(bits, to);
        GroupFits(bits, to);
        var s := bits[..|bits| - k];
        if k <= 4 && bits[|bits| - k..] == Zeros(k) {
          assert bits == s + Zeros(k);
          WholeRest(s, Zeros(k), to);
          StreamOfGroup(s, to);
        }
      }
    }
  }

  /** Regrouping with padding and back gives the data exactly when the padding is
      at most four bits and shorter than an element. */
  lemma ConvertRoundTrip(data: seq<bv8>, from: nat, to: nat)
    requires 1 <= from <= 8 && 1 <= to <= 8 && AllFit(data, from)
    ensures var k := PadBits(|Stream(data, from)|, to);
      Convert(data, from, to, true).Regrouped? &&
      (Convert(Convert(data, from, to, true).data, to, from, false) == Regrouped(data) <==> k < from && k <= 4)
  {
    hide Stream, Group, Whole, AllFit;
    var bits := Stream(data, from);
    var k := PadBits(|bits|, to);
    PaddedWhole(bits, to);
    StreamOfGroup(bits + Zeros(k), to);
    GroupOfStream(data, from);
    if k < from {
      WholeRest(bits, Zeros(k), from);
      assert (bits + Zeros(k))[|bits|..] == Zeros(k);
    } else {
      TooManyZeros(bits, k, from);
    }
  }

  lemma TooManyZeros(bits: Bits, k: nat, n: nat)
    requires 1 <= n <= 8 && Whole(bits, n) && k >= n
    ensures Group(bits + Zeros(k), n) != Group(bits, n)
  {
    hide ByteOf, Whole, Group;
    WholeSnoc(bits, Zeros(n), n);
    GroupGrows(bits + Zeros(n), Zeros(k - n), n);
    assert bits + Zeros(k) == bits + Zeros(n) + Zeros(k - n);
  }

  lemma EightBitsFit(data: seq<bv8>)
    ensures AllFit(data, 8)
  {
    hide BitsOf;
  }

  /** Eight to five bits with padding, then back: always the original bytes. */
  lemma BytesRoundTripFive(data: seq<bv8>)
    ensures Convert(data, 8, 5, true).Regrouped?
    ensures Convert(Convert(data, 8, 5, true).data, 5, 8, false) == Regrouped(data)
  {
    hide Stream, Group, Convert;
    EightBitsFit(data);
    PaddedWhole(Stream(data, 8), 5);
    ConvertRoundTrip(data, 8, 5);
  }

  /** Five to eight bits without padding, then back with it: the original groups,
      whenever the first conversion accepts. */
  lemma FiveRoundTripBytes(data: seq<bv8>)
    requires AllFit(data, 5) && Convert(data, 5, 8, false).Regrouped?
    ensures Convert(Convert(data, 5, 8, false).data, 8, 5, true) == Regrouped(data)
  {
    hide Stream, Group, Whole, AllFit;
    var bits := Stream(data, 5);
    var rest := |bits| % 8;
    var s := bits[..|bits| - rest];
    GroupOfStream(data, 5);
    WholePart(bits, 8);
    assert bits == s + Zeros(rest);
    WholeRest(s, Zeros(rest), 8);
    StreamOfGroup(s, 8);
    WholeLength(bits, 5);
    assert PadBits(|s|, 5) == rest;
  }

  lemma {:induction false} WholeLength(bits: Bits, n: nat)
    requires n >= 1 && Whole(bits, n)
    ensures |bits| % n == 0
    decreases |bits|
  {
    if bits == [] {
      DivUnique(0, 0, 0, n);
    } else {
      WholeLength(bits[n..], n);
      ModStep(|bits| - n, n);
    }
  }

  lemma {:induction false} WholePart(bits: Bits, n: nat)
    requires n >= 1
    ensures 0 <= |bits| % n <= |bits| && Whole(bits[..|bits| - |bits| % n], n)
    decreases |bits|
  {
    if |bits| < n {
      DivUnique(|bits|, 0, |bits|, n);
    } else {
      WholePart(bits[n..], n);
      ModStep(|bits| - n, n);
      var m := |bits| - |bits| % n;
      assert bits[..m][n..] == bits[n..][..m - n];
    }
  }

  // ---- base 256 data in bech32 strings ----------------------------------------------------

  datatype Base256Result = Base256(hrp: Text, data: seq<bv8>) | DecodeError(error: DecodeResult) | ConvertError(reason: Converted)

  lemma GroupFits(bits: Bits, n: nat)
    requires 1 <= n <= 8
    ensures AllFit(Group(bits, n), n)
    decreases |bits|
  {
    hide BitsOf, ByteOf;
    if |bits| >= n {
      GroupFits(bits[n..], n);
      var chunk := Zeros(8 - n) + bits[..n];
      BitsByte(chunk);
      assert chunk[..8 - n] == Zeros(8 - n);
    }
  }

  lemma FitsIsFiveBits(b: bv8)
    ensures Fits(b, 5) <==> FiveBits(b)
  {
    hide On, FiveBits;
    TopThree(b);
    assert BitsOf(b)[..3] == [On(b, 0), On(b, 1), On(b, 2)];
    assert Zeros(3) == [false, false, false];
  }

  lemma TopThree(b: bv8)
    ensures FiveBits(b) <==> !On(b, 0) && !On(b, 1) && !On(b, 2)
  {
  }

  lemma AllFitIsFiveBits(data: seq<bv8>)
    ensures AllFit(data, 5) <==> AllFiveBits(data)
  {
    hide Fits, FiveBits;
    forall i | 0 <= i < |data| ensures Fits(data[i], 5) <==> FiveBits(data[i]) { FitsIsFiveBits(data[i]); }
  }

  function EncodeBase256(hrp: Text, data: seq<bv8>): (r: EncodeResult)
  {
    EncodeText(hrp, Convert(data, 8, 5, true).data)
  }

  method EncodeFromBase256(hrp: Text, data: seq<bv8>) returns (r: EncodeResult)
    ensures r == EncodeBase256(hrp, data)
  {
    var converted := ConvertBits(data, 8, 5, true);
    r := Encode(hrp, converted.data);
  }

  function DecodeBase256(bech: Text): (r: Base256Result) {
    var d := Decode(bech);
    if !d.Decoded? then DecodeError(d)
    else
      var c := Convert(d.data, 5, 8, false);
      if !c.Regrouped? then ConvertError(c) else Base256(d.hrp, c.data)
  }

  method DecodeToBase256(bech: Text) returns (r: Base256Result)
    ensures r == DecodeBase256(bech)
  {
    hide Convert, DecodeText;
    if |bech| > 90 { return DecodeError(InvalidLength(|bech|)); }
    var d := DecodeNoLimit(bech);
    if !d.Decoded? { return DecodeError(d); }
    var c := ConvertBits(d.data, 5, 8, false);
    if !c.Regrouped? { return ConvertError(c); }
    r := Base256(d.hrp, c.data);
  }

  lemma ConvertedFiveBits(data: seq<bv8>)
    ensures Convert(data, 8, 5, true).Regrouped? && AllFiveBits(Convert(data, 8, 5, true).data)
  {
    hide Stream, Group, FiveBits, Fits;
    var bits := Stream(data, 8);
    var rest := |bits| % 5;
    GroupFits(bits + Zeros(if rest == 0 then 0 else 5 - rest), 5);
    AllFitIsFiveBits(Convert(data, 8, 5, true).data);
  }

  /** Bytes come back from their bech32 string exactly when it is not longer than
      the 90 characters that decoding allows. */
  lemma DecodeBase256OfEncode(hrp: Text, data: seq<bv8>)
    requires |hrp| > 0 && AllPrintable(hrp)
    ensures EncodeBase256(hrp, data).Encoded?
    ensures var t := EncodeBase256(hrp, data).text;
      DecodeBase256(t) == if |t| > 90 then DecodeError(InvalidLength(|t|)) else Base256(ToLower(hrp), data)
  {
    hide Convert, DecodeText, EncodeText, FiveBits, AllPrintable;
    ConvertedFiveBits(data);
    var five := Convert(data, 8, 5, true).data;
    DecodeOfEncode(hrp, five);
    BytesRoundTripFive(data);
  }

  /** A string accepted as base 256 data re-encodes to its own lowercase form. */
  lemma EncodeBase256OfDecode(s: Text)
    requires DecodeBase256(s).Base256?
    ensures var r := DecodeBase256(s); EncodeBase256(r.hrp, r.data) == Encoded(ToLower(s))
  {
    hide Convert, DecodeText, EncodeText, FiveBits, WellCased, AllPrintable;
    EncodeOfDecode(s);
    var d := DecodeText(s);
    AllFitIsFiveBits(d.data);
    FiveRoundTripBytes(d.data);
  }
}
