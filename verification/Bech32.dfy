/** Bech32 strings: `Encode` and `DecodeNoLimit` of bech32/bech32.go.  A string
    is a sequence of ASCII codes. */
module Bech32 {
  import opened Options
  import opened Bech32Checksum

  type Text = seq<bv8>

  const ONE: bv8 := 49   // the separator '1'

  /** charset[v] */
  function CharOf(v: bv8): (c: bv8)
    requires FiveBits(v)
  {
    match v
    case 0 => 113 // q
    case 1 => 112 // p
    case 2 => 122 // z
    case 3 => 114 // r
    case 4 => 121 // y
    case 5 => 57 // 9
    case 6 => 120 // x
    case 7 => 56 // 8
    case 8 => 103 // g
    case 9 => 102 // f
    case 10 => 50 // 2
    case 11 => 116 // t
    case 12 => 118 // v
    case 13 => 100 // d
    case 14 => 119 // w
    case 15 => 48 // 0
    case 16 => 115 // s
    case 17 => 51 // 3
    case 18 => 106 // j
    case 19 => 110 // n
    case 20 => 53 // 5
    case 21 => 52 // 4
    case 22 => 107 // k
    case 23 => 104 // h
    case 24 => 99 // c
    case 25 => 101 // e
    case 26 => 54 // 6
    case 27 => 109 // m
    case 28 => 117 // u
    case 29 => 97 // a
    case 30 => 55 // 7
    case _ => 108 // l
  }

  /** strings.IndexByte(charset, c) */
  function IndexOf(c: bv8): (v: Option<bv8>) {
    match c
    case 113 => Some(0)
    case 112 => Some(1)
    case 122 => Some(2)
    case 114 => Some(3)
    case 121 => Some(4)
    case 57 => Some(5)
    case 120 => Some(6)
    case 56 => Some(7)
    case 103 => Some(8)
    case 102 => Some(9)
    case 50 => Some(10)
    case 116 => Some(11)
    case 118 => Some(12)
    case 100 => Some(13)
    case 119 => Some(14)
    case 48 => Some(15)
    case 115 => Some(16)
    case 51 => Some(17)
    case 106 => Some(18)
    case 110 => Some(19)
    case 53 => Some(20)
    case 52 => Some(21)
    case 107 => Some(22)
    case 104 => Some(23)
    case 99 => Some(24)
    case 101 => Some(25)
    case 54 => Some(26)
    case 109 => Some(27)
    case 117 => Some(28)
    case 97 => Some(29)
    case 55 => Some(30)
    case 108 => Some(31)
    case _ => None
  }

  predicate Printable(c: bv8) { 33 <= c <= 126 }
  predicate IsLower(c: bv8) { 97 <= c <= 122 }
  predicate IsUpper(c: bv8) { 65 <= c <= 90 }

  function Lower(c: bv8): bv8 { if IsUpper(c) then c + 32 else c }

  const CHARSET: string := "qpzry9x8gf2tvdw0s3jn54khce6mua7l"

  /** The characters are those of the charset, in its order. */
  lemma CharsetOrder(i: nat)
    requires i < 32
    ensures FiveBits(i as bv8) && CharOf(i as bv8) as int == CHARSET[i] as int
  {
    hide CharOf, FiveBits;
    if i < 16 { LowerCharset(i); } else if i < 24 { MiddleCharset(i); } else { UpperCharset(i); }
  }

  lemma LowerCharset(i: nat)
    requires i < 16
    ensures FiveBits(i as bv8) && CharOf(i as bv8) as int == CHARSET[i] as int
  {
  }

  lemma MiddleCharset(i: nat)
    requires 16 <= i < 24
    ensures FiveBits(i as bv8) && CharOf(i as bv8) as int == CHARSET[i] as int
  {
  }

  lemma UpperCharset(i: nat)
    requires 24 <= i < 32
    ensures FiveBits(i as bv8) && CharOf(i as bv8) as int == CHARSET[i] as int
  {
  }

  lemma CharRoundTrip(v: bv8)
    requires FiveBits(v)
    ensures IndexOf(CharOf(v)) == Some(v)
    ensures Printable(CharOf(v)) && !IsUpper(CharOf(v)) && CharOf(v) != ONE
  {
    match v
    case 0 => case 1 => case 2 => case 3 => case 4 => case 5 => case 6 => case 7 =>
    case 8 => case 9 => case 10 => case 11 => case 12 => case 13 => case 14 => case 15 =>
    case 16 => case 17 => case 18 => case 19 => case 20 => case 21 => case 22 => case 23 =>
    case 24 => case 25 => case 26 => case 27 => case 28 => case 29 => case 30 =>
    case _ => assert v == 31;
  }

  lemma IndexRoundTrip(c: bv8)
    requires IndexOf(c).Some?
    ensures FiveBits(IndexOf(c).value) && CharOf(IndexOf(c).value) == c
  {
  }

  lemma LowerChar(c: bv8)
    ensures !IsUpper(Lower(c)) && (!IsUpper(c) ==> Lower(c) == c)
    ensures Printable(c) ==> Printable(Lower(c))
    ensures Lower(c) == ONE <==> c == ONE
  {
  }

  // ---- texts ------------------------------------------------------------------------

  function ToLower(t: Text): (r: Text)
    ensures |r| == |t|
  {
    seq(|t|, i requires 0 <= i < |t| => Lower(t[i]))
  }

  function ToChars(vs: Symbols): (t: Text)
    requires AllFiveBits(vs)
    ensures |t| == |vs|
  {
    seq(|vs|, i requires 0 <= i < |vs| => CharOf(vs[i]))
  }

  datatype Bytes = Values(vs: Symbols) | NonCharset(c: bv8)

  /** toBytes: the first character that is not in the charset is reported. */
  function ToBytes(t: Text): (r: Bytes)
    ensures r.Values? ==> |r.vs| == |t| && forall i :: 0 <= i < |t| ==> IndexOf(t[i]) == Some(r.vs[i])
  {
    if t == [] then Values([])
    else
      var r := ToBytes(t[..|t| - 1]);
      if r.NonCharset? then r
      else match IndexOf(t[|t| - 1])
        case None => NonCharset(t[|t| - 1])
        case Some(v) => Values(r.vs + [v])
  }

  method ToBytesLoop(chars: Text) returns (r: Bytes)
    ensures r == ToBytes(chars)
  {
    hide IndexOf;
    var decoded: Symbols := [];
    for i := 0 to |chars|
      invariant ToBytes(chars[..i]) == Values(decoded)
    {
      assert chars[..i + 1][..i] == chars[..i];
      var index := IndexOf(chars[i]);
      if index.None? {
        FirstBad(chars, i);
        return NonCharset(chars[i]);
      }
      decoded := decoded + [index.value];
    }
    assert chars[..|chars|] == chars;
    r := Values(decoded);
  }

  lemma {:induction false} FirstBad(t: Text, i: nat)
    requires i < |t| && ToBytes(t[..i + 1]) == NonCharset(t[i])
    ensures ToBytes(t) == NonCharset(t[i])
    decreases |t|
  {
    hide IndexOf;
    if |t| == i + 1 {
      assert t[..i + 1] == t;
    } else {
      var u := t[..|t| - 1];
      assert u[..i + 1] == t[..i + 1];
      FirstBad(u, i);
    }
  }

  /** Symbols and their characters correspond. */
  lemma {:induction false} CharsRoundTrip(vs: Symbols)
    requires AllFiveBits(vs)
    ensures ToBytes(ToChars(vs)) == Values(vs)
  {
    hide IndexOf, CharOf, FiveBits;
    if vs != [] {
      var n := |vs| - 1;
      CharsRoundTrip(vs[..n]);
      assert ToChars(vs)[..n] == ToChars(vs[..n]);
      CharRoundTrip(vs[n]);
    }
  }

  lemma BytesRoundTrip(t: Text)
    requires ToBytes(t).Values?
    ensures AllFiveBits(ToBytes(t).vs) && ToChars(ToBytes(t).vs) == t
  {
    hide IndexOf, CharOf, FiveBits;
    var vs := ToBytes(t).vs;
    forall i | 0 <= i < |t| ensures FiveBits(vs[i]) && CharOf(vs[i]) == t[i] {
      IndexRoundTrip(t[i]);
    }
  }

  // ---- encoding -----------------------------------------------------------------------

  datatype EncodeResult = Encoded(text: Text) | InvalidDataByte(b: bv8)

  /** The string for a lowercase prefix and 5-bit data. */
  function TextOf(hrp: Text, data: Symbols): (t: Text)
    requires AllFiveBits(data) && AllFiveBits(Checksum(hrp, data))
  {
    hrp + [ONE] + ToChars(data + Checksum(hrp, data))
  }

  lemma ChecksumFiveBits(hrp: Text, data: Symbols)
    requires AllFiveBits(data)
    ensures AllFiveBits(Checksum(hrp, data)) && AllFiveBits(data + Checksum(hrp, data))
  {
    hide Checksum, FiveBits;
    ZeroIsFiveBits();
    assert AllFiveBits(NO_CHECKSUM);
    ChecksumUnique(hrp, data, NO_CHECKSUM);
  }

  /** The first data byte with more than five bits. */
  function FirstWide(data: Symbols): (r: Option<bv8>)
    ensures r.None? <==> AllFiveBits(data)
  {
    if data == [] then None
    else if !FiveBits(data[0]) then Some(data[0])
    else
      assert data == [data[0]] + data[1..];
      FirstWide(data[1..])
  }

  function EncodeText(hrp: Text, data: Symbols): (r: EncodeResult) {
    match FirstWide(data)
    case Some(b) => InvalidDataByte(b)
    case None =>
      ChecksumFiveBits(ToLower(hrp), data);
      Encoded(TextOf(ToLower(hrp), data))
  }

  method Encode(hrp: Text, data: Symbols) returns (r: EncodeResult)
    ensures r == EncodeText(hrp, data)
  {
    hide FiveBits, CharOf, Polymod, Part, Xor;
    var h := ToLower(hrp);
    var bldr := h + [ONE];
    for i := 0 to |data|
      invariant AllFiveBits(data[..i]) && bldr == h + [ONE] + ToChars(data[..i])
      invariant FirstWide(data) == FirstWide(data[i..])
    {
      var b := data[i];
      assert data[i..][1..] == data[i + 1..];
      if !FiveBits(b) { return InvalidDataByte(b); }
      bldr := bldr + [CharOf(b)];
      assert data[..i + 1] == data[..i] + [b];
      assert ToChars(data[..i + 1]) == ToChars(data[..i]) + [CharOf(b)];
    }
    assert data[..|data|] == data;
    ChecksumFiveBits(h, data);
    var sum := WriteChecksum(h, data);
    assert ToChars(data + Checksum(h, data)) == ToChars(data) + ToChars(Checksum(h, data));
    r := Encoded(bldr + sum);
  }

  /** The checksum characters for a payload. */
  method WriteChecksum(hrp: Text, data: Symbols) returns (bldr: Text)
    requires AllFiveBits(data)
    ensures AllFiveBits(Checksum(hrp, data)) && bldr == ToChars(Checksum(hrp, data))
  {
    hide FiveBits, CharOf, Run, Start, Part, Xor, Parts;
    ChecksumFiveBits(hrp, data);
    var polymod := Bech32Polymod(hrp, data, None);
    var c := Parts(Xor(polymod, 1));
    bldr := [];
    for i := 0 to 6
      invariant bldr == ToChars(c)[..i]
    {
      bldr := bldr + [CharOf(c[i])];
    }
  }

  // ---- decoding -----------------------------------------------------------------------

  datatype DecodeResult =
    | Decoded(hrp: Text, data: Symbols)
    | InvalidLength(n: nat)
    | InvalidCharacter(c: bv8)
    | MixedCase
    | InvalidSeparatorIndex(one: int)
    | NonCharsetChar(c: bv8)
    | InvalidChecksum(expected: Text, actual: Text)

  datatype Scanned = Cases(lower: bool, upper: bool) | BadChar(c: bv8) | Mixed

  /** The character check: the first character that is not printable or completes
      a mix of cases is reported. */
  function Scan(t: Text): Scanned {
    if t == [] then Cases(false, false)
    else
      var c := t[|t| - 1];
      match Scan(t[..|t| - 1])
      case Cases(lower, upper) =>
        if !Printable(c) then BadChar(c)
        else if (lower || IsLower(c)) && (upper || IsUpper(c)) then Mixed
        else Cases(lower || IsLower(c), upper || IsUpper(c))
      case bad => bad
  }

  lemma {:induction false} ScanBad(t: Text, i: nat)
    requires i <= |t| && !Scan(t[..i]).Cases?
    ensures Scan(t) == Scan(t[..i])
    decreases |t|
  {
    hide Printable, IsLower, IsUpper;
    if |t| == i {
      assert t[..i] == t;
    } else {
      var u := t[..|t| - 1];
      assert u[..i] == t[..i];
      ScanBad(u, i);
    }
  }

  method ScanLoop(bech: Text) returns (r: Scanned)
    ensures r == Scan(bech)
  {
    hide Printable, IsLower, IsUpper;
    var hasLower, hasUpper := false, false;
    for i := 0 to |bech|
      invariant Scan(bech[..i]) == Cases(hasLower, hasUpper)
    {
      assert bech[..i + 1][..i] == bech[..i];
      if !Printable(bech[i]) {
        ScanBad(bech, i + 1);
        return BadChar(bech[i]);
      }
      hasLower := hasLower || IsLower(bech[i]);
      hasUpper := hasUpper || IsUpper(bech[i]);
      if hasLower && hasUpper {
        ScanBad(bech, i + 1);
        return Mixed;
      }
    }
    assert bech[..|bech|] == bech;
    r := Cases(hasLower, hasUpper);
  }

  /** strings.LastIndexByte(t, '1') */
  function LastOne(t: Text): (i: int)
    ensures -1 <= i < |t|
    ensures i >= 0 ==> t[i] == ONE
    ensures forall k :: i < k < |t| ==> t[k] != ONE
  {
    if t == [] then -1
    else if t[|t| - 1] == ONE then |t| - 1
    else LastOne(t[..|t| - 1])
  }

  function Verify(hrp: Text, actual: Text, vs: Symbols): (r: DecodeResult)
    requires |vs| >= 6 && AllFiveBits(vs)
  {
    var payload := vs[..|vs| - 6];
    if Verifies(hrp, vs) then Decoded(hrp, payload)
    else
      ChecksumFiveBits(hrp, payload);
      InvalidChecksum(ToChars(Checksum(hrp, payload)), actual)
  }

  function DecodeText(bech: Text): (r: DecodeResult) {
    if |bech| < 8 then InvalidLength(|bech|)
    else match Scan(bech)
      case BadChar(c) => InvalidCharacter(c)
      case Mixed => MixedCase
      case Cases(_, upper) =>
        var t := if upper then ToLower(bech) else bech;
        var one := LastOne(t);
        if one < 1 || one + 7 > |t| then InvalidSeparatorIndex(one)
        else match ToBytes(t[one + 1..])
          case NonCharset(c) => NonCharsetChar(c)
          case Values(vs) =>
            BytesRoundTrip(t[one + 1..]);
            Verify(t[..one], t[|t| - 6..], vs)
  }

  method DecodeNoLimit(bech: Text) returns (r: DecodeResult)
    ensures r == DecodeText(bech)
  {
    hide Scan, ToBytes, FiveBits, CharOf, Verify, LastOne, ToLower;
    if |bech| < 8 { return InvalidLength(|bech|); }
    var scanned := ScanLoop(bech);
    if scanned.BadChar? { return InvalidCharacter(scanned.c); }
    if scanned.Mixed? { return MixedCase; }
    var t := bech;
    if scanned.upper { t := ToLower(bech); }
    var one := LastOne(t);
    if one < 1 || one + 7 > |t| { return InvalidSeparatorIndex(one); }
    var hrp, data := t[..one], t[one + 1..];
    var bytes := ToBytesLoop(data);
    if bytes.NonCharset? { return NonCharsetChar(bytes.c); }
    var decoded := bytes.vs;
    BytesRoundTrip(data);
    r := VerifyChecksum(hrp, t[|t| - 6..], decoded);
  }

  /** The checksum check, and the error that tells the right checksum. */
  method VerifyChecksum(hrp: Text, actual: Text, decoded: Symbols) returns (r: DecodeResult)
    requires |decoded| >= 6 && AllFiveBits(decoded)
    ensures r == Verify(hrp, actual, decoded)
  {
    hide FiveBits, CharOf, Checksum, Run, Start;
    var n := |decoded| - 6;
    var polymod := Bech32Polymod(hrp, decoded[..n], Some(decoded[n..]));
    assert decoded[..n] + decoded[n..] == decoded;
    if polymod != 1 {
      var expected := WriteChecksum(hrp, decoded[..n]);
      return InvalidChecksum(expected, actual);
    }
    r := Decoded(hrp, decoded[..n]);
  }

  /** Decode: DecodeNoLimit for strings of at most 90 characters. */
  function Decode(bech: Text): (r: DecodeResult) {
    if |bech| > 90 then InvalidLength(|bech|) else DecodeText(bech)
  }
}
