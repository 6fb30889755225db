/** Decoding inverts encoding, and only encodings are accepted. */
module Bech32RoundTrip {
  import opened Bech32Checksum
  import opened Bech32

  ghost predicate AllPrintable(t: Text) {
    forall i :: 0 <= i < |t| ==> Printable(t[i])
  }

  ghost predicate HasLower(t: Text) {
    exists i :: 0 <= i < |t| && IsLower(t[i])
  }

  ghost predicate HasUpper(t: Text) {
    exists i :: 0 <= i < |t| && IsUpper(t[i])
  }

  /** Printable characters, letters of one case only. */
  ghost predicate WellCased(t: Text) {
    AllPrintable(t) && !(HasLower(t) && HasUpper(t))
  }

  lemma {:induction false} ScanMeans(t: Text)
    ensures Scan(t).Cases? <==> WellCased(t)
    ensures Scan(t).Cases? ==> Scan(t).lower == HasLower(t) && Scan(t).upper == HasUpper(t)
  {
    hide Printable, IsLower, IsUpper;
    if t != [] {
      var n := |t| - 1;
      ScanMeans(t[..n]);
      LastChar(t);
    }
  }

  lemma LastChar(t: Text)
    requires t != []
    ensures var n := |t| - 1;
      && (AllPrintable(t) <==> AllPrintable(t[..n]) && Printable(t[n]))
      && (HasLower(t) <==> HasLower(t[..n]) || IsLower(t[n]))
      && (HasUpper(t) <==> HasUpper(t[..n]) || IsUpper(t[n]))
  {
    hide Printable, IsLower, IsUpper;
    var n := |t| - 1;
    if AllPrintable(t[..n]) && Printable(t[n]) {
      forall i | 0 <= i < |t| ensures Printable(t[i]) { if i < n { assert t[..n][i] == t[i]; } }
    }
    if AllPrintable(t) { forall i | 0 <= i < n ensures Printable(t[..n][i]) { assert t[..n][i] == t[i]; } }
    if i :| 0 <= i < |t| && IsLower(t[i]) { if i < n { assert IsLower(t[..n][i]); } }
    if i :| 0 <= i < |t[..n]| && IsLower(t[..n][i]) { assert IsLower(t[i]); }
    if i :| 0 <= i < |t| && IsUpper(t[i]) { if i < n { assert IsUpper(t[..n][i]); } }
    if i :| 0 <= i < |t[..n]| && IsUpper(t[..n][i]) { assert IsUpper(t[i]); }
  }

  lemma LowerText(t: Text)
    ensures !HasUpper(ToLower(t)) && (!HasUpper(t) ==> ToLower(t) == t)
    ensures AllPrintable(t) ==> AllPrintable(ToLower(t))
    ensures ToLower(ToLower(t)) == ToLower(t)
  {
    hide Lower, IsUpper, Printable;
    forall i | 0 <= i < |t|
      ensures !IsUpper(ToLower(t)[i]) && (!IsUpper(t[i]) ==> ToLower(t)[i] == t[i])
      ensures Printable(t[i]) ==> Printable(ToLower(t)[i])
      ensures Lower(ToLower(t)[i]) == ToLower(t)[i]
    {
      LowerChar(t[i]);
      LowerChar(Lower(t[i]));
    }
  }

  lemma CharsText(vs: Symbols)
    requires AllFiveBits(vs)
    ensures AllPrintable(ToChars(vs)) && !HasUpper(ToChars(vs))
    ensures forall i :: 0 <= i < |vs| ==> ToChars(vs)[i] != ONE
  {
    hide FiveBits, CharOf, Printable, IsUpper;
    forall i | 0 <= i < |vs|
      ensures Printable(ToChars(vs)[i]) && !IsUpper(ToChars(vs)[i]) && ToChars(vs)[i] != ONE
    {
      CharRoundTrip(vs[i]);
    }
  }

  /** The separator is the last '1' of an encoding. */
  lemma {:induction false} SeparatorAt(h: Text, cs: Text)
    requires forall i :: 0 <= i < |cs| ==> cs[i] != ONE
    ensures LastOne(h + [ONE] + cs) == |h|
  {
    if cs != [] {
      var n := |cs| - 1;
      SeparatorAt(h, cs[..n]);
      assert (h + [ONE] + cs)[..|h| + 1 + n] == h + [ONE] + cs[..n];
    }
  }

  /** The shape of an encoding of a lowercase prefix. */
  lemma TextShape(h: Text, data: Symbols)
    requires AllPrintable(h) && !HasUpper(h) && AllFiveBits(data)
    ensures AllFiveBits(Checksum(h, data))
    ensures var t := TextOf(h, data);
      && AllPrintable(t) && !HasUpper(t) && LastOne(t) == |h|
      && t[..|h|] == h && |t| == |h| + 7 + |data|
      && ToBytes(t[|h| + 1..]) == Values(data + Checksum(h, data))
  {
    hide FiveBits, CharOf, Printable, IsUpper, Checksum, LastOne, ToBytes;
    ChecksumFiveBits(h, data);
    var vs := data + Checksum(h, data);
    var cs := ToChars(vs);
    CharsText(vs);
    CharsRoundTrip(vs);
    SeparatorAt(h, cs);
    var t := h + [ONE] + cs;
    assert t[|h| + 1..] == cs;
    SeparatorChar();
    forall i | 0 <= i < |t| ensures Printable(t[i]) && !IsUpper(t[i]) {
      if i > |h| { assert t[i] == cs[i - |h| - 1]; }
    }
  }

  lemma SeparatorChar()
    ensures Printable(ONE) && !IsUpper(ONE)
  {
  }

  /** Decoding a lowercase encoding. */
  lemma DecodeOfText(h: Text, data: Symbols)
    requires |h| > 0 && AllPrintable(h) && !HasUpper(h) && AllFiveBits(data)
    ensures AllFiveBits(Checksum(h, data)) && DecodeText(TextOf(h, data)) == Decoded(h, data)
  {
    hide FiveBits, CharOf, Printable, IsUpper, IsLower, Checksum, LastOne, ToBytes, Scan, Verifies, ToChars;
    TextShape(h, data);
    var t := TextOf(h, data);
    ScanMeans(t);
    ChecksumFiveBits(h, data);
    ChecksumUnique(h, data, Checksum(h, data));
    var vs := data + Checksum(h, data);
    assert vs[..|vs| - 6] == data;
  }

  /** DecodeNoLimit inverts Encode; the prefix comes back in lowercase. */
  lemma DecodeOfEncode(hrp: Text, data: Symbols)
    requires |hrp| > 0 && AllPrintable(hrp) && AllFiveBits(data)
    ensures EncodeText(hrp, data).Encoded?
    ensures DecodeText(EncodeText(hrp, data).text) == Decoded(ToLower(hrp), data)
  {
    hide FiveBits, CharOf, Printable, IsUpper, Checksum, TextOf, DecodeText;
    LowerText(hrp);
    DecodeOfText(ToLower(hrp), data);
  }

  /** Upper case strings decode like their lower case forms. */
  lemma DecodeLowered(s: Text)
    requires WellCased(s)
    ensures AllPrintable(ToLower(s)) && !HasUpper(ToLower(s))
    ensures Scan(s).Cases? && Scan(ToLower(s)).Cases?
    ensures (if Scan(s).upper then ToLower(s) else s) == ToLower(s)
    ensures !Scan(ToLower(s)).upper
  {
    hide Printable, IsUpper, IsLower, Scan;
    ScanMeans(s);
    LowerText(s);
    ScanMeans(ToLower(s));
  }

  /** A string whose checksum gets looked at splits at the separator. */
  lemma SplitAtSeparator(s: Text) returns (h: Text, cs: Text)
    requires DecodeText(s).Decoded? || DecodeText(s).InvalidChecksum?
    ensures WellCased(s) && h != [] && |cs| >= 6 && |s| >= 8 && ToLower(s) == h + [ONE] + cs
    ensures ToBytes(cs).Values? && AllFiveBits(ToBytes(cs).vs)
    ensures DecodeText(s) == Verify(h, ToLower(s)[|s| - 6..], ToBytes(cs).vs)
  {
    hide FiveBits, AllFiveBits, WellCased, AllPrintable, HasUpper, HasLower, ToLower, Scan, ToBytes, Verify, LastOne, DecodeText, IndexOf;
    var t, one, vs := DecodeGetsThere(s);
    ScanMeans(s);
    DecodeLowered(s);
    h, cs := t[..one], t[one + 1..];
    assert t == h + [ONE] + cs;
  }

  /** What decoding has passed when it looks at the checksum. */
  lemma DecodeGetsThere(s: Text) returns (t: Text, one: nat, vs: Symbols)
    requires DecodeText(s).Decoded? || DecodeText(s).InvalidChecksum?
    ensures |s| >= 8 && Scan(s).Cases? && t == if Scan(s).upper then ToLower(s) else s
    ensures one == LastOne(t) && 1 <= one && one + 7 <= |t|
    ensures ToBytes(t[one + 1..]) == Values(vs)
    ensures AllFiveBits(vs) && DecodeText(s) == Verify(t[..one], t[|t| - 6..], vs)
  {
    hide FiveBits, Scan, ToLower, ToBytes, Verify, LastOne, ToChars, IndexOf, CharOf;
    t := if Scan(s).upper then ToLower(s) else s;
    one := LastOne(t);
    vs := ToBytes(t[one + 1..]).vs;
    BytesRoundTrip(t[one + 1..]);
  }

  lemma LowerPrefix(s: Text, h: Text, cs: Text)
    requires WellCased(s) && ToLower(s) == h + [ONE] + cs
    ensures AllPrintable(h) && !HasUpper(h) && ToLower(h) == h
  {
    hide WellCased, AllPrintable, HasUpper, ToLower;
    DecodeLowered(s);
    PrefixLower(ToLower(s), |h|);
    assert ToLower(s)[..|h|] == h;
  }

  /** The prefix, the data and the checksum of such a string. */
  lemma PartsOf(s: Text) returns (h: Text, data: Symbols, c: Symbols)
    requires DecodeText(s).Decoded? || DecodeText(s).InvalidChecksum?
    ensures WellCased(s) && h != [] && AllPrintable(h) && !HasUpper(h) && ToLower(h) == h
    ensures |c| == 6 && AllFiveBits(data) && AllFiveBits(c) && AllFiveBits(data + c)
    ensures |s| >= 8 && ToLower(s) == h + [ONE] + ToChars(data + c)
    ensures DecodeText(s) == Verify(h, ToLower(s)[|s| - 6..], data + c)
  {
    hide FiveBits, AllPrintable, HasUpper, WellCased, ToLower, ToBytes, Verify, ToChars, DecodeText;
    var cs;
    h, cs := SplitAtSeparator(s);
    LowerPrefix(s, h, cs);
    var vs := ToBytes(cs).vs;
    BytesRoundTrip(cs);
    data, c := vs[..|vs| - 6], vs[|vs| - 6..];
    assert vs == data + c;
  }

  /** An accepted string re-encodes to its own lowercase form. */
  lemma EncodeOfDecode(s: Text)
    requires DecodeText(s).Decoded?
    ensures var r := DecodeText(s);
      && WellCased(s) && r.hrp != [] && ToLower(r.hrp) == r.hrp && AllPrintable(r.hrp)
      && AllFiveBits(r.data) && EncodeText(r.hrp, r.data) == Encoded(ToLower(s))
  {
    hide FiveBits, CharOf, AllPrintable, HasUpper, Checksum, Verifies, ToChars, DecodeText, WellCased, ToLower;
    var h, data, c := PartsOf(s);
    assert (data + c)[..|data|] == data;
    ChecksumUnique(h, data, c);
  }

  lemma PrefixLower(t: Text, n: nat)
    requires n <= |t| && AllPrintable(t) && !HasUpper(t)
    ensures AllPrintable(t[..n]) && !HasUpper(t[..n]) && ToLower(t[..n]) == t[..n]
  {
    hide Printable, IsUpper;
    assert forall i :: 0 <= i < n ==> t[..n][i] == t[i];
    LowerText(t[..n]);
  }

  /** Exactly the encodings are accepted: a string decodes to a prefix and data
      when its characters are printable and of one case and its lowercase form
      is their encoding. */
  lemma DecodeIffEncoding(s: Text, h: Text, data: Symbols)
    ensures DecodeText(s) == Decoded(h, data) <==>
      WellCased(s) && h != [] && AllPrintable(h) && ToLower(h) == h && EncodeText(h, data) == Encoded(ToLower(s))
  {
    hide FiveBits, CharOf, Printable, IsUpper, IsLower, TextOf, DecodeText;
    if DecodeText(s) == Decoded(h, data) {
      EncodeOfDecode(s);
    }
    if WellCased(s) && h != [] && AllPrintable(h) && ToLower(h) == h && EncodeText(h, data) == Encoded(ToLower(s)) {
      DecodeOfEncode(h, data);
      DecodeSame(s);
    }
  }

  lemma DecodeSame(s: Text)
    requires WellCased(s)
    ensures DecodeText(s) == DecodeText(ToLower(s))
  {
    hide Printable, IsUpper, IsLower, Scan, ToBytes, LastOne, Verify;
    DecodeLowered(s);
  }

  /** The checksum an InvalidChecksum error expects is the one that would have
      been accepted, and it differs from the one found. */
  lemma ExpectedChecksumWorks(s: Text)
    requires DecodeText(s).InvalidChecksum?
    ensures var r := DecodeText(s);
      |r.expected| == 6 && r.expected != r.actual &&
      var t := ToLower(s);
      |t| >= 8 && r.actual == t[|t| - 6..] && DecodeText(t[..|t| - 6] + r.expected).Decoded?
  {
    hide FiveBits, CharOf, AllPrintable, HasUpper, Checksum, Verifies, ToChars, DecodeText, WellCased, ToLower, ToBytes;
    var h, data, c := PartsOf(s);
    var t, w := ToLower(s), Checksum(h, data);
    assert (data + c)[..|data|] == data;
    ChecksumUnique(h, data, c);
    DecodeOfText(h, data);
    CharsSplit(data, w);
    CharsSplit(data, c);
    ReplaceTail(h + [ONE], ToChars(data), ToChars(c), ToChars(w));
    assert TextOf(h, data) == h + [ONE] + (ToChars(data) + ToChars(w));
    CharsRoundTrip(c);
    CharsRoundTrip(w);
  }

  lemma ReplaceTail(h: Text, a: Text, b: Text, c: Text)
    requires |b| == 6
    ensures var t := h + (a + b); t[|t| - 6..] == b && t[..|t| - 6] + c == h + (a + c)
  {
  }

  lemma CharsSplit(a: Symbols, b: Symbols)
    requires AllFiveBits(a) && AllFiveBits(b)
    ensures AllFiveBits(a + b) && ToChars(a + b) == ToChars(a) + ToChars(b)
  {
    hide FiveBits, CharOf;
  }
}
