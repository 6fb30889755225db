/** Error detection on whole strings: a change within six adjacent characters of
    the data part of a valid string is reported as an invalid checksum. */
module Bech32Burst {
  import opened Bech32Checksum
  import opened Bech32Poly
  import opened Bech32
  import opened Bech32RoundTrip

  lemma {:induction false} AllCharset(t: Text)
    requires forall i :: 0 <= i < |t| ==> IndexOf(t[i]).Some?
    ensures ToBytes(t).Values?
  {
    hide IndexOf;
    if t != [] { AllCharset(t[..|t| - 1]); }
  }

  lemma DecodeAt(s: Text, t: Text, one: int)
    requires |s| >= 8 && Scan(s).Cases? && t == (if Scan(s).upper then ToLower(s) else s)
    requires one == LastOne(t) && 1 <= one <= |t| - 7 && ToBytes(t[one + 1..]).Values?
    ensures AllFiveBits(ToBytes(t[one + 1..]).vs)
    ensures DecodeText(s) == Verify(t[..one], t[|t| - 6..], ToBytes(t[one + 1..]).vs)
  {
    hide FiveBits, Scan, ToLower, ToBytes, Verify, LastOne, ToChars, IndexOf, CharOf;
    BytesRoundTrip(t[one + 1..]);
  }

  /** A string of this form gets as far as its checksum. */
  lemma JoinAtSeparator(s: Text, h: Text, cs: Text)
    requires WellCased(s) && h != [] && |cs| >= 6 && ToLower(s) == h + [ONE] + cs && ToBytes(cs).Values?
    ensures AllFiveBits(ToBytes(cs).vs) && |s| >= 8
    ensures DecodeText(s) == Verify(h, ToLower(s)[|s| - 6..], ToBytes(cs).vs)
  {
    hide FiveBits, WellCased, AllPrintable, HasUpper, ToLower, Scan, ToBytes, Verify, LastOne, ToChars, DecodeText, IndexOf, CharOf;
    DecodeLowered(s);
    BytesRoundTrip(cs);
    CharsText(ToBytes(cs).vs);
    SeparatorAt(h, cs);
    var t := ToLower(s);
    assert t[..|h|] == h && t[|h| + 1..] == cs;
    DecodeAt(s, t, |h|);
  }

  /** The strings agree, up to case, outside the six characters from k on. */
  ghost predicate AgreeOutside(s: Text, s': Text, k: nat) {
    && |s'| == |s| && k + 6 <= |s|
    && forall i :: 0 <= i < |s| && !(k <= i < k + 6) ==> ToLower(s')[i] == ToLower(s)[i]
  }

  /** Up to six adjacent characters after the separator, changed to others of the
      charset: the checksum is found invalid, whatever the length. */
  lemma BurstInText(s: Text, s': Text, k: nat)
    requires DecodeText(s).Decoded? && WellCased(s') && ToLower(s') != ToLower(s)
    requires AgreeOutside(s, s', k) && k > LastOne(ToLower(s))
    requires forall i :: k <= i < k + 6 ==> IndexOf(ToLower(s')[i]).Some?
    ensures DecodeText(s').InvalidChecksum?
  {
    hide FiveBits, WellCased, ToLower, ToBytes, Verifies, Checksum, LastOne, ToChars, DecodeText, IndexOf;
    var h, cs := SplitAtSeparator(s);
    BytesRoundTrip(cs);
    CharsText(ToBytes(cs).vs);
    SeparatorAt(h, cs);
    var t, n := ToLower(s'), |h| + 1;
    var cs' := t[n..];
    assert t == h + [ONE] + cs';
    Changed(cs, cs', k - n);
    JoinAtSeparator(s', h, cs');
    BurstDetected(h, ToBytes(cs).vs, ToBytes(cs').vs, k - n);
  }

  /** The symbols differ where the characters do. */
  lemma Changed(cs: Text, cs': Text, k: nat)
    requires |cs'| == |cs| && k + 6 <= |cs| && cs' != cs && ToBytes(cs).Values?
    requires forall i :: 0 <= i < |cs| && !(k <= i < k + 6) ==> cs'[i] == cs[i]
    requires forall i :: k <= i < k + 6 ==> IndexOf(cs'[i]).Some?
    ensures ToBytes(cs').Values? && AllFiveBits(ToBytes(cs').vs) && AllFiveBits(ToBytes(cs).vs)
    ensures BurstAt(ToBytes(cs).vs, ToBytes(cs').vs, k)
  {
    hide FiveBits, ToChars, IndexOf;
    AllCharset(cs');
    BytesRoundTrip(cs);
    BytesRoundTrip(cs');
  }

  /** A changed prefix: within six adjacent characters, in their low five bits only
      or their high bits only, with everything after it unchanged. */
  lemma PrefixBurstInText(s: Text, s': Text, h': Text, k: nat)
    requires DecodeText(s).Decoded? && WellCased(s')
    requires var t, one := ToLower(s), LastOne(ToLower(s));
      one >= 0 && PrefixBurst(t[..one], h', k) && ToLower(s') == h' + t[one..]
    ensures DecodeText(s').InvalidChecksum?
  {
    hide FiveBits, WellCased, ToLower, ToBytes, Verifies, Checksum, LastOne, ToChars, DecodeText, IndexOf, CharOf, PrefixBurst;
    var h, cs := SplitAtSeparator(s);
    BytesRoundTrip(cs);
    CharsText(ToBytes(cs).vs);
    SeparatorAt(h, cs);
    var t := ToLower(s);
    assert t[..|h|] == h && t[|h|..] == [ONE] + cs;
    assert ToLower(s') == h' + [ONE] + cs;
    SameLength(h, h', k);
    JoinAtSeparator(s', h', cs);
    PrefixBurstDetected(h, h', ToBytes(cs).vs, k);
  }

  lemma SameLength(h: Text, h': Text, k: nat)
    requires PrefixBurst(h, h', k)
    ensures |h| == |h'|
  {
  }
}
