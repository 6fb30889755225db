/** Exactly which error a string that is no encoding gets. */
module Bech32Errors {
  import opened Options
  import opened Bech32Checksum
  import opened Bech32
  import opened Bech32RoundTrip

  /** The character at which a text stops being printable and of one case. */
  ghost predicate FailsAt(t: Text, i: nat) {
    i < |t| && WellCased(t[..i]) && !WellCased(t[..i + 1])
  }

  lemma WellCasedPrefix(t: Text, i: nat)
    requires i <= |t| && WellCased(t)
    ensures WellCased(t[..i])
  {
    hide Printable, IsLower, IsUpper;
    var u := t[..i];
    forall k | 0 <= k < i ensures Printable(u[k]) { assert u[k] == t[k]; }
    if HasLower(u) {
      var j :| 0 <= j < |u| && IsLower(u[j]);
      assert IsLower(t[j]);
    }
    if HasUpper(u) {
      var j :| 0 <= j < |u| && IsUpper(u[j]);
      assert IsUpper(t[j]);
    }
  }

  lemma FailedBefore(t: Text, i: nat, j: nat)
    requires FailsAt(t, i) && i < j <= |t|
    ensures !WellCased(t[..j])
  {
    hide WellCased;
    assert t[..j][..i + 1] == t[..i + 1];
    if WellCased(t[..j]) { WellCasedPrefix(t[..j], i + 1); }
  }

  lemma NotWellCased(t: Text, i: nat)
    requires FailsAt(t, i)
    ensures !WellCased(t)
  {
    hide WellCased;
    if WellCased(t) { WellCasedPrefix(t, i + 1); }
  }

  lemma FailsOnce(t: Text, i: nat, j: nat)
    requires FailsAt(t, i) && FailsAt(t, j)
    ensures i == j
  {
    hide WellCased;
    if i < j { FailedBefore(t, i, j); }
    if j < i { FailedBefore(t, j, i); }
  }

  lemma {:induction false} ScanFails(t: Text) returns (i: nat)
    requires !WellCased(t)
    ensures FailsAt(t, i) && Scan(t) == if Printable(t[i]) then Mixed else BadChar(t[i])
    decreases |t|
  {
    hide WellCased, Printable, IsLower, IsUpper;
    assert t != [] by { EmptyText(); }
    var n := |t| - 1;
    ScanMeans(t);
    ScanMeans(t[..n]);
    if WellCased(t[..n]) {
      i := n;
      assert t[..n + 1] == t;
    } else {
      i := ScanFails(t[..n]);
      assert t[..n][..i] == t[..i] && t[..n][..i + 1] == t[..i + 1];
    }
  }

  lemma EmptyText()
    ensures WellCased([])
  {
  }

  /** The first character outside the charset. */
  ghost predicate ForeignAt(t: Text, i: nat) {
    i < |t| && IndexOf(t[i]).None? && forall j :: 0 <= j < i ==> IndexOf(t[j]).Some?
  }

  lemma {:induction false} BytesFail(t: Text) returns (i: nat)
    requires ToBytes(t).NonCharset?
    ensures ForeignAt(t, i) && ToBytes(t) == NonCharset(t[i])
  {
    hide IndexOf;
    var n := |t| - 1;
    var u := t[..n];
    if ToBytes(u).NonCharset? {
      i := BytesFail(u);
      assert u[i] == t[i] && forall j :: 0 <= j < i ==> u[j] == t[j];
    } else {
      i := n;
      NoForeign(u);
      assert forall j :: 0 <= j < i ==> u[j] == t[j];
    }
  }

  lemma NoForeign(t: Text)
    requires ToBytes(t).Values?
    ensures forall i :: 0 <= i < |t| ==> IndexOf(t[i]).Some?
  {
    hide IndexOf;
  }

  /** The index of the last separator, or -1. */
  ghost predicate LastSeparator(t: Text, one: int) {
    -1 <= one < |t| && (one >= 0 ==> t[one] == ONE) && forall k :: one < k < |t| ==> t[k] != ONE
  }

  /** A string that is too short, has a wrong character or mixes cases: the error of
      its first failing character. */
  lemma EarlyErrors(s: Text) returns (i: nat)
    ensures |s| < 8 ==> DecodeText(s) == InvalidLength(|s|)
    ensures |s| >= 8 && !WellCased(s) ==> FailsAt(s, i) && DecodeText(s) == if Printable(s[i]) then MixedCase else InvalidCharacter(s[i])
    ensures forall j :: FailsAt(s, j) ==> j == i
    ensures |s| >= 8 && WellCased(s) ==> !DecodeText(s).InvalidLength? && !DecodeText(s).InvalidCharacter? && DecodeText(s) != MixedCase
  {
    hide WellCased, Printable, Scan, ToBytes, ToLower, LastOne, FiveBits, ToChars, Checksum, Verifies, CharOf, IndexOf;
    hide FailsAt;
    ScanMeans(s);
    i := 0;
    if !WellCased(s) { i := ScanFails(s); }
    forall j | FailsAt(s, j) ensures j == i {
      NotWellCased(s, j);
      FailsOnce(s, i, j);
    }
  }

  /** One whose last separator is missing or misplaced, or with a character outside the
      charset behind it; all others are decided by their checksum. */
  lemma LateErrors(s: Text) returns (one: int, i: nat)
    requires |s| >= 8 && WellCased(s)
    ensures LastSeparator(ToLower(s), one)
    ensures one < 1 || one + 7 > |s| ==> DecodeText(s) == InvalidSeparatorIndex(one)
    ensures 1 <= one && one + 7 <= |s| ==>
      var cs := ToLower(s)[one + 1..];
      if forall k :: 0 <= k < |cs| ==> IndexOf(cs[k]).Some? then DecodeText(s).Decoded? || DecodeText(s).InvalidChecksum?
      else ForeignAt(cs, i) && DecodeText(s) == NonCharsetChar(cs[i])
  {
    hide WellCased, Scan, ToBytes, ToLower, IndexOf, LastOne, DecodeText;
    DecodeLowered(s);
    var t := ToLower(s);
    one, i := LastOne(t), 0;
    AfterScan(s, t);
    if 1 <= one && one + 7 <= |s| {
      var cs := t[one + 1..];
      if ToBytes(cs).NonCharset? { i := BytesFail(cs); } else { NoForeign(cs); }
    }
  }

  lemma AfterScan(s: Text, t: Text)
    requires |s| >= 8 && Scan(s).Cases? && t == if Scan(s).upper then ToLower(s) else s
    ensures var one := LastOne(t);
      && (one < 1 || one + 7 > |t| ==> DecodeText(s) == InvalidSeparatorIndex(one))
      && (1 <= one && one + 7 <= |t| ==>
            match ToBytes(t[one + 1..])
            case NonCharset(c) => DecodeText(s) == NonCharsetChar(c)
            case Values(_) => DecodeText(s).Decoded? || DecodeText(s).InvalidChecksum?)
  {
    hide Scan, ToBytes, ToLower, FiveBits, ToChars, IndexOf, LastOne, Checksum, Verifies, CharOf;
  }
}
