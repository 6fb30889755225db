/** The variable length integers of wire/common.go. */
module VarInt {
  import opened BitLists

  datatype VarIntResult = Number(value: nat) | UnexpectedEof | NonCanonical

  function ToLittleEndian(v: nat, k: nat): (bytes: seq<byte>)
    ensures |bytes| == k
  {
    if k == 0 then [] else [v % 256] + ToLittleEndian(v / 256, k - 1)
  }

  function FromLittleEndian(bytes: seq<byte>): nat {
    if bytes == [] then 0 else bytes[0] + 256 * FromLittleEndian(bytes[1..])
  }

  lemma {:induction false} LittleEndianRoundTrip(v: nat, k: nat)
    requires v < Pow2(8 * k)
    ensures FromLittleEndian(ToLittleEndian(v, k)) == v
  {
    if k > 0 {
      Pow2Small();
      Pow2Add(8, 8 * (k - 1));
      LittleEndianRoundTrip(v / 256, k - 1);
      assert ToLittleEndian(v, k)[1..] == ToLittleEndian(v / 256, k - 1);
    }
  }

  lemma {:induction false} LittleEndianBytes(bytes: seq<byte>)
    ensures ToLittleEndian(FromLittleEndian(bytes), |bytes|) == bytes
    ensures FromLittleEndian(bytes) < Pow2(8 * |bytes|)
  {
    if bytes != [] {
      LittleEndianBytes(bytes[1..]);
      Pow2Small();
      Pow2Add(8, 8 * (|bytes| - 1));
      assert FromLittleEndian(bytes) / 256 == FromLittleEndian(bytes[1..]);
    }
  }

  lemma WidthBounds()
    ensures Pow2(16) == 0x1_0000 && Pow2(32) == 0x1_0000_0000 && Pow2(64) == TWO64
  {
    Pow2Is64();
    Pow2Small();
    Pow2Add(8, 8);
    Pow2Add(16, 16);
  }

  function VarIntSerializeSize(v: uint64): (size: nat) {
    if v < 0xfd then 1 else if v <= 0xffff then 3 else if v <= 0xffff_ffff then 5 else 9
  }

  function WriteVarInt(v: uint64): (bytes: seq<byte>) {
    if v < 0xfd then [v]
    else if v <= 0xffff then [0xfd] + ToLittleEndian(v, 2)
    else if v <= 0xffff_ffff then [0xfe] + ToLittleEndian(v, 4)
    else [0xff] + ToLittleEndian(v, 8)
  }

  function ReadVarInt(d: seq<byte>): (r: VarIntResult) {
    if d == [] then UnexpectedEof
    else match d[0]
      case 0xff => ReadWide(d, 8, 0x1_0000_0000)
      case 0xfe => ReadWide(d, 4, 0x1_0000)
      case 0xfd => ReadWide(d, 2, 0xfd)
      case _ => Number(d[0])
  }

  /** A value of k bytes; not canonical below the least value that needs them. */
  function ReadWide(d: seq<byte>, k: nat, min: nat): (r: VarIntResult)
    requires d != []
  {
    if |d| < 1 + k then UnexpectedEof
    else
      var v := FromLittleEndian(d[1..1 + k]);
      if v < min then NonCanonical else Number(v)
  }

  lemma ReadWideWritten(v: nat, tag: byte, k: nat, min: nat, rest: seq<byte>)
    requires min <= v < Pow2(8 * k)
    ensures ReadWide([tag] + ToLittleEndian(v, k) + rest, k, min) == Number(v)
  {
    var d := [tag] + ToLittleEndian(v, k) + rest;
    assert d[1..1 + k] == ToLittleEndian(v, k);
    LittleEndianRoundTrip(v, k);
  }

  /** Reading takes back exactly what was written. */
  lemma VarIntRoundTrip(v: uint64, rest: seq<byte>)
    ensures ReadVarInt(WriteVarInt(v) + rest) == Number(v)
    ensures |WriteVarInt(v)| == VarIntSerializeSize(v)
  {
    hide Pow2, FromLittleEndian, ToLittleEndian, ReadWide;
    WidthBounds();
    if v >= 0xfd {
      if v <= 0xffff {
        ReadWideWritten(v, 0xfd, 2, 0xfd, rest);
      } else if v <= 0xffff_ffff {
        ReadWideWritten(v, 0xfe, 4, 0x1_0000, rest);
      } else {
        ReadWideWritten(v, 0xff, 8, 0x1_0000_0000, rest);
      }
    }
  }

  /** Encodings are canonical: what reads as v starts with v as written. */
  lemma VarIntCanonical(d: seq<byte>)
    requires ReadVarInt(d).Number?
    ensures ReadVarInt(d).value < TWO64 && WriteVarInt(ReadVarInt(d).value) <= d
  {
    hide Pow2, FromLittleEndian, ToLittleEndian;
    WidthBounds();
    if d[0] >= 0xfd {
      var k := if d[0] == 0xff then 8 else if d[0] == 0xfe then 4 else 2;
      LittleEndianBytes(d[1..1 + k]);
      assert d[..1 + k] == [d[0]] + d[1..1 + k];
    }
  }
}
