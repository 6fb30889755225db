/** The bit writer and bit reader of gcs/bits.go. */
module BitStream {
  import opened BitLists

  /** All bits of a byte string. */
  function Unpack(bytes: seq<byte>): (bits: seq<bool>)
    ensures |bits| == 8 * |bytes|
  {
    if bytes == [] then [] else BitsOf(bytes[0], 8) + Unpack(bytes[1..])
  }

  /** The bits packed into bytes, the last byte filled up with zeros. */
  function Pack(bits: seq<bool>): (bytes: seq<byte>)
    ensures |bytes| == (|bits| + 7) / 8
  {
    if bits == [] then []
    else if |bits| < 8 then
      ValueBound(bits + Zeros(8 - |bits|));
      Pow2Small();
      [Value(bits + Zeros(8 - |bits|))]
    else
      ValueBound(bits[..8]);
      Pow2Small();
      [Value(bits[..8])] + Pack(bits[8..])
  }

  lemma {:induction false} UnpackConcat(a: seq<byte>, b: seq<byte>)
    ensures Unpack(a + b) == Unpack(a) + Unpack(b)
  {
    if a == [] {
      assert a + b == b;
    } else {
      UnpackConcat(a[1..], b);
      assert (a + b)[0] == a[0] && (a + b)[1..] == a[1..] + b;
    }
  }

  lemma UnpackSnoc(a: seq<byte>, x: byte)
    ensures Unpack(a + [x]) == Unpack(a) + BitsOf(x, 8)
  {
    UnpackConcat(a, [x]);
    assert Unpack([x]) == BitsOf(x, 8) + Unpack([]);
  }

  /** Bytes whose bits are a list and fewer than eight zeros are that list packed. */
  lemma {:induction false} UnpackIsPack(bytes: seq<byte>, bits: seq<bool>, u: nat)
    requires u < 8 && Unpack(bytes) == bits + Zeros(u)
    ensures bytes == Pack(bits)
  {
    if bytes != [] {
      var b := bytes[0];
      Pow2Small();
      ValueOfBits(b, 8);
      ShrLowSmall(b, 8);
      assert Unpack(bytes)[..8] == BitsOf(b, 8);
      assert Unpack(bytes)[8..] == Unpack(bytes[1..]);
      if |bytes| == 1 {
        if |bits| < 8 {
          assert bits + Zeros(8 - |bits|) == BitsOf(b, 8);
        } else {
          assert bits[..8] == BitsOf(b, 8) && bits[8..] == [];
        }
      } else {
        assert bits[..8] == BitsOf(b, 8);
        assert Unpack(bytes[1..]) == bits[8..] + Zeros(u);
        UnpackIsPack(bytes[1..], bits[8..], u);
      }
    }
  }

  lemma {:induction false} PackUnpack(bits: seq<bool>)
    ensures Unpack(Pack(bits)) == bits + Zeros(8 * |Pack(bits)| - |bits|)
    decreases |bits|
  {
    if 0 < |bits| < 8 {
      BitsOfValue(bits + Zeros(8 - |bits|));
      assert Pack(bits)[1..] == [];
    } else if |bits| >= 8 {
      BitsOfValue(bits[..8]);
      PackUnpack(bits[8..]);
      assert Pack(bits)[1..] == Pack(bits[8..]);
    }
  }

  /** The number of bits at or below a single-bit mask. */
  function Below(mask: nat): nat {
    match mask
    case 1 => 1
    case 2 => 2
    case 4 => 3
    case 8 => 4
    case 16 => 5
    case 32 => 6
    case 64 => 7
    case 128 => 8
    case _ => 0
  }

  predicate IsMask(mask: nat) {
    mask == 0 || Below(mask) > 0
  }

  lemma MaskIsPow2(mask: nat)
    requires IsMask(mask)
    ensures mask > 0 ==> mask == Pow2(Below(mask) - 1)
    ensures IsMask(mask / 2) && Below(mask / 2) == if mask == 0 then 0 else Below(mask) - 1
  {
    Pow2Small();
  }

  // ---- 64-bit words -----------------------------------------------------------------

  const WORD: nat := 64

  function Shl64(v: uint64, k: nat): (r: uint64) {
    Pow2Is64();
    Low(v * Pow2(k), WORD)
  }

  lemma Shl64Bits(v: uint64, k: nat)
    requires k <= WORD
    ensures BitsOf(Shl64(v, k), WORD) == BitsOf(v, WORD)[k..] + Zeros(k)
  {
    var w := v * Pow2(k);
    BitsOfJoin(v, WORD, 0, k);
    BitsOfZero(k);
    BitsOfSplit(w, k, WORD);
    BitsOfLow(w, WORD);
    var all := BitsOf(w, WORD + k);
    assert all == BitsOf(v, WORD) + Zeros(k);
    assert all[k..] == BitsOf(w, WORD);
    assert all[k..] == BitsOf(v, WORD)[k..] + Zeros(k);
  }

  /** The n low bits, moved to the top of the word. */
  lemma AlignedBits(value: uint64, n: nat)
    requires n <= WORD
    ensures BitsOf(Shl64(value, WORD - n), WORD)[..n] == BitsOf(value, n)
  {
    Shl64Bits(value, WORD - n);
    BitsOfSplit(value, WORD - n, n);
  }

  /** `data` is the word with bits `all`, shifted left by `done`. */
  ghost predicate Shifted(all: seq<bool>, data: uint64, done: nat) {
    |all| == WORD && done <= WORD && BitsOf(data, WORD) == all[done..] + Zeros(done)
  }

  lemma ShiftBy(all: seq<bool>, data: uint64, done: nat, k: nat)
    requires Shifted(all, data, done) && done + k <= WORD
    ensures Shifted(all, Shl64(data, k), done + k)
    ensures BitsOf(data, WORD)[..k] == all[done..done + k]
    ensures all[..done] + all[done..done + k] == all[..done + k]
  {
    Shl64Bits(data, k);
    assert (all[done..] + Zeros(done))[k..] == all[done + k..] + Zeros(done);
  }

  lemma ShiftBit(all: seq<bool>, data: uint64, done: nat)
    requires Shifted(all, data, done) && done < WORD
    ensures And(data, Pow2(WORD - 1)) != 0 <==> all[done]
    ensures all[..done] + [all[done]] == all[..done + 1]
    ensures Shifted(all, Shl64(data, 1), done + 1)
  {
    ShiftBy(all, data, done, 1);
    AndBit(data, WORD - 1);
    BitsOfTop(data, WORD);
  }

  lemma ShiftByte(all: seq<bool>, data: uint64, done: nat)
    requires Shifted(all, data, done) && done + 8 <= WORD
    ensures Shr(data, WORD - 8) < 256
    ensures BitsOf(Shr(data, WORD - 8), 8) == all[done..done + 8]
    ensures all[..done] + all[done..done + 8] == all[..done + 8]
    ensures Shifted(all, Shl64(data, 8), done + 8)
  {
    ShiftBy(all, data, done, 8);
    Pow2Is64();
    Pow2Small();
    ShrBound(data, WORD - 8, 8);
    BitsOfSplit(data, 8, WORD - 8);
  }

  // ---- writer -----------------------------------------------------------------------

  /** `next` masks the highest free bit of the last byte; the free bits are zero. */
  ghost predicate WriterState(bytes: seq<byte>, p: nat, next: nat, written: seq<bool>) {
    && IsMask(next) && next != 128
    && if next == 0 then written == Unpack(bytes)
       else
         var u := Below(next);
         && |bytes| > 0 && p == |bytes| - 1
         && Low(bytes[p], u) == 0
         && written == Unpack(bytes[..p]) + BitsOf(Shr(bytes[p], u), 8 - u)
  }

  /** Starting a new byte with one bit. */
  lemma StartByte(bytes: seq<byte>, p: nat, written: seq<bool>, b: byte)
    requires WriterState(bytes, p, 0, written) && (b == 0 || b == 128)
    ensures WriterState(bytes + [b], |bytes|, 64, written + [b == 128])
  {
    FirstBit(b);
    assert (bytes + [b])[..|bytes|] == bytes;
  }

  /** Replacing the last byte by one with a free bit less. */
  lemma FillByte(bytes: seq<byte>, p: nat, next: nat, written: seq<bool>, c: byte, bit: bool)
    requires next != 0 && WriterState(bytes, p, next, written)
    requires Low(c, Below(next) - 1) == 0
    requires BitsOf(Shr(c, Below(next) - 1), 9 - Below(next))
          == BitsOf(Shr(bytes[p], Below(next)), 8 - Below(next)) + [bit]
    ensures WriterState(bytes[p := c], p, next / 2, written + [bit])
  {
    MaskIsPow2(next);
    assert bytes[p := c][..p] == bytes[..p];
    assert written + [bit] == Unpack(bytes[..p]) + BitsOf(Shr(c, Below(next) - 1), 9 - Below(next));
    if next == 1 {
      assert bytes[p := c] == bytes[..p] + [c];
      UnpackSnoc(bytes[..p], c);
    }
  }

  /** Filling the highest free bit of the last byte. */
  lemma FillBit(bytes: seq<byte>, p: nat, next: nat, written: seq<bool>, bit: bool)
    requires next != 0 && WriterState(bytes, p, next, written)
    ensures Or(bytes[p], next) < 256
    ensures WriterState(if bit then bytes[p := Or(bytes[p], next)] else bytes, p, next / 2, written + [bit])
  {
    MaskIsPow2(next);
    AddBit(bytes[p], Below(next));
    if bit {
      FillByte(bytes, p, next, written, Or(bytes[p], next), true);
    } else {
      SkipBit(bytes[p], Below(next));
      FillByte(bytes, p, next, written, bytes[p], false);
      assert bytes[p := bytes[p]] == bytes;
    }
  }

  lemma AppendByte(bytes: seq<byte>, p: nat, written: seq<bool>, b: byte)
    requires WriterState(bytes, p, 0, written)
    ensures WriterState(bytes + [b], p, 0, written + BitsOf(b, 8))
  {
    UnpackSnoc(bytes, b);
  }

  class BitWriter {
    var bytes: seq<byte>
    var p: nat      // index of the last byte
    var next: nat   // next bit to write, as a mask
    ghost var written: seq<bool>

    ghost predicate Valid()
      reads this
    {
      WriterState(bytes, p, next, written)
    }

    constructor ()
      ensures Valid() && written == []
    {
      bytes, p, next, written := [], 0, 0, [];
    }

    /** The bytes are always the written bits packed. */
    lemma BytesArePacked()
      requires Valid()
      ensures bytes == Pack(written)
    {
      if next == 0 {
        assert written + Zeros(0) == written;
        UnpackIsPack(bytes, written, 0);
      } else {
        var u := Below(next);
        assert bytes == bytes[..p] + [bytes[p]];
        UnpackSnoc(bytes[..p], bytes[p]);
        BitsOfSplit(bytes[p], 8 - u, u);
        BitsOfLow(bytes[p], u);
        BitsOfZero(u);
        UnpackIsPack(bytes, written, u);
      }
    }

    method WriteOne()
      requires Valid()
      modifies this
      ensures Valid() && written == old(written) + [true]
      ensures next == if old(next) == 0 then 64 else old(next) / 2
    {
      if next == 0 {
        StartByte(bytes, p, written, 128);
        bytes := bytes + [128];
        p := |bytes| - 1;
        next := 64;
        written := written + [true];
        return;
      }
      FillBit(bytes, p, next, written, true);
      bytes := bytes[p := Or(bytes[p], next)];
      next := next / 2;
      written := written + [true];
    }

    method WriteZero()
      requires Valid()
      modifies this
      ensures Valid() && written == old(written) + [false]
      ensures next == if old(next) == 0 then 64 else old(next) / 2
    {
      if next == 0 {
        StartByte(bytes, p, written, 0);
        bytes := bytes + [0];
        p := |bytes| - 1;
        next := 64;
        written := written + [false];
        return;
      }
      FillBit(bytes, p, next, written, false);
      next := next / 2;
      written := written + [false];
    }

    /** Writes the top bit of `data` and shifts it out. */
    method WriteTopBit(data: uint64, ghost all: seq<bool>, ghost done: nat, ghost before: seq<bool>) returns (rest: uint64)
      requires Valid() && Shifted(all, data, done) && done < WORD && written == before + all[..done]
      modifies this
      ensures Valid() && Shifted(all, rest, done + 1) && written == before + all[..done + 1]
      ensures next == if old(next) == 0 then 64 else old(next) / 2
    {
      ShiftBit(all, data, done);
      if And(data, Pow2(WORD - 1)) != 0 {
        WriteOne();
      } else {
        WriteZero();
      }
      rest := Shl64(data, 1);
      assert written == before + (all[..done] + [all[done]]);
    }

    /** Writes the top byte of `data` at a byte boundary and shifts it out. */
    method WriteTopByte(data: uint64, ghost all: seq<bool>, ghost done: nat, ghost before: seq<bool>) returns (rest: uint64)
      requires Valid() && Shifted(all, data, done) && done + 8 <= WORD && written == before + all[..done] && next == 0
      modifies this
      ensures Valid() && Shifted(all, rest, done + 8) && written == before + all[..done + 8] && next == 0
    {
      ShiftByte(all, data, done);
      AppendByte(bytes, p, written, Shr(data, WORD - 8));
      bytes := bytes + [Shr(data, WORD - 8)];
      written := written + all[done..done + 8];
      rest := Shl64(data, 8);
      assert written == before + (all[..done] + all[done..done + 8]);
    }

    /** Appends the n low bits of `value`. */
    method WriteNBits(value: uint64, count: nat)
      requires Valid() && count <= WORD
      modifies this
      ensures Valid() && written == old(written) + BitsOf(value, count)
    {
      hide BitsOf, Unpack, WriterState;
      var n: nat := count;
      var data := Shl64(value, WORD - n);
      ghost var all, before := BitsOf(data, WORD), written;
      AlignedBits(value, n);

      // If byte is partially written, fill the rest.
      while n > 0
        invariant n <= count && Valid()
        invariant Shifted(all, data, count - n) && written == before + all[..count - n]
      {
        if next == 0 { break; }
        data := WriteTopBit(data, all, count - n, before);
        n := n - 1;
      }
      if n == 0 { return; }

      // Write 8 bits at a time.
      while n >= 8
        invariant n <= count && Valid() && next == 0
        invariant Shifted(all, data, count - n) && written == before + all[..count - n]
      {
        data := WriteTopByte(data, all, count - n, before);
        n := n - 8;
      }

      // Write the remaining bits.
      while n > 0
        invariant n <= count && Valid()
        invariant Shifted(all, data, count - n) && written == before + all[..count - n]
      {
        data := WriteTopBit(data, all, count - n, before);
        n := n - 1;
      }
    }
  }

  lemma FirstBit(b: byte)
    requires b == 0 || b == 128
    ensures Low(b, 7) == 0
    ensures BitsOf(Shr(b, 7), 1) == [b == 128]
  {
    Pow2Small();
    ShrLowUnique(b, if b == 0 then 0 else 1, 0, 7);
    assert BitsOf(Shr(b, 7), 1) == BitsOf(Shr(b, 7) / 2, 0) + [Shr(b, 7) % 2 == 1];
  }

  lemma OddMultiple(q: nat, d: nat)
    ensures (2 * q) * d == q * (2 * d)
    ensures (2 * q + 1) * d == q * (2 * d) + d
  {
  }

  /** Setting the highest free bit of a byte whose u low bits are free. */
  lemma AddBit(b: byte, u: nat)
    requires 1 <= u <= 7 && Low(b, u) == 0
    ensures var c := Or(b, Pow2(u - 1));
      c < 256 && Low(c, u - 1) == 0 && BitsOf(Shr(c, u - 1), 9 - u) == BitsOf(Shr(b, u), 8 - u) + [true]
  {
    hide Or, Shr, Low;
    var q, d := Shr(b, u), Pow2(u - 1);
    ShrLow(b, u);
    OrDisjoint(b, d, u);
    OddMultiple(q, d);
    ShrLowUnique(b + d, 2 * q + 1, 0, u - 1);
    assert (2 * q + 1) / 2 == q;
    Pow2Small();
    FreeBits(b, u);
  }

  lemma FreeBits(b: byte, u: nat)
    requires 1 <= u <= 7 && Low(b, u) == 0
    ensures b + Pow2(u) <= 256
  {
    ShrLow(b, u);
    Pow2Small();
    Pow2Add(8 - u, u);
    ShrBound(b, u, 8 - u);
    var q := Shr(b, u);
    assert (q + 1) * Pow2(u) <= Pow2(8 - u) * Pow2(u);
    assert (q + 1) * Pow2(u) == q * Pow2(u) + Pow2(u);
  }

  lemma SkipBit(b: byte, u: nat)
    requires 1 <= u <= 7 && Low(b, u) == 0
    ensures Low(b, u - 1) == 0 && BitsOf(Shr(b, u - 1), 9 - u) == BitsOf(Shr(b, u), 8 - u) + [false]
  {
    var q, d := Shr(b, u), Pow2(u - 1);
    ShrLow(b, u);
    OddMultiple(q, d);
    ShrLowUnique(b, 2 * q, 0, u - 1);
  }

  // ---- reader -----------------------------------------------------------------------

  datatype ReadResult = Read(value: nat) | EOF

  /** The unread bits: the low bits of the first byte, then the other bytes. */
  function Unread(bytes: seq<byte>, next: nat): (bits: seq<bool>) {
    if bytes == [] then [] else BitsOf(bytes[0], Below(next)) + Unpack(bytes[1..])
  }

  lemma UnreadEmpty(next: nat)
    ensures Unread([], next) == []
  {
  }

  lemma UnreadFresh(bytes: seq<byte>)
    ensures Unread(bytes, 128) == Unpack(bytes)
  {
  }

  /** Reading the bit under the mask. */
  lemma ReadBit(bytes: seq<byte>, next: nat)
    requires bytes != [] && IsMask(next) && next != 0
    ensures Unread(bytes, next) == [And(bytes[0], next) != 0] + Unread(bytes, next / 2)
  {
    hide And, Shr, BitsOf, Unpack, Pow2, Below;
    MaskIsPow2(next);
    AndBit(bytes[0], Below(next) - 1);
    BitsOfTop(bytes[0], Below(next));
  }

  lemma ReadByte(bytes: seq<byte>)
    requires bytes != []
    ensures Unread(bytes, 0) == Unread(bytes[1..], 128)
    ensures Unread(bytes, 128) == BitsOf(bytes[0], 8) + Unread(bytes[1..], 128)
  {
    UnreadFresh(bytes[1..]);
  }

  function LeadingOnes(bits: seq<bool>): (n: nat)
    ensures n <= |bits|
    ensures forall i :: 0 <= i < n ==> bits[i]
    ensures n < |bits| ==> !bits[n]
  {
    if bits == [] || !bits[0] then 0 else 1 + LeadingOnes(bits[1..])
  }

  /** Every bit read so far was a one. */
  ghost predicate CountedSoFar(bits: seq<bool>, rest: seq<bool>, value: nat) {
    value <= |bits| && rest == bits[value..] && LeadingOnes(bits) == value + LeadingOnes(rest)
  }

  lemma CountStart(bits: seq<bool>)
    ensures CountedSoFar(bits, bits, 0)
  {
  }

  lemma CountEnd(bits: seq<bool>, value: nat)
    requires CountedSoFar(bits, [], value)
    ensures LeadingOnes(bits) == |bits|
  {
  }

  lemma CountBit(bits: seq<bool>, rest: seq<bool>, value: nat, one: bool)
    requires CountedSoFar(bits, [one] + rest, value)
    ensures one ==> CountedSoFar(bits, rest, value + 1)
    ensures !one ==> value == LeadingOnes(bits) < |bits| && rest == bits[value + 1..]
  {
    assert ([one] + rest)[1..] == rest == bits[value + 1..];
  }

  class BitReader {
    var bytes: seq<byte>
    var next: nat   // next bit to read in bytes[0], as a mask

    ghost predicate Valid()
      reads this
    {
      IsMask(next)
    }

    function Rest(): seq<bool>
      reads this
    {
      Unread(bytes, next)
    }

    constructor (bitstream: seq<byte>)
      ensures Valid() && Rest() == Unpack(bitstream)
    {
      bytes, next := bitstream, 128;
      new;
      UnreadFresh(bytes);
    }

    /** Reads the bit under the mask and moves the mask on. */
    method NextBit() returns (one: bool)
      requires Valid() && bytes != [] && next != 0
      modifies this
      ensures Valid() && bytes == old(bytes) && next == old(next) / 2
      ensures old(Rest()) == [one] + Rest()
    {
      ReadBit(bytes, next);
      MaskIsPow2(next);
      one := And(bytes[0], next) != 0;
      next := next / 2;
    }

    /** Drops a byte that has been read. */
    method NextByte()
      requires Valid() && bytes != [] && next == 0
      modifies this
      ensures Valid() && bytes == old(bytes)[1..] && next == 128
      ensures Rest() == old(Rest())
    {
      ReadByte(bytes);
      bytes := bytes[1..];
      next := 128;
    }

    /** Counts the one bits before the next zero bit and reads past it. */
    method ReadUnary() returns (r: ReadResult)
      requires Valid()
      modifies this
      ensures Valid()
      ensures var bits := old(Rest());
        var q := LeadingOnes(bits);
        if q < |bits| then r == Read(q) && Rest() == bits[q + 1..] else r == EOF && Rest() == []
    {
      hide Unread, IsMask, LeadingOnes, CountedSoFar;
      ghost var bits := Rest();
      var value := 0;
      CountStart(bits);
      while true
        invariant Valid() && CountedSoFar(bits, Rest(), value)
        decreases |bytes|
      {
        UnreadEmpty(next);
        if |bytes| == 0 {
          CountEnd(bits, value);
          return EOF;
        }
        ghost var current := bytes;
        while next != 0
          invariant Valid() && bytes == current && CountedSoFar(bits, Rest(), value)
          decreases next
        {
          var one := NextBit();
          CountBit(bits, Rest(), value, one);
          if !one {
            return Read(value);
          }
          value := value + 1;
        }
        NextByte();
      }
    }

    /** Reads the n next bits as a big endian number. */
    method ReadNBits(count: nat) returns (r: ReadResult)
      requires Valid() && count <= WORD
      modifies this
      ensures Valid()
      ensures var bits := old(Rest());
        if count <= |bits| then r == Read(Value(bits[..count])) && Rest() == bits[count..] else r == EOF && Rest() == []
    {
      hide Unread, IsMask, Pow2, Value, Or, Unpack, BitsOf, Below, ReadSoFar;
      ghost var bits := Rest();
      var n: nat := count;
      if n == 0 {
        NothingRead(bits, 0);
        return Read(0);
      }
      UnreadEmpty(next);
      if |bytes| == 0 {
        return EOF;
      }
      var value := 0;
      NothingRead(bits, n);

      // If byte is partially read, read the rest.
      if next != 128 {
        while n > 0
          invariant Valid() && bytes != [] && n <= count && ReadSoFar(bits, Rest(), count - n, value, n)
        {
          if next == 0 {
            NextByte();
            break;
          }
          n := n - 1;
          var one := NextBit();
          TakeBit(bits, Rest(), count - n - 1, value, n, one);
          if one {
            value := Or(value, Pow2(n));
          }
        }
      }
      if n == 0 {
        AllRead(bits, Rest(), count, value);
        return Read(value);
      }

      // Read 8 bits at a time.
      while n >= 8
        invariant Valid() && next == 128 && n <= count && ReadSoFar(bits, Rest(), count - n, value, n)
      {
        UnreadEmpty(next);
        if |bytes| == 0 {
          TooFew(bits, count - n, value, n);
          return EOF;
        }
        n := n - 8;
        ReadByte(bytes);
        TakeByte(bits, Unread(bytes[1..], 128), count - n - 8, value, n, bytes[0]);
        value := Or(value, bytes[0] * Pow2(n));
        bytes := bytes[1..];
      }

      UnreadEmpty(next);
      if |bytes| == 0 {
        if n != 0 {
          TooFew(bits, count - n, value, n);
          return EOF;
        }
        AllRead(bits, Rest(), count, value);
        return Read(value);
      }

      // Read the remaining bits.
      MaskCounts();
      while n > 0
        invariant Valid() && bytes != [] && n < Below(next)
        invariant n <= count && ReadSoFar(bits, Rest(), count - n, value, n)
      {
        n := n - 1;
        MaskIsPow2(next);
        var one := NextBit();
        TakeBit(bits, Rest(), count - n - 1, value, n, one);
        if one {
          value := Or(value, Pow2(n));
        }
      }
      AllRead(bits, Rest(), count, value);
      return Read(value);
    }
  }

  /** `done` bits have been read into the top of a number that has `n` more to go. */
  ghost predicate ReadSoFar(bits: seq<bool>, rest: seq<bool>, done: nat, value: nat, n: nat) {
    done <= |bits| && rest == bits[done..] && value == Value(bits[..done]) * Pow2(n)
  }

  lemma NothingRead(bits: seq<bool>, n: nat)
    ensures ReadSoFar(bits, bits, 0, 0, n)
    ensures Value(bits[..0]) == 0
  {
  }

  lemma AllRead(bits: seq<bool>, rest: seq<bool>, done: nat, value: nat)
    requires ReadSoFar(bits, rest, done, value, 0)
    ensures done <= |bits| && value == Value(bits[..done]) && rest == bits[done..]
  {
  }

  lemma TooFew(bits: seq<bool>, done: nat, value: nat, n: nat)
    requires ReadSoFar(bits, [], done, value, n)
    ensures done == |bits|
  {
  }

  lemma MaskCounts()
    ensures IsMask(128) && Below(128) == 8 && Below(0) == 0
  {
  }

  lemma TakeBits(bits: seq<bool>, done: nat, value: nat, n: nat, more: seq<bool>)
    requires done <= |bits| && more <= bits[done..] && value == Value(bits[..done]) * Pow2(n + |more|)
    ensures done + |more| <= |bits|
    ensures Or(value, Value(more) * Pow2(n)) == Value(bits[..done + |more|]) * Pow2(n)
  {
    hide Or, Value;
    var v, w, k := Value(bits[..done]), Value(more), |more|;
    assert bits[..done + k] == bits[..done] + more;
    ValueConcat(bits[..done], more);
    ValueBound(more);
    Pow2Add(n, k);
    JoinValues(v, w, Pow2(k), Pow2(n));
    ShrLowUnique(value, v, 0, n + k);
    OrDisjoint(value, w * Pow2(n), n + k);
  }

  lemma JoinValues(v: nat, w: nat, d: nat, e: nat)
    requires w < d && e > 0
    ensures v * (e * d) + w * e == (v * d + w) * e
    ensures w * e < e * d
  {
    assert (v * d + w) * e == (v * d) * e + w * e;
    assert (v * d) * e == v * (e * d);
  }

  lemma TakeBit(bits: seq<bool>, rest: seq<bool>, done: nat, value: nat, n: nat, one: bool)
    requires ReadSoFar(bits, [one] + rest, done, value, n + 1)
    ensures ReadSoFar(bits, rest, done + 1, if one then Or(value, Pow2(n)) else value, n)
  {
    TakeBits(bits, done, value, n, [one]);
    assert bits[done + 1..] == rest;
    assert Value([one]) == 2 * Value([one][..0]) + if one then 1 else 0;
    if !one { OrZero(value); }
  }

  lemma OrZero(value: nat)
    ensures Or(value, 0) == value
  {
  }

  lemma TakeByte(bits: seq<bool>, rest: seq<bool>, done: nat, value: nat, n: nat, b: byte)
    requires ReadSoFar(bits, BitsOf(b, 8) + rest, done, value, n + 8)
    ensures ReadSoFar(bits, rest, done + 8, Or(value, b * Pow2(n)), n)
  {
    hide Or, BitsOf;
    TakeBits(bits, done, value, n, BitsOf(b, 8));
    assert bits[done + 8..] == rest;
    Pow2Small();
    ValueOfBits(b, 8);
    ShrLowSmall(b, 8);
  }
}
