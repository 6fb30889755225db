/** Golomb coding of sorted values as differences, at the level of bit lists. */
module Golomb {
  import opened BitLists
  import opened BitStream

  function Ones(n: nat): (bits: seq<bool>)
    ensures |bits| == n
  {
    seq(n, _ => true)
  }

  /** Quotient by 2**B in unary, then the remainder in B bits. */
  function Code(delta: nat, B: nat): (bits: seq<bool>)
    ensures |bits| == Shr(delta, B) + 1 + B
  {
    Ones(Shr(delta, B)) + [false] + BitsOf(delta, B)
  }

  predicate SortedFrom(prev: nat, values: seq<nat>)
    decreases |values|
  {
    values == [] || (prev <= values[0] && SortedFrom(values[0], values[1..]))
  }

  function Encode(prev: nat, values: seq<nat>, B: nat): (bits: seq<bool>)
    requires SortedFrom(prev, values)
    decreases |values|
  {
    if values == [] then [] else Code(values[0] - prev, B) + Encode(values[0], values[1..], B)
  }

  datatype Decoded = Decoded(value: uint64, rest: seq<bool>) | End

  /** Reading one coded difference; 64-bit words wrap around. */
  function Decode(bits: seq<bool>, B: nat): (r: Decoded)
    ensures r.Decoded? ==> |r.rest| < |bits|
  {
    var q := LeadingOnes(bits);
    if q + 1 + B <= |bits| then Decoded((q * Pow2(B) + Value(bits[q + 1..q + 1 + B])) % TWO64, bits[q + 1 + B..])
    else End
  }

  lemma {:induction false} LeadingOnesOf(q: nat, tail: seq<bool>)
    ensures LeadingOnes(Ones(q) + [false] + tail) == q
  {
    if q > 0 {
      LeadingOnesOf(q - 1, tail);
      assert (Ones(q) + [false] + tail)[1..] == Ones(q - 1) + [false] + tail;
    }
  }

  /** Decoding inverts coding and leaves what follows. */
  lemma DecodeCode(delta: uint64, B: nat, tail: seq<bool>)
    ensures Decode(Code(delta, B) + tail, B) == Decoded(delta, tail)
  {
    hide LeadingOnes, Shr, Value, BitsOf;
    var q := Shr(delta, B);
    var bits := Code(delta, B) + tail;
    LeadingOnesOf(q, BitsOf(delta, B) + tail);
    assert bits == Ones(q) + [false] + (BitsOf(delta, B) + tail);
    assert bits[q + 1..q + 1 + B] == BitsOf(delta, B);
    assert bits[q + 1 + B..] == tail;
    ValueOfBits(delta, B);
    ShrLow(delta, B);
  }

  /** In the zero padding differences of zero are read, or the end is met. */
  lemma DecodeZeros(k: nat, B: nat)
    ensures Decode(Zeros(k), B) == if 1 + B <= k then Decoded(0, Zeros(k - 1 - B)) else End
  {
    if 1 + B <= k {
      assert LeadingOnes(Zeros(k)) == 0;
      assert Zeros(k)[1..1 + B] == Zeros(B) && Zeros(k)[1 + B..] == Zeros(k - 1 - B);
      BitsOfZero(B);
      ValueOfBits(0, B);
      ShrLowSmall(0, B);
    }
  }

  // ---- searching the coded values -------------------------------------------------

  /** The search loop of Match over a bit list. */
  function Search(bits: seq<bool>, last: uint64, term: uint64, B: nat): bool
    decreases |bits|
  {
    if last > term then false
    else match Decode(bits, B)
      case End => false
      case Decoded(delta, rest) =>
        var value := (delta + last) % TWO64;
        value == term || Search(rest, value, term, B)
  }

  /** The padding holds no value that was not read before. */
  lemma {:induction false} SearchPadding(k: nat, last: uint64, term: uint64, B: nat)
    requires last != term
    ensures !Search(Zeros(k), last, term, B)
    decreases k
  {
    hide Decode, Zeros;
    DecodeZeros(k, B);
    if 1 + B <= k { SearchPadding(k - 1 - B, last, term, B); }
  }

  /** Searching coded values finds a term exactly when it is one of them, although
      the search runs on into the padding. */
  lemma {:induction false} SearchFinds(prev: uint64, values: seq<uint64>, k: nat, term: uint64, B: nat)
    requires SortedFrom(prev, values) && (values != [] || prev != term)
    ensures Search(Encode(prev, values, B) + Zeros(k), prev, term, B) <==> term in values
    decreases |values|
  {
    hide Decode, Code, Zeros;
    if values == [] {
      assert Encode(prev, values, B) + Zeros(k) == Zeros(k);
      SearchPadding(k, prev, term, B);
    } else {
      FirstValue(prev, values, k, B);
      SearchStep(prev, values, k, term, B);
      if values[0] != term {
        SearchFinds(values[0], values[1..], k, term, B);
      }
    }
  }

  lemma SearchStep(prev: uint64, values: seq<uint64>, k: nat, term: uint64, B: nat)
    requires values != [] && SortedFrom(prev, values)
    ensures Search(Encode(prev, values, B) + Zeros(k), prev, term, B)
       <==> prev <= term && (values[0] == term || Search(Encode(values[0], values[1..], B) + Zeros(k), values[0], term, B))
    ensures prev > term ==> term !in values
    ensures term in values <==> values[0] == term || term in values[1..]
  {
    hide Decode, Code, Zeros, Encode;
    FirstValue(prev, values, k, B);
    SortedBounds(prev, values);
    assert values == [values[0]] + values[1..];
  }

  lemma {:induction false} SortedBounds(prev: nat, values: seq<nat>)
    requires SortedFrom(prev, values)
    ensures forall v :: v in values ==> prev <= v
    decreases |values|
  {
    if values != [] {
      SortedBounds(values[0], values[1..]);
      assert values == [values[0]] + values[1..];
    }
  }

  // ---- merging with sorted search values -------------------------------------------

  /** What comparing the search values with one filter value leads to. */
  datatype Advanced = Found | Beyond(idx: nat) | Exhausted | OutOfRange

  /** The inner loop of MatchAny.  It runs to `size` and indexes `search`. */
  function Advance(search: seq<uint64>, idx: nat, size: nat, filterVal: uint64): (r: Advanced)
    decreases size - idx
  {
    if idx >= size then Exhausted
    else if idx >= |search| then OutOfRange
    else if search[idx] == filterVal then Found
    else if search[idx] > filterVal then Beyond(idx)
    else Advance(search, idx + 1, size, filterVal)
  }

  datatype Merged = Answer(matched: bool) | IndexOutOfRange

  /** The outer loop of MatchAny over a bit list. */
  function Merge(bits: seq<bool>, n: nat, filterVal: uint64, search: seq<uint64>, idx: nat, size: nat, B: nat): Merged
  {
    if n == 0 then Answer(false)
    else match Decode(bits, B)
      case End => Answer(false)
      case Decoded(delta, rest) =>
        var value := (filterVal + delta) % TWO64;
        match Advance(search, idx, size, value)
        case Found => Answer(true)
        case Exhausted => Answer(false)
        case OutOfRange => IndexOutOfRange
        case Beyond(next) => Merge(rest, n - 1, value, search, next, size, B)
  }

  ghost predicate AllBelow(search: seq<uint64>, lo: nat, hi: nat, bound: uint64) {
    forall i :: lo <= i < hi && i < |search| ==> search[i] < bound
  }

  ghost predicate AdvanceMeans(r: Advanced, search: seq<uint64>, idx: nat, filterVal: uint64)
    requires idx <= |search|
  {
    if r.Found? then filterVal in search[idx..]
    else if r.Beyond? then
      idx <= r.idx < |search| && filterVal < search[r.idx] && AllBelow(search, idx, r.idx, filterVal)
    else AllBelow(search, idx, |search|, filterVal)
  }

  lemma {:induction false} AdvanceSorted(search: seq<uint64>, idx: nat, size: nat, filterVal: uint64)
    requires SortedFrom(0, search) && idx <= |search| <= size
    ensures AdvanceMeans(Advance(search, idx, size, filterVal), search, idx, filterVal)
    ensures Advance(search, idx, size, filterVal).Exhausted? ==> size == |search|
    ensures Advance(search, idx, size, filterVal).OutOfRange? ==> size > |search|
    decreases |search| - idx
  {
    if idx < |search| && search[idx] < filterVal {
      AdvanceSorted(search, idx + 1, size, filterVal);
      assert search[idx..] == [search[idx]] + search[idx + 1..];
    }
  }

  ghost predicate Meets(values: seq<uint64>, search: seq<uint64>) {
    exists v :: v in values && v in search
  }

  ghost predicate Exceeds(values: seq<uint64>, bound: uint64) {
    exists v :: v in values && v > bound
  }

  lemma {:induction false} SortedAt(prev: nat, values: seq<nat>, i: nat, j: nat)
    requires SortedFrom(prev, values) && i <= j < |values|
    ensures values[i] <= values[j]
    decreases |values|
  {
    if i > 0 {
      SortedAt(values[0], values[1..], i - 1, j - 1);
    } else if j > 0 {
      SortedBounds(values[0], values[1..]);
      assert values[j] in values[1..];
    }
  }

  /** Merging finds a common value; it runs off the search values exactly when
      there is none, the bound is beyond them and a filter value is as well. */
  lemma {:induction false} MergeFinds(prev: uint64, values: seq<uint64>, k: nat, search: seq<uint64>, idx: nat, size: nat, B: nat)
    requires SortedFrom(prev, values) && SortedFrom(0, search) && idx < |search| <= size
    ensures Merge(Encode(prev, values, B) + Zeros(k), |values|, prev, search, idx, size, B)
         == if Meets(values, search[idx..]) then Answer(true)
            else if size > |search| && Exceeds(values, search[|search| - 1]) then IndexOutOfRange
            else Answer(false)
    decreases |values|
  {
    hide Decode, Code, Zeros, Advance, SortedFrom;
    if values != [] {
      var v, more := values[0], values[1..];
      FirstValue(prev, values, k, B);
      AdvanceSorted(search, idx, size, v);
      var r := Advance(search, idx, size, v);
      if r.Beyond? {
        MergeFinds(v, more, k, search, r.idx, size, B);
        MergeBeyond(values, prev, search, idx, r.idx);
        MergeBound(values, search, r.idx);
      } else if !r.Found? {
        MergePast(values, prev, search, idx);
      }
    }
  }

  lemma FirstValue(prev: uint64, values: seq<uint64>, k: nat, B: nat)
    requires values != [] && SortedFrom(prev, values)
    ensures SortedFrom(values[0], values[1..])
    ensures Decode(Encode(prev, values, B) + Zeros(k), B)
         == Decoded(values[0] - prev, Encode(values[0], values[1..], B) + Zeros(k))
  {
    hide Decode, Code, Zeros;
    var v, more := values[0], values[1..];
    var tail := Encode(v, more, B) + Zeros(k);
    assert Encode(prev, values, B) + Zeros(k) == Code(v - prev, B) + tail;
    DecodeCode(v - prev, B, tail);
  }

  /** The first filter value lies below the search values from j on. */
  lemma MergeBeyond(values: seq<uint64>, prev: uint64, search: seq<uint64>, idx: nat, j: nat)
    requires values != [] && SortedFrom(prev, values) && SortedFrom(0, search) && idx <= j < |search|
    requires values[0] < search[j] && AllBelow(search, idx, j, values[0])
    ensures Meets(values, search[idx..]) <==> Meets(values[1..], search[j..])
  {
    hide SortedFrom;
    var v, more := values[0], values[1..];
    assert values == [v] + more;
    assert search[idx..] == search[idx..j] + search[j..];
    if w :| w in values && w in search[idx..] {
      FirstIsLeast(prev, values, w);
      BeyondTail(search, idx, j, v, w);
      assert w in more && w in search[j..];
    }
    if w :| w in more && w in search[j..] { assert w in values && w in search[idx..]; }
  }

  lemma MergeBound(values: seq<uint64>, search: seq<uint64>, j: nat)
    requires values != [] && SortedFrom(0, search) && j < |search| && values[0] < search[j]
    ensures Exceeds(values, search[|search| - 1]) <==> Exceeds(values[1..], search[|search| - 1])
  {
    SortedAt(0, search, j, |search| - 1);
    assert values == [values[0]] + values[1..];
    if w :| w in values && w > search[|search| - 1] { assert w in values[1..]; }
    if w :| w in values[1..] && w > search[|search| - 1] { assert w in values; }
  }

  /** The first filter value lies above all search values left. */
  lemma MergePast(values: seq<uint64>, prev: uint64, search: seq<uint64>, idx: nat)
    requires values != [] && SortedFrom(prev, values) && idx < |search|
    requires AllBelow(search, idx, |search|, values[0])
    ensures !Meets(values, search[idx..]) && Exceeds(values, search[|search| - 1])
  {
    assert values[0] in values && values[0] > search[|search| - 1];
    assert forall i :: 0 <= i < |search[idx..]| ==> search[idx..][i] == search[idx + i] < values[0];
    SortedBounds(values[0], values[1..]);
    assert values == [values[0]] + values[1..];
  }

  lemma BeyondTail(search: seq<uint64>, idx: nat, j: nat, v: uint64, w: uint64)
    requires SortedFrom(0, search) && idx <= j < |search| && v < search[j] && v <= w && w in search[idx..]
    requires AllBelow(search, idx, j, v)
    ensures w in search[j..] && w != v
  {
    hide SortedFrom;
    var i :| 0 <= i < |search[idx..]| && search[idx..][i] == w;
    assert search[idx + i] == w;
    assert idx + i >= j;
    SortedAt(0, search, j, idx + i);
    assert search[j..][idx + i - j] == w;
  }

  lemma FirstIsLeast(prev: nat, values: seq<nat>, w: nat)
    requires SortedFrom(prev, values) && w in values
    ensures values[0] <= w
  {
    var j :| 0 <= j < |values| && values[j] == w;
    SortedAt(prev, values, 0, j);
  }
}
