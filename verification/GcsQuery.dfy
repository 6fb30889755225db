/** Querying Golomb-coded set filters: `Match` and `MatchAny` of gcs/gcs.go. */
module GcsQuery {
  import opened BitLists
  import opened BitStream
  import opened Golomb
  import opened Gcs

  /** Reads one coded difference. */
  method ReadFullUint64(b: BitReader, B: nat) returns (r: ReadResult)
    requires b.Valid() && B <= MAX_B
    modifies b
    ensures b.Valid()
    ensures var d := Decode(old(b.Rest()), B);
      if d.Decoded? then r == Read(d.value) && b.Rest() == d.rest else r == EOF
  {
    hide LeadingOnes, Value, Unread, IsMask, Pow2;
    ghost var bits := b.Rest();
    var u := b.ReadUnary();
    if u == EOF { return EOF; }
    var q := u.value;
    var v := b.ReadNBits(B);
    if v == EOF { return EOF; }
    assert bits[q + 1..][..B] == bits[q + 1..q + 1 + B];
    assert bits[q + 1..][B..] == bits[q + 1 + B..];
    AddWraps(q * Pow2(B), v.value);
    r := Read((q * Pow2(B) % TWO64 + v.value) % TWO64);
  }

  lemma AddWraps(x: nat, y: nat)
    ensures (x % TWO64 + y) % TWO64 == (x + y) % TWO64
  {
  }

  // ---- Match ----------------------------------------------------------------------

  /** A version 1 filter with data must count its items; x mod 0 would fault. */
  predicate Queryable(f: Filter) {
    f.b <= MAX_B && (f.version == 1 && f.filterData != [] ==> f.modulusNM > 0)
  }

  function Term(f: Filter, key: Key, item: Item, h: SipHash): uint64
    requires Queryable(f) && f.filterData != []
  {
    Reduce(f.version, h(key, item), f.modulusNM)
  }

  predicate Matches(f: Filter, key: Key, item: Item, h: SipHash)
    requires Queryable(f)
  {
    f.filterData != [] && item != [] && Search(Unpack(f.filterData), 0, Term(f, key, item, h), f.b)
  }

  method Match(f: Filter, key: Key, data: Item, h: SipHash) returns (found: bool)
    requires Queryable(f)
    ensures found <==> Matches(f, key, data, h)
  {
    hide Unread, Unpack, IsMask, Decode;
    if |f.filterData| == 0 || |data| == 0 { return false; }
    var term := Reduce(f.version, h(key, data), f.modulusNM);
    var b := new BitReader(f.filterData);
    var lastValue: uint64 := 0;
    while lastValue <= term
      invariant b.Valid() && fresh(b)
      invariant Matches(f, key, data, h) <==> Search(b.Rest(), lastValue, term, f.b)
      decreases |b.Rest()|
    {
      var r := ReadFullUint64(b, f.b);
      if r == EOF { return false; }
      var value := (r.value + lastValue) % TWO64;
      if value == term { return true; }
      lastValue := value;
    }
    return false;
  }

  /** The filter's data are its values, coded and padded. */
  lemma BuiltData(version: nat, B: nat, M: uint64, key: Key, data: seq<Item>, h: SipHash) returns (values: seq<uint64>, k: nat)
    requires Parameters(version, B, M) && |data| <= MAX_INT32
    requires Build(version, B, M, key, data, h).n > 0
    ensures var f := Build(version, B, M, key, data, h);
      && Queryable(f) && (version == 1 ==> f.modulusNM > 0)
      && values == Values(version, f.modulusNM, key, data, h)
      && |values| == f.n && SortedFrom(0, values)
      && f.filterData != [] && Unpack(f.filterData) == Encode(0, values, B) + Zeros(k)
  {
    hide Pack, Hashes, Sort, Unpack, Reduce, Pow2, Zeros;
    var f := Build(version, B, M, key, data, h);
    if version == 1 { ModulusV1(f.n, B, M); }
    values := Values(version, f.modulusNM, key, data, h);
    SortSorts(ReduceAll(version, Hashes(version, key, data, h), f.modulusNM));
    var bits := Encode(0, values, B);
    assert |bits| > 0;
    PackUnpack(bits);
    k := 8 * |Pack(bits)| - |bits|;
  }

  /** A value of the filter is the reduced hash of an item it took in. */
  lemma ValuesAre(version: nat, N: uint64, key: Key, data: seq<Item>, h: SipHash, v: uint64)
    requires version == 1 ==> N > 0
    ensures v in Values(version, N, key, data, h)
       <==> exists d :: d in data && Taken(version, d) && Reduce(version, h(key, d), N) == v
  {
    hide Hashes, Sort, Reduce;
    var hs := Hashes(version, key, data, h);
    var rs := ReduceAll(version, hs, N);
    SortSorts(rs);
    if v in rs {
      var i :| 0 <= i < |rs| && rs[i] == v;
      HashesAre(version, key, data, h, hs[i]);
    }
    if d :| d in data && Taken(version, d) && Reduce(version, h(key, d), N) == v {
      HashesAre(version, key, data, h, h(key, d));
      var i :| 0 <= i < |hs| && hs[i] == h(key, d);
      assert rs[i] == v;
    }
  }

  /** A non-empty item matches a built filter exactly when its reduced hash is
      that of an inserted item. */
  lemma MatchesBuilt(version: nat, B: nat, M: uint64, key: Key, data: seq<Item>, h: SipHash, key': Key, item: Item)
    requires Parameters(version, B, M) && |data| <= MAX_INT32 && item != []
    ensures var f := Build(version, B, M, key, data, h);
      Queryable(f) &&
      (Matches(f, key', item, h) <==>
         f.n > 0 && exists d :: d in data && Taken(version, d)
                                && Reduce(version, h(key, d), f.modulusNM) == Reduce(version, h(key', item), f.modulusNM))
  {
    hide Hashes, Values, Pack, Search, Encode, Reduce, Pow2, Unpack;
    var f := Build(version, B, M, key, data, h);
    if f.n > 0 {
      var values, k := BuiltData(version, B, M, key, data, h);
      var term := Reduce(version, h(key', item), f.modulusNM);
      SearchFinds(0, values, k, term, B);
      ValuesAre(version, f.modulusNM, key, data, h, term);
    }
  }

  /** No false negatives: every non-empty inserted item matches, in the built
      filter and in the one read back from its bytes. */
  lemma NoFalseNegatives(version: nat, B: nat, M: uint64, key: Key, data: seq<Item>, h: SipHash, item: Item)
    requires Parameters(version, B, M) && |data| <= MAX_INT32 && item in data && item != []
    ensures var f := Build(version, B, M, key, data, h);
      && Queryable(f) && Matches(f, key, item, h)
      && (if version == 1 then FromBytesV1(B, f.filterNData) else FromBytesV2(B, M, f.filterNData)) == Ok(f)
  {
    hide Hashes, Values, Pack, Search, Encode, Reduce, Pow2, Unpack, FromBytesV1, FromBytesV2;
    var f := Build(version, B, M, key, data, h);
    HashesAre(version, key, data, h, h(key, item));
    MatchesBuilt(version, B, M, key, data, h, key, item);
    if version == 1 { FromBytesV1OfBytes(B, key, data, h); } else { FromBytesV2OfBytes(B, M, key, data, h); }
  }

  // ---- MatchAny ---------------------------------------------------------------------

  /** The reduced hashes of the non-empty items, in order. */
  function Terms(f: Filter, key: Key, items: seq<Item>, h: SipHash): (vs: seq<uint64>)
    requires Queryable(f) && f.filterData != []
    ensures |vs| <= |items|
  {
    if items == [] then []
    else
      var vs, d := Terms(f, key, items[..|items| - 1], h), items[|items| - 1];
      if d == [] then vs else vs + [Term(f, key, d, h)]
  }

  function MatchesAny(f: Filter, key: Key, items: seq<Item>, h: SipHash): Merged
    requires Queryable(f)
  {
    if f.filterData == [] || items == [] then Answer(false)
    else
      var search := Sort(Terms(f, key, items, h));
      if search == [] then Answer(false)
      else Merge(Unpack(f.filterData), f.n, 0, search, 0, |items|, f.b)
  }

  method MatchAny(f: Filter, key: Key, data: seq<Item>, h: SipHash) returns (r: Merged)
    requires Queryable(f)
    ensures r == MatchesAny(f, key, data, h)
  {
    hide Unread, Unpack, IsMask, Decode, Sort, Reduce;
    if |f.filterData| == 0 || |data| == 0 { return Answer(false); }
    var values := [];
    for i := 0 to |data|
      invariant values == Terms(f, key, data[..i], h)
    {
      assert data[..i + 1][..i] == data[..i];
      if |data[i]| == 0 { continue; }
      var v := Reduce(f.version, h(key, data[i]), f.modulusNM);
      values := values + [v];
    }
    assert data[..|data|] == data;
    SortSorts(values);
    if |values| == 0 { return Answer(false); }
    values := Sort(values);

    var b := new BitReader(f.filterData);
    var searchSize, searchIdx := |data|, 0;
    var filterVal: uint64 := 0;
    var i := 0;
    while i < f.n
      invariant i <= f.n && b.Valid() && fresh(b)
      invariant MatchesAny(f, key, data, h) == Merge(b.Rest(), f.n - i, filterVal, values, searchIdx, searchSize, f.b)
    {
      var delta := ReadFullUint64(b, f.b);
      if delta == EOF { return Answer(false); }
      filterVal := (filterVal + delta.value) % TWO64;
      ghost var advanced := Advance(values, searchIdx, searchSize, filterVal);
      var beyond := false;
      while searchIdx < searchSize
        invariant Advance(values, searchIdx, searchSize, filterVal) == advanced
      {
        if searchIdx >= |values| { return IndexOutOfRange; }
        var searchVal := values[searchIdx];
        if searchVal == filterVal { return Answer(true); }
        if searchVal > filterVal {
          beyond := true;
          break;
        }
        searchIdx := searchIdx + 1;
      }
      if !beyond { break; }
      i := i + 1;
    }
    return Answer(false);
  }

  lemma {:induction false} TermsAre(f: Filter, key: Key, items: seq<Item>, h: SipHash, v: uint64)
    requires Queryable(f) && f.filterData != []
    ensures v in Terms(f, key, items, h) <==> exists d :: d in items && d != [] && Term(f, key, d, h) == v
  {
    hide Term;
    if items != [] {
      var init, d := items[..|items| - 1], items[|items| - 1];
      TermsAre(f, key, init, h, v);
      assert items == init + [d];
      if e :| e in items && e != [] && Term(f, key, e, h) == v { assert e in init || e == d; }
    }
  }

  lemma {:induction false} TermsCount(f: Filter, key: Key, items: seq<Item>, h: SipHash)
    requires Queryable(f) && f.filterData != []
    ensures |Terms(f, key, items, h)| == |items| <==> [] !in items
  {
    if items != [] {
      var init, d := items[..|items| - 1], items[|items| - 1];
      TermsCount(f, key, init, h);
      assert items == init + [d];
    }
  }

  /** What MatchAny answers on a built filter, in terms of its values and the
      search terms. */
  lemma MatchesAnyBuilt(version: nat, B: nat, M: uint64, key: Key, data: seq<Item>, h: SipHash, key': Key, items: seq<Item>)
    requires Parameters(version, B, M) && |data| <= MAX_INT32
    requires Build(version, B, M, key, data, h).n > 0
    ensures var f := Build(version, B, M, key, data, h);
      && Queryable(f) && f.filterData != [] && (version == 1 ==> f.modulusNM > 0)
      && var values, terms := Values(version, f.modulusNM, key, data, h), Terms(f, key', items, h);
         MatchesAny(f, key', items, h)
         == if Meets(values, terms) then Answer(true)
            else if terms != [] && [] in items && (exists v :: v in values && forall t :: t in terms ==> t < v) then IndexOutOfRange
            else Answer(false)
  {
    hide Hashes, Values, Pack, Encode, Sort, Merge, Unpack, Terms, Pow2;
    var f := Build(version, B, M, key, data, h);
    var values, k := BuiltData(version, B, M, key, data, h);
    var terms := Terms(f, key', items, h);
    var search := Sort(terms);
    SortSorts(terms);
    TermsCount(f, key', items, h);
    if search != [] {
      MergeFinds(0, values, k, search, 0, |items|, B);
      assert search[0..] == search;
      MeetsSame(values, search, terms);
      ExceedsAll(values, search, terms);
    } else {
      assert |terms| == 0;
    }
  }

  lemma MeetsSame(values: seq<uint64>, a: seq<uint64>, b: seq<uint64>)
    requires forall v :: v in a <==> v in b
    ensures Meets(values, a) <==> Meets(values, b)
  {
    if v :| v in values && v in a { assert v in b; }
    if v :| v in values && v in b { assert v in a; }
  }

  lemma ExceedsAll(values: seq<uint64>, search: seq<uint64>, terms: seq<uint64>)
    requires search != [] && SortedFrom(0, search) && forall v :: v in search <==> v in terms
    ensures Exceeds(values, search[|search| - 1]) <==> exists v :: v in values && forall t :: t in terms ==> t < v
  {
    hide SortedFrom;
    var last := search[|search| - 1];
    forall t | t in terms ensures t <= last {
      var i :| 0 <= i < |search| && search[i] == t;
      SortedAt(0, search, i, |search| - 1);
    }
    assert last in terms;
    if v :| v in values && v > last { assert forall t :: t in terms ==> t < v; }
    if v :| v in values && forall t :: t in terms ==> t < v { assert v > last; }
  }

  /** A search term is met exactly when its item matches. */
  lemma MeetsIsMatches(version: nat, B: nat, M: uint64, key: Key, data: seq<Item>, h: SipHash, key': Key, items: seq<Item>)
    requires Parameters(version, B, M) && |data| <= MAX_INT32
    requires Build(version, B, M, key, data, h).n > 0
    ensures var f := Build(version, B, M, key, data, h);
      && Queryable(f) && f.filterData != [] && (version == 1 ==> f.modulusNM > 0)
      && (Meets(Values(version, f.modulusNM, key, data, h), Terms(f, key', items, h)) <==>
          exists d :: d in items && Matches(f, key', d, h))
  {
    hide Hashes, Values, Pack, Encode, Sort, Search, Unpack, Terms, Pow2, Reduce;
    var f := Build(version, B, M, key, data, h);
    var values, k := BuiltData(version, B, M, key, data, h);
    var terms := Terms(f, key', items, h);
    if v :| v in values && v in terms {
      TermsAre(f, key', items, h, v);
      var d :| d in items && d != [] && Term(f, key', d, h) == v;
      SearchFinds(0, values, k, v, B);
      assert Matches(f, key', d, h);
    }
    if d :| d in items && Matches(f, key', d, h) {
      var t := Term(f, key', d, h);
      SearchFinds(0, values, k, t, B);
      TermsAre(f, key', items, h, t);
      assert t in values && t in terms;
    }
  }

  /** Without empty items MatchAny says whether some item matches. */
  lemma MatchesAnyIsSomeMatch(version: nat, B: nat, M: uint64, key: Key, data: seq<Item>, h: SipHash, key': Key, items: seq<Item>)
    requires Parameters(version, B, M) && |data| <= MAX_INT32 && [] !in items
    ensures var f := Build(version, B, M, key, data, h);
      Queryable(f) && MatchesAny(f, key', items, h) == Answer(exists d :: d in items && Matches(f, key', d, h))
  {
    hide Hashes, Values, Pack, Encode, Sort, Search, Merge, Unpack, Terms, Pow2, Reduce;
    var f := Build(version, B, M, key, data, h);
    if f.n > 0 {
      MatchesAnyBuilt(version, B, M, key, data, h, key', items);
      MeetsIsMatches(version, B, M, key, data, h, key', items);
    }
  }

  /** With any items: a match is always reported, and the search index runs out
      of range exactly when nothing matches, empty and non-empty items are mixed
      and the filter holds a value above every search term. */
  lemma MatchesAnyWithEmptyItems(version: nat, B: nat, M: uint64, key: Key, data: seq<Item>, h: SipHash, key': Key, items: seq<Item>)
    requires Parameters(version, B, M) && |data| <= MAX_INT32
    ensures var f := Build(version, B, M, key, data, h);
      && Queryable(f)
      && (MatchesAny(f, key', items, h) == Answer(true) <==> exists d :: d in items && Matches(f, key', d, h))
      && (MatchesAny(f, key', items, h) == IndexOutOfRange <==>
            && f.n > 0 && f.filterData != [] && (version == 1 ==> f.modulusNM > 0)
            && (forall d :: d in items ==> !Matches(f, key', d, h))
            && Terms(f, key', items, h) != [] && [] in items
            && exists v :: v in Values(version, f.modulusNM, key, data, h) && forall t :: t in Terms(f, key', items, h) ==> t < v)
  {
    hide Hashes, Values, Pack, Encode, Sort, Search, Merge, Unpack, Terms, Pow2, Reduce;
    var f := Build(version, B, M, key, data, h);
    if f.n > 0 {
      MatchesAnyBuilt(version, B, M, key, data, h, key', items);
      MeetsIsMatches(version, B, M, key, data, h, key', items);
    }
  }

  /** Such a query: a filter of one item whose value is 1, searched for an empty
      item and one whose value is 0. */
  lemma MatchAnyRunsOutOfRange()
    ensures var h := (k: Key, d: Item) => if d == [1] then TWO64 - 1 else 0;
      var f := Build(2, 1, 2, [], [[1]], h);
      Queryable(f) && MatchesAny(f, [], [[], [2]], h) == IndexOutOfRange
  {
    hide Pack, Encode, Sort, Search, Merge, Unpack, Pow2, MatchesAny, Values;
    var h := (k: Key, d: Item) => if d == [1] then TWO64 - 1 else 0;
    var data, items: seq<Item> := [[1]], [[], [2]];
    var f := Build(2, 1, 2, [], data, h);
    assert data[..0] == [];
    assert Hashes(2, [], data[..0], h) == [];
    assert Hashes(2, [], data, h) == [TWO64 - 1];
    assert f.n == 1 && f.modulusNM == 2;
    MatchesAnyBuilt(2, 1, 2, [], data, h, [], items);
    assert items[..1] == [[]] && items[..1][..0] == [];
    assert Terms(f, [], items[..1], h) == [];
    assert Terms(f, [], items, h) == [0];
    ValuesAre(2, 2, [], data, h, 1);
    ValuesAre(2, 2, [], data, h, 0);
    assert [1] in data && Taken(2, [1]);
    assert Reduce(2, h([], [1]), 2) == 1;
    var values := Values(2, 2, [], data, h);
    assert 1 in values && 0 !in values;
  }
}
