/**
 The GNU hash index of the dynamic symbols: the partition and bucket sort of the symbol
 table, the header, Bloom filter, buckets and chains the linker writes, and the loader's
 lookup in them, proved to agree with a linear search of the table.
 */
module GnuHash {
  import PowerOfTwo
  import Words

  type u32 = x: int | 0 <= x < 0x1_0000_0000

  /** The character codes of a name; a host's char may be signed. */
  type Name = seq<int>

  datatype Symbol = Symbol(name: Name, hash: u32, defined: bool)

  function Hash(name: Name): u32 {
    if name == [] then 5381 else (Hash(name[..|name| - 1]) * 33 + name[|name| - 1]) % 0x1_0000_0000
  }

  method GnuHashOf(name: Name) returns (hash: u32)
    ensures hash == Hash(name)
  {
    hash := 5381;
    var i := 0;
    while i < |name|
      invariant 0 <= i <= |name| && hash == Hash(name[..i])
    {
      assert name[..i + 1][..i] == name[..i];
      hash := (hash * 32 + hash + name[i]) % 0x1_0000_0000;
      i := i + 1;
    }
    assert name[..i] == name;
  }

  /** The recurrence from both ends, and the hashes that other tools give these names. */
  lemma KnownHashes(name: Name, c: int)
    ensures Hash([]) == 5381 && Hash(name + [c]) == (Hash(name) * 33 + c) % 0x1_0000_0000
    ensures Hash([101, 120, 105, 116]) == 0x7C96_7E3F
  {
    assert (name + [c])[..|name|] == name;
    var e: Name := [101, 120, 105, 116];
    assert e[..3] == [101, 120, 105] && e[..3][..2] == [101, 120] && e[..3][..2][..1] == [101] && e[..3][..2][..1][..0] == [];
    assert Hash(e[..3][..2][..1]) == 5381 * 33 + 101;
    assert Hash(e[..3][..2]) == (5381 * 33 + 101) * 33 + 120;
    assert Hash(e[..3]) == ((5381 * 33 + 101) * 33 + 120) * 33 + 105;
  }

  // ---- the order of the symbol table ----

  function Bucket(s: Symbol, buckets: nat): nat
    requires buckets > 0
  {
    s.hash % buckets
  }

  /** Undefined symbols first; symbol 0 is the null symbol. */
  predicate Partitioned(s: seq<Symbol>, first: nat) {
    && 1 <= first <= |s|
    && (forall i :: 1 <= i < first ==> !s[i].defined)
    && (forall i :: first <= i < |s| ==> s[i].defined)
  }

  predicate SortedFrom(s: seq<Symbol>, first: nat, buckets: nat)
    requires buckets > 0
  {
    forall i, j :: first <= i <= j < |s| ==> Bucket(s[i], buckets) <= Bucket(s[j], buckets)
  }

  method SwapSymbols(a: array<Symbol>, i: nat, j: nat)
    requires i < a.Length && j < a.Length
    modifies a
    ensures a[..] == old(a[..])[i := old(a[j])][j := old(a[i])]
    ensures multiset(a[..]) == multiset(old(a[..]))
  {
    a[i], a[j] := a[j], a[i];
  }

  /** Swaps the undefined symbols to the start of the table. */
  method MoveUndefinedFirst(a: array<Symbol>) returns (first: nat)
    requires a.Length >= 1
    modifies a
    ensures a[0] == old(a[0]) && multiset(a[..]) == multiset(old(a[..]))
    ensures Partitioned(a[..], first)
  {
    first := 1;
    while first < a.Length && !a[first].defined
      invariant 1 <= first <= a.Length
      invariant forall k :: 1 <= k < first ==> !a[k].defined
    {
      first := first + 1;
    }
    if first == a.Length {
      return;
    }
    var i := first + 1;
    while i < a.Length
      invariant 1 <= first < i <= a.Length
      invariant a[0] == old(a[0]) && multiset(a[..]) == multiset(old(a[..]))
      invariant forall k :: 1 <= k < first ==> !a[k].defined
      invariant forall k :: first <= k < i ==> a[k].defined
    {
      if !a[i].defined {
        SwapSymbols(a, i, first);
        first := first + 1;
      }
      i := i + 1;
    }
  }

  // ---- qsort ----

  function Insert(x: Symbol, s: seq<Symbol>, buckets: nat): (r: seq<Symbol>)
    requires buckets > 0
    ensures multiset(r) == multiset([x] + s) && |r| == |s| + 1
  {
    if s == [] || Bucket(x, buckets) <= Bucket(s[0], buckets) then [x] + s
    else
      assert s == [s[0]] + s[1..];
      [s[0]] + Insert(x, s[1..], buckets)
  }

  function Sorted(s: seq<Symbol>, buckets: nat): (r: seq<Symbol>)
    requires buckets > 0
    ensures multiset(r) == multiset(s) && |r| == |s|
  {
    if s == [] then []
    else
      assert s == [s[0]] + s[1..];
      Insert(s[0], Sorted(s[1..], buckets), buckets)
  }

  lemma {:induction false} InsertSorts(x: Symbol, s: seq<Symbol>, buckets: nat)
    requires buckets > 0 && SortedFrom(s, 0, buckets)
    ensures SortedFrom(Insert(x, s, buckets), 0, buckets)
  {
    hide Bucket;
    if s != [] && Bucket(x, buckets) > Bucket(s[0], buckets) {
      var rest := Insert(x, s[1..], buckets);
      InsertSorts(x, s[1..], buckets);
      LeastPrepended(s[0], x, s[1..], rest, buckets);
    }
  }

  lemma LeastPrepended(h: Symbol, x: Symbol, s: seq<Symbol>, rest: seq<Symbol>, buckets: nat)
    requires buckets > 0 && multiset(rest) == multiset([x] + s) && SortedFrom(rest, 0, buckets)
    requires Bucket(h, buckets) <= Bucket(x, buckets) && SortedFrom([h] + s, 0, buckets)
    ensures SortedFrom([h] + rest, 0, buckets)
  {
    hide Bucket;
    forall j | 0 <= j < |rest|
      ensures Bucket(h, buckets) <= Bucket(rest[j], buckets)
    {
      assert rest[j] in multiset([x] + s);
      if rest[j] != x {
        var k :| 0 <= k < |s| && s[k] == rest[j];
        assert ([h] + s)[k + 1] == s[k] && ([h] + s)[0] == h;
      }
    }
  }

  lemma {:induction false} SortedSorts(s: seq<Symbol>, buckets: nat)
    requires buckets > 0
    ensures SortedFrom(Sorted(s, buckets), 0, buckets)
  {
    if s != [] {
      SortedSorts(s[1..], buckets);
      InsertSorts(s[0], Sorted(s[1..], buckets), buckets);
    }
  }

  /** The library's qsort on the tail of the array, of which only the contract is used. */
  method SortTail(a: array<Symbol>, first: nat, buckets: nat)
    requires first <= a.Length && buckets > 0
    modifies a
    ensures a[..first] == old(a[..first]) && multiset(a[first..]) == multiset(old(a[first..]))
    ensures SortedFrom(a[..], first, buckets)
  {
    var sorted := Sorted(a[first..], buckets);
    SortedSorts(a[first..], buckets);
    hide Sorted, Bucket;
    forall i | first <= i < a.Length {
      a[i] := sorted[i - first];
    }
    assert a[first..] == sorted;
    TailOrder(a[..], first, buckets);
  }

  lemma TailOrder(s: seq<Symbol>, first: nat, buckets: nat)
    requires first <= |s| && buckets > 0 && SortedFrom(s[first..], 0, buckets)
    ensures SortedFrom(s, first, buckets)
  {
    hide Bucket;
    forall i, j | first <= i <= j < |s|
      ensures Bucket(s[i], buckets) <= Bucket(s[j], buckets)
    {
      assert s[first..][i - first] == s[i] && s[first..][j - first] == s[j];
    }
  }

  lemma TailDefined(s: seq<Symbol>, t: seq<Symbol>)
    requires multiset(s) == multiset(t) && forall i :: 0 <= i < |s| ==> s[i].defined
    ensures forall i :: 0 <= i < |t| ==> t[i].defined
  {
    forall i | 0 <= i < |t|
      ensures t[i].defined
    {
      assert t[i] in multiset(s);
    }
  }

  method SortDynamicSymbolTable(a: array<Symbol>, buckets: nat) returns (first: nat)
    requires a.Length >= 1 && buckets > 0
    modifies a
    ensures a[0] == old(a[0]) && multiset(a[..]) == multiset(old(a[..]))
    ensures Partitioned(a[..], first) && SortedFrom(a[..], first, buckets)
  {
    first := MoveUndefinedFirst(a);
    if first == a.Length {
      return;
    }
    ghost var head, tail := a[..first], a[first..];
    assert a[..] == head + tail;
    assert forall i :: 0 <= i < |tail| ==> tail[i] == a[first + i];
    assert forall i :: 1 <= i < first ==> head[i] == a[i];
    SortTail(a, first, buckets);
    assert a[..] == a[..first] + a[first..];
    TailDefined(tail, a[first..]);
    assert forall i :: 1 <= i < first ==> a[..first][i] == a[i];
    forall i | first <= i < a.Length
      ensures a[i].defined
    {
      assert a[first..][i - first] == a[i];
    }
    assert a[0] == a[..first][0] == head[0];
  }

  // ---- the header ----

  datatype Header = Header(numBuckets: nat, symOffset: nat, bloomSize: nat, bloomShift: nat)

  /** 12 bits of filter for each symbol, in a power of two of words. */
  method WriteHeader(numSymbols: nat, first: nat, wordBits: nat, buckets: nat) returns (h: Header)
    requires first <= numSymbols < 0x8000_0000 && (wordBits == 32 || wordBits == 64)
    ensures h.numBuckets == buckets && h.symOffset == first && h.bloomShift == 26 && h.bloomSize > 0
    ensures exists k :: h.bloomSize == Words.Pow2(k)
    ensures h.bloomSize * wordBits >= (numSymbols - first) * 12
    ensures h.bloomSize > 1 ==> h.bloomSize / 2 * wordBits < (numSymbols - first) * 12
  {
    hide Words.Pow2, PowerOfTwo.BitLength;
    var numBits := (numSymbols - first) * 12;
    var bloomWords := (numBits + wordBits - 1) / wordBits;
    assert numBits <= bloomWords * wordBits < numBits + wordBits && bloomWords < 0x1_0000_0000;
    var bloomSize := 1;
    PowerOfTwo.Pow2IsOne();
    if bloomWords != 0 {
      bloomSize := PowerOfTwo.NextPowerOf2(bloomWords - 1);
      RoundedUp(bloomWords);
      assert bloomSize > 1 ==> bloomSize / 2 + 1 <= bloomWords;
    }
    h := Header(buckets, first, bloomSize, 26);
  }

  lemma RoundedUp(words: nat)
    requires 1 <= words < 0x1_0000_0000
    ensures var p := Words.Pow2(PowerOfTwo.BitLength(words - 1));
            words <= p <= 0x1_0000_0000 && p % Words.TWO64 == p && (p > 1 ==> p / 2 + 1 <= words)
  {
    var m := PowerOfTwo.BitLength(words - 1);
    PowerOfTwo.BitLengthBounds(words - 1);
    Words.Pow2At32();
    if m > 32 {
      Words.Pow2Mono(32, m - 1);
    } else {
      Words.Pow2Mono(m, 32);
    }
  }

  // ---- the Bloom filter ----

  function BloomIndex(hash: u32, wordBits: nat, size: nat): (r: nat)
    requires wordBits > 0 && size > 0
    ensures r < size
  {
    hash / wordBits % size
  }

  function BitOf(k: nat): bv64
    requires k < 64
  {
    (1 as bv64) << k
  }

  function OrWord(w: bv64, v: bv64): bv64 { w | v }

  /** The bits of a hash: its low bits and its top six, within a word. */
  function BloomBits(hash: u32, wordBits: nat): bv64
    requires 0 < wordBits <= 64
  {
    OrWord(BitOf(hash % wordBits), BitOf(hash / 0x400_0000 % wordBits))
  }

  /** The filter after the symbols of first..n. */
  ghost function BloomOf(s: seq<Symbol>, first: nat, n: nat, size: nat, wordBits: nat): (r: seq<bv64>)
    requires n <= |s| && size > 0 && 0 < wordBits <= 64
    ensures |r| == size
  {
    if n <= first then seq(size, i => 0)
    else Added(BloomOf(s, first, n - 1, size, wordBits), s[n - 1].hash, wordBits)
  }

  predicate BloomAdmits(bloom: seq<bv64>, hash: u32, wordBits: nat)
    requires |bloom| > 0 && 0 < wordBits <= 64
  {
    var bits := BloomBits(hash, wordBits);
    bloom[BloomIndex(hash, wordBits, |bloom|)] & bits == bits
  }

  /** w has one of the bits of b. */
  predicate Meets(w: bv64, b: bv64) { w & b != 0 }

  lemma OrMeets(w: bv64, v: bv64, b: bv64)
    ensures Meets(OrWord(w, v), b) <==> Meets(w, b) || Meets(v, b)
  {
    WordMeets(w, v, b);
    hide Meets;
  }

  lemma WordMeets(w: bv64, v: bv64, b: bv64)
    ensures Meets(w | v, b) <==> Meets(w, b) || Meets(v, b)
  {
    AndOverOr(w, v, b);
    OrIsZero(w & b, v & b);
  }

  lemma AndOverOr(w: bv64, v: bv64, b: bv64)
    ensures (w | v) & b == (w & b) | (v & b)
  {
  }

  lemma OrIsZero(x: bv64, y: bv64)
    ensures x | y == 0 ==> x == 0 && y == 0
    ensures x == 0 && y == 0 ==> x | y == 0
  {
  }

  /** The symbol's word is w, and one of its two bits is in b. */
  predicate HasBit(hash: u32, wordBits: nat, size: nat, w: nat, b: bv64)
    requires 0 < wordBits <= 64 && size > 0
  {
    && hash / wordBits % size == w
    && (Meets(BitOf(hash % wordBits), b) || Meets(BitOf(hash / 0x400_0000 % wordBits), b))
  }

  lemma BitsMeet(hash: u32, wordBits: nat, b: bv64)
    requires 0 < wordBits <= 64
    ensures Meets(BloomBits(hash, wordBits), b) <==>
              Meets(BitOf(hash % wordBits), b) || Meets(BitOf(hash / 0x400_0000 % wordBits), b)
  {
    OrMeets(BitOf(hash % wordBits), BitOf(hash / 0x400_0000 % wordBits), b);
    hide Meets, BitOf, OrWord;
  }

  lemma AddedMeets(before: seq<bv64>, hash: u32, wordBits: nat, w: nat, b: bv64)
    requires |before| > 0 && 0 < wordBits <= 64 && w < |before|
    ensures Meets(Added(before, hash, wordBits)[w], b) <==>
              Meets(before[w], b) || (w == BloomIndex(hash, wordBits, |before|) && Meets(BloomBits(hash, wordBits), b))
  {
    hide BloomBits, BloomIndex, Meets, OrWord, Added;
    var bits, index := BloomBits(hash, wordBits), BloomIndex(hash, wordBits, |before|);
    OrMeets(before[index], bits, b);
    AddedAt(before, hash, wordBits, w);
  }

  lemma AddedAt(before: seq<bv64>, hash: u32, wordBits: nat, w: nat)
    requires |before| > 0 && 0 < wordBits <= 64 && w < |before|
    ensures var index := BloomIndex(hash, wordBits, |before|);
            Added(before, hash, wordBits)[w] == if w == index then OrWord(before[index], BloomBits(hash, wordBits)) else before[w]
  {
    hide BloomBits, BloomIndex;
  }

  lemma AddedHasBit(before: seq<bv64>, hash: u32, wordBits: nat, w: nat, b: bv64)
    requires |before| > 0 && 0 < wordBits <= 64 && w < |before|
    ensures Meets(Added(before, hash, wordBits)[w], b) <==> Meets(before[w], b) || HasBit(hash, wordBits, |before|, w, b)
  {
    hide BloomBits, Meets, BitOf, Added;
    AddedMeets(before, hash, wordBits, w, b);
    BitsMeet(hash, wordBits, b);
  }

  lemma {:induction false} EmptyMeets(s: seq<Symbol>, first: nat, n: nat, size: nat, wordBits: nat, w: nat, b: bv64)
    requires n <= first && n <= |s| && size > 0 && 0 < wordBits <= 64 && w < size
    ensures !Meets(BloomOf(s, first, n, size, wordBits)[w], b)
  {
  }

  /** A word of the filter has exactly the bits of the symbols that fall into it. */
  lemma {:induction false} BloomExactly(s: seq<Symbol>, first: nat, n: nat, size: nat, wordBits: nat, w: nat, b: bv64)
    requires n <= |s| && size > 0 && 0 < wordBits <= 64 && w < size
    ensures Meets(BloomOf(s, first, n, size, wordBits)[w], b) <==>
              exists i :: first <= i < n && HasBit(s[i].hash, wordBits, size, w, b)
  {
    hide HasBit, Added, Meets;
    if n > first {
      BloomExactly(s, first, n - 1, size, wordBits, w, b);
      AddedHasBit(BloomOf(s, first, n - 1, size, wordBits), s[n - 1].hash, wordBits, w, b);
    } else {
      EmptyMeets(s, first, n, size, wordBits, w, b);
    }
  }

  lemma OrAdmits(w: bv64, bits: bv64, more: bv64)
    ensures (w | bits) & bits == bits
    ensures w & bits == bits ==> (w | more) & bits == bits
  {
  }

  function Added(b: seq<bv64>, hash: u32, wordBits: nat): (r: seq<bv64>)
    requires |b| > 0 && 0 < wordBits <= 64
    ensures |r| == |b|
  {
    var index := BloomIndex(hash, wordBits, |b|);
    b[index := OrWord(b[index], BloomBits(hash, wordBits))]
  }

  lemma AddedAdmits(b: seq<bv64>, hash: u32, other: u32, wordBits: nat)
    requires |b| > 0 && 0 < wordBits <= 64
    ensures BloomAdmits(Added(b, hash, wordBits), hash, wordBits)
    ensures BloomAdmits(b, other, wordBits) ==> BloomAdmits(Added(b, hash, wordBits), other, wordBits)
  {
    hide BloomBits, BloomIndex;
    var index, bits := BloomIndex(hash, wordBits, |b|), BloomBits(hash, wordBits);
    OrAdmits(b[index], bits, 0);
    OrAdmits(b[index], BloomBits(other, wordBits), bits);
  }

  /** The filter never rejects a symbol that was put into it. */
  lemma {:induction false} BloomAdmitsMembers(s: seq<Symbol>, first: nat, n: nat, size: nat, wordBits: nat, i: nat)
    requires first <= i < n <= |s| && size > 0 && 0 < wordBits <= 64
    ensures BloomAdmits(BloomOf(s, first, n, size, wordBits), s[i].hash, wordBits)
  {
    hide BloomAdmits, Added;
    AddedAdmits(BloomOf(s, first, n - 1, size, wordBits), s[n - 1].hash, s[i].hash, wordBits);
    if i < n - 1 {
      BloomAdmitsMembers(s, first, n - 1, size, wordBits, i);
    }
  }

  method WriteBloomFilter(a: array<Symbol>, h: Header, wordBits: nat) returns (bloom: array<bv64>)
    requires h.symOffset <= a.Length && h.bloomSize > 0 && 0 < wordBits <= 64
    ensures bloom[..] == BloomOf(a[..], h.symOffset, a.Length, h.bloomSize, wordBits) && fresh(bloom)
  {
    hide BloomBits, BloomIndex;
    bloom := new bv64[h.bloomSize](_ => 0);
    assert bloom[..] == seq(h.bloomSize, i => 0);
    var i := h.symOffset;
    while i < a.Length
      invariant h.symOffset <= i <= a.Length
      invariant bloom[..] == BloomOf(a[..], h.symOffset, i, h.bloomSize, wordBits)
    {
      var index := BloomIndex(a[i].hash, wordBits, h.bloomSize);
      bloom[index] := bloom[index] | BloomBits(a[i].hash, wordBits);
      i := i + 1;
    }
  }

  // ---- buckets and chains ----

  function Even(hash: u32): u32 { hash - hash % 2 }

  function SetLowBit(x: u32): u32 { if x % 2 == 0 then x + 1 else x }

  /** Symbol i is the last of its bucket in a table of n symbols. */
  predicate EndsRun(s: seq<Symbol>, n: nat, buckets: nat, i: nat)
    requires buckets > 0 && i < n <= |s|
  {
    i + 1 == n || Bucket(s[i], buckets) != Bucket(s[i + 1], buckets)
  }

  /** v is the first symbol of the bucket, or 0 if it has none. */
  predicate Starts(s: seq<Symbol>, first: nat, n: nat, buckets: nat, b: nat, v: nat)
    requires buckets > 0 && n <= |s|
  {
    && (v == 0 ==> forall i :: first <= i < n ==> Bucket(s[i], buckets) != b)
    && (v != 0 ==> first <= v < n && Bucket(s[v], buckets) == b
                   && forall i :: first <= i < v ==> Bucket(s[i], buckets) != b)
  }

  predicate ChainEntry(s: seq<Symbol>, n: nat, buckets: nat, i: nat, entry: u32)
    requires buckets > 0 && i < n <= |s|
  {
    entry == if EndsRun(s, n, buckets, i) then Even(s[i].hash) + 1 else Even(s[i].hash)
  }

  /** The buckets and chains of the symbols of first..n. */
  ghost predicate Indexes(s: seq<Symbol>, first: nat, n: nat, bucketStarts: seq<u32>, chains: seq<u32>)
    requires |bucketStarts| > 0 && n <= |s|
  {
    && n - first <= |chains|
    && (forall b :: 0 <= b < |bucketStarts| ==> Starts(s, first, n, |bucketStarts|, b, bucketStarts[b]))
    && (forall c :: 0 <= c < n - first ==> ChainEntry(s, n, |bucketStarts|, first + c, chains[c]))
  }

  /** The chain entries before symbol i are done, but for the low bit of the last one. */
  ghost predicate ChainsSoFar(s: seq<Symbol>, first: nat, i: nat, buckets: nat, chains: seq<u32>)
    requires buckets > 0
  {
    && first <= i <= |s| && |chains| == |s| - first
    && (forall c :: 0 <= c < i - first - 1 ==> ChainEntry(s, |s|, buckets, first + c, chains[c]))
    && (i > first ==> chains[i - first - 1] == Even(s[i - 1].hash))
  }

  ghost predicate StartsSoFar(s: seq<Symbol>, first: nat, i: nat, starts: seq<u32>) {
    |starts| > 0 && i <= |s| && forall b :: 0 <= b < |starts| ==> Starts(s, first, i, |starts|, b, starts[b])
  }

  lemma NewBucket(s: seq<Symbol>, first: nat, i: nat, starts: seq<u32>)
    requires StartsSoFar(s, first, i, starts) && SortedFrom(s, first, |starts|)
    requires 1 <= first <= i < |s| && i < 0x8000_0000
    requires i > first ==> Bucket(s[i - 1], |starts|) != Bucket(s[i], |starts|)
    ensures Bucket(s[i], |starts|) < |starts| && StartsSoFar(s, first, i + 1, starts[Bucket(s[i], |starts|) := i as u32])
  {
    assert Bucket(s[i], |starts|) < |starts|;
    hide Bucket;
    forall k | first <= k < i
      ensures Bucket(s[k], |starts|) < Bucket(s[i], |starts|)
    {
      assert Bucket(s[k], |starts|) <= Bucket(s[i - 1], |starts|) <= Bucket(s[i], |starts|);
    }
  }

  lemma SameBucketAgain(s: seq<Symbol>, first: nat, i: nat, starts: seq<u32>)
    requires StartsSoFar(s, first, i, starts) && first < i < |s|
    requires Bucket(s[i - 1], |starts|) == Bucket(s[i], |starts|)
    ensures StartsSoFar(s, first, i + 1, starts)
  {
    hide Bucket;
  }

  lemma ChainGrows(s: seq<Symbol>, first: nat, i: nat, buckets: nat, chains: seq<u32>)
    requires buckets > 0 && ChainsSoFar(s, first, i, buckets, chains)
    requires i > first
    ensures SetLowBit(chains[i - first - 1]) == Even(s[i - 1].hash) + 1
    ensures var c := if EndsRun(s, |s|, buckets, i - 1) then chains[i - first - 1 := SetLowBit(chains[i - first - 1])] else chains;
            && forall k :: 0 <= k < i - first ==> ChainEntry(s, |s|, buckets, first + k, c[k])
  {
    hide Bucket;
  }

  /** The chains after symbol i: the entry before it is closed if its bucket is another one. */
  function Chained(s: seq<Symbol>, first: nat, i: nat, buckets: nat, chains: seq<u32>): (r: seq<u32>)
    requires buckets > 0 && first <= i < |s| && |chains| == |s| - first
    ensures |r| == |chains|
  {
    var closed := if i > first && Bucket(s[i - 1], buckets) != Bucket(s[i], buckets)
                  then chains[i - first - 1 := SetLowBit(chains[i - first - 1])] else chains;
    closed[i - first := Even(s[i].hash)]
  }

  lemma ChainsStep(s: seq<Symbol>, first: nat, i: nat, buckets: nat, chains: seq<u32>)
    requires buckets > 0 && i < |s| && ChainsSoFar(s, first, i, buckets, chains)
    ensures ChainsSoFar(s, first, i + 1, buckets, Chained(s, first, i, buckets, chains))
  {
    hide Bucket, SetLowBit, Even;
    if i > first {
      ChainGrows(s, first, i, buckets, chains);
    }
  }

  /** Closes the last entry when a new bucket begins, and adds the entry of symbol i. */
  method AddChainEntry(a: array<Symbol>, first: nat, i: nat, ghost buckets: nat, newBucket: bool, chains: array<u32>)
    requires buckets > 0 && first <= i < a.Length && chains.Length == a.Length - first
    requires newBucket <==> i == first || Bucket(a[i - 1], buckets) != Bucket(a[i], buckets)
    modifies chains
    ensures chains[..] == Chained(a[..], first, i, buckets, old(chains[..]))
  {
    hide Bucket, SetLowBit, Even;
    if newBucket && i != first {
      chains[i - first - 1] := SetLowBit(chains[i - first - 1]);
    }
    chains[i - first] := Even(a[i].hash);
  }

  method WriteHashTable(a: array<Symbol>, h: Header) returns (starts: array<u32>, chains: array<u32>)
    requires 1 <= h.symOffset <= a.Length < 0x8000_0000 && h.numBuckets > 0
    requires SortedFrom(a[..], h.symOffset, h.numBuckets)
    ensures starts.Length == h.numBuckets && chains.Length == a.Length - h.symOffset
    ensures Indexes(a[..], h.symOffset, a.Length, starts[..], chains[..])
  {
    starts := new u32[h.numBuckets](_ => 0);
    chains := new u32[a.Length - h.symOffset](_ => 0);
    FillTable(a, h, starts, chains);
    ghost var chains0 := chains[..];
    if a.Length != h.symOffset {
      chains[chains.Length - 1] := SetLowBit(chains[chains.Length - 1]);
    }
    hide Bucket, Even, EndsRun, SetLowBit, StartsSoFar, Starts, ChainEntry, SortedFrom, ChainsSoFar;
    TableDone(a[..], h.symOffset, starts[..], chains0);
  }

  /** The loop over the defined symbols. */
  method FillTable(a: array<Symbol>, h: Header, starts: array<u32>, chains: array<u32>)
    requires 1 <= h.symOffset <= a.Length < 0x8000_0000 && h.numBuckets > 0
    requires SortedFrom(a[..], h.symOffset, h.numBuckets) && starts != chains
    requires starts.Length == h.numBuckets && chains.Length == a.Length - h.symOffset
    requires forall b :: 0 <= b < starts.Length ==> starts[b] == 0
    modifies starts, chains
    ensures StartsSoFar(a[..], h.symOffset, a.Length, starts[..])
    ensures ChainsSoFar(a[..], h.symOffset, a.Length, h.numBuckets, chains[..])
  {
    var currBucket, i := -1, h.symOffset;
    ghost var s := a[..];
    assert StartsSoFar(s, h.symOffset, i, starts[..]) && ChainsSoFar(s, h.symOffset, i, h.numBuckets, chains[..]);
    hide Bucket, Even, EndsRun, SetLowBit, StartsSoFar, Starts, ChainEntry, SortedFrom, ChainsSoFar, Chained;
    while i < a.Length
      invariant h.symOffset <= i <= a.Length && a[..] == s
      invariant currBucket == if i == h.symOffset then -1 else Bucket(a[i - 1], h.numBuckets)
      invariant StartsSoFar(s, h.symOffset, i, starts[..])
      invariant ChainsSoFar(s, h.symOffset, i, h.numBuckets, chains[..])
    {
      var bucket := Bucket(a[i], h.numBuckets);
      ChainsStep(s, h.symOffset, i, h.numBuckets, chains[..]);
      AddChainEntry(a, h.symOffset, i, h.numBuckets, bucket != currBucket, chains);
      if bucket != currBucket {
        NewBucket(s, h.symOffset, i, starts[..]);
        ghost var starts0 := starts[..];
        currBucket := bucket;
        starts[currBucket] := i;
        assert starts[..] == starts0[currBucket := i as u32];
      } else {
        SameBucketAgain(s, h.symOffset, i, starts[..]);
      }
      i := i + 1;
    }
  }

  /** Closing the last entry completes the table. */
  lemma TableDone(s: seq<Symbol>, first: nat, starts: seq<u32>, chains: seq<u32>)
    requires |starts| > 0 && first <= |s|
    requires StartsSoFar(s, first, |s|, starts) && ChainsSoFar(s, first, |s|, |starts|, chains)
    ensures |chains| == |s| - first
    ensures Indexes(s, first, |s|, starts, if first == |s| then chains else chains[|chains| - 1 := SetLowBit(chains[|chains| - 1])])
  {
    if first < |s| {
      ChainGrows(s, first, |s|, |starts|, chains);
      assert EndsRun(s, |s|, |starts|, |s| - 1);
    }
    hide Bucket, Even, SetLowBit, EndsRun, Starts, ChainEntry;
  }

  // ---- lookup ----

  /** The first defined symbol with this name from an index on, or -1. */
  function FirstNamed(s: seq<Symbol>, name: Name, from: nat): (r: int)
    requires from <= |s|
    ensures r == -1 ==> forall i :: from <= i < |s| && s[i].defined ==> s[i].name != name
    ensures r != -1 ==> from <= r < |s| && s[r].defined && s[r].name == name
    ensures r != -1 ==> forall i :: from <= i < r && s[i].defined ==> s[i].name != name
    decreases |s| - from
  {
    if from == |s| then -1
    else if s[from].defined && s[from].name == name then from
    else FirstNamed(s, name, from + 1)
  }

  method FindSymbolSlowly(symbols: array<Symbol>, name: Name) returns (index: int)
    ensures index == FirstNamed(symbols[..], name, 0)
  {
    index := 0;
    while index < symbols.Length
      invariant 0 <= index <= symbols.Length
      invariant FirstNamed(symbols[..], name, 0) == FirstNamed(symbols[..], name, index)
    {
      if symbols[index].defined {
        if symbols[index].name == name {
          return;
        }
      }
      index := index + 1;
    }
    index := -1;
  }

  /** The header, filter, buckets and chains are those of this symbol table. */
  ghost predicate WrittenFor(s: seq<Symbol>, h: Header, wordBits: nat, bloom: seq<bv64>, starts: seq<u32>, chains: seq<u32>) {
    && |s| < 0x8000_0000 && 0 < wordBits <= 64 && h.numBuckets == |starts| > 0 && h.bloomSize == |bloom| > 0
    && Partitioned(s, h.symOffset) && !s[0].defined
    && SortedFrom(s, h.symOffset, h.numBuckets)
    && Hashed(s, h.symOffset)
    && bloom == BloomOf(s, h.symOffset, |s|, h.bloomSize, wordBits)
    && Indexes(s, h.symOffset, |s|, starts, chains)
  }

  predicate Hashed(s: seq<Symbol>, first: nat) {
    forall i :: first <= i < |s| ==> s[i].hash == Hash(s[i].name)
  }

  /** A symbol after the end of its bucket is in a later bucket. */
  lemma AfterRun(s: seq<Symbol>, first: nat, buckets: nat, v: nat, i: nat)
    requires buckets > 0 && SortedFrom(s, first, buckets) && first <= v < i < |s| && EndsRun(s, |s|, buckets, v)
    ensures Bucket(s[i], buckets) > Bucket(s[v], buckets)
  {
    hide Bucket;
    assert Bucket(s[v], buckets) <= Bucket(s[v + 1], buckets) <= Bucket(s[i], buckets);
  }

  lemma ChainTest(hash: u32, stored: u32, ends: bool)
    ensures var entry := if ends then Even(stored) + 1 else Even(stored);
            && SetLowBit(entry) == Even(stored) + 1
            && (hash == stored ==> SetLowBit(entry) == SetLowBit(hash))
            && (entry % 2 == 1 <==> ends)
  {
  }

  lemma AbsentFromBloom(s: seq<Symbol>, h: Header, wordBits: nat, bloom: seq<bv64>, starts: seq<u32>, chains: seq<u32>, name: Name)
    requires WrittenFor(s, h, wordBits, bloom, starts, chains) && !BloomAdmits(bloom, Hash(name), wordBits)
    ensures FirstNamed(s, name, 0) == -1
  {
    hide BloomAdmits, BloomOf, Indexes, SortedFrom, FirstNamed, Hash;
    var r := FirstNamed(s, name, 0);
    if r != -1 {
      assert r >= h.symOffset;
      BloomAdmitsMembers(s, h.symOffset, |s|, h.bloomSize, wordBits, r);
    }
  }

  /** Nothing of this name comes before v. */
  predicate NoneBefore(s: seq<Symbol>, first: nat, v: nat, name: Name) {
    forall i :: first <= i < v && i < |s| ==> s[i].name != name
  }

  lemma FoundAt(s: seq<Symbol>, first: nat, v: nat, name: Name)
    requires Partitioned(s, first) && !s[0].defined && NoneBefore(s, first, v, name) && first <= v <= |s|
    ensures v < |s| && s[v].name == name ==> FirstNamed(s, name, 0) == v
    ensures v == |s| ==> FirstNamed(s, name, 0) == -1
  {
    var r := FirstNamed(s, name, 0);
  }

  lemma SameBucket(s: seq<Symbol>, first: nat, i: nat, buckets: nat, name: Name)
    requires buckets > 0 && Hashed(s, first) && first <= i < |s| && s[i].name == name
    ensures s[i].hash == Hash(name) && Bucket(s[i], buckets) == Hash(name) % buckets
  {
  }

  /** Where a walk starts: at the first symbol of the bucket, before which the name is absent. */
  lemma WalkStarts(s: seq<Symbol>, h: Header, v: nat, name: Name)
    requires h.numBuckets > 0 && Partitioned(s, h.symOffset) && !s[0].defined && Hashed(s, h.symOffset)
    requires Starts(s, h.symOffset, |s|, h.numBuckets, Hash(name) % h.numBuckets, v)
    ensures v < h.symOffset ==> FirstNamed(s, name, 0) == -1
    ensures v >= h.symOffset ==> v < |s| && Bucket(s[v], h.numBuckets) == Hash(name) % h.numBuckets
    ensures v >= h.symOffset ==> NoneBefore(s, h.symOffset, v, name)
  {
    hide Hash, FirstNamed, Bucket;
    forall i | h.symOffset <= i < |s| && s[i].name == name
      ensures Bucket(s[i], h.numBuckets) == Hash(name) % h.numBuckets
    {
      SameBucket(s, h.symOffset, i, h.numBuckets, name);
    }
    if v < h.symOffset {
      FoundAt(s, h.symOffset, |s|, name);
    }
  }

  /** One step of a walk: the entry tells the name from others of the chain, and where the chain ends. */
  lemma WalkStep(s: seq<Symbol>, h: Header, v: nat, entry: u32, name: Name)
    requires h.numBuckets > 0 && Partitioned(s, h.symOffset) && !s[0].defined && Hashed(s, h.symOffset)
    requires SortedFrom(s, h.symOffset, h.numBuckets)
    requires h.symOffset <= v < |s| && ChainEntry(s, |s|, h.numBuckets, v, entry)
    requires Bucket(s[v], h.numBuckets) == Hash(name) % h.numBuckets && NoneBefore(s, h.symOffset, v, name)
    ensures s[v].name == name ==> SetLowBit(entry) == SetLowBit(Hash(name))
    ensures entry % 2 != 1 ==> v + 1 < |s| && Bucket(s[v + 1], h.numBuckets) == Bucket(s[v], h.numBuckets)
    ensures entry % 2 == 1 && s[v].name != name ==> FirstNamed(s, name, 0) == -1
  {
    hide Hash, FirstNamed, Bucket, SetLowBit, Even;
    ChainTest(Hash(name), s[v].hash, EndsRun(s, |s|, h.numBuckets, v));
    if EndsRun(s, |s|, h.numBuckets, v) && s[v].name != name {
      forall i | v < i < |s|
        ensures s[i].name != name
      {
        AfterRun(s, h.symOffset, h.numBuckets, v, i);
        if s[i].name == name {
          SameBucket(s, h.symOffset, i, h.numBuckets, name);
        }
      }
      FoundAt(s, h.symOffset, |s|, name);
    }
  }

  /** The loader's lookup finds what a linear search of the table finds. */
  method FindSymbol(symbols: array<Symbol>, h: Header, wordBits: nat, bloom: array<bv64>, starts: array<u32>,
                    chains: array<u32>, name: Name)
    returns (index: int)
    requires WrittenFor(symbols[..], h, wordBits, bloom[..], starts[..], chains[..])
    ensures index == FirstNamed(symbols[..], name, 0)
  {
    var hash := GnuHashOf(name);
    ghost var s := symbols[..];
    var bits := BloomBits(hash, wordBits);
    if bloom[BloomIndex(hash, wordBits, h.bloomSize)] & bits != bits {
      AbsentFromBloom(s, h, wordBits, bloom[..], starts[..], chains[..], name);
      return -1;
    }
    var bucket := hash % h.numBuckets;
    hide BloomBits, BloomIndex, BloomOf, Bucket, SetLowBit, Hash, FirstNamed, EndsRun, SortedFrom, Hashed, Starts;
    var v := starts[bucket];
    assert Starts(s, h.symOffset, |s|, h.numBuckets, bucket, starts[..][bucket]);
    WalkStarts(s, h, v, name);
    if v < h.symOffset {
      return -1;
    }
    index := WalkChain(symbols, h, starts, chains, hash, v, name);
  }

  method WalkChain(symbols: array<Symbol>, h: Header, starts: array<u32>, chains: array<u32>, hash: u32, start: nat, name: Name)
    returns (index: int)
    requires h.numBuckets == starts.Length > 0 && Partitioned(symbols[..], h.symOffset) && !symbols[0].defined
    requires Hashed(symbols[..], h.symOffset) && SortedFrom(symbols[..], h.symOffset, h.numBuckets)
    requires Indexes(symbols[..], h.symOffset, symbols.Length, starts[..], chains[..])
    requires hash == Hash(name) && h.symOffset <= start < symbols.Length
    requires Bucket(symbols[start], h.numBuckets) == Hash(name) % h.numBuckets
    requires NoneBefore(symbols[..], h.symOffset, start, name)
    ensures index == FirstNamed(symbols[..], name, 0)
  {
    hide Bucket, SetLowBit, Hash, FirstNamed, EndsRun, SortedFrom, Hashed, Starts, ChainEntry;
    var v := start;
    ghost var s := symbols[..];
    while true
      invariant h.symOffset <= v < |s| && Bucket(s[v], h.numBuckets) == Hash(name) % h.numBuckets
      invariant NoneBefore(s, h.symOffset, v, name)
      decreases |s| - v
    {
      var entry := chains[v - h.symOffset];
      assert ChainEntry(s, |s|, h.numBuckets, h.symOffset + (v - h.symOffset), chains[..][v - h.symOffset]);
      WalkStep(s, h, v, entry, name);
      if SetLowBit(entry) == SetLowBit(hash) && symbols[v].name == name {
        FoundAt(s, h.symOffset, v, name);
        return if symbols[v].defined then v else -1;
      }
      if entry % 2 == 1 {
        break;
      }
      v := v + 1;
    }
    index := -1;
  }

  // ---- the whole index ----

  /** Four symbols to a bucket. */
  method CreateGnuHashTable(a: array<Symbol>, objectCount: nat, wordBits: nat)
    returns (h: Header, bloom: array<bv64>, starts: array<u32>, chains: array<u32>)
    requires 1 <= a.Length < 0x8000_0000 && !a[0].defined && (wordBits == 32 || wordBits == 64)
    requires forall i :: 0 <= i < a.Length && a[i].defined ==> a[i].hash == Hash(a[i].name)
    modifies a
    ensures multiset(a[..]) == multiset(old(a[..]))
    ensures WrittenFor(a[..], h, wordBits, bloom[..], starts[..], chains[..])
  {
    hide Hash, SortedFrom, Indexes, BloomOf;
    var buckets := if objectCount / 4 == 0 then 1 else objectCount / 4;
    ghost var before := a[..];
    var first := SortDynamicSymbolTable(a, buckets);
    forall i | first <= i < a.Length
      ensures a[i].hash == Hash(a[i].name)
    {
      assert a[..][i] in multiset(before);
    }
    h := WriteHeader(a.Length, first, wordBits, buckets);
    bloom := WriteBloomFilter(a, h, wordBits);
    starts, chains := WriteHashTable(a, h);
  }

  /** A name is found after the reordering exactly when some symbol of the table defines it. */
  lemma FoundIffDefined(s: seq<Symbol>, t: seq<Symbol>, name: Name)
    requires multiset(s) == multiset(t)
    ensures FirstNamed(s, name, 0) != -1 <==> exists i :: 0 <= i < |t| && t[i].defined && t[i].name == name
  {
    var r := FirstNamed(s, name, 0);
    if r != -1 {
      assert s[r] in multiset(t);
    }
    if i :| 0 <= i < |t| && t[i].defined && t[i].name == name {
      assert t[i] in multiset(s);
    }
  }
}
