/**
Selected commits and their XOR-compressed reachability bitmaps: which entries an index accepts,
what decoding an entry yields, and why the redundant lookup table names the same chains.
*/
module BitmapIndex {

  import opened Bitmaps
  import opened Ewah
  import opened Options
  import opened Words

  datatype RawEntry = RawEntry(position: nat, xor: nat, flags: nat, offset: nat, bits: nat, data: seq<Word>, current: nat)

  datatype Entry = Entry(position: nat, xor: nat, offset: nat, data: seq<Word>) {

    ghost predicate Valid(i: nat, objects: nat)
    {
      && position < objects
      && xor <= i
      && Framed(data, 0)
      && |Expand(data, 0)| <= WordCount(objects)
      && forall p: nat :: BitAt(Expand(data, 0), p) ==> p < objects
    }
  }

  datatype Index = Index(size: nat, objects: nat, entries: seq<Entry>, sorted: seq<nat>) {

    ghost predicate Valid()
    {
      && (forall i :: 0 <= i < |entries| ==> entries[i].Valid(i, objects))
      && Covers(entries, sorted)
      && Increasing(entries, sorted)
    }
  }

  /** `sorted` lists every entry once. */
  ghost predicate Covers(entries: seq<Entry>, sorted: seq<nat>)
  {
    && |sorted| == |entries|
    && (forall r :: 0 <= r < |sorted| ==> sorted[r] < |entries|)
    && (forall i: nat :: i < |entries| ==> i in sorted)
    && (forall q, r :: 0 <= q < r < |sorted| ==> sorted[q] != sorted[r])
  }

  ghost predicate Increasing(entries: seq<Entry>, sorted: seq<nat>)
    requires forall r :: 0 <= r < |sorted| ==> sorted[r] < |entries|
  {
    forall q, r :: 0 <= q < r < |sorted| ==> entries[sorted[q]].position < entries[sorted[r]].position
  }

  // Accepting entries.

  ghost predicate AcceptedEntry(raw: RawEntry, i: nat, objects: nat)
  {
    && raw.position < objects
    && raw.xor <= i
    && raw.xor <= 160
    && raw.flags < 2
    && Accepted(raw.bits, raw.data, raw.current, objects)
  }

  ghost predicate DistinctPositions(entries: seq<Entry>)
  {
    forall i, j :: 0 <= i < j < |entries| ==> entries[i].position != entries[j].position
  }

  function Kept(raw: RawEntry): Entry
  {
    Entry(raw.position, raw.xor, raw.offset, raw.data)
  }

  function KeptAll(raws: seq<RawEntry>): seq<Entry>
  {
    seq(|raws|, i requires 0 <= i < |raws| => Kept(raws[i]))
  }

  ghost predicate AcceptedIndex(raws: seq<RawEntry>, objects: nat)
  {
    && (forall i :: 0 <= i < |raws| ==> AcceptedEntry(raws[i], i, objects))
    && forall i, j :: 0 <= i < j < |raws| ==> raws[i].position != raws[j].position
  }

  ghost predicate NonDecreasing(entries: seq<Entry>, sorted: seq<nat>)
    requires forall r :: 0 <= r < |sorted| ==> sorted[r] < |entries|
  {
    forall q, r :: 0 <= q < r < |sorted| ==> entries[sorted[q]].position <= entries[sorted[r]].position
  }

  /** The first `n` entries in order of position. */
  ghost predicate SortedTo(entries: seq<Entry>, sorted: seq<nat>, n: nat)
  {
    && |sorted| == n <= |entries|
    && (forall r :: 0 <= r < |sorted| ==> sorted[r] < n)
    && (forall i: nat :: i < n ==> i in sorted)
    && (forall q, r :: 0 <= q < r < |sorted| ==> sorted[q] != sorted[r])
    && NonDecreasing(entries, sorted)
  }

  lemma InsertKeeps(entries: seq<Entry>, sorted: seq<nat>, n: nat, k: nat)
    requires SortedTo(entries, sorted, n) && n < |entries| && k <= n
    requires forall r :: 0 <= r < k ==> entries[sorted[r]].position <= entries[n].position
    requires forall r :: k <= r < n ==> entries[n].position <= entries[sorted[r]].position
    ensures SortedTo(entries, sorted[..k] + [n] + sorted[k..], n + 1)
  {
    hide NonDecreasing;
    var more := sorted[..k] + [n] + sorted[k..];
    Inserted(sorted, n, k);
    forall i: nat | i < n + 1 ensures i in more {
      if i == n {
        assert more[k] == n;
      } else {
        assert i in sorted;
        var r :| 0 <= r < n && sorted[r] == i;
        assert more[if r < k then r else r + 1] == i;
      }
    }
    InsertKeepsOrder(entries, sorted, n, k);
  }

  lemma Inserted(sorted: seq<nat>, n: nat, k: nat)
    requires k <= |sorted|
    ensures var more := sorted[..k] + [n] + sorted[k..];
      && |more| == |sorted| + 1
      && forall x :: 0 <= x < |more| ==> more[x] == (if x < k then sorted[x] else if x == k then n else sorted[x - 1])
  {
  }

  lemma InsertKeepsOrder(entries: seq<Entry>, sorted: seq<nat>, n: nat, k: nat)
    requires |sorted| == n < |entries| && k <= n
    requires forall r :: 0 <= r < |sorted| ==> sorted[r] < n
    requires NonDecreasing(entries, sorted)
    requires forall r :: 0 <= r < k ==> entries[sorted[r]].position <= entries[n].position
    requires forall r :: k <= r < n ==> entries[n].position <= entries[sorted[r]].position
    ensures var more := sorted[..k] + [n] + sorted[k..];
      && (forall r :: 0 <= r < |more| ==> more[r] < |entries|)
      && NonDecreasing(entries, more)
  {
    Inserted(sorted, n, k);
    var more := sorted[..k] + [n] + sorted[k..];
    forall q, r | 0 <= q < r < |more| ensures entries[more[q]].position <= entries[more[r]].position {
    }
  }

  method SortByPosition(entries: seq<Entry>) returns (sorted: seq<nat>)
    ensures SortedTo(entries, sorted, |entries|)
  {
    sorted := [];
    var n := 0;
    while n < |entries|
      invariant SortedTo(entries, sorted, n)
    {
      var k := n;
      while k > 0 && entries[n].position < entries[sorted[k - 1]].position
        invariant k <= n
        invariant forall r :: k <= r < n ==> entries[n].position <= entries[sorted[r]].position
      {
        k := k - 1;
      }
      assert forall r :: 0 <= r < k ==> entries[sorted[r]].position <= entries[n].position;
      InsertKeeps(entries, sorted, n, k);
      sorted := sorted[..k] + [n] + sorted[k..];
      n := n + 1;
    }
  }

  /** Neighbours suffice to find a repeated position once the order is sorted. */
  method CheckDistinct(entries: seq<Entry>, sorted: seq<nat>) returns (ok: bool)
    requires SortedTo(entries, sorted, |entries|)
    ensures ok <==> DistinctPositions(entries)
    ensures ok ==> Increasing(entries, sorted)
  {
    var r := 0;
    while r + 1 < |sorted|
      invariant r == 0 || r < |sorted|
      invariant forall q :: 0 <= q < r ==> entries[sorted[q]].position < entries[sorted[q + 1]].position
    {
      if entries[sorted[r]].position == entries[sorted[r + 1]].position {
        RepeatedPosition(entries, sorted[r], sorted[r + 1]);
        return false;
      }
      r := r + 1;
    }
    NeighboursIncrease(entries, sorted);
    IncreasingIsDistinct(entries, sorted);
    return true;
  }

  lemma RepeatedPosition(entries: seq<Entry>, i: nat, j: nat)
    requires i < |entries| && j < |entries| && i != j && entries[i].position == entries[j].position
    ensures !DistinctPositions(entries)
  {
    var a, b := if i < j then i else j, if i < j then j else i;
    assert entries[a].position == entries[b].position;
  }

  lemma NeighboursIncrease(entries: seq<Entry>, sorted: seq<nat>)
    requires SortedTo(entries, sorted, |entries|)
    requires forall q :: 0 <= q < |sorted| - 1 ==> entries[sorted[q]].position < entries[sorted[q + 1]].position
    ensures Increasing(entries, sorted)
  {
    forall q, r | 0 <= q < r < |sorted| ensures entries[sorted[q]].position < entries[sorted[r]].position {
      assert entries[sorted[r - 1]].position < entries[sorted[(r - 1) + 1]].position;
      if q < r - 1 { assert entries[sorted[q]].position <= entries[sorted[r - 1]].position; }
    }
  }

  lemma IncreasingIsDistinct(entries: seq<Entry>, sorted: seq<nat>)
    requires SortedTo(entries, sorted, |entries|) && Increasing(entries, sorted)
    ensures DistinctPositions(entries)
  {
    forall i: nat, j: nat | i < j < |entries| ensures entries[i].position != entries[j].position {
      assert i in sorted && j in sorted;
      var q :| 0 <= q < |sorted| && sorted[q] == i;
      var r :| 0 <= r < |sorted| && sorted[r] == j;
      assert q != r;
      if q < r { assert entries[sorted[q]].position < entries[sorted[r]].position; }
      else { assert entries[sorted[r]].position < entries[sorted[q]].position; }
    }
  }

  lemma KeptAreDistinct(raws: seq<RawEntry>)
    ensures DistinctPositions(KeptAll(raws)) <==> forall i, j :: 0 <= i < j < |raws| ==> raws[i].position != raws[j].position
  {
    if DistinctPositions(KeptAll(raws)) {
      forall i, j | 0 <= i < j < |raws| ensures raws[i].position != raws[j].position {
        assert KeptAll(raws)[i].position != KeptAll(raws)[j].position;
      }
    }
  }

  method ParseEntries(size: nat, objects: nat, raws: seq<RawEntry>) returns (r: Option<Index>)
    ensures r.Some? <==> AcceptedIndex(raws, objects)
    ensures r.Some? ==> r.value.Valid() && r.value.size == size && r.value.objects == objects && |r.value.entries| == |raws|
    ensures r.Some? ==> forall i :: 0 <= i < |raws| ==> var entry, raw := r.value.entries[i], raws[i];
      && entry.position == raw.position && entry.xor == raw.xor && entry.offset == raw.offset && entry.data == raw.data
  {
    hide Accepted, DistinctPositions, Framed, Expand, BitAt, SortedTo, Increasing;
    KeptAreDistinct(raws);
    var entries: seq<Entry> := [];
    var i := 0;
    while i < |raws|
      invariant i <= |raws|
      invariant entries == KeptAll(raws[..i])
      invariant forall j :: 0 <= j < i ==> AcceptedEntry(raws[j], j, objects)
    {
      var raw := raws[i];
      if raw.position >= objects || raw.xor > i || raw.xor > 160 || raw.flags >= 2 {
        assert !AcceptedEntry(raws[i], i, objects);
        return None;
      }
      var ok := Parse(raw.bits, raw.data, raw.current, objects);
      if !ok {
        assert !AcceptedEntry(raws[i], i, objects);
        return None;
      }
      assert KeptAll(raws[..i + 1]) == KeptAll(raws[..i]) + [Kept(raw)];
      entries := entries + [Kept(raw)];
      i := i + 1;
    }
    assert raws[..i] == raws;
    var sorted := SortByPosition(entries);
    var distinct := CheckDistinct(entries, sorted);
    if !distinct {
      return None;
    }
    AcceptedIsValid(size, objects, raws, sorted);
    r := Some(Index(size, objects, entries, sorted));
  }

  lemma AcceptedIsValid(size: nat, objects: nat, raws: seq<RawEntry>, sorted: seq<nat>)
    requires forall i :: 0 <= i < |raws| ==> AcceptedEntry(raws[i], i, objects)
    requires SortedTo(KeptAll(raws), sorted, |raws|) && Increasing(KeptAll(raws), sorted)
    ensures Index(size, objects, KeptAll(raws), sorted).Valid()
  {
    hide Framed, Expand, BitAt;
    var entries := KeptAll(raws);
    forall i | 0 <= i < |entries| ensures entries[i].Valid(i, objects) {
      assert AcceptedEntry(raws[i], i, objects);
    }
  }

  // Decoding an entry.

  /** Position `p` is in entry `i`'s set: in its own words or in its dependency's set, not in both. */
  ghost predicate InChain(index: Index, i: nat, p: nat)
    requires index.Valid() && i < |index.entries|
    decreases i
  {
    var entry := index.entries[i];
    assert entry.Valid(i, index.objects);
    BitAt(Expand(entry.data, 0), p) != (entry.xor != 0 && InChain(index, i - entry.xor, p))
  }

  /** The words that decoding entry `i` expands, repeated dependencies included. */
  ghost function Work(index: Index, i: nat): nat
    requires index.Valid() && i < |index.entries|
    decreases i
  {
    var entry := index.entries[i];
    assert entry.Valid(i, index.objects);
    |Expand(entry.data, 0)| + if entry.xor == 0 then 0 else Work(index, i - entry.xor)
  }

  lemma {:induction false} ChainWithin(index: Index, i: nat, p: nat)
    requires index.Valid() && i < |index.entries| && InChain(index, i, p)
    ensures p < index.objects
    decreases i
  {
    hide BitAt, Framed, Expand, Covers, Increasing;
    var entry := index.entries[i];
    assert entry.Valid(i, index.objects);
    if !BitAt(Expand(entry.data, 0), p) { ChainWithin(index, i - entry.xor, p); }
  }

  lemma BitOfXorAt(a: seq<Word>, words: seq<Word>, p: nat)
    requires |words| <= |a| && p / 64 < |a|
    ensures BitAt(XorAt(a, 0, words), p) <==> BitAt(a, p) != BitAt(words, p)
  {
    hide Bit, Xor;
    if p / 64 < |words| { BitOfXor(a[p / 64], words[p / 64], p % 64); }
  }

  datatype Limits = Limits(maxBytes: nat, maxObjects: nat, maxEntries: nat, maxDecodedWords: nat)

  datatype Decoded = Found(bitmap: Bitmap) | Absent | LimitExceeded

  predicate WithinBounds(index: Index, limits: Limits)
  {
    && index.size <= limits.maxBytes
    && index.objects <= limits.maxObjects
    && index.objects <= 0xFFFF_FFFF
    && |index.entries| <= limits.maxEntries
  }

  /** An index is out of bounds by its size, its objects, their 32-bit count or its entries. */
  lemma OutOfBounds(index: Index, limits: Limits)
    ensures var over := index.size > limits.maxBytes || index.objects > limits.maxObjects
                     || index.objects >= 0x1_0000_0000 || |index.entries| > limits.maxEntries;
      over <==> !WithinBounds(index, limits)
  {
  }

  ghost predicate Selected(index: Index, position: nat, i: nat)
  {
    i < |index.entries| && index.entries[i].position == position
  }

  /** Binary search over the positions. */
  method Rank(index: Index, position: nat) returns (r: Option<nat>)
    requires index.Valid()
    ensures r.Some? ==> r.value < |index.sorted| && Selected(index, position, index.sorted[r.value])
    ensures r.None? ==> forall i: nat :: !Selected(index, position, i)
  {
    hide Entry.Valid;
    var low, high := 0, |index.sorted|;
    while low < high
      invariant 0 <= low <= high <= |index.sorted|
      invariant forall q :: 0 <= q < low ==> index.entries[index.sorted[q]].position < position
      invariant forall q :: high <= q < |index.sorted| ==> position < index.entries[index.sorted[q]].position
    {
      var middle := (low + high) / 2;
      var at := index.entries[index.sorted[middle]].position;
      if at == position {
        return Some(middle);
      } else if at < position {
        low := middle + 1;
      } else {
        high := middle;
      }
    }
    forall i: nat | i < |index.entries| ensures !Selected(index, position, i) {
      assert i in index.sorted;
      var q :| 0 <= q < |index.sorted| && index.sorted[q] == i;
    }
    return None;
  }

  lemma SelectedIsUnique(index: Index, position: nat, i: nat, j: nat)
    requires index.Valid() && Selected(index, position, i) && Selected(index, position, j)
    ensures i == j
  {
    hide Entry.Valid;
    assert i in index.sorted && j in index.sorted;
    var q :| 0 <= q < |index.sorted| && index.sorted[q] == i;
    var r :| 0 <= r < |index.sorted| && index.sorted[r] == j;
    assert q == r;
  }

  method ReachableWith(index: Index, position: nat, limits: Limits) returns (r: Decoded)
    requires index.Valid()
    ensures r.Absent? <==> WithinBounds(index, limits) && forall i: nat :: !Selected(index, position, i)
    ensures forall i: nat :: Selected(index, position, i) ==>
      && (r.Found? <==>
            WithinBounds(index, limits) && WordCount(index.objects) + Work(index, i) <= limits.maxDecodedWords)
      && (r.Found? ==> r.bitmap.Valid() && IsChain(index, i, r.bitmap.words))
  {
    hide *;
    if !WithinBounds(index, limits) {
      return LimitExceeded;
    }
    var rank := Rank(index, position);
    if rank.None? {
      return Absent;
    }
    var start := index.sorted[rank.value];
    SelectedAlone(index, position, start);
    var words := WordCount(index.objects);
    if words > limits.maxDecodedWords {
      return LimitExceeded;
    }
    r := Decode(index, start, limits.maxDecodedWords - words);
  }

  lemma SelectedAlone(index: Index, position: nat, i: nat)
    requires index.Valid() && Selected(index, position, i)
    ensures i < |index.entries| && forall j: nat :: Selected(index, position, j) ==> j == i
  {
    hide Index.Valid, Selected;
    SelectedInside(index, position, i);
    forall j: nat | Selected(index, position, j) ensures j == i { SelectedIsUnique(index, position, i, j); }
  }

  lemma SelectedInside(index: Index, position: nat, i: nat)
    requires Selected(index, position, i)
    ensures i < |index.entries|
  {
  }

  /** What is decoded so far, XORed with what entry `i` still stands for, is entry `start`'s set. */
  ghost predicate Mixed(index: Index, start: nat, i: nat, words: seq<Word>)
    requires index.Valid() && start < |index.entries| && i < |index.entries|
  {
    && |words| == WordCount(index.objects)
    && forall p: nat {:trigger BitAt(words, p)} :: p < 64 * |words| ==>
         (BitAt(words, p) != InChain(index, i, p) <==> InChain(index, start, p))
  }

  ghost predicate IsChain(index: Index, start: nat, words: seq<Word>)
    requires index.Valid() && start < |index.entries|
  {
    |words| == WordCount(index.objects) && forall p: nat :: BitAt(words, p) <==> InChain(index, start, p)
  }

  lemma MixedStarts(index: Index, start: nat, words: seq<Word>)
    requires index.Valid() && start < |index.entries| && |words| == WordCount(index.objects)
    requires forall k :: 0 <= k < |words| ==> words[k] == 0
    ensures Mixed(index, start, start, words)
  {
    hide InChain;
    forall p: nat ensures !BitAt(words, p) { BitOfZero(p % 64); }
  }

  lemma MixedSteps(index: Index, start: nat, i: nat, words: seq<Word>)
    requires index.Valid() && start < |index.entries| && i < |index.entries| && Mixed(index, start, i, words)
    ensures var entry := index.entries[i];
      && entry.Valid(i, index.objects) && |Expand(entry.data, 0)| <= |words|
      && Work(index, i) == |Expand(entry.data, 0)| + (if entry.xor == 0 then 0 else Work(index, i - entry.xor))
      && (entry.xor != 0 ==> Mixed(index, start, i - entry.xor, XorAt(words, 0, Expand(entry.data, 0))))
      && (entry.xor == 0 ==> IsChain(index, start, XorAt(words, 0, Expand(entry.data, 0))))
  {
    hide BitAt, Framed, Expand, Covers, Increasing, XorAt;
    var entry := index.entries[i];
    assert entry.Valid(i, index.objects);
    var more := XorAt(words, 0, Expand(entry.data, 0));
    forall p: nat | p < 64 * |words|
      ensures BitAt(more, p) != (entry.xor != 0 && InChain(index, i - entry.xor, p)) <==> InChain(index, start, p)
    {
      BitOfXorAt(words, Expand(entry.data, 0), p);
    }
    if entry.xor == 0 {
      forall p: nat ensures BitAt(more, p) <==> InChain(index, start, p) { ChainFits(index, start, more, p); }
    }
  }

  lemma ChainFits(index: Index, start: nat, words: seq<Word>, p: nat)
    requires index.Valid() && start < |index.entries| && |words| == WordCount(index.objects)
    ensures BitAt(words, p) || InChain(index, start, p) ==> p < 64 * |words|
  {
    hide Index.Valid, InChain;
    if InChain(index, start, p) { ChainWithin(index, start, p); }
  }

  /** XORs an entry and its dependencies into a cleared buffer, one budget for all of them. */
  method Decode(index: Index, start: nat, budget: nat) returns (r: Decoded)
    requires index.Valid() && start < |index.entries|
    ensures !r.Absent?
    ensures r.Found? <==> Work(index, start) <= budget
    ensures r.Found? ==> r.bitmap.Valid() && IsChain(index, start, r.bitmap.words)
  {
    hide BitAt, Framed, Expand, Index.Valid, XorAt, InChain, Work, Mixed, IsChain, WordCount;
    var output := new Word[WordCount(index.objects)](_ => 0);
    var i: nat, left: nat := start, budget;
    MixedStarts(index, start, output[..]);
    while true
      invariant i < |index.entries| && Mixed(index, start, i, output[..])
      invariant left + Work(index, start) == budget + Work(index, i)
      decreases i
    {
      var entry := index.entries[i];
      MixedSteps(index, start, i, output[..]);
      var next := XorInto(entry.data, output, left);
      if next.None? {
        return LimitExceeded;
      }
      left := next.value;
      if entry.xor == 0 {
        break;
      }
      i := i - entry.xor;
    }
    r := Found(Bitmap(output[..], index.objects));
    ChainIsValid(index, start, output[..]);
  }

  lemma ChainIsValid(index: Index, start: nat, words: seq<Word>)
    requires index.Valid() && start < |index.entries| && IsChain(index, start, words)
    ensures Bitmap(words, index.objects).Valid()
  {
    hide Index.Valid, InChain;
    forall p: nat | BitAt(words, p) ensures p < index.objects { ChainWithin(index, start, p); }
  }

  // The lookup table.

  datatype Row = Row(position: nat, offset: nat, parent: nat)

  const NO_PARENT: nat := 0xFFFF_FFFF

  predicate RowMatches(index: Index, rows: seq<Row>, r: nat)
    requires r < |rows| && r < |index.sorted| && index.sorted[r] < |index.entries|
  {
    var i := index.sorted[r];
    var entry := index.entries[i];
    && rows[r].position == entry.position
    && rows[r].offset == entry.offset
    && if entry.xor == 0 then rows[r].parent == NO_PARENT
       else rows[r].parent < |index.sorted| && index.sorted[rows[r].parent] == i - entry.xor
  }

  ghost predicate TableMatches(index: Index, rows: seq<Row>)
    requires index.Valid() && |rows| == |index.sorted|
  {
    forall r: nat :: r < |rows| ==> RowMatches(index, rows, r)
  }

  method ValidateLookup(index: Index, rows: seq<Row>) returns (ok: bool)
    requires index.Valid() && |rows| == |index.sorted|
    ensures ok <==> TableMatches(index, rows)
  {
    hide RowMatches;
    var r := 0;
    while r < |rows|
      invariant r <= |rows| && forall q: nat :: q < r ==> RowMatches(index, rows, q)
    {
      if !RowMatches(index, rows, r) {
        return false;
      }
      r := r + 1;
    }
    return true;
  }

  /** Where the entries of a chain lie, following back-distances. */
  ghost function ByDistance(index: Index, i: nat): seq<nat>
    requires index.Valid() && i < |index.entries|
    decreases i
  {
    var entry := index.entries[i];
    assert entry.Valid(i, index.objects);
    [entry.offset] + if entry.xor == 0 then [] else ByDistance(index, i - entry.xor)
  }

  /** Where they lie according to the table alone, following parent rows. */
  ghost function ByRows(index: Index, rows: seq<Row>, r: nat): seq<nat>
    requires index.Valid() && |rows| == |index.sorted| <= NO_PARENT && TableMatches(index, rows) && r < |rows|
    decreases index.sorted[r]
  {
    assert RowMatches(index, rows, r);
    assert index.entries[index.sorted[r]].Valid(index.sorted[r], index.objects);
    [rows[r].offset] + if rows[r].parent == NO_PARENT then [] else ByRows(index, rows, rows[r].parent)
  }

  /** A validated table leads through the same entries as the back-distances do. */
  lemma {:induction false} TableFollowsChains(index: Index, rows: seq<Row>, r: nat)
    requires index.Valid() && |rows| == |index.sorted| <= NO_PARENT && TableMatches(index, rows) && r < |rows|
    ensures rows[r].position == index.entries[index.sorted[r]].position
    ensures rows[r].offset == index.entries[index.sorted[r]].offset
    ensures ByRows(index, rows, r) == ByDistance(index, index.sorted[r])
    decreases index.sorted[r]
  {
    hide Framed, Expand, BitAt, Increasing;
    assert RowMatches(index, rows, r);
    assert index.entries[index.sorted[r]].Valid(index.sorted[r], index.objects);
    if rows[r].parent != NO_PARENT { TableFollowsChains(index, rows, rows[r].parent); }
  }
}
