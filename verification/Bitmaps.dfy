/** Sets of object positions as 64-bit words, and the four-way partition by object kind. */
module Bitmaps {

  import opened Words

  /** How many words hold this many bits. */
  function WordCount(bits: nat): nat
  {
    (bits + 63) / 64
  }

  predicate BitAt(words: seq<Word>, p: nat)
  {
    p / 64 < |words| && Bit(words[p / 64], p % 64)
  }

  function Count(words: seq<Word>): nat
  {
    if words == [] then 0 else Count(words[..|words| - 1]) + Ones(words[|words| - 1])
  }

  datatype Bitmap = Bitmap(words: seq<Word>, objects: nat) {

    /** The words cover the objects and no bit lies past them. */
    ghost predicate Valid()
    {
      |words| == WordCount(objects) && forall p: nat :: BitAt(words, p) ==> p < objects
    }

    predicate Contains(p: nat)
    {
      p < objects && p / 64 < |words| && And(words[p / 64], Pow2(p % 64)) != 0
    }
  }

  lemma MaskedBit(w: nat, i: nat)
    ensures And(w, Pow2(i)) != 0 <==> Bit(w, i)
  {
    BitOfAnd(w, Pow2(i), i);
    BitOfPow2(i, i);
    BitOfZero(i);
    if And(w, Pow2(i)) != 0 {
      var j := NonZeroHasBit(And(w, Pow2(i)));
      BitOfAnd(w, Pow2(i), j);
      BitOfPow2(i, j);
    }
  }

  lemma ContainsIsBit(b: Bitmap, p: nat)
    ensures b.Contains(p) <==> p < b.objects && BitAt(b.words, p)
  {
    hide And, Bit;
    if p / 64 < |b.words| { MaskedBit(b.words[p / 64], p % 64); }
  }

  // Iteration.

  ghost predicate Ascending(s: seq<nat>)
  {
    forall i, j :: 0 <= i < j < |s| ==> s[i] < s[j]
  }

  /** Every set bit below word `index` is out, and of word `index` those no longer remaining. */
  ghost predicate Emitted(words: seq<Word>, index: nat, remaining: nat, p: nat)
  {
    BitAt(words, p) && (p < 64 * index || (p / 64 == index && !Bit(remaining, p % 64)))
  }

  ghost predicate Listing(words: seq<Word>, index: nat, remaining: nat, out: seq<nat>)
  {
    && index < |words|
    && (forall b: nat :: Bit(remaining, b) ==> Bit(words[index], b))
    && Ascending(out)
    && (forall p: nat {:trigger Emitted(words, index, remaining, p)} {:trigger p in out} ::
          p in out <==> Emitted(words, index, remaining, p))
    && (forall p: nat, b: nat {:trigger p in out, Bit(remaining, b)} :: p in out && Bit(remaining, b) ==> p < 64 * index + b)
    && |out| + Ones(remaining) == Count(words[..index]) + Ones(words[index])
  }

  ghost predicate ListedTo(words: seq<Word>, index: nat, out: seq<nat>)
  {
    && index <= |words|
    && Ascending(out)
    && (forall p: nat {:trigger p in out} {:trigger BitAt(words, p)} :: p in out <==> BitAt(words, p) && p < 64 * index)
    && |out| == Count(words[..index])
  }

  lemma ListingStarts(words: seq<Word>, index: nat, out: seq<nat>)
    requires ListedTo(words, index, out) && index < |words|
    ensures Listing(words, index, words[index], out)
  {
    hide Bit, Ones, Ascending, Count;
    forall p: nat ensures p in out <==> Emitted(words, index, words[index], p) {
      assert p / 64 == index ==> (BitAt(words, p) <==> Bit(words[index], p % 64));
    }
  }

  lemma ListingEnds(words: seq<Word>, index: nat, out: seq<nat>)
    requires Listing(words, index, 0, out)
    ensures ListedTo(words, index + 1, out)
  {
    hide Bit, Ascending;
    assert words[..index + 1][..index] == words[..index];
    forall p: nat ensures p in out <==> BitAt(words, p) && p < 64 * (index + 1) {
      BitOfZero(p % 64);
      assert p in out <==> Emitted(words, index, 0, p);
    }
  }

  lemma ListingSteps(words: seq<Word>, index: nat, remaining: nat, out: seq<nat>)
    requires Listing(words, index, remaining, out) && remaining > 0
    ensures Listing(words, index, And(remaining, remaining - 1), out + [64 * index + TrailingZeros(remaining)])
  {
    hide Bit, Ones, And, Count, TrailingZeros;
    var bit := TrailingZeros(remaining);
    var next := And(remaining, remaining - 1);
    var now := 64 * index + bit;
    BitBelow64(words[index], bit);
    forall b: nat ensures Bit(next, b) <==> Bit(remaining, b) && b != bit { ClearsLowest(remaining, b); }
    ClearsLowest(remaining, 0);
    var more := out + [now];
    assert Ascending(more) by {
      forall i, j | 0 <= i < j < |more| ensures more[i] < more[j] {
        if j == |out| { assert out[i] in out; }
      }
    }
    EmittedNext(words, index, remaining, next, out);
    forall p: nat, b: nat | p in more && Bit(next, b) ensures p < 64 * index + b {
      if p == now { assert Bit(remaining, b) && b != bit; } else { assert p in out && Bit(remaining, b); }
    }
  }

  lemma BitBelow64(w: Word, i: nat)
    requires Bit(w, i)
    ensures i < 64
  {
    if i >= 64 { BitWithin(64, w, i); }
  }

  lemma EmittedNext(words: seq<Word>, index: nat, remaining: nat, next: nat, out: seq<nat>)
    requires Listing(words, index, remaining, out) && remaining > 0
    requires TrailingZeros(remaining) < 64 && Bit(words[index], TrailingZeros(remaining))
    requires forall b: nat :: Bit(next, b) <==> Bit(remaining, b) && b != TrailingZeros(remaining)
    ensures forall p: nat {:trigger Emitted(words, index, next, p)} ::
      p in out + [64 * index + TrailingZeros(remaining)] <==> Emitted(words, index, next, p)
  {
    hide Bit, Ones, Count, Ascending;
    var bit := TrailingZeros(remaining);
    var now := 64 * index + bit;
    assert now / 64 == index && now % 64 == bit;
    forall p: nat ensures p in out + [now] <==> Emitted(words, index, next, p) {
      assert p in out <==> Emitted(words, index, remaining, p);
      assert p / 64 == index && p % 64 == bit ==> p == now;
    }
  }

  /** The set bits, lowest word and lowest bit first. */
  method Positions(b: Bitmap) returns (out: seq<nat>)
    ensures Ascending(out)
    ensures forall p: nat :: p in out <==> BitAt(b.words, p)
    ensures |out| == Count(b.words)
    ensures b.Valid() ==> forall p: nat :: p in out <==> b.Contains(p)
  {
    hide Listing, Ascending, BitAt, Bit, Ones, And, Bitmap.Contains;
    out := [];
    var index := 0;
    assert ListedTo(b.words, 0, []) by { NothingListed(b.words); }
    while index < |b.words|
      invariant ListedTo(b.words, index, out)
    {
      var remaining: nat := b.words[index];
      ListingStarts(b.words, index, out);
      while remaining != 0
        invariant Listing(b.words, index, remaining, out)
        decreases remaining
      {
        ListingSteps(b.words, index, remaining, out);
        WidthOfAnd(remaining - 1, remaining);
        AndCommutes(remaining, remaining - 1);
        out := out + [64 * index + TrailingZeros(remaining)];
        remaining := And(remaining, remaining - 1);
      }
      ListingEnds(b.words, index, out);
      index := index + 1;
    }
    assert b.words[..index] == b.words;
    forall p: nat | BitAt(b.words, p) ensures p < 64 * index { BitAtBelow(b.words, p); }
    forall p: nat ensures b.Contains(p) <==> p < b.objects && BitAt(b.words, p) { ContainsIsBit(b, p); }
  }

  lemma NothingListed(words: seq<Word>)
    ensures ListedTo(words, 0, [])
  {
  }

  lemma BitAtBelow(words: seq<Word>, p: nat)
    requires BitAt(words, p)
    ensures p < 64 * |words|
  {
  }

  lemma {:induction false} AndCommutes(a: nat, b: nat)
    ensures And(a, b) == And(b, a)
    decreases a + b
  {
    if a == 0 && b == 0 {
    } else if a == 0 || b == 0 {
      WidthOfAnd(0, a + b);
      AndCommutes(a / 2, b / 2);
    } else {
      AndCommutes(a / 2, b / 2);
    }
  }

  // The partition by kind.

  function TailMask(objects: nat): (m: Word)
    ensures forall b: nat :: b < 64 ==> (Bit(m, b) <==> b < objects % 64 || objects % 64 == 0)
  {
    var n := if objects % 64 == 0 then 64 else objects % 64;
    Pow2Grows(n, 64);
    assert forall b: nat :: Bit(Low(n), b) <==> b < n by { forall b: nat { BitOfLow(n, b); } }
    Low(n)
  }

  function Expected(objects: nat, index: nat): Word
  {
    if index + 1 == WordCount(objects) then TailMask(objects) else ALL
  }

  /** Every position has exactly one of the four kinds, and no bit is set past the objects. */
  ghost predicate Partition(types: seq<Bitmap>, objects: nat)
  {
    forall p: nat {:trigger KindCount(types, p)} ::
      p < 64 * WordCount(objects) ==> KindCount(types, p) == (if p < objects then 1 else 0)
  }

  ghost function KindCount(types: seq<Bitmap>, p: nat): nat
  {
    if types == [] then 0
    else KindCount(types[..|types| - 1], p) + (if BitAt(types[|types| - 1].words, p) then 1 else 0)
  }

  ghost predicate UnionOf(types: seq<Bitmap>, index: nat, union: nat)
  {
    forall b: nat {:trigger Bit(union, b)} :: b < 64 ==>
      KindCount(types, 64 * index + b) == (if Bit(union, b) then 1 else 0)
  }

  lemma BitAtWord(words: seq<Word>, index: nat, b: nat)
    requires index < |words| && b < 64
    ensures BitAt(words, 64 * index + b) <==> Bit(words[index], b)
  {
    assert (64 * index + b) / 64 == index && (64 * index + b) % 64 == b;
  }

  lemma {:induction false} KindCountGrows(types: seq<Bitmap>, n: nat, p: nat)
    requires n <= |types|
    ensures KindCount(types[..n], p) <= KindCount(types, p)
  {
    if n < |types| {
      KindCountGrows(types[..|types| - 1], n, p);
      assert types[..|types| - 1][..n] == types[..n];
    } else {
      assert types[..n] == types;
    }
  }

  lemma UnionStep(types: seq<Bitmap>, index: nat, union: nat, k: nat)
    requires k < |types| && index < |types[k].words| && UnionOf(types[..k], index, union)
    requires And(union, types[k].words[index]) == 0
    ensures UnionOf(types[..k + 1], index, Or(union, types[k].words[index]))
  {
    hide Bit, And, Or, BitAt;
    var w := types[k].words[index];
    assert types[..k + 1][..k] == types[..k];
    forall b: nat | b < 64
      ensures KindCount(types[..k + 1], 64 * index + b) == (if Bit(Or(union, w), b) then 1 else 0)
    {
      BitOfAnd(union, w, b);
      BitOfZero(b);
      BitOfOr(union, w, b);
      BitAtWord(types[k].words, index, b);
    }
  }

  lemma UnionOverlaps(types: seq<Bitmap>, objects: nat, index: nat, union: Word, k: nat)
    requires k < |types| && index < |types[k].words| && UnionOf(types[..k], index, union)
    requires index < WordCount(objects) && And(union, types[k].words[index]) != 0
    ensures !Partition(types, objects)
  {
    hide Bit, And, BitAt;
    var w := types[k].words[index];
    var b := NonZeroHasBit(And(union, w));
    BitOfAnd(union, w, b);
    BitBelow64(union, b);
    BitAtWord(types[k].words, index, b);
    var p := 64 * index + b;
    assert types[..k + 1][..k] == types[..k];
    assert KindCount(types[..k + 1], p) == 2;
    KindCountGrows(types, k + 1, p);
  }

  ghost predicate PartitionTo(types: seq<Bitmap>, objects: nat, index: nat)
  {
    forall p: nat {:trigger KindCount(types, p)} ::
      p < 64 * index ==> KindCount(types, p) == (if p < objects then 1 else 0)
  }

  lemma ExpectedBits(objects: nat, index: nat, b: nat)
    requires index < WordCount(objects) && b < 64
    ensures Bit(Expected(objects, index), b) <==> 64 * index + b < objects
  {
    hide Bit;
    BitOfLow(64, b);
  }

  lemma PartitionStep(types: seq<Bitmap>, objects: nat, index: nat, union: Word)
    requires index < WordCount(objects) && UnionOf(types, index, union) && PartitionTo(types, objects, index)
    ensures union == Expected(objects, index) ==> PartitionTo(types, objects, index + 1)
    ensures union != Expected(objects, index) ==> !Partition(types, objects)
  {
    hide Bit, KindCount, Expected;
    if union == Expected(objects, index) {
      forall p: nat | p < 64 * (index + 1) ensures KindCount(types, p) == (if p < objects then 1 else 0) {
        if p >= 64 * index {
          ExpectedBits(objects, index, p - 64 * index);
          assert KindCount(types, 64 * index + (p - 64 * index)) == (if Bit(union, p - 64 * index) then 1 else 0);
        }
      }
    } else if Partition(types, objects) {
      forall b: nat ensures Bit(union, b) <==> Bit(Expected(objects, index), b) {
        if b < 64 {
          ExpectedBits(objects, index, b);
          assert KindCount(types, 64 * index + b) == (if 64 * index + b < objects then 1 else 0);
        } else {
          BitWithin(64, union, b);
          BitWithin(64, Expected(objects, index), b);
        }
      }
      Extensional(union, Expected(objects, index));
      assert false;
    }
  }

  method ValidateTypes(types: seq<Bitmap>, objects: nat) returns (ok: bool)
    requires forall k :: 0 <= k < |types| ==> |types[k].words| == WordCount(objects)
    ensures ok <==> Partition(types, objects)
  {
    hide *;
    var index := 0;
    assert PartitionTo(types, objects, 0) by { NothingPartitioned(types, objects); }
    while index < WordCount(objects)
      invariant PartitionTo(types, objects, index)
      invariant index <= WordCount(objects)
    {
      var union: Word := 0;
      var k := 0;
      NoKinds(types, index);
      while k < |types|
        invariant k <= |types| && UnionOf(types[..k], index, union)
      {
        var word := types[k].words[index];
        if And(union, word) != 0 {
          UnionOverlaps(types, objects, index, union, k);
          return false;
        }
        UnionStep(types, index, union, k);
        OrIsWord(union, word);
        union := OrWords(union, word);
        k := k + 1;
      }
      assert types[..k] == types;
      PartitionStep(types, objects, index, union);
      if union != Expected(objects, index) {
        return false;
      }
      index := index + 1;
    }
    PartitionEnds(types, objects);
    return true;
  }

  lemma OrIsWord(a: Word, b: Word)
    ensures OrWords(a, b) == Or(a, b)
  {
  }

  lemma NothingPartitioned(types: seq<Bitmap>, objects: nat)
    ensures PartitionTo(types, objects, 0)
  {
  }

  lemma PartitionEnds(types: seq<Bitmap>, objects: nat)
    requires PartitionTo(types, objects, WordCount(objects))
    ensures Partition(types, objects)
  {
  }

  lemma NoKinds(types: seq<Bitmap>, index: nat)
    ensures UnionOf(types[..0], index, 0)
  {
    forall b: nat ensures !Bit(0, b) { BitOfZero(b); }
  }

  // The kinds account for every object.

  function CountAll(types: seq<Bitmap>): nat
  {
    if types == [] then 0 else CountAll(types[..|types| - 1]) + Count(types[|types| - 1].words)
  }

  /** How many bits of word `index` are set over all the bitmaps. */
  ghost function OnesAt(types: seq<Bitmap>, index: nat): nat
    requires forall k :: 0 <= k < |types| ==> index < |types[k].words|
  {
    if types == [] then 0 else OnesAt(types[..|types| - 1], index) + Ones(types[|types| - 1].words[index])
  }

  ghost predicate AtMostOne(types: seq<Bitmap>, index: nat, b: nat)
  {
    KindCount(types, 64 * index + b) <= 1
  }

  /** With no position in two bitmaps, the words add up to their union. */
  lemma {:induction false} OnesAtUnion(types: seq<Bitmap>, index: nat) returns (union: Word)
    requires forall k :: 0 <= k < |types| ==> index < |types[k].words|
    requires forall b: nat :: b < 64 ==> AtMostOne(types, index, b)
    ensures OnesAt(types, index) == Ones(union) && UnionOf(types, index, union)
    decreases |types|
  {
    hide Bit, And, Or, BitAt, Ones, OrWords;
    if types == [] {
      NoKinds(types, index);
      assert types[..0] == types;
      NoOnes();
      return 0;
    }
    var n := |types| - 1;
    var others, w := types[..n], types[n].words[index];
    forall b: nat | b < 64 ensures AtMostOne(others, index, b) {
      assert AtMostOne(types, index, b);
      KindCountGrows(types, n, 64 * index + b);
    }
    var before := OnesAtUnion(others, index);
    if And(before, w) != 0 {
      var b := NonZeroHasBit(And(before, w));
      BitOfAnd(before, w, b);
      BitBelow64(before, b);
      assert AtMostOne(types, index, b);
      BitAtWord(types[n].words, index, b);
      assert false;
    }
    OnesOfDisjoint(before, w);
    assert types[..n + 1] == types;
    UnionStep(types, index, before, n);
    OrIsWord(before, w);
    union := OrWords(before, w);
  }

  lemma NoOnes()
    ensures Ones(0) == 0
  {
  }

  lemma {:induction false} CountAllSplits(types: seq<Bitmap>, n: nat)
    requires forall k :: 0 <= k < |types| ==> n < |types[k].words|
    ensures CountAll(Truncated(types, n + 1)) == CountAll(Truncated(types, n)) + OnesAt(types, n)
    decreases |types|
  {
    hide Ones;
    if types != [] {
      var m := |types| - 1;
      CountAllSplits(types[..m], n);
      assert Truncated(types, n + 1)[..m] == Truncated(types[..m], n + 1);
      assert Truncated(types, n)[..m] == Truncated(types[..m], n);
      assert types[m].words[..n + 1][..n] == types[m].words[..n];
    }
  }

  ghost function Truncated(types: seq<Bitmap>, n: nat): seq<Bitmap>
    requires forall k :: 0 <= k < |types| ==> n <= |types[k].words|
  {
    seq(|types|, k requires 0 <= k < |types| => types[k].(words := types[k].words[..n]))
  }

  lemma OnesOfExpected(objects: nat, index: nat)
    requires index < WordCount(objects)
    ensures Ones(Expected(objects, index)) == (if 64 * (index + 1) <= objects then 64 else objects - 64 * index)
  {
    hide Ones;
    OnesOfLow(64);
    OnesOfLow(objects % 64);
  }

  lemma {:induction false} CountsTo(types: seq<Bitmap>, objects: nat, n: nat)
    requires Partition(types, objects) && n <= WordCount(objects)
    requires forall k :: 0 <= k < |types| ==> |types[k].words| == WordCount(objects)
    ensures CountAll(Truncated(types, n)) == (if 64 * n <= objects then 64 * n else objects)
    decreases n
  {
    hide Ones, Count, KindCount, Bit, OnesAt;
    if n == 0 {
      NothingCounted(types);
    } else {
      var index := n - 1;
      CountsTo(types, objects, index);
      CountAllSplits(types, index);
      forall b: nat | b < 64 ensures AtMostOne(types, index, b) {
        assert 64 * index + b < 64 * WordCount(objects);
      }
      var union := OnesAtUnion(types, index);
      assert PartitionTo(types, objects, index);
      PartitionStep(types, objects, index, union);
      OnesOfExpected(objects, index);
    }
  }

  lemma {:induction false} NothingCounted(types: seq<Bitmap>)
    ensures CountAll(Truncated(types, 0)) == 0
    decreases |types|
  {
    if types != [] {
      NothingCounted(types[..|types| - 1]);
      assert Truncated(types, 0)[..|types| - 1] == Truncated(types[..|types| - 1], 0);
    }
  }

  /** The kinds' counts add up to the number of objects. */
  lemma PartitionCounts(types: seq<Bitmap>, objects: nat)
    requires Partition(types, objects)
    requires forall k :: 0 <= k < |types| ==> |types[k].words| == WordCount(objects)
    ensures CountAll(types) == objects
  {
    hide CountAll, Partition;
    CountsTo(types, objects, WordCount(objects));
    forall k | 0 <= k < |types| ensures Truncated(types, WordCount(objects))[k] == types[k] {
      assert types[k].words[..WordCount(objects)] == types[k].words;
    }
    assert Truncated(types, WordCount(objects)) == types;
  }

  /** Each bitmap of a partition stays within the objects. */
  lemma PartitionIsValid(types: seq<Bitmap>, objects: nat, k: nat)
    requires Partition(types, objects) && k < |types|
    requires types[k].objects == objects && |types[k].words| == WordCount(objects)
    ensures types[k].Valid()
  {
    hide BitAt;
    forall p: nat | BitAt(types[k].words, p) ensures p < objects {
      BitAtBelow(types[k].words, p);
      KindCountGrows(types, k + 1, p);
      assert types[..k + 1][..k] == types[..k];
      assert KindCount(types[..k + 1], p) >= 1;
    }
  }
}
