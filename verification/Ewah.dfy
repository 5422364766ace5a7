/**
Run-length compressed bitmaps. A header word counts repeated words and the literal words behind
it; framing is checked without expanding, and decoding XORs the expansion into a buffer.
*/
module Ewah {

  import opened Bitmaps
  import opened Options
  import opened Words

  function Run(header: Word): nat
  {
    header / 2 % 0x1_0000_0000
  }

  function Literals(header: Word): nat
  {
    header / 0x2_0000_0000
  }

  function Fill(header: Word): Word
  {
    if header % 2 == 1 then ALL else 0
  }

  function Next(data: seq<Word>, at: nat): nat
    requires at < |data|
  {
    at + 1 + Literals(data[at])
  }

  /** From a header at `at` on, every header's literal words are there. */
  predicate Framed(data: seq<Word>, at: nat)
    requires at <= |data|
    decreases |data| - at
  {
    at == |data| || (Next(data, at) <= |data| && Framed(data, Next(data, at)))
  }

  function Repeat(w: Word, n: nat): (r: seq<Word>)
    ensures |r| == n && forall i :: 0 <= i < n ==> r[i] == w
  {
    seq(n, _ => w)
  }

  /** What one header stands for: its run, then its literals. */
  function Block(data: seq<Word>, at: nat): seq<Word>
    requires at < |data| && Next(data, at) <= |data|
  {
    Repeat(Fill(data[at]), Run(data[at])) + data[at + 1..Next(data, at)]
  }

  function Expand(data: seq<Word>, at: nat): seq<Word>
    requires at <= |data| && Framed(data, at)
    decreases |data| - at
  {
    if at == |data| then [] else Block(data, at) + Expand(data, Next(data, at))
  }

  function LastHeader(data: seq<Word>, at: nat): nat
    requires at < |data| && Framed(data, at)
    decreases |data| - at
  {
    if Next(data, at) == |data| then at else LastHeader(data, Next(data, at))
  }

  /** What parsing promises: an exact expansion with no bit past its length or the objects. */
  ghost predicate Accepted(bits: nat, data: seq<Word>, current: nat, objects: nat)
  {
    && data != []
    && WordCount(bits) <= WordCount(objects)
    && Framed(data, 0)
    && |Expand(data, 0)| == WordCount(bits)
    && current == LastHeader(data, 0)
    && (forall p: nat :: BitAt(Expand(data, 0), p) ==> p < bits && p < objects)
  }

  // Scanning the headers.

  /** `at` is a header's position; `done` is what the headers before it expand to. */
  ghost predicate Scanned(data: seq<Word>, at: nat, done: seq<Word>, lastHeader: nat)
  {
    && at <= |data|
    && (Framed(data, 0) <==> Framed(data, at))
    && (Framed(data, 0) ==>
          && Expand(data, 0) == done + Expand(data, at)
          && (at > 0 ==> LastHeader(data, 0) == (if at == |data| then lastHeader else LastHeader(data, at))))
  }

  lemma ScanStarts(data: seq<Word>)
    ensures Scanned(data, 0, [], 0)
  {
    if Framed(data, 0) { assert [] + Expand(data, 0) == Expand(data, 0); }
  }

  lemma ScanSteps(data: seq<Word>, at: nat, done: seq<Word>, lastHeader: nat)
    requires Scanned(data, at, done, lastHeader) && at < |data|
    ensures Next(data, at) > |data| ==> !Framed(data, 0)
    ensures Next(data, at) <= |data| ==> Scanned(data, Next(data, at), done + Block(data, at), at)
  {
    hide Literals, Block;
    if Framed(data, 0) {
      var next := Next(data, at);
      assert done + (Block(data, at) + Expand(data, next)) == done + Block(data, at) + Expand(data, next);
    }
  }

  lemma ScanEnds(data: seq<Word>, done: seq<Word>, lastHeader: nat)
    requires Scanned(data, |data|, done, lastHeader) && data != []
    ensures Framed(data, 0) && Expand(data, 0) == done && LastHeader(data, 0) == lastHeader
  {
    assert done + [] == done;
  }

  lemma BlockIs(data: seq<Word>, at: nat)
    requires at < |data| && Next(data, at) <= |data|
    ensures |Block(data, at)| == Run(data[at]) + Literals(data[at])
    ensures Literals(data[at]) != 0 ==> Last(Block(data, at)) == Some(data[Next(data, at) - 1])
    ensures Literals(data[at]) == 0 && Run(data[at]) != 0 ==> Last(Block(data, at)) == Some(Fill(data[at]))
  {
    hide Literals, Run, Fill;
  }

  function Last(words: seq<Word>): Option<Word>
  {
    if words == [] then None else Some(words[|words| - 1])
  }

  /** Outgrowing the declared length cannot be undone by later headers. */
  lemma TooLong(bits: nat, data: seq<Word>, current: nat, objects: nat, at: nat, done: seq<Word>, lastHeader: nat)
    requires Scanned(data, at, done, lastHeader) && at < |data|
    requires |done| + Run(data[at]) + Literals(data[at]) > WordCount(bits)
    ensures !Accepted(bits, data, current, objects)
  {
    hide Literals, Run, Block, LastHeader, BitAt, Next;
    if Framed(data, 0) {
      ScanSteps(data, at, done, lastHeader);
      BlockIs(data, at);
    }
  }

  // The bits past the end can only be in the last word.

  lemma MaskedHigh(w: Word, bits: nat)
    ensures And(w, Complement(TailMask(bits))) != 0 <==> exists b: nat :: b < 64 && Bit(w, b) && bits % 64 != 0 && bits % 64 <= b
  {
    hide Bit, And, TailMask;
    var mask := Complement(TailMask(bits));
    forall b: nat ensures Bit(mask, b) <==> b < 64 && bits % 64 != 0 && bits % 64 <= b {
      BitOfComplement(64, TailMask(bits), b);
    }
    if And(w, mask) != 0 {
      var b := NonZeroHasBit(And(w, mask));
      BitOfAnd(w, mask, b);
      BitBelow64(w, b);
    }
    if b: nat :| b < 64 && Bit(w, b) && bits % 64 != 0 && bits % 64 <= b {
      BitOfAnd(w, mask, b);
      BitOfZero(b);
    }
  }

  lemma LastWordDecides(words: seq<Word>, bits: nat)
    requires words != [] && |words| == WordCount(bits)
    ensures And(words[|words| - 1], Complement(TailMask(bits))) == 0 <==> forall p: nat :: BitAt(words, p) ==> p < bits
  {
    hide Bit, And, TailMask;
    var last := |words| - 1;
    MaskedHigh(words[last], bits);
    if p: nat :| BitAt(words, p) && p >= bits {
      assert p / 64 == last && bits % 64 != 0 && bits % 64 <= p % 64;
    }
    if b: nat :| b < 64 && Bit(words[last], b) && bits % 64 != 0 && bits % 64 <= b {
      BitAtWord(words, last, b);
      assert BitAt(words, 64 * last + b) && 64 * last + b >= bits;
    }
  }

  lemma ShorterIsInside(words: seq<Word>, objects: nat, p: nat)
    requires |words| < WordCount(objects) && BitAt(words, p)
    ensures p < objects
  {
  }

  lemma NoWordsNoBits(words: seq<Word>, p: nat)
    requires BitAt(words, p)
    ensures words != []
  {
  }

  method Parse(bits: nat, data: seq<Word>, current: nat, objects: nat) returns (ok: bool)
    ensures ok <==> Accepted(bits, data, current, objects)
  {
    hide Framed, Expand, LastHeader, Literals, Run, Fill, And, Bit, BitAt, TailMask, Scanned, Block, WordCount;
    if WordCount(bits) > WordCount(objects) || data == [] {
      return false;
    }
    var position, expanded, lastHeader := 0, 0, 0;
    var lastWord: Word := 0;
    ghost var done: seq<Word> := [];
    ScanStarts(data);
    while position < |data|
      invariant position <= |data| && Scanned(data, position, done, lastHeader)
      invariant |done| == expanded <= WordCount(bits)
      invariant done != [] ==> Last(done) == Some(lastWord)
    {
      var header := data[position];
      var run, literals := Run(header), Literals(header);
      ghost var previous := lastHeader;
      ScanSteps(data, position, done, previous);
      lastHeader := position;
      if expanded + run + literals > WordCount(bits) {
        TooLong(bits, data, current, objects, position, done, previous);
        return false;
      }
      if run != 0 {
        lastWord := Fill(header);
      }
      if position + 1 + literals > |data| {
        return false;
      }
      BlockIs(data, position);
      done := done + Block(data, position);
      position := position + 1 + literals;
      if literals != 0 {
        lastWord := data[position - 1];
      }
      expanded := expanded + run + literals;
    }
    ScanEnds(data, done, lastHeader);
    if expanded != WordCount(bits) || current != lastHeader {
      return false;
    }
    ok := CheckTail(bits, objects, lastWord, done);
  }

  /** The two last-word checks decide the bits of the whole expansion. */
  method CheckTail(bits: nat, objects: nat, lastWord: Word, ghost words: seq<Word>) returns (ok: bool)
    requires |words| == WordCount(bits) <= WordCount(objects)
    requires words != [] ==> Last(words) == Some(lastWord)
    ensures ok <==> forall p: nat :: BitAt(words, p) ==> p < bits && p < objects
  {
    hide And, Bit, BitAt, TailMask, WordCount;
    if WordCount(bits) == 0 {
      forall p: nat | BitAt(words, p) ensures false { NoWordsNoBits(words, p); }
      return true;
    }
    LastWordDecides(words, bits);
    if And(lastWord, Complement(TailMask(bits))) != 0 {
      return false;
    }
    if WordCount(bits) == WordCount(objects) {
      LastWordDecides(words, objects);
      return And(lastWord, Complement(TailMask(objects))) == 0;
    }
    forall p: nat | BitAt(words, p) ensures p < objects { ShorterIsInside(words, objects, p); }
    return true;
  }

  // Decoding.

  /** `words` XORed into `a` from `at` on. */
  function XorAt(a: seq<Word>, at: nat, words: seq<Word>): (r: seq<Word>)
    requires at + |words| <= |a|
    ensures |r| == |a|
    ensures forall i :: 0 <= i < |a| ==>
      r[i] == if at <= i < at + |words| then XorWords(a[i], words[i - at]) else a[i]
  {
    seq(|a|, i requires 0 <= i < |a| => if at <= i < at + |words| then XorWords(a[i], words[i - at]) else a[i])
  }

  lemma XorAtTwice(a: seq<Word>, at: nat, first: seq<Word>, second: seq<Word>)
    requires at + |first| + |second| <= |a|
    ensures XorAt(XorAt(a, at, first), at + |first|, second) == XorAt(a, at, first + second)
  {
    hide XorWords;
  }

  lemma {:induction false} XorZero(w: nat)
    ensures Xor(w, 0) == w
  {
    if w != 0 { XorZero(w / 2); }
  }

  lemma XorNothing(a: seq<Word>, at: nat, n: nat)
    requires at + n <= |a|
    ensures XorAt(a, at, Repeat(0, n)) == a
  {
    forall i | 0 <= i < |a| ensures XorAt(a, at, Repeat(0, n))[i] == a[i] { XorZero(a[i]); }
  }

  /** Flips a run of words if the header repeats ones. */
  method XorRun(output: array<Word>, out: nat, header: Word)
    requires out + Run(header) <= output.Length
    modifies output
    ensures output[..] == XorAt(old(output[..]), out, Repeat(Fill(header), Run(header)))
  {
    hide Run, XorWords, Repeat;
    ghost var was := output[..];
    var end := out + Run(header);
    if header % 2 == 1 {
      var i := out;
      while i < end
        invariant out <= i <= end
        invariant forall j :: 0 <= j < output.Length ==>
          output[j] == if out <= j < i then XorWords(was[j], ALL) else was[j]
      {
        output[i] := XorWords(output[i], ALL);
        i := i + 1;
      }
    } else {
      XorNothing(was, out, Run(header));
    }
    assert output[..] == XorAt(was, out, Repeat(Fill(header), Run(header)));
  }

  method XorLiterals(output: array<Word>, out: nat, data: seq<Word>, position: nat, literals: nat)
    requires out + literals <= output.Length && position + literals <= |data|
    modifies output
    ensures output[..] == XorAt(old(output[..]), out, data[position..position + literals])
  {
    hide XorWords;
    ghost var was := output[..];
    var i := 0;
    while i < literals
      invariant i <= literals
      invariant forall j :: 0 <= j < output.Length ==>
        output[j] == if out <= j < out + i then XorWords(was[j], data[position + j - out]) else was[j]
    {
      output[out + i] := XorWords(output[out + i], data[position + i]);
      i := i + 1;
    }
    assert output[..] == XorAt(was, out, data[position..position + literals]);
  }

  /** One header's run and literals. */
  method XorBlock(output: array<Word>, out: nat, data: seq<Word>, position: nat)
    requires position < |data| && Next(data, position) <= |data|
    requires out + |Block(data, position)| <= output.Length
    modifies output
    ensures output[..] == XorAt(old(output[..]), out, Block(data, position))
  {
    hide Literals, Run, Fill, XorAt;
    ghost var was := output[..];
    var header := data[position];
    XorRun(output, out, header);
    XorLiterals(output, out + Run(header), data, position + 1, Literals(header));
    XorAtTwice(was, out, Repeat(Fill(header), Run(header)), data[position + 1..Next(data, position)]);
  }

  ghost predicate Decoding(data: seq<Word>, at: nat, done: seq<Word>)
  {
    && at <= |data|
    && Framed(data, 0)
    && Framed(data, at)
    && Expand(data, 0) == done + Expand(data, at)
  }

  lemma DecodingSteps(data: seq<Word>, at: nat, done: seq<Word>)
    requires Decoding(data, at, done) && at < |data|
    ensures Next(data, at) <= |data| && Decoding(data, Next(data, at), done + Block(data, at))
    ensures |done| + |Block(data, at)| <= |Expand(data, 0)|
    ensures |Block(data, at)| == Run(data[at]) + Literals(data[at])
    ensures Block(data, at) == Repeat(Fill(data[at]), Run(data[at])) + data[at + 1..Next(data, at)]
  {
    hide Literals, Run, Fill, Expand, Framed, Repeat;
    ExpandStep(data, at);
    BlockIs(data, at);
    var next, block := Next(data, at), Block(data, at);
    assert done + (block + Expand(data, next)) == done + block + Expand(data, next);
  }

  lemma ExpandStep(data: seq<Word>, at: nat)
    requires at < |data| && Framed(data, at)
    ensures Next(data, at) <= |data| && Framed(data, Next(data, at))
    ensures Expand(data, at) == Block(data, at) + Expand(data, Next(data, at))
  {
  }

  /** XORs the expansion into the buffer, or runs out of budget; no other outcome is possible. */
  method XorInto(data: seq<Word>, output: array<Word>, budget: nat) returns (r: Option<nat>)
    requires Framed(data, 0) && |Expand(data, 0)| <= output.Length
    modifies output
    ensures r.Some? <==> |Expand(data, 0)| <= budget
    ensures r.Some? ==>
      && r.value == budget - |Expand(data, 0)|
      && output[..] == XorAt(old(output[..]), 0, Expand(data, 0))
  {
    hide Framed, Expand, Literals, Run, Fill, Block, Decoding, XorAt;
    ghost var was := output[..];
    ghost var done: seq<Word> := [];
    var position: nat, out: nat, left: nat := 0, 0, budget;
    DecodingStarts(data, was);
    while position < |data|
      invariant position <= |data| && Decoding(data, position, done)
      invariant |done| == out <= |Expand(data, 0)| && left + out == budget
      invariant output[..] == XorAt(was, 0, done)
    {
      var header := data[position];
      var run, literals := Run(header), Literals(header);
      DecodingSteps(data, position, done);
      if run + literals > left {
        return None;
      }
      left := left - (run + literals);
      XorBlock(output, out, data, position);
      XorAtTwice(was, 0, done, Block(data, position));
      done := done + Block(data, position);
      out := out + run + literals;
      position := position + 1 + literals;
    }
    DecodingEnds(data, done);
    r := Some(left);
  }

  lemma DecodingStarts(data: seq<Word>, was: seq<Word>)
    requires Framed(data, 0)
    ensures Decoding(data, 0, []) && XorAt(was, 0, []) == was
  {
    assert [] + Expand(data, 0) == Expand(data, 0);
  }

  lemma DecodingEnds(data: seq<Word>, done: seq<Word>)
    requires Decoding(data, |data|, done)
    ensures Expand(data, 0) == done
  {
    assert done + [] == done;
  }
}
