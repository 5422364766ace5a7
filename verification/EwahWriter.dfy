/** Writing run-length compressed bitmaps: the inverse of expanding them. */
module EwahWriter {

  import opened Bitmaps
  import opened Ewah
  import opened Words

  const MAX_RUN: nat := 0xFFFF_FFFF
  const MAX_LITERALS: nat := 0x7FFF_FFFF

  // Headers.

  /** A header is its lowest bit, 32 bits of run length and 31 bits of literal count. */
  lemma HeaderFields(header: Word)
    ensures header == header % 2 + 2 * Run(header) + 0x2_0000_0000 * Literals(header)
    ensures Run(header) <= MAX_RUN && Literals(header) <= MAX_LITERALS
    ensures Fill(header) == if header % 2 == 1 then 0xFFFF_FFFF_FFFF_FFFF else 0
  {
    WordRange();
  }

  function Header(fill: bool, run: nat, literals: nat): Word
    requires run <= MAX_RUN && literals <= MAX_LITERALS
  {
    WordRange();
    (if fill then 1 else 0) + 2 * run + 0x2_0000_0000 * literals
  }

  /** Every combination of the fields has a header, and the fields are read back off it. */
  lemma HeaderIsRead(fill: bool, run: nat, literals: nat)
    requires run <= MAX_RUN && literals <= MAX_LITERALS
    ensures var header := Header(fill, run, literals);
      Run(header) == run && Literals(header) == literals && Fill(header) == if fill then ALL else 0
  {
    var header, rest := Header(fill, run, literals), run + 0x1_0000_0000 * literals;
    assert header / 2 == rest;
    assert rest % 0x1_0000_0000 == run;
  }

  // Segments.

  datatype Segment = Segment(fill: bool, run: nat, literals: seq<Word>) {

    predicate Valid()
    {
      run <= MAX_RUN && |literals| <= MAX_LITERALS
    }

    /** The words it stands for. */
    function Contents(): seq<Word>
    {
      Repeat(if fill then ALL else 0, run) + literals
    }
  }

  ghost predicate AllValid(segments: seq<Segment>)
  {
    forall i :: 0 <= i < |segments| ==> segments[i].Valid()
  }

  function Contents(segments: seq<Segment>): seq<Word>
  {
    if segments == [] then [] else segments[0].Contents() + Contents(segments[1..])
  }

  lemma NoContents()
    ensures Contents([]) == []
  {
  }

  lemma ContentsFirst(s: Segment, rest: seq<Segment>)
    ensures Contents([s] + rest) == s.Contents() + Contents(rest)
  {
    assert ([s] + rest)[1..] == rest;
  }

  function Pack(segments: seq<Segment>): seq<Word>
    requires AllValid(segments)
  {
    if segments == [] then []
    else
      var s := segments[0];
      [Header(s.fill, s.run, |s.literals|)] + s.literals + Pack(segments[1..])
  }

  /** Behind whatever comes before them, packed segments expand to their contents. */
  lemma {:induction false} PackedExpands(front: seq<Word>, segments: seq<Segment>)
    requires AllValid(segments)
    ensures Framed(front + Pack(segments), |front|)
    ensures Expand(front + Pack(segments), |front|) == Contents(segments)
    decreases |segments|
  {
    hide Header, Run, Literals, Fill, Framed, Expand;
    var data := front + Pack(segments);
    if segments == [] {
      assert data == front;
      ExpandEnd(data);
    } else {
      var s, at := segments[0], |front|;
      var header := Header(s.fill, s.run, |s.literals|);
      var next := front + [header] + s.literals;
      HeaderIsRead(s.fill, s.run, |s.literals|);
      PackedExpands(next, segments[1..]);
      assert data == next + Pack(segments[1..]);
      assert data[at] == header && Next(data, at) == |next|;
      assert data[at + 1..|next|] == s.literals;
      assert Block(data, at) == s.Contents();
      ExpandHere(data, at);
    }
  }

  lemma ExpandEnd(data: seq<Word>)
    ensures Framed(data, |data|) && Expand(data, |data|) == []
  {
  }

  lemma ExpandHere(data: seq<Word>, at: nat)
    requires at < |data| && Next(data, at) <= |data| && Framed(data, Next(data, at))
    ensures Framed(data, at) && Expand(data, at) == Block(data, at) + Expand(data, Next(data, at))
  {
    hide Literals, Block;
  }

  // Compression.

  /** How many words at the front are `w`, up to a limit. */
  function RunLength(words: seq<Word>, w: Word, limit: nat): (n: nat)
    ensures n <= limit && n <= |words| && words[..n] == Repeat(w, n)
    ensures 0 < limit && words != [] && words[0] == w ==> 0 < n
    decreases limit
  {
    if limit == 0 || words == [] || words[0] != w then 0
    else
      var n := 1 + RunLength(words[1..], w, limit - 1);
      assert words[..n] == [w] + words[1..][..n - 1];
      assert Repeat(w, n) == [w] + Repeat(w, n - 1);
      n
  }

  predicate Uniform(w: Word)
  {
    w == 0 || w == ALL
  }

  /** How many words at the front are neither all zeros nor all ones, up to a limit. */
  function LiteralLength(words: seq<Word>, limit: nat): (n: nat)
    ensures n <= limit && n <= |words|
    ensures 0 < limit && words != [] && !Uniform(words[0]) ==> 0 < n
    decreases limit
  {
    if limit == 0 || words == [] || Uniform(words[0]) then 0 else 1 + LiteralLength(words[1..], limit - 1)
  }

  lemma SegmentHolds(words: seq<Word>, fill: bool, run: nat, n: nat)
    requires run <= n <= |words| && words[..run] == Repeat(if fill then ALL else 0, run)
    ensures Segment(fill, run, words[run..n]).Contents() == words[..n]
  {
    hide Repeat;
    assert words[..n] == words[..run] + words[run..n];
  }

  /** The longest run at the front, and the literals behind it, that fit a header. */
  function FirstSegment(words: seq<Word>, maxRun: nat, maxLiterals: nat): (s: Segment)
    requires words != [] && 0 < maxRun <= MAX_RUN && 0 < maxLiterals <= MAX_LITERALS
    ensures s.Valid() && 0 < s.run + |s.literals| <= |words| && s.Contents() == words[..s.run + |s.literals|]
  {
    var fill := words[0] == ALL;
    var run := RunLength(words, if fill then ALL else 0, maxRun);
    var literals := LiteralLength(words[run..], maxLiterals);
    SegmentHolds(words, fill, run, run + literals);
    Segment(fill, run, words[run..run + literals])
  }

  /** Cuts words into segments. */
  function Segments(words: seq<Word>): (segments: seq<Segment>)
    ensures AllValid(segments)
    decreases |words|
  {
    if words == [] then []
    else
      var s := FirstSegment(words, MAX_RUN, MAX_LITERALS);
      [s] + Segments(words[s.run + |s.literals|..])
  }

  lemma {:induction false} SegmentsHold(words: seq<Word>)
    ensures Contents(Segments(words)) == words
    decreases |words|
  {
    hide FirstSegment, Contents, Segment.Contents;
    if words == [] {
      NoContents();
    } else {
      var s := FirstSegment(words, MAX_RUN, MAX_LITERALS);
      var n := s.run + |s.literals|;
      SegmentsHold(words[n..]);
      ContentsFirst(s, Segments(words[n..]));
      assert words == words[..n] + words[n..];
    }
  }

  function Compress(words: seq<Word>): seq<Word>
  {
    if words == [] then [0] else Pack(Segments(words))
  }

  /** Every word sequence is what its compressed form expands to. */
  lemma ExpandOfCompress(words: seq<Word>)
    ensures Compress(words) != [] && Framed(Compress(words), 0) && Expand(Compress(words), 0) == words
  {
    hide Segments, Expand, Framed;
    if words == [] {
      EmptyExpands();
    } else {
      PackedExpands([], Segments(words));
      SegmentsHold(words);
      assert [] + Pack(Segments(words)) == Pack(Segments(words));
    }
  }

  lemma EmptyExpands()
    ensures Framed([0], 0) && Expand([0], 0) == []
  {
    assert Next([0], 0) == 1;
    assert Block([0], 0) == [];
  }

  /** A bitmap without stray bits, once compressed, is accepted. */
  lemma CompressedIsAccepted(words: seq<Word>, bits: nat, objects: nat)
    requires |words| == WordCount(bits) <= WordCount(objects)
    requires forall p: nat :: BitAt(words, p) ==> p < bits && p < objects
    ensures Compress(words) != [] && Framed(Compress(words), 0)
    ensures Accepted(bits, Compress(words), LastHeader(Compress(words), 0), objects)
  {
    hide Compress, Expand, Framed, BitAt, LastHeader;
    ExpandOfCompress(words);
  }
}
