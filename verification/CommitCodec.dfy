/**
Commit payloads: construction from fields, parsing, and the conversion back to fields. Header
values may span lines, and the first blank line ends the headers, so folding has to keep every
header line nonempty.
*/
module CommitCodec {

  import opened Bytes
  import opened ByteStrings
  import opened CommitRecords
  import opened Identity
  import opened Objects
  import opened Options

  // "author " and "committer ".
  const AUTHOR: Bytes := [97, 117, 116, 104, 111, 114, 32]
  const COMMITTER: Bytes := [99, 111, 109, 109, 105, 116, 116, 101, 114, 32]

  datatype CommitHeader = CommitHeader(name: Bytes, value: Bytes) {

    predicate Valid()
    {
      && name != []
      && (forall i :: 0 <= i < |name| ==> 33 <= name[i] <= 126)
      && !Reserved(name)
      && 0 !in value
      && CR !in value
    }
  }

  predicate Reserved(name: Bytes)
  {
    name + [SPACE] in {TREE, PARENT, AUTHOR, COMMITTER}
  }

  datatype CommitFields = CommitFields(
    tree: ObjectId,
    parents: seq<ObjectId>,
    author: Signature,
    committer: Signature,
    extra: seq<CommitHeader>,
    message: Bytes
  ) {

    /** Identities have the digest width of their format, as their types guarantee. */
    ghost predicate WellTyped()
    {
      tree.Valid() && forall i :: 0 <= i < |parents| ==> parents[i].Valid()
    }

    ghost predicate Valid()
    {
      && WellTyped()
      && (forall i :: 0 <= i < |parents| ==> parents[i].format == tree.format)
      && author.Valid()
      && committer.Valid()
      && (forall i :: 0 <= i < |extra| ==> extra[i].Valid())
    }
  }

  datatype Commit = Commit(tree: ObjectId, parents: seq<ObjectId>, headerEnd: nat, payload: Bytes) {

    function HeaderBytes(): Bytes
    {
      if headerEnd <= |payload| then payload[..headerEnd] else []
    }

    function Message(): Bytes
    {
      if headerEnd + 2 <= |payload| then payload[headerEnd + 2..] else []
    }

    function Lines(): seq<Bytes>
    {
      Split(HeaderBytes(), LF)
    }
  }

  // The end of the headers.

  predicate BlankAt(payload: Bytes, i: int)
  {
    0 <= i < |payload| - 1 && payload[i] == LF && payload[i + 1] == LF
  }

  ghost predicate IsHeaderEnd(payload: Bytes, end: nat)
  {
    && end <= |payload|
    && (end < |payload| ==> BlankAt(payload, end))
    && forall i :: 0 <= i < end ==> !BlankAt(payload, i)
  }

  method HeaderEnd(payload: Bytes) returns (end: nat)
    ensures IsHeaderEnd(payload, end)
  {
    var start := 0;
    while true
      invariant start <= |payload|
      invariant forall i :: 0 <= i < start ==> !BlankAt(payload, i)
      decreases |payload| - start
    {
      var newline := IndexOf(payload[start..], LF);
      var at := start + newline;
      forall i | start <= i < at ensures payload[i] != LF {
        assert payload[i] == payload[start..][..newline][i - start];
      }
      if at == |payload| {
        return at;
      }
      if at + 1 < |payload| && payload[at + 1] == LF {
        return at;
      }
      start := at + 1;
    }
  }

  lemma HeaderEndIsUnique(payload: Bytes, a: nat, b: nat)
    requires IsHeaderEnd(payload, a) && IsHeaderEnd(payload, b)
    ensures a == b
  {
  }

  // What construction writes.

  function ParentLines(parents: seq<ObjectId>): seq<Bytes>
  {
    seq(|parents|, i requires 0 <= i < |parents| => PARENT + Hex(parents[i].digest))
  }

  function Indented(parts: seq<Bytes>): seq<Bytes>
  {
    seq(|parts|, i requires 0 <= i < |parts| => [SPACE] + parts[i])
  }

  function FoldedLines(name: Bytes, parts: seq<Bytes>): seq<Bytes>
    requires parts != []
  {
    [name + [SPACE] + parts[0]] + Indented(parts[1..])
  }

  function ExtraLines(extra: seq<CommitHeader>): seq<Bytes>
  {
    if extra == [] then []
    else FoldedLines(extra[0].name, Split(extra[0].value, LF)) + ExtraLines(extra[1..])
  }

  function HeaderLines(f: CommitFields): (lines: seq<Bytes>)
    ensures lines != []
  {
    [TREE + Hex(f.tree.digest)] + ParentLines(f.parents)
    + [AUTHOR + f.author.Record(), COMMITTER + f.committer.Record()] + ExtraLines(f.extra)
  }

  function Payload(f: CommitFields): Bytes
  {
    Terminated(HeaderLines(f)) + [LF] + f.message
  }

  /** The tree comes first, then the parents in order, the author, the committer and the other headers. */
  lemma LayoutIs(f: CommitFields)
    ensures var lines, n := HeaderLines(f), |f.parents|;
      && |lines| == 3 + n + |ExtraLines(f.extra)|
      && lines[0] == TREE + Hex(f.tree.digest)
      && (forall i :: 0 <= i < n ==> lines[1 + i] == PARENT + Hex(f.parents[i].digest))
      && lines[1 + n] == AUTHOR + f.author.Record() && lines[2 + n] == COMMITTER + f.committer.Record()
      && lines[3 + n..] == ExtraLines(f.extra)
    ensures Ascii(AUTHOR, "author ") && Ascii(COMMITTER, "committer ")
  {
    hide Hex, ExtraLines, Signature.Record;
  }

  /** Which headers may be added: a visible name other than the four keys, and no NUL or carriage return in the value. */
  lemma HeadersAre(h: CommitHeader)
    ensures h.Valid() <==>
      && h.name != [] && (forall x :: x in h.name ==> '!' as int <= x <= '~' as int)
      && !Ascii(h.name, "tree") && !Ascii(h.name, "parent") && !Ascii(h.name, "author") && !Ascii(h.name, "committer")
      && forall x :: x in h.value ==> x != 0 && x != '\r' as int
  {
    RecordsAreSpelled();
    assert forall i :: 0 <= i < |h.name| ==> h.name[i] in h.name;
    KeyIs(h.name, TREE, "tree");
    KeyIs(h.name, PARENT, "parent");
    KeyIs(h.name, AUTHOR, "author");
    KeyIs(h.name, COMMITTER, "committer");
  }

  lemma KeyIs(name: Bytes, key: Bytes, text: string)
    requires Ascii(key, text + " ")
    ensures name + [SPACE] == key <==> Ascii(name, text)
  {
    assert (text + " ")[|text|] == ' ';
    if Ascii(name, text) {
      assert forall i :: 0 <= i < |text| ==> (text + " ")[i] == text[i];
      assert name + [SPACE] == key;
    }
    if name + [SPACE] == key {
      assert |name| == |text|;
      forall i | 0 <= i < |name| ensures name[i] == text[i] as int {
        assert key[i] == (text + " ")[i] as int;
      }
    }
  }

  // Header lines are nonempty and stay on their lines.

  lemma FoldedIsFramed(h: CommitHeader)
    requires h.Valid()
    ensures Framed(FoldedLines(h.name, Split(h.value, LF)))
  {
    JoinOfSplit(h.value, LF);
    assert LF !in h.name;
  }

  lemma {:induction false} ExtraIsFramed(extra: seq<CommitHeader>)
    requires forall i :: 0 <= i < |extra| ==> extra[i].Valid()
    ensures Framed(ExtraLines(extra))
  {
    hide FoldedLines, CommitHeader.Valid;
    if extra != [] {
      FoldedIsFramed(extra[0]);
      ExtraIsFramed(extra[1..]);
    }
  }

  lemma HeaderIsFramed(f: CommitFields)
    requires f.Valid()
    ensures Framed(HeaderLines(f))
  {
    hide Hex, Signature.Record, Signature.Valid, ExtraLines, CommitHeader.Valid;
    HexIsPlain(f.tree.digest, LF);
    forall i | 0 <= i < |f.parents| ensures LF !in ParentLines(f.parents)[i] {
      HexIsPlain(f.parents[i].digest, LF);
    }
    RecordHasNoLineFeed(f.author);
    RecordHasNoLineFeed(f.committer);
    ExtraIsFramed(f.extra);
  }

  /** The blank line after framed lines is the first one. */
  lemma {:induction false} FramedLinesEnd(lines: seq<Bytes>, message: Bytes)
    requires lines != [] && Framed(lines)
    ensures IsHeaderEnd(Join(lines, LF) + [LF, LF] + message, |Join(lines, LF)|)
  {
    var head := Join(lines, LF);
    var payload := head + [LF, LF] + message;
    if |lines| > 1 {
      var rest := Join(lines[1..], LF);
      FramedLinesEnd(lines[1..], message);
      var shift := |lines[0]| + 1;
      var tail := rest + [LF, LF] + message;
      assert payload == lines[0] + [LF] + tail;
      JoinStartsWith(lines[1..]);
      forall i | 0 <= i < |head| ensures !BlankAt(payload, i) {
        if i >= shift {
          assert !BlankAt(tail, i - shift);
        }
      }
    }
  }

  lemma JoinStartsWith(lines: seq<Bytes>)
    requires lines != [] && Framed(lines)
    ensures Join(lines, LF) != [] && Join(lines, LF)[0] == lines[0][0] != LF
  {
    assert lines[0][0] in lines[0];
  }

  /** A constructed payload splits into exactly the header lines and the message. */
  lemma PayloadSplits(f: CommitFields, c: Commit)
    requires f.Valid() && c.payload == Payload(f) && IsHeaderEnd(c.payload, c.headerEnd)
    ensures c.Lines() == HeaderLines(f) && c.Message() == f.message
  {
    hide HeaderLines, CommitFields.Valid, IsHeaderEnd, Split, Terminated;
    var lines := HeaderLines(f);
    var head := Join(lines, LF);
    HeaderIsFramed(f);
    TerminatedJoin(lines);
    FramedLinesEnd(lines, f.message);
    assert Payload(f) == head + [LF, LF] + f.message;
    HeaderEndIsUnique(c.payload, c.headerEnd, |head|);
    assert c.HeaderBytes() == head;
    SplitOfJoin(lines, LF);
  }

  // People.

  /** What follows `prefix` on the last line that starts with it. */
  function LastWith(lines: seq<Bytes>, prefix: Bytes): Option<Bytes>
  {
    if lines == [] then None
    else
      var value := StripPrefix(lines[|lines| - 1], prefix);
      if value.Some? then value else LastWith(lines[..|lines| - 1], prefix)
  }

  function Person(c: Commit, prefix: Bytes): Result<Option<IdentityRef>, CommitError>
  {
    match LastWith(c.Lines(), prefix)
    case None => Ok(None)
    case Some(record) =>
      match ParseIdentity(record)
      case Err(e) => Err(e)
      case Ok(identity) => Ok(Some(identity))
  }

  ghost predicate NoneWith(lines: seq<Bytes>, prefix: Bytes)
  {
    forall i :: 0 <= i < |lines| ==> !StartsWith(lines[i], prefix)
  }

  lemma {:induction false} LastWithIs(before: seq<Bytes>, prefix: Bytes, record: Bytes, after: seq<Bytes>)
    requires NoneWith(after, prefix)
    ensures LastWith(before + [prefix + record] + after, prefix) == Some(record)
    decreases |after|
  {
    var lines := before + [prefix + record] + after;
    if after == [] {
      StripPrefixConcat(prefix, record);
      assert lines[|lines| - 1] == prefix + record;
    } else {
      var rest := after[..|after| - 1];
      assert lines[|lines| - 1] == after[|after| - 1];
      assert lines[..|lines| - 1] == before + [prefix + record] + rest;
      LastWithIs(before, prefix, record, rest);
    }
  }

  /** A line starts with a key and its space only if the line's own key is that key. */
  lemma KeyDecides(name: Bytes, value: Bytes, key: Bytes)
    requires SPACE !in name && key != [] && key[|key| - 1] == SPACE && SPACE !in key[..|key| - 1]
    ensures StartsWith(name + [SPACE] + value, key) <==> name + [SPACE] == key
  {
    hide IndexOf;
    var line := name + [SPACE] + value;
    IndexOfConcat(name, SPACE, value);
    if StartsWith(line, key) {
      IndexOfConcat(key[..|key| - 1], SPACE, line[|key|..]);
      assert line == key[..|key| - 1] + [SPACE] + line[|key|..];
      assert line[..|key|] == name + [SPACE];
    } else {
      assert line[..|name| + 1] == name + [SPACE];
    }
  }

  lemma FoldedHasNone(h: CommitHeader, key: Bytes)
    requires h.Valid() && key in {AUTHOR, COMMITTER}
    ensures NoneWith(FoldedLines(h.name, Split(h.value, LF)), key)
  {
    hide Split;
    var lines := FoldedLines(h.name, Split(h.value, LF));
    assert SPACE !in h.name;
    KeyDecides(h.name, Split(h.value, LF)[0], key);
    forall i | 0 < i < |lines| ensures !StartsWith(lines[i], key) {
      assert lines[i][0] != key[0];
    }
  }

  lemma {:induction false} ExtraHasNone(extra: seq<CommitHeader>, key: Bytes)
    requires key in {AUTHOR, COMMITTER} && forall i :: 0 <= i < |extra| ==> extra[i].Valid()
    ensures NoneWith(ExtraLines(extra), key)
  {
    hide FoldedLines, CommitHeader.Valid;
    if extra != [] {
      FoldedHasNone(extra[0], key);
      ExtraHasNone(extra[1..], key);
    }
  }

  /** Each role reads back the record written for it, never the other role's or an extra header. */
  lemma PeopleAreFound(f: CommitFields)
    requires f.Valid()
    ensures LastWith(HeaderLines(f), AUTHOR) == Some(f.author.Record())
    ensures LastWith(HeaderLines(f), COMMITTER) == Some(f.committer.Record())
  {
    hide Hex, Signature.Record, Signature.Valid, ExtraLines, CommitHeader.Valid, LastWith;
    var first := [TREE + Hex(f.tree.digest)] + ParentLines(f.parents);
    var author, committer := AUTHOR + f.author.Record(), COMMITTER + f.committer.Record();
    var extra := ExtraLines(f.extra);
    ExtraHasNone(f.extra, AUTHOR);
    ExtraHasNone(f.extra, COMMITTER);
    assert !StartsWith(committer, AUTHOR) by { assert committer[0] != AUTHOR[0]; }
    LastWithIs(first, AUTHOR, f.author.Record(), [committer] + extra);
    LastWithIs(first + [author], COMMITTER, f.committer.Record(), extra);
    assert HeaderLines(f) == first + [author] + ([committer] + extra);
    assert HeaderLines(f) == first + [author] + [committer] + extra;
  }

  // Extra headers.

  datatype Scan = Scan(headers: seq<CommitHeader>, continuing: bool)

  function ScanLine(s: Scan, line: Bytes): Result<Scan, CommitError>
  {
    if line == [] then Ok(s)
    else if line[0] == SPACE then
      if s.headers == [] || !s.continuing then Ok(s)
      else
        var last := s.headers[|s.headers| - 1];
        Ok(s.(headers := s.headers[..|s.headers| - 1] + [last.(value := last.value + [LF] + line[1..])]))
    else
      match SplitOnce(line, SPACE)
      case None => Err(InvalidHeader)
      case Some((name, value)) =>
        if Reserved(name) then Ok(s.(continuing := false))
        else Ok(Scan(s.headers + [CommitHeader(name, value)], true))
  }

  function ScanLines(s: Scan, lines: seq<Bytes>): Result<Scan, CommitError>
    decreases |lines|
  {
    if lines == [] then Ok(s)
    else
      match ScanLine(s, lines[0])
      case Err(e) => Err(e)
      case Ok(next) => ScanLines(next, lines[1..])
  }

  /** A key that is no extra header is passed over together with its continuation lines. */
  lemma {:induction false} ScanPassesOver(s: Scan, name: Bytes, parts: seq<Bytes>)
    requires Reserved(name) && SPACE !in name && name != [] && name[0] != SPACE && parts != []
    ensures ScanLines(s, FoldedLines(name, parts)) == Ok(s.(continuing := false))
    decreases |parts|
  {
    var lines := FoldedLines(name, parts);
    SplitOnceConcat(name, SPACE, parts[0]);
    assert lines[0] == name + [SPACE] + parts[0] && lines[0][0] == name[0];
    assert ScanLine(s, lines[0]) == Ok(s.(continuing := false));
    ScanIgnores(s.(continuing := false), parts[1..]);
    assert lines[1..] == Indented(parts[1..]);
  }

  lemma {:induction false} ScanIgnores(s: Scan, parts: seq<Bytes>)
    requires !s.continuing
    ensures ScanLines(s, Indented(parts)) == Ok(s)
    decreases |parts|
  {
    if parts != [] {
      assert Indented(parts)[0][0] == SPACE;
      assert Indented(parts)[1..] == Indented(parts[1..]);
      ScanIgnores(s, parts[1..]);
    }
  }

  /** Only a line with no space in it is refused. */
  lemma ScanRefuses(s: Scan, line: Bytes)
    ensures ScanLine(s, line).Err? <==> line != [] && SPACE !in line
    ensures ScanLine(s, line).Err? ==> ScanLine(s, line).error == InvalidHeader
  {
    SplitOnceIs(line, SPACE);
    if line != [] && line[0] != SPACE && SplitOnce(line, SPACE).Some? {
      var (name, value) := SplitOnce(line, SPACE).value;
      assert line == name + [SPACE] + value;
    }
  }

  lemma {:induction false} ScanConcat(s: Scan, a: seq<Bytes>, b: seq<Bytes>)
    requires ScanLines(s, a).Ok?
    ensures ScanLines(s, a + b) == ScanLines(ScanLines(s, a).value, b)
    decreases |a|
  {
    hide ScanLine;
    if a == [] {
      assert a + b == b;
    } else {
      assert (a + b)[1..] == a[1..] + b;
      ScanConcat(ScanLine(s, a[0]).value, a[1..], b);
    }
  }

  /** Continuation lines restore the line feeds that folding took out. */
  lemma {:induction false} IndentedIsJoined(headers: seq<CommitHeader>, name: Bytes, parts: seq<Bytes>)
    requires parts != []
    ensures ScanLines(Scan(headers + [CommitHeader(name, parts[0])], true), Indented(parts[1..]))
      == Ok(Scan(headers + [CommitHeader(name, Join(parts, LF))], true))
    decreases |parts|
  {
    var s := Scan(headers + [CommitHeader(name, parts[0])], true);
    if |parts| > 1 {
      var merged := [parts[0] + [LF] + parts[1]] + parts[2..];
      var lines := Indented(parts[1..]);
      assert lines[0] == [SPACE] + parts[1] && lines[1..] == Indented(merged[1..]);
      assert s.headers[..|headers|] == headers && lines[0][1..] == parts[1];
      assert ScanLine(s, lines[0]) == Ok(Scan(headers + [CommitHeader(name, merged[0])], true));
      IndentedIsJoined(headers, name, merged);
      JoinMerge(parts);
    }
  }

  lemma JoinStep(parts: seq<Bytes>)
    requires |parts| > 1
    ensures Join(parts, LF) == parts[0] + [LF] + Join(parts[1..], LF)
  {
  }

  lemma JoinOne(part: Bytes)
    ensures Join([part], LF) == part
  {
  }

  lemma LinesAssociate(a: Bytes, b: Bytes, c: Bytes)
    ensures a + [LF] + b + [LF] + c == a + [LF] + (b + [LF] + c)
  {
  }

  lemma JoinMerge(parts: seq<Bytes>)
    requires |parts| > 1
    ensures Join([parts[0] + [LF] + parts[1]] + parts[2..], LF) == Join(parts, LF)
  {
    hide Join;
    var merged := [parts[0] + [LF] + parts[1]] + parts[2..];
    assert parts[1..][1..] == parts[2..] == merged[1..];
    JoinStep(parts);
    if |parts| > 2 {
      JoinStep(parts[1..]);
      JoinStep(merged);
      LinesAssociate(parts[0], parts[1], Join(parts[2..], LF));
    } else {
      JoinOne(parts[1]);
      JoinOne(merged[0]);
      assert parts[1..] == [parts[1]] && merged == [merged[0]];
    }
  }

  lemma FoldedIsScanned(s: Scan, h: CommitHeader)
    requires h.Valid()
    ensures ScanLines(s, FoldedLines(h.name, Split(h.value, LF))) == Ok(Scan(s.headers + [h], true))
  {
    hide Split, Join;
    var parts := Split(h.value, LF);
    var lines := FoldedLines(h.name, parts);
    assert SPACE !in h.name;
    SplitOnceConcat(h.name, SPACE, parts[0]);
    assert lines[0][0] == h.name[0];
    assert ScanLine(s, lines[0]) == Ok(Scan(s.headers + [CommitHeader(h.name, parts[0])], true));
    assert lines[1..] == Indented(parts[1..]);
    IndentedIsJoined(s.headers, h.name, parts);
    JoinOfSplit(h.value, LF);
  }

  lemma {:induction false} ExtraIsScanned(s: Scan, extra: seq<CommitHeader>)
    requires forall i :: 0 <= i < |extra| ==> extra[i].Valid()
    ensures ScanLines(s, ExtraLines(extra)).Ok? && ScanLines(s, ExtraLines(extra)).value.headers == s.headers + extra
    decreases |extra|
  {
    hide FoldedLines, CommitHeader.Valid, ScanLine;
    if extra != [] {
      var next := Scan(s.headers + [extra[0]], true);
      FoldedIsScanned(s, extra[0]);
      ExtraIsScanned(next, extra[1..]);
      ScanConcat(s, FoldedLines(extra[0].name, Split(extra[0].value, LF)), ExtraLines(extra[1..]));
      assert s.headers + extra == s.headers + [extra[0]] + extra[1..];
    }
  }

  lemma KnownIsSkipped(s: Scan, key: Bytes, value: Bytes)
    requires key in {TREE, PARENT, AUTHOR, COMMITTER}
    ensures ScanLine(s, key + value) == Ok(s.(continuing := false))
  {
    var name := key[..|key| - 1];
    assert name + [SPACE] == key && SPACE !in name;
    SplitOnceConcat(name, SPACE, value);
  }

  lemma {:induction false} ParentsAreSkipped(parents: seq<ObjectId>)
    ensures ScanLines(Scan([], false), ParentLines(parents)) == Ok(Scan([], false))
  {
    hide ScanLine, Hex;
    if parents != [] {
      KnownIsSkipped(Scan([], false), PARENT, Hex(parents[0].digest));
      assert ParentLines(parents)[1..] == ParentLines(parents[1..]);
      ParentsAreSkipped(parents[1..]);
    }
  }

  lemma HeaderIsScanned(f: CommitFields)
    requires f.Valid()
    ensures ScanLines(Scan([], false), HeaderLines(f)).Ok?
    ensures ScanLines(Scan([], false), HeaderLines(f)).value.headers == f.extra
  {
    hide ScanLine, Hex, Signature.Record, ExtraLines, CommitHeader.Valid, ParentLines, Signature.Valid;
    var start := Scan([], false);
    var tree := [TREE + Hex(f.tree.digest)];
    var people := [AUTHOR + f.author.Record(), COMMITTER + f.committer.Record()];
    KnownIsSkipped(start, TREE, Hex(f.tree.digest));
    KnownIsSkipped(start, AUTHOR, f.author.Record());
    KnownIsSkipped(start, COMMITTER, f.committer.Record());
    ParentsAreSkipped(f.parents);
    ExtraIsScanned(start, f.extra);
    assert ScanLines(start, people) == Ok(start) by {
      assert people[1..] == [people[1]];
      assert ScanLines(start, [people[1]]) == Ok(start);
    }
    ScanConcat(start, tree, ParentLines(f.parents));
    ScanConcat(start, tree + ParentLines(f.parents), people);
    ScanConcat(start, tree + ParentLines(f.parents) + people, ExtraLines(f.extra));
    assert [] + f.extra == f.extra;
  }

  // The graph records.

  lemma LineIsRead(format: ObjectFormat, prefix: Bytes, id: ObjectId, rest: Bytes)
    requires LF !in prefix && id.Valid() && id.format == format
    ensures LineRecord(format, prefix + Hex(id.digest) + [LF] + rest, prefix) == Ok(id)
    ensures AfterLine(prefix + Hex(id.digest) + [LF] + rest) == rest
  {
    hide Hex, Unhex, IndexOf;
    HexIsPlain(id.digest, LF);
    HexRoundTrip(id.digest);
    var line := prefix + Hex(id.digest);
    IndexOfConcat(line, LF, rest);
    assert (line + [LF] + rest)[..|line|] == line;
    StripPrefixConcat(prefix, Hex(id.digest));
  }

  lemma {:induction false} ParentsAreRead(format: ObjectFormat, parents: seq<ObjectId>, rest: Bytes)
    requires forall i :: 0 <= i < |parents| ==> parents[i].Valid() && parents[i].format == format
    requires rest != [] && !StartsWith(rest, PARENT)
    ensures LineParents(format, Terminated(ParentLines(parents)) + rest) == Ok(parents)
    decreases |parents|
  {
    hide LineRecord, AfterLine, Hex;
    if parents == [] {
      assert Terminated(ParentLines(parents)) + rest == rest;
    } else {
      var others := ParentLines(parents[1..]);
      assert ParentLines(parents)[1..] == others;
      var b := Terminated(ParentLines(parents)) + rest;
      var line := PARENT + Hex(parents[0].digest);
      assert b == line + [LF] + (Terminated(others) + rest);
      LineIsRead(format, PARENT, parents[0], Terminated(others) + rest);
      ParentsAreRead(format, parents[1..], rest);
      assert StartsWith(b, PARENT) by { assert b[..|PARENT|] == PARENT; }
      assert parents == [parents[0]] + parents[1..];
    }
  }

  lemma GraphIsRead(f: CommitFields)
    requires f.Valid()
    ensures LineGraph(f.tree.format, Payload(f)) == Ok((f.tree, f.parents))
  {
    hide LineRecord, AfterLine, LineParents, Hex, ExtraLines, Signature.Record, Signature.Valid, CommitHeader.Valid, ParentLines;
    var people := [AUTHOR + f.author.Record(), COMMITTER + f.committer.Record()];
    var last := people + ExtraLines(f.extra);
    var rest := Terminated(last) + [LF] + f.message;
    var tree := TREE + Hex(f.tree.digest);
    TerminatedConcat(ParentLines(f.parents), last);
    var all := ParentLines(f.parents) + last;
    assert HeaderLines(f) == [tree] + all;
    assert Payload(f) == tree + [LF] + (Terminated(ParentLines(f.parents)) + rest);
    assert rest[0] == AUTHOR[0];
    LineIsRead(f.tree.format, TREE, f.tree, Terminated(ParentLines(f.parents)) + rest);
    ParentsAreRead(f.tree.format, f.parents, rest);
  }

  // Construction, parsing and editing.

  predicate SameFormat(f: CommitFields)
  {
    forall i :: 0 <= i < |f.parents| ==> f.parents[i].format == f.tree.format
  }

  predicate ValidHeaders(f: CommitFields)
  {
    forall i :: 0 <= i < |f.extra| ==> f.extra[i].Valid()
  }

  function CheckSignature(s: Signature): Option<CommitError>
  {
    if !s.ValidNames() then Some(InvalidSignature) else if !s.ValidOffset() then Some(InvalidDate) else None
  }

  /** The first rule that the fields break. */
  function Check(f: CommitFields): Option<CommitError>
  {
    if !SameFormat(f) then Some(FormatMismatch)
    else if CheckSignature(f.author).Some? then CheckSignature(f.author)
    else if CheckSignature(f.committer).Some? then CheckSignature(f.committer)
    else if !ValidHeaders(f) then Some(InvalidHeader)
    else None
  }

  /** Formats are compared first, then the author's names and offset, the committer's, and the headers. */
  lemma FirstBrokenRule(f: CommitFields)
    requires f.WellTyped()
    ensures var mixed := exists i :: 0 <= i < |f.parents| && f.parents[i].format != f.tree.format;
      && (Check(f) == Some(FormatMismatch) <==> mixed)
      && (Check(f) == Some(InvalidSignature) <==>
            !mixed && (!f.author.ValidNames() || (f.author.Valid() && !f.committer.ValidNames())))
      && (Check(f) == Some(InvalidDate) <==>
            && !mixed
            && ((f.author.ValidNames() && !(-1439 <= f.author.offset <= 1439))
                || (f.author.Valid() && f.committer.ValidNames() && !(-1439 <= f.committer.offset <= 1439))))
      && (Check(f) == Some(InvalidHeader) <==>
            && !mixed && f.author.Valid() && f.committer.Valid()
            && exists i :: 0 <= i < |f.extra| && !f.extra[i].Valid())
  {
    hide CommitHeader.Valid, Signature.ValidNames;
  }

  ghost predicate Parsed(format: ObjectFormat, payload: Bytes, c: Commit)
  {
    && c.payload == payload
    && IsHeaderEnd(payload, c.headerEnd)
    && LineGraph(format, payload) == Ok((c.tree, c.parents))
  }

  method Parse(format: ObjectFormat, payload: Bytes) returns (r: Result<Commit, CommitError>)
    ensures r.Ok? ==> Parsed(format, payload, r.value)
    ensures r.Err? ==> LineGraph(format, payload) == Err(r.error)
  {
    hide LineGraph, IsHeaderEnd, Spells;
    var graph := ParseGraph(format, payload);
    if graph.Err? {
      return Err(graph.error);
    }
    var end := HeaderEnd(payload);
    r := Ok(Commit.Commit(graph.value.0, graph.value.1, end, payload));
  }

  /** Appends one folded header. */
  method AppendHeader(payload: Bytes, h: CommitHeader) returns (out: Bytes)
    ensures out == payload + Terminated(FoldedLines(h.name, Split(h.value, LF)))
  {
    hide Split, Terminated, FoldedLines, Indented;
    var parts := Split(h.value, LF);
    out := payload + h.name + [SPACE];
    var index := 0;
    while index < |parts|
      invariant index <= |parts|
      invariant index == 0 ==> out == payload + h.name + [SPACE]
      invariant index > 0 ==> out + [LF] == payload + Terminated(FoldedLines(h.name, parts[..index]))
    {
      if index != 0 {
        out := out + [LF, SPACE];
      }
      out := out + parts[index];
      FoldedGrows(payload, h.name, parts, index);
      index := index + 1;
    }
    assert parts[..index] == parts;
    out := out + [LF];
  }

  lemma FoldedGrows(payload: Bytes, name: Bytes, parts: seq<Bytes>, index: nat)
    requires index < |parts|
    ensures index == 0 ==>
      payload + Terminated(FoldedLines(name, parts[..1])) == payload + name + [SPACE] + parts[0] + [LF]
    ensures index > 0 ==>
      payload + Terminated(FoldedLines(name, parts[..index + 1]))
      == payload + Terminated(FoldedLines(name, parts[..index])) + [SPACE] + parts[index] + [LF]
  {
    hide Terminated;
    if index == 0 {
      assert FoldedLines(name, parts[..1]) == [name + [SPACE] + parts[0]];
      TerminatedOne(name + [SPACE] + parts[0]);
    } else {
      var lines := FoldedLines(name, parts[..index]);
      assert FoldedLines(name, parts[..index + 1]) == lines + [[SPACE] + parts[index]];
      TerminatedConcat(lines, [[SPACE] + parts[index]]);
      TerminatedOne([SPACE] + parts[index]);
    }
  }

  lemma ExtraGrows(extra: seq<CommitHeader>, h: CommitHeader)
    ensures ExtraLines(extra + [h]) == ExtraLines(extra) + FoldedLines(h.name, Split(h.value, LF))
  {
    hide FoldedLines, Split;
    if extra != [] {
      ExtraGrows(extra[1..], h);
      assert (extra + [h])[1..] == extra[1..] + [h];
    }
  }

  method New(f: CommitFields) returns (r: Result<Commit, CommitError>)
    requires f.WellTyped()
    ensures r.Ok? <==> f.Valid()
    ensures r.Err? ==> Check(f) == Some(r.error)
    ensures r.Ok? ==> Parsed(f.tree.format, Payload(f), r.value) && FieldsOf(r.value) == Ok(f)
  {
    hide LineGraph, IsHeaderEnd, ParentLines, ExtraLines, Terminated, Hex, Signature.Record, FoldedLines, CommitHeader.Valid;
    var failure := Check(f);
    if failure.Some? {
      return Err(failure.value);
    }
    var payload := TREE + Hex(f.tree.digest) + [LF];
    var i := 0;
    StartOfPayload(f);
    while i < |f.parents|
      invariant i <= |f.parents|
      invariant payload == Terminated([TREE + Hex(f.tree.digest)] + ParentLines(f.parents[..i]))
    {
      payload := payload + PARENT + Hex(f.parents[i].digest) + [LF];
      ParentsGrow(f, i);
      i := i + 1;
    }
    payload := payload + AUTHOR + f.author.Record() + [LF];
    payload := payload + COMMITTER + f.committer.Record() + [LF];
    PeopleGrow(f);
    i := 0;
    while i < |f.extra|
      invariant i <= |f.extra|
      invariant payload == Terminated(HeaderLines(f.(extra := f.extra[..i])))
    {
      HeadersGrow(f, i);
      payload := AppendHeader(payload, f.extra[i]);
      i := i + 1;
    }
    assert f.extra[..i] == f.extra;
    payload := payload + [LF];
    payload := payload + f.message;
    GraphIsRead(f);
    var end := HeaderEnd(payload);
    r := Ok(Commit.Commit(f.tree, f.parents, end, payload));
    RoundTrip(f, r.value);
  }

  lemma StartOfPayload(f: CommitFields)
    ensures TREE + Hex(f.tree.digest) + [LF] == Terminated([TREE + Hex(f.tree.digest)] + ParentLines(f.parents[..0]))
  {
    hide Hex, Terminated;
    TerminatedOne(TREE + Hex(f.tree.digest));
    assert [TREE + Hex(f.tree.digest)] + ParentLines(f.parents[..0]) == [TREE + Hex(f.tree.digest)];
  }

  lemma ParentsGrow(f: CommitFields, i: nat)
    requires i < |f.parents|
    ensures var first := [TREE + Hex(f.tree.digest)];
      Terminated(first + ParentLines(f.parents[..i + 1]))
      == Terminated(first + ParentLines(f.parents[..i])) + PARENT + Hex(f.parents[i].digest) + [LF]
  {
    hide Hex, Terminated;
    var first := [TREE + Hex(f.tree.digest)];
    var line := PARENT + Hex(f.parents[i].digest);
    assert first + ParentLines(f.parents[..i + 1]) == first + ParentLines(f.parents[..i]) + [line];
    TerminatedConcat(first + ParentLines(f.parents[..i]), [line]);
    TerminatedOne(line);
  }

  lemma PeopleGrow(f: CommitFields)
    ensures Terminated(HeaderLines(f.(extra := f.extra[..0])))
      == Terminated([TREE + Hex(f.tree.digest)] + ParentLines(f.parents[..|f.parents|]))
         + AUTHOR + f.author.Record() + [LF] + COMMITTER + f.committer.Record() + [LF]
  {
    hide Hex, Terminated, Signature.Record, ParentLines;
    assert f.parents[..|f.parents|] == f.parents;
    var first := [TREE + Hex(f.tree.digest)] + ParentLines(f.parents);
    var author, committer := AUTHOR + f.author.Record(), COMMITTER + f.committer.Record();
    assert HeaderLines(f.(extra := f.extra[..0])) == first + [author] + [committer];
    TerminatedConcat(first + [author], [committer]);
    TerminatedConcat(first, [author]);
    TerminatedOne(author);
    TerminatedOne(committer);
  }

  lemma HeadersGrow(f: CommitFields, i: nat)
    requires i < |f.extra|
    ensures Terminated(HeaderLines(f.(extra := f.extra[..i + 1])))
      == Terminated(HeaderLines(f.(extra := f.extra[..i])))
         + Terminated(FoldedLines(f.extra[i].name, Split(f.extra[i].value, LF)))
  {
    hide Hex, Terminated, Signature.Record, ParentLines, ExtraLines, Split, FoldedLines;
    var h := f.extra[i];
    var folded := FoldedLines(h.name, Split(h.value, LF));
    assert f.extra[..i + 1] == f.extra[..i] + [h];
    ExtraGrows(f.extra[..i], h);
    assert HeaderLines(f.(extra := f.extra[..i + 1])) == HeaderLines(f.(extra := f.extra[..i])) + folded;
    TerminatedConcat(HeaderLines(f.(extra := f.extra[..i])), folded);
  }

  function Role(c: Commit, prefix: Bytes): Result<Signature, CommitError>
  {
    match Person(c, prefix)
    case Err(e) => Err(e)
    case Ok(None) => Err(RequiredHeader)
    case Ok(Some(identity)) => ToSignature(identity)
  }

  function FieldsOf(c: Commit): Result<CommitFields, CommitError>
  {
    match Role(c, AUTHOR)
    case Err(e) => Err(e)
    case Ok(author) =>
      match Role(c, COMMITTER)
      case Err(e) => Err(e)
      case Ok(committer) =>
        match ScanLines(Scan([], false), c.Lines())
        case Err(e) => Err(e)
        case Ok(scan) => Ok(CommitFields(c.tree, c.parents, author, committer, scan.headers, c.Message()))
  }

  method ToFields(c: Commit) returns (r: Result<CommitFields, CommitError>)
    ensures r == FieldsOf(c)
  {
    hide Role, ScanLine, Commit.Lines, Commit.Message;
    var author := Role(c, AUTHOR);
    if author.Err? {
      return Err(author.error);
    }
    var committer := Role(c, COMMITTER);
    if committer.Err? {
      return Err(committer.error);
    }
    var lines := c.Lines();
    var scan := Scan([], false);
    var i := 0;
    while i < |lines|
      invariant i <= |lines|
      invariant ScanLines(Scan([], false), lines) == ScanLines(scan, lines[i..])
    {
      var next := ScanLine(scan, lines[i]);
      if next.Err? {
        return Err(next.error);
      }
      assert lines[i..][1..] == lines[i + 1..];
      scan := next.value;
      i := i + 1;
    }
    r := Ok(CommitFields(c.tree, c.parents, author.value, committer.value, scan.headers, c.Message()));
  }

  /** Reading a constructed commit returns the fields it was made from; no role's record is altered. */
  lemma RoundTrip(f: CommitFields, c: Commit)
    requires f.Valid() && Parsed(f.tree.format, Payload(f), c)
    ensures FieldsOf(c) == Ok(f)
    ensures Person(c, AUTHOR) == ParseRecord(f.author.Record()) && Person(c, COMMITTER) == ParseRecord(f.committer.Record())
  {
    hide Signature.Valid, Signature.Record, HeaderLines, LineGraph, IsHeaderEnd, Commit.Lines, Commit.Message, Payload;
    hide ParseIdentity, ToSignature, ScanLines, LastWith;
    PayloadSplits(f, c);
    PeopleAreFound(f);
    HeaderIsScanned(f);
    GraphIsRead(f);
    SignatureRoundTrip(f.author);
    SignatureRoundTrip(f.committer);
  }

  function ParseRecord(record: Bytes): Result<Option<IdentityRef>, CommitError>
  {
    match ParseIdentity(record)
    case Err(e) => Err(e)
    case Ok(identity) => Ok(Some(identity))
  }

  lemma Constructed(f: CommitFields) returns (c: Commit)
    requires f.Valid()
    ensures Parsed(f.tree.format, Payload(f), c)
  {
    hide HeaderLines, CommitFields.Valid, IsHeaderEnd, Terminated, LineGraph;
    var lines := HeaderLines(f);
    HeaderIsFramed(f);
    TerminatedJoin(lines);
    FramedLinesEnd(lines, f.message);
    assert Payload(f) == Join(lines, LF) + [LF, LF] + f.message;
    GraphIsRead(f);
    c := Commit.Commit(f.tree, f.parents, |Join(lines, LF)|, Payload(f));
  }

  /** Distinct fields never share a payload, even across object formats. */
  lemma PayloadIsInjective(f: CommitFields, g: CommitFields)
    requires f.Valid() && g.Valid() && Payload(f) == Payload(g)
    ensures f == g
  {
    hide HeaderLines, Signature.Valid, CommitHeader.Valid, IsHeaderEnd, LineGraph, Commit.Lines, Payload, FieldsOf;
    var c := Constructed(f);
    PayloadSplits(f, c);
    PayloadSplits(g, c);
    SameTreeLine(f, g);
    RoundTrip(f, c);
    RoundTrip(g, c);
  }

  lemma SameTreeLine(f: CommitFields, g: CommitFields)
    requires f.WellTyped() && g.WellTyped() && HeaderLines(f) == HeaderLines(g)
    ensures f.tree.format == g.tree.format
  {
    hide Hex;
    assert HeaderLines(f)[0] == TREE + Hex(f.tree.digest);
    assert HeaderLines(g)[0] == TREE + Hex(g.tree.digest);
  }
}
