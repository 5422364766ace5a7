/**
The leading tree and parent records of a commit, read line by line and read at their fixed
offsets. The two readers accept the same payloads.
*/
module CommitRecords {

  import opened Bytes
  import opened ByteStrings
  import opened Identity
  import opened Objects
  import opened Options

  // "tree " and "parent ".
  const TREE: Bytes := [116, 114, 101, 101, 32]
  const PARENT: Bytes := [112, 97, 114, 101, 110, 116, 32]

  type Graph = (ObjectId, seq<ObjectId>)

  function Width(format: ObjectFormat): nat
  {
    2 * format.DigestLength()
  }

  function ParseId(format: ObjectFormat, value: Bytes): (r: Result<ObjectId, CommitError>)
    ensures r.Ok? ==> r.value.format == format && r.value.Valid()
  {
    if |value| != Width(format) then Err(InvalidObjectId)
    else
      match Unhex(value)
      case None => Err(InvalidObjectId)
      case Some(digest) => Ok(ObjectId(format, digest))
  }

  /** Identities are written with 40 or 64 digits, behind these keys. */
  lemma RecordsAreSpelled()
    ensures Width(Sha1) == 40 && Width(Sha256) == 64
    ensures Ascii(TREE, "tree ") && Ascii(PARENT, "parent ")
  {
  }

  // Line by line.

  function LineRecord(format: ObjectFormat, rest: Bytes, prefix: Bytes): Result<ObjectId, CommitError>
  {
    var end := IndexOf(rest, LF);
    if end == |rest| then Err(RequiredHeader)
    else
      match StripPrefix(rest[..end], prefix)
      case None => Err(RequiredHeader)
      case Some(value) => ParseId(format, value)
  }

  function AfterLine(rest: Bytes): (r: Bytes)
    ensures rest != [] ==> |r| < |rest|
  {
    var end := IndexOf(rest, LF);
    if end == |rest| then [] else rest[end + 1..]
  }

  /**
  A trailing fragment too short for a record is metadata even if it starts like one. The key
  holds no line feed, so the first line starts with it exactly when the rest does.
  */
  predicate MoreParents(format: ObjectFormat, rest: Bytes)
  {
    |rest| >= Width(format) + 8 && StartsWith(rest, PARENT)
  }

  function LineParents(format: ObjectFormat, rest: Bytes): Result<seq<ObjectId>, CommitError>
    decreases |rest|
  {
    if MoreParents(format, rest) then
      match LineRecord(format, rest, PARENT)
      case Err(e) => Err(e)
      case Ok(id) =>
        match LineParents(format, AfterLine(rest))
        case Err(e) => Err(e)
        case Ok(ids) => Ok([id] + ids)
    else if rest == [] then Err(RequiredHeader)
    else Ok([])
  }

  function LineGraph(format: ObjectFormat, payload: Bytes): Result<Graph, CommitError>
  {
    match LineRecord(format, payload, TREE)
    case Err(e) => Err(e)
    case Ok(tree) =>
      match LineParents(format, AfterLine(payload))
      case Err(e) => Err(e)
      case Ok(parents) => Ok((tree, parents))
  }

  // At fixed offsets.

  function FixedRecord(format: ObjectFormat, rest: Bytes, prefix: Bytes): Option<ObjectId>
  {
    match StripPrefix(rest, prefix)
    case None => None
    case Some(id) =>
      if !(Width(format) < |id| && id[Width(format)] == LF) then None
      else
        match ParseId(format, id[..Width(format)])
        case Err(_) => None
        case Ok(parsed) => Some(parsed)
  }

  /** Record `id` with key `prefix` starts at `at`, in either case of its digits. */
  ghost predicate RecordAt(format: ObjectFormat, payload: Bytes, at: int, prefix: Bytes, id: ObjectId)
  {
    && 0 <= at <= |payload|
    && FixedRecord(format, payload[at..], prefix) == Some(id)
  }

  lemma {:induction false} UnhexIsPlain(h: Bytes, x: byte)
    requires |h| % 2 == 0 && Unhex(h).Some? && x < 48
    ensures x !in h
    decreases |h|
  {
    if h != [] {
      UnhexIsPlain(h[2..], x);
      assert h == [h[0], h[1]] + h[2..];
    }
  }

  /** One record reads the same either way, and a read record ends at its fixed width. */
  lemma RecordsAgree(format: ObjectFormat, rest: Bytes, prefix: Bytes)
    requires LF !in prefix
    ensures LineRecord(format, rest, prefix).Ok? <==> FixedRecord(format, rest, prefix).Some?
    ensures LineRecord(format, rest, prefix).Ok? ==>
      && FixedRecord(format, rest, prefix) == Some(LineRecord(format, rest, prefix).value)
      && |prefix| + Width(format) + 1 <= |rest|
      && AfterLine(rest) == rest[|prefix| + Width(format) + 1..]
  {
    hide Unhex, IndexOf;
    var end := IndexOf(rest, LF);
    if LineRecord(format, rest, prefix).Ok? {
      assert rest[..end][..|prefix|] == rest[..|prefix|];
      assert rest[..end][|prefix|..] == rest[|prefix|..][..Width(format)];
    }
    if FixedRecord(format, rest, prefix).Some? {
      var id := rest[|prefix|..];
      UnhexIsPlain(id[..Width(format)], LF);
      IndexOfConcat(prefix + id[..Width(format)], LF, id[Width(format) + 1..]);
      assert rest == prefix + id[..Width(format)] + [LF] + id[Width(format) + 1..];
      assert rest[..end] == prefix + id[..Width(format)];
      StripPrefixConcat(prefix, id[..Width(format)]);
    }
  }

  lemma FixedRecordFits(format: ObjectFormat, rest: Bytes, prefix: Bytes)
    requires FixedRecord(format, rest, prefix).Some?
    ensures StartsWith(rest, prefix) && |rest| >= |prefix| + Width(format) + 1
  {
  }

  function Prepend(ids: seq<ObjectId>, r: Option<seq<ObjectId>>): Option<seq<ObjectId>>
  {
    if r.None? then None else Some(ids + r.value)
  }

  function FixedParents(format: ObjectFormat, rest: Bytes): Option<seq<ObjectId>>
    decreases |rest|
  {
    if MoreParents(format, rest) then
      match FixedRecord(format, rest, PARENT)
      case None => None
      case Some(id) => Prepend([id], FixedParents(format, rest[|PARENT| + Width(format) + 1..]))
    else if rest == [] then None
    else Some([])
  }

  lemma {:induction false} ParentsAgree(format: ObjectFormat, rest: Bytes)
    ensures LineParents(format, rest).Ok? <==> FixedParents(format, rest).Some?
    ensures LineParents(format, rest).Ok? ==> FixedParents(format, rest) == Some(LineParents(format, rest).value)
    decreases |rest|
  {
    hide LineRecord, FixedRecord, AfterLine;
    if MoreParents(format, rest) {
      RecordsAgree(format, rest, PARENT);
      if LineRecord(format, rest, PARENT).Ok? {
        ParentsAgree(format, AfterLine(rest));
      }
    }
  }

  ghost predicate ParentAt(format: ObjectFormat, rest: Bytes, parents: seq<ObjectId>, i: nat)
    requires i < |parents|
  {
    RecordAt(format, rest, i * (Width(format) + 8), PARENT, parents[i])
  }

  /** Complete parent records lie back to back, their run is maximal, and something follows it. */
  ghost predicate SpellsParents(format: ObjectFormat, rest: Bytes, parents: seq<ObjectId>)
  {
    && (forall i: nat :: i < |parents| ==> ParentAt(format, rest, parents, i))
    && |parents| * (Width(format) + 8) < |rest|
    && !MoreParents(format, rest[|parents| * (Width(format) + 8)..])
  }

  /** The parents are read off the fixed offsets, whatever follows them. */
  lemma {:induction false} ParentsAreSpelled(format: ObjectFormat, rest: Bytes, parents: seq<ObjectId>)
    ensures FixedParents(format, rest) == Some(parents) <==> SpellsParents(format, rest, parents)
    decreases |rest|
  {
    hide FixedRecord, StartsWith;
    if MoreParents(format, rest) && FixedRecord(format, rest, PARENT).Some? {
      var step := Width(format) + 8;
      var id := FixedRecord(format, rest, PARENT).value;
      if parents != [] && parents[0] == id {
        ParentsAreSpelled(format, rest[step..], parents[1..]);
        SpelledStep(format, rest, parents);
        assert parents == [id] + parents[1..];
      } else if parents != [] {
        assert FixedParents(format, rest) != Some(parents);
        assert !ParentAt(format, rest, parents, 0);
      }
    } else if parents != [] && ParentAt(format, rest, parents, 0) {
      assert rest[0..] == rest;
      FixedRecordFits(format, rest, PARENT);
      assert false;
    }
  }

  lemma SpelledStep(format: ObjectFormat, rest: Bytes, parents: seq<ObjectId>)
    requires parents != [] && FixedRecord(format, rest, PARENT) == Some(parents[0])
    requires |rest| >= Width(format) + 8
    ensures SpellsParents(format, rest, parents) <==> SpellsParents(format, rest[Width(format) + 8..], parents[1..])
  {
    hide FixedRecord, MoreParents, ParentAt, Width;
    var step := Width(format) + 8;
    var tail, others := rest[step..], parents[1..];
    forall i: nat | i < |others| ensures ParentAt(format, tail, others, i) <==> ParentAt(format, rest, parents, i + 1) {
      ParentShifts(format, rest, parents, i);
    }
    FirstParent(format, rest, parents);
    assert |parents| * step == |others| * step + step;
    if |others| * step < |tail| {
      SuffixShifts(rest, step, |others| * step);
    }
    forall i: nat | 0 < i < |parents| && SpellsParents(format, tail, others) ensures ParentAt(format, rest, parents, i) {
      assert ParentAt(format, tail, others, i - 1);
    }
  }

  lemma SuffixShifts(b: Bytes, step: nat, n: nat)
    requires step + n <= |b|
    ensures b[step..][n..] == b[step + n..]
  {
  }

  lemma FirstParent(format: ObjectFormat, rest: Bytes, parents: seq<ObjectId>)
    requires parents != [] && FixedRecord(format, rest, PARENT) == Some(parents[0])
    ensures ParentAt(format, rest, parents, 0)
  {
    hide FixedRecord;
    assert rest[0..] == rest;
  }

  lemma ParentShifts(format: ObjectFormat, rest: Bytes, parents: seq<ObjectId>, i: nat)
    requires i + 1 < |parents| && |rest| >= Width(format) + 8
    ensures ParentAt(format, rest[Width(format) + 8..], parents[1..], i) <==> ParentAt(format, rest, parents, i + 1)
  {
    hide FixedRecord, Width;
    var step := Width(format) + 8;
    assert (i + 1) * step == i * step + step;
    if i * step + step <= |rest| { SuffixShifts(rest, step, i * step); }
  }

  ghost predicate Spells(format: ObjectFormat, payload: Bytes, graph: Graph)
  {
    && RecordAt(format, payload, 0, TREE, graph.0)
    && |TREE| + Width(format) + 1 <= |payload|
    && SpellsParents(format, payload[|TREE| + Width(format) + 1..], graph.1)
  }

  function FixedGraph(format: ObjectFormat, payload: Bytes): Option<Graph>
  {
    match FixedRecord(format, payload, TREE)
    case None => None
    case Some(tree) =>
      FixedRecordFits(format, payload, TREE);
      match FixedParents(format, payload[|TREE| + Width(format) + 1..])
      case None => None
      case Some(parents) => Some((tree, parents))
  }

  /** The line reader accepts exactly what the fixed-width reader accepts, with the same graph. */
  lemma ReadersAgree(format: ObjectFormat, payload: Bytes)
    ensures LineGraph(format, payload).Ok? <==> FixedGraph(format, payload).Some?
    ensures LineGraph(format, payload).Ok? ==> FixedGraph(format, payload) == Some(LineGraph(format, payload).value)
  {
    hide LineRecord, FixedRecord, LineParents, FixedParents, AfterLine;
    RecordsAgree(format, payload, TREE);
    if LineRecord(format, payload, TREE).Ok? {
      ParentsAgree(format, AfterLine(payload));
    }
  }

  /** What either reader returns is what the payload spells at the fixed offsets. */
  lemma GraphIsSpelled(format: ObjectFormat, payload: Bytes, graph: Graph)
    ensures LineGraph(format, payload) == Ok(graph) <==> Spells(format, payload, graph)
  {
    hide LineGraph, FixedRecord, FixedParents, SpellsParents;
    ReadersAgree(format, payload);
    assert payload[0..] == payload;
    if FixedRecord(format, payload, TREE).Some? {
      FixedRecordFits(format, payload, TREE);
      ParentsAreSpelled(format, payload[|TREE| + Width(format) + 1..], graph.1);
    }
  }

  method FixedWidthGraph(format: ObjectFormat, payload: Bytes) returns (r: Option<Graph>)
    ensures r == FixedGraph(format, payload)
  {
    hide FixedRecord;
    var tree := FixedRecord(format, payload, TREE);
    if tree.None? {
      return None;
    }
    FixedRecordFits(format, payload, TREE);
    var rest := payload[|TREE| + Width(format) + 1..];
    var parents := [];
    PrependStep([], tree.value, FixedParents(format, rest));
    while MoreParents(format, rest)
      invariant Prepend(parents, FixedParents(format, rest)) == FixedParents(format, payload[|TREE| + Width(format) + 1..])
      decreases |rest|
    {
      var parent := FixedRecord(format, rest, PARENT);
      if parent.None? {
        return None;
      }
      FixedRecordFits(format, rest, PARENT);
      PrependStep(parents, parent.value, FixedParents(format, rest[|PARENT| + Width(format) + 1..]));
      parents := parents + [parent.value];
      rest := rest[|PARENT| + Width(format) + 1..];
    }
    PrependStep(parents, tree.value, None);
    r := if rest == [] then None else Some((tree.value, parents));
  }

  lemma PrependStep(ids: seq<ObjectId>, id: ObjectId, r: Option<seq<ObjectId>>)
    ensures Prepend([], r) == r && Prepend(ids, Some([])) == Some(ids)
    ensures Prepend(ids, Prepend([id], r)) == Prepend(ids + [id], r)
  {
    assert ids + [] == ids;
    if r.Some? {
      assert [] + r.value == r.value;
      assert ids + ([id] + r.value) == ids + [id] + r.value;
    }
  }

  method GeneralGraph(format: ObjectFormat, payload: Bytes) returns (r: Result<Graph, CommitError>)
    ensures r == LineGraph(format, payload)
  {
    hide LineRecord, AfterLine;
    var tree := LineRecord(format, payload, TREE);
    if tree.Err? {
      return Err(tree.error);
    }
    var rest := AfterLine(payload);
    var parents := [];
    while MoreParents(format, rest)
      invariant LineParents(format, AfterLine(payload)).Ok? <==> LineParents(format, rest).Ok?
      invariant LineParents(format, rest).Ok? ==>
          LineParents(format, AfterLine(payload)).value == parents + LineParents(format, rest).value
      invariant LineParents(format, rest).Err? ==> LineParents(format, AfterLine(payload)) == LineParents(format, rest)
      decreases |rest|
    {
      var parent := LineRecord(format, rest, PARENT);
      if parent.Err? {
        return Err(parent.error);
      }
      parents := parents + [parent.value];
      rest := AfterLine(rest);
    }
    assert parents + [] == parents;
    r := if rest == [] then Err(RequiredHeader) else Ok((tree.value, parents));
  }

  /** Tries the fixed offsets first; the lines decide every other payload. */
  method ParseGraph(format: ObjectFormat, payload: Bytes) returns (r: Result<Graph, CommitError>)
    ensures r == LineGraph(format, payload)
    ensures forall graph :: r == Ok(graph) <==> Spells(format, payload, graph)
  {
    hide *;
    ReadersAgree(format, payload);
    forall graph ensures LineGraph(format, payload) == Ok(graph) <==> Spells(format, payload, graph) {
      GraphIsSpelled(format, payload, graph);
    }
    var fixed := FixedWidthGraph(format, payload);
    if fixed.Some? {
      return Ok(fixed.value);
    }
    r := GeneralGraph(format, payload);
  }
}
