/** Bundle headers: the writer, its precomputed size bound, and the bounded parser. */
module BundleHeader {

  import opened Bytes
  import opened ByteStrings
  import CommitRecords
  import opened Objects
  import opened Options
  import opened RefNames

  datatype Version = V2 | V3

  datatype Reference = Reference(id: ObjectId, name: Bytes)

  datatype Bundle = Bundle(
    version: Version,
    format: ObjectFormat,
    prerequisites: seq<ObjectId>,
    references: seq<Reference>,
    filter: Option<Bytes>,
    pack: Bytes
  )

  datatype Error = Malformed | Unsupported | Limit

  datatype HeaderLimits = HeaderLimits(maxHeaderBytes: nat, maxEntries: nat)

  // "# v2 git bundle", "# v3 git bundle", "object-format", "sha1", "sha256" and "filter".
  const V2_SIGNATURE: Bytes := [35, 32, 118, 50, 32, 103, 105, 116, 32, 98, 117, 110, 100, 108, 101]
  const V3_SIGNATURE: Bytes := [35, 32, 118, 51, 32, 103, 105, 116, 32, 98, 117, 110, 100, 108, 101]
  const OBJECT_FORMAT: Bytes := [111, 98, 106, 101, 99, 116, 45, 102, 111, 114, 109, 97, 116]
  const SHA1: Bytes := [115, 104, 97, 49]
  const SHA256: Bytes := [115, 104, 97, 50, 53, 54]
  const FILTER: Bytes := [102, 105, 108, 116, 101, 114]
  // " prerequisite".
  const PREREQUISITE: Bytes := [32, 112, 114, 101, 114, 101, 113, 117, 105, 115, 105, 116, 101]
  const DASH: byte := 45
  const EQUALS: byte := 61

  // Parsing.

  datatype Progress = Progress(
    format: ObjectFormat,
    filter: Option<Bytes>,
    capabilities: set<Bytes>,
    prerequisites: seq<ObjectId>,
    references: seq<Reference>,
    names: set<Bytes>,
    records: bool,
    refsStarted: bool
  )

  const INITIAL: Progress := Progress(Sha1, None, {}, [], [], {}, false, false)

  function Capability(version: Version, s: Progress, capability: Bytes): Result<Progress, Error>
  {
    if version != V3 || s.records then Err(Malformed)
    else
      var (key, value) :=
        match SplitOnce(capability, EQUALS)
        case None => (capability, [])
        case Some(pair) => pair;
      if key in s.capabilities then Err(Malformed)
      else
        var next := s.(capabilities := s.capabilities + {key});
        if key == OBJECT_FORMAT && value == SHA1 then Ok(next.(format := Sha1))
        else if key == OBJECT_FORMAT && value == SHA256 then Ok(next.(format := Sha256))
        else if key == FILTER && value != [] then Ok(next.(filter := Some(value)))
        else Err(Unsupported)
  }

  function NonNullId(format: ObjectFormat, raw: Bytes): (r: Option<ObjectId>)
    ensures r.Some? ==> r.value.format == format && r.value.Valid() && !r.value.IsNull()
  {
    var parsed := CommitRecords.ParseId(format, raw);
    if parsed.Err? || parsed.value.IsNull() then None else Some(parsed.value)
  }

  function Record(maxEntries: nat, s: Progress, line: Bytes): Result<Progress, Error>
  {
    if |s.prerequisites| + |s.references| >= maxEntries then Err(Limit)
    else
      var prerequisite := line != [] && line[0] == DASH;
      match SplitOnce(if prerequisite then line[1..] else line, SPACE)
      case None => Err(Malformed)
      case Some((raw, name)) =>
        var id := NonNullId(s.format, raw);
        if id.None? then Err(Malformed)
        else if prerequisite then
          if s.refsStarted then Err(Malformed)
          else Ok(s.(records := true, prerequisites := s.prerequisites + [id.value]))
        else if !ValidRefName(name) || name in s.names then Err(Malformed)
        else Ok(s.(
          records := true,
          refsStarted := true,
          names := s.names + {name},
          references := s.references + [Reference(id.value, name)]))
  }

  function Step(version: Version, maxEntries: nat, s: Progress, line: Bytes): Result<Progress, Error>
  {
    if line != [] && line[0] == AT then Capability(version, s, line[1..]) else Record(maxEntries, s, line)
  }

  /** The next line within the header budget, and what follows its line feed. */
  function TakeLine(rest: Bytes, maxHeaderBytes: nat, consumed: nat): (r: Option<(Bytes, Bytes)>)
    ensures r.Some? ==>
      && rest == r.value.0 + [LF] + r.value.1
      && consumed + |r.value.0| + 1 <= maxHeaderBytes
  {
    var available := if consumed <= maxHeaderBytes then maxHeaderBytes - consumed else 0;
    var window := rest[..if |rest| < available then |rest| else available];
    var end := IndexOf(window, LF);
    if end == |window| then None else Some((rest[..end], rest[end + 1..]))
  }

  function ReadLines(version: Version, limits: HeaderLimits, s: Progress, rest: Bytes, consumed: nat)
    : Result<(Progress, Bytes), Error>
    decreases |rest|
  {
    match TakeLine(rest, limits.maxHeaderBytes, consumed)
    case None => Err(Limit)
    case Some((line, after)) =>
      if line == [] then Ok((s, after))
      else
        match Step(version, limits.maxEntries, s, line)
        case Err(e) => Err(e)
        case Ok(next) => ReadLines(version, limits, next, after, consumed + |line| + 1)
  }

  function VersionOf(line: Bytes): Option<Version>
  {
    if line == V2_SIGNATURE then Some(V2) else if line == V3_SIGNATURE then Some(V3) else None
  }

  function Finish(version: Version, s: Progress, pack: Bytes): Result<Bundle, Error>
  {
    if s.references == [] then Err(Malformed)
    else Ok(Bundle(version, s.format, s.prerequisites, s.references, s.filter, pack))
  }

  function Parsed(bytes: Bytes, limits: HeaderLimits): Result<Bundle, Error>
  {
    match TakeLine(bytes, limits.maxHeaderBytes, 0)
    case None => Err(Limit)
    case Some((line, after)) =>
      match VersionOf(line)
      case None => Err(Malformed)
      case Some(version) =>
        match ReadLines(version, limits, INITIAL, after, |line| + 1)
        case Err(e) => Err(e)
        case Ok((s, pack)) => Finish(version, s, pack)
  }

  method ParseWith(bytes: Bytes, limits: HeaderLimits) returns (r: Result<Bundle, Error>)
    ensures r == Parsed(bytes, limits)
  {
    hide TakeLine, Step;
    var first := TakeLine(bytes, limits.maxHeaderBytes, 0);
    if first.None? {
      return Err(Limit);
    }
    var version := VersionOf(first.value.0);
    if version.None? {
      return Err(Malformed);
    }
    var s := INITIAL;
    var rest := first.value.1;
    var consumed: nat := |first.value.0| + 1;
    while true
      invariant ReadLines(version.value, limits, INITIAL, first.value.1, |first.value.0| + 1)
             == ReadLines(version.value, limits, s, rest, consumed)
      decreases |rest|
    {
      var taken := TakeLine(rest, limits.maxHeaderBytes, consumed);
      if taken.None? {
        return Err(Limit);
      }
      var (line, after) := taken.value;
      rest := after;
      consumed := consumed + |line| + 1;
      if line == [] {
        break;
      }
      var next := Step(version.value, limits.maxEntries, s, line);
      if next.Err? {
        return Err(next.error);
      }
      s := next.value;
    }
    r := Finish(version.value, s, rest);
  }

  // What acceptance means.

  ghost predicate Good(maxEntries: nat, s: Progress)
  {
    && |s.prerequisites| + |s.references| <= maxEntries
    && (!s.records ==> s.prerequisites == [] && s.references == [])
    && (forall i :: 0 <= i < |s.prerequisites| ==> GoodId(s.format, s.prerequisites[i]))
    && (forall i :: 0 <= i < |s.references| ==>
          GoodId(s.format, s.references[i].id) && ValidRefName(s.references[i].name))
    && DistinctNames(s.references)
    && s.names == Names(s.references)
  }

  ghost predicate GoodId(format: ObjectFormat, id: ObjectId)
  {
    id.format == format && id.Valid() && !id.IsNull()
  }

  ghost predicate DistinctNames(references: seq<Reference>)
  {
    forall i, j :: 0 <= i < j < |references| ==> references[i].name != references[j].name
  }

  ghost function Names(references: seq<Reference>): set<Bytes>
  {
    set i | 0 <= i < |references| :: references[i].name
  }

  lemma NamesGrow(references: seq<Reference>, r: Reference)
    ensures Names(references + [r]) == Names(references) + {r.name}
    ensures DistinctNames(references + [r]) <==> DistinctNames(references) && r.name !in Names(references)
  {
    var more := references + [r];
    assert more[|references|] == r;
    assert forall i :: 0 <= i < |references| ==> more[i] == references[i];
    if DistinctNames(more) {
      assert forall i :: 0 <= i < |references| ==> references[i].name != more[|references|].name;
    }
  }

  lemma StepKeepsGood(version: Version, maxEntries: nat, s: Progress, line: Bytes)
    requires Good(maxEntries, s) && Step(version, maxEntries, s, line).Ok?
    ensures Good(maxEntries, Step(version, maxEntries, s, line).value)
  {
    hide ValidRefName, SplitOnce, NonNullId, Names, DistinctNames, ObjectId.IsNull, ObjectId.Valid;
    var next := Step(version, maxEntries, s, line).value;
    if |next.references| > |s.references| {
      NamesGrow(s.references, next.references[|s.references|]);
    }
  }

  lemma {:induction false} ReadIsGood(version: Version, limits: HeaderLimits, s: Progress, rest: Bytes, consumed: nat)
    requires Good(limits.maxEntries, s) && ReadLines(version, limits, s, rest, consumed).Ok?
    ensures var (last, pack) := ReadLines(version, limits, s, rest, consumed).value;
      && Good(limits.maxEntries, last)
      && |pack| < |rest|
      && consumed + |rest| - |pack| <= limits.maxHeaderBytes
      && rest[|rest| - |pack|..] == pack
    decreases |rest|
  {
    hide Good, Step, TakeLine, IndexOf;
    var (line, after) := TakeLine(rest, limits.maxHeaderBytes, consumed).value;
    if line != [] {
      StepKeepsGood(version, limits.maxEntries, s, line);
      ReadIsGood(version, limits, Step(version, limits.maxEntries, s, line).value, after, consumed + |line| + 1);
    }
  }

  /** An accepted header fits its limits, and names, identities and order obey the format. */
  lemma ParsedIsGood(bytes: Bytes, limits: HeaderLimits)
    requires Parsed(bytes, limits).Ok?
    ensures var b := Parsed(bytes, limits).value;
      && b.references != []
      && |b.prerequisites| + |b.references| <= limits.maxEntries
      && (forall i :: 0 <= i < |b.prerequisites| ==> GoodId(b.format, b.prerequisites[i]))
      && (forall i :: 0 <= i < |b.references| ==>
            GoodId(b.format, b.references[i].id) && ValidRefName(b.references[i].name))
      && DistinctNames(b.references)
      && |b.pack| <= |bytes| && bytes[|bytes| - |b.pack|..] == b.pack
      && |bytes| - |b.pack| <= limits.maxHeaderBytes
  {
    hide ReadLines, ValidRefName, ObjectId.IsNull, ObjectId.Valid;
    var (line, after) := TakeLine(bytes, limits.maxHeaderBytes, 0).value;
    ReadIsGood(VersionOf(line).value, limits, INITIAL, after, |line| + 1);
  }

  // Writing.

  function PrerequisiteLines(ids: seq<ObjectId>): seq<Bytes>
  {
    seq(|ids|, i requires 0 <= i < |ids| => [DASH] + Hex(ids[i].digest) + PREREQUISITE)
  }

  function ReferenceLines(references: seq<Reference>): seq<Bytes>
  {
    seq(|references|, i requires 0 <= i < |references| =>
      Hex(references[i].id.digest) + [SPACE] + references[i].name)
  }

  function OpeningLines(format: ObjectFormat): seq<Bytes>
  {
    match format
    case Sha1 => []
    case Sha256 => [[AT] + OBJECT_FORMAT + [EQUALS] + SHA256]
  }

  function VersionFor(format: ObjectFormat): Version
  {
    if format == Sha1 then V2 else V3
  }

  function SignatureOf(version: Version): Bytes
  {
    match version
    case V2 => V2_SIGNATURE
    case V3 => V3_SIGNATURE
  }

  function HeaderLines(format: ObjectFormat, prerequisites: seq<ObjectId>, references: seq<Reference>): seq<Bytes>
  {
    OpeningLines(format) + PrerequisiteLines(prerequisites) + ReferenceLines(references)
  }

  function HeaderText(format: ObjectFormat, prerequisites: seq<ObjectId>, references: seq<Reference>): Bytes
  {
    SignatureOf(VersionFor(format)) + [LF] + Terminated(HeaderLines(format, prerequisites, references)) + [LF]
  }

  /** The size that creation compares with its limit before it starts. */
  function HeaderBound(format: ObjectFormat, prerequisites: seq<ObjectId>, references: seq<Reference>): nat
  {
    128 + ReferenceBound(format, references) + |prerequisites| * (format.DigestLength() * 2 + 15)
  }

  function ReferenceBound(format: ObjectFormat, references: seq<Reference>): nat
  {
    if references == [] then 0
    else
      var last := references[|references| - 1];
      ReferenceBound(format, references[..|references| - 1]) + |last.name| + (format.DigestLength() * 2 + 2)
  }

  lemma {:induction false} PrerequisiteSize(format: ObjectFormat, ids: seq<ObjectId>)
    requires forall i :: 0 <= i < |ids| ==> GoodId(format, ids[i])
    ensures |Terminated(PrerequisiteLines(ids))| == |ids| * (format.DigestLength() * 2 + 15)
  {
    hide Hex, ObjectId.IsNull;
    if ids != [] {
      assert PrerequisiteLines(ids)[1..] == PrerequisiteLines(ids[1..]);
      PrerequisiteSize(format, ids[1..]);
      assert GoodId(format, ids[0]);
      var size := format.DigestLength() * 2 + 15;
      assert |ids| * size == |ids[1..]| * size + size;
    }
  }

  lemma {:induction false} ReferenceSize(format: ObjectFormat, references: seq<Reference>)
    requires forall i :: 0 <= i < |references| ==> GoodId(format, references[i].id)
    ensures |Terminated(ReferenceLines(references))| == ReferenceBound(format, references)
  {
    hide Hex, ObjectId.IsNull, Terminated;
    if references == [] {
      assert ReferenceLines(references) == [];
      TerminatedNone();
    } else {
      var n := |references| - 1;
      var line := Hex(references[n].id.digest) + [SPACE] + references[n].name;
      assert ReferenceLines(references) == ReferenceLines(references[..n]) + [line];
      TerminatedConcat(ReferenceLines(references[..n]), [line]);
      TerminatedOne(line);
      ReferenceSize(format, references[..n]);
      assert GoodId(format, references[n].id);
    }
  }

  lemma TerminatedNone()
    ensures Terminated([]) == []
  {
  }

  /** The bound creation computes is never below the header it writes. */
  lemma HeaderFits(format: ObjectFormat, prerequisites: seq<ObjectId>, references: seq<Reference>)
    requires forall i :: 0 <= i < |prerequisites| ==> GoodId(format, prerequisites[i])
    requires forall i :: 0 <= i < |references| ==> GoodId(format, references[i].id)
    ensures |HeaderText(format, prerequisites, references)| <= HeaderBound(format, prerequisites, references)
  {
    hide ObjectId.IsNull, ReferenceLines, PrerequisiteLines, Terminated, Hex;
    PrerequisiteSize(format, prerequisites);
    ReferenceSize(format, references);
    TerminatedNone();
    if format == Sha256 { TerminatedOne(OpeningLines(format)[0]); }
    TerminatedConcat(OpeningLines(format), PrerequisiteLines(prerequisites));
    TerminatedConcat(OpeningLines(format) + PrerequisiteLines(prerequisites), ReferenceLines(references));
  }

  // Reading back what was written.

  function StepLines(version: Version, maxEntries: nat, s: Progress, lines: seq<Bytes>): Result<Progress, Error>
    decreases |lines|
  {
    if lines == [] then Ok(s)
    else
      match Step(version, maxEntries, s, lines[0])
      case Err(e) => Err(e)
      case Ok(next) => StepLines(version, maxEntries, next, lines[1..])
  }

  lemma {:induction false} StepConcat(version: Version, maxEntries: nat, s: Progress, a: seq<Bytes>, b: seq<Bytes>)
    requires StepLines(version, maxEntries, s, a).Ok?
    ensures StepLines(version, maxEntries, s, a + b)
      == StepLines(version, maxEntries, StepLines(version, maxEntries, s, a).value, b)
    decreases |a|
  {
    hide Step;
    if a == [] {
      assert a + b == b;
    } else {
      assert (a + b)[1..] == a[1..] + b;
      StepConcat(version, maxEntries, Step(version, maxEntries, s, a[0]).value, a[1..], b);
    }
  }

  lemma TakeTerminated(line: Bytes, after: Bytes, maxHeaderBytes: nat, consumed: nat)
    requires LF !in line && consumed + |line| + 1 <= maxHeaderBytes
    ensures TakeLine(line + [LF] + after, maxHeaderBytes, consumed) == Some((line, after))
  {
    hide IndexOf;
    var rest := line + [LF] + after;
    var available := maxHeaderBytes - consumed;
    var size := if |rest| < available then |rest| else available;
    IndexOfConcat(line, LF, after[..size - |line| - 1]);
    assert rest[..size] == line + [LF] + after[..size - |line| - 1];
    assert rest[..|line|] == line && rest[|line| + 1..] == after;
  }

  lemma {:induction false} ReadTerminated(
    version: Version, limits: HeaderLimits, s: Progress, lines: seq<Bytes>, pack: Bytes, consumed: nat)
    requires Framed(lines) && consumed + |Terminated(lines)| + 1 <= limits.maxHeaderBytes
    requires StepLines(version, limits.maxEntries, s, lines).Ok?
    ensures ReadLines(version, limits, s, Terminated(lines) + [LF] + pack, consumed)
      == Ok((StepLines(version, limits.maxEntries, s, lines).value, pack))
    decreases |lines|
  {
    hide TakeLine, Step;
    if lines == [] {
      TakeTerminated([], pack, limits.maxHeaderBytes, consumed);
    } else {
      var next := Step(version, limits.maxEntries, s, lines[0]).value;
      var after := Terminated(lines[1..]) + [LF] + pack;
      assert Terminated(lines) + [LF] + pack == lines[0] + [LF] + after;
      TakeTerminated(lines[0], after, limits.maxHeaderBytes, consumed);
      ReadTerminated(version, limits, next, lines[1..], pack, consumed + |lines[0]| + 1);
    }
  }

  lemma IdIsRead(id: ObjectId)
    requires id.Valid() && !id.IsNull()
    ensures NonNullId(id.format, Hex(id.digest)) == Some(id)
    ensures SPACE !in Hex(id.digest) && LF !in Hex(id.digest) && DASH !in Hex(id.digest)
  {
    hide Hex, Unhex;
    HexRoundTrip(id.digest);
    HexIsPlain(id.digest, SPACE);
    HexIsPlain(id.digest, LF);
    HexIsPlain(id.digest, DASH);
  }

  lemma HexIsDigits(digest: Bytes)
    requires digest != []
    ensures Hex(digest) != [] && Hex(digest)[0] != AT
  {
  }

  ghost function WithPrerequisites(s: Progress, ids: seq<ObjectId>): Progress
  {
    if ids == [] then s else s.(records := true, prerequisites := s.prerequisites + ids)
  }

  lemma PrerequisiteIsRead(version: Version, maxEntries: nat, s: Progress, id: ObjectId)
    requires GoodId(s.format, id) && !s.refsStarted && |s.prerequisites| + |s.references| < maxEntries
    ensures Step(version, maxEntries, s, [DASH] + Hex(id.digest) + PREREQUISITE) == Ok(WithPrerequisites(s, [id]))
  {
    hide Hex, NonNullId, ObjectId.IsNull, ObjectId.Valid, ValidRefName, SplitOnce;
    var line := [DASH] + Hex(id.digest) + PREREQUISITE;
    IdIsRead(id);
    SplitOnceConcat(Hex(id.digest), SPACE, PREREQUISITE[1..]);
    assert line[1..] == Hex(id.digest) + [SPACE] + PREREQUISITE[1..];
  }

  lemma {:induction false} PrerequisitesAreRead(version: Version, maxEntries: nat, s: Progress, ids: seq<ObjectId>)
    requires forall i :: 0 <= i < |ids| ==> GoodId(s.format, ids[i])
    requires !s.refsStarted && |s.prerequisites| + |s.references| + |ids| <= maxEntries
    ensures StepLines(version, maxEntries, s, PrerequisiteLines(ids)) == Ok(WithPrerequisites(s, ids))
    decreases |ids|
  {
    hide Hex, Step, GoodId;
    if ids != [] {
      var next := WithPrerequisites(s, [ids[0]]);
      PrerequisiteIsRead(version, maxEntries, s, ids[0]);
      assert PrerequisiteLines(ids)[1..] == PrerequisiteLines(ids[1..]);
      PrerequisitesAreRead(version, maxEntries, next, ids[1..]);
      assert ids == [ids[0]] + ids[1..];
      assert WithPrerequisites(next, ids[1..]) == WithPrerequisites(s, ids);
    }
  }

  ghost function WithReferences(s: Progress, references: seq<Reference>): Progress
  {
    if references == [] then s
    else s.(records := true, refsStarted := true, names := s.names + Names(references), references := s.references + references)
  }

  lemma ReferenceIsRead(version: Version, maxEntries: nat, s: Progress, r: Reference)
    requires GoodId(s.format, r.id) && ValidRefName(r.name) && r.name !in s.names
    requires |s.prerequisites| + |s.references| < maxEntries
    ensures Step(version, maxEntries, s, Hex(r.id.digest) + [SPACE] + r.name) == Ok(WithReferences(s, [r]))
  {
    hide Hex, NonNullId, ObjectId.IsNull, ValidRefName;
    var line := Hex(r.id.digest) + [SPACE] + r.name;
    IdIsRead(r.id);
    HexIsDigits(r.id.digest);
    assert line[0] == Hex(r.id.digest)[0];
    SplitOnceConcat(Hex(r.id.digest), SPACE, r.name);
    assert Names([r]) == {r.name} by { assert [r][0] == r; }
  }

  lemma {:induction false} ReferencesAreRead(version: Version, maxEntries: nat, s: Progress, references: seq<Reference>)
    requires forall i :: 0 <= i < |references| ==>
      GoodId(s.format, references[i].id) && ValidRefName(references[i].name) && references[i].name !in s.names
    requires DistinctNames(references) && |s.prerequisites| + |s.references| + |references| <= maxEntries
    ensures StepLines(version, maxEntries, s, ReferenceLines(references)) == Ok(WithReferences(s, references))
    decreases |references|
  {
    hide Hex, Step, GoodId, ValidRefName, Names, DistinctNames;
    if references != [] {
      var first, others := references[0], references[1..];
      var next := WithReferences(s, [first]);
      ReferenceIsRead(version, maxEntries, s, first);
      assert ReferenceLines(references)[1..] == ReferenceLines(others);
      NamesSplit(references);
      ReferencesAreRead(version, maxEntries, next, others);
      WithReferencesStep(s, references);
    }
  }

  lemma WithReferencesStep(s: Progress, references: seq<Reference>)
    requires references != [] && DistinctNames(references)
    ensures WithReferences(WithReferences(s, [references[0]]), references[1..]) == WithReferences(s, references)
  {
    hide Names, DistinctNames;
    NamesSplit(references);
    if references[1..] == [] {
      assert references == [references[0]];
    }
    assert s.references + [references[0]] + references[1..] == s.references + references;
    assert s.names + {references[0].name} + Names(references[1..]) == s.names + Names(references);
  }

  lemma NamesSplit(references: seq<Reference>)
    requires references != [] && DistinctNames(references)
    ensures Names(references) == {references[0].name} + Names(references[1..])
    ensures Names([references[0]]) == {references[0].name}
    ensures DistinctNames(references[1..])
    ensures forall i :: 0 <= i < |references[1..]| ==> references[1..][i].name !in {references[0].name}
  {
    assert references == [references[0]] + references[1..];
    assert [references[0]][0] == references[0];
  }

  ghost predicate Writable(format: ObjectFormat, prerequisites: seq<ObjectId>, references: seq<Reference>)
  {
    && references != []
    && (forall i :: 0 <= i < |prerequisites| ==> GoodId(format, prerequisites[i]))
    && (forall i :: 0 <= i < |references| ==> GoodId(format, references[i].id) && ValidRefName(references[i].name))
    && DistinctNames(references)
  }

  lemma RecordsAreFramed(format: ObjectFormat, prerequisites: seq<ObjectId>, references: seq<Reference>)
    requires Writable(format, prerequisites, references)
    ensures Framed(PrerequisiteLines(prerequisites) + ReferenceLines(references))
  {
    hide Hex, NonNullId, ObjectId.IsNull, ObjectId.Valid, ValidRefName;
    forall i | 0 <= i < |prerequisites| ensures LF !in PrerequisiteLines(prerequisites)[i] {
      IdIsRead(prerequisites[i]);
    }
    forall i | 0 <= i < |references| ensures LF !in ReferenceLines(references)[i] {
      IdIsRead(references[i].id);
      NameIsPlain(references[i].name);
    }
  }

  lemma OpeningIsRead(format: ObjectFormat, maxEntries: nat)
    ensures StepLines(VersionFor(format), maxEntries, INITIAL, OpeningLines(format)).Ok?
    ensures var s := StepLines(VersionFor(format), maxEntries, INITIAL, OpeningLines(format)).value;
      s == INITIAL.(format := format, capabilities := s.capabilities)
  {
    if format == Sha256 {
      var line := OpeningLines(format)[0];
      assert line[1..] == OBJECT_FORMAT + [EQUALS] + SHA256;
      SplitOnceConcat(OBJECT_FORMAT, EQUALS, SHA256);
      assert OpeningLines(format)[1..] == [];
    }
  }

  /** A header of a version, with its capability lines. */
  function TextOf(version: Version, opening: seq<Bytes>, prerequisites: seq<ObjectId>, references: seq<Reference>): Bytes
  {
    SignatureOf(version) + [LF] + Terminated(opening + (PrerequisiteLines(prerequisites) + ReferenceLines(references))) + [LF]
  }

  /** Whatever its capability lines select, the rest of a header is read behind them. */
  lemma TextIsRead(version: Version, opening: seq<Bytes>, s: Progress, prerequisites: seq<ObjectId>,
                   references: seq<Reference>, pack: Bytes, limits: HeaderLimits)
    requires Framed(opening) && StepLines(version, limits.maxEntries, INITIAL, opening) == Ok(s)
    requires s == INITIAL.(format := s.format, filter := s.filter, capabilities := s.capabilities)
    requires Writable(s.format, prerequisites, references)
    requires |TextOf(version, opening, prerequisites, references)| <= limits.maxHeaderBytes
    requires |references| + |prerequisites| <= limits.maxEntries
    ensures Parsed(TextOf(version, opening, prerequisites, references) + pack, limits)
      == Ok(Bundle(version, s.format, prerequisites, references, s.filter, pack))
  {
    hide TakeLine, StepLines, ReadLines, GoodId, ValidRefName, Terminated, PrerequisiteLines, ReferenceLines, Framed;
    var records := PrerequisiteLines(prerequisites) + ReferenceLines(references);
    var lines, signature := opening + records, SignatureOf(version);
    RecordsAreFramed(s.format, prerequisites, references);
    FramedConcat(opening, records);
    RecordsAreRead(version, s, prerequisites, references, limits.maxEntries);
    StepConcat(version, limits.maxEntries, INITIAL, opening, records);
    var rest := Terminated(lines) + [LF] + pack;
    assert TextOf(version, opening, prerequisites, references) + pack == signature + [LF] + rest;
    TakeTerminated(signature, rest, limits.maxHeaderBytes, 0);
    assert VersionOf(signature) == Some(version);
    ReadTerminated(version, limits, INITIAL, lines, pack, |signature| + 1);
  }

  lemma FramedConcat(a: seq<Bytes>, b: seq<Bytes>)
    requires Framed(a) && Framed(b)
    ensures Framed(a + b)
  {
  }

  lemma RecordsAreRead(version: Version, s: Progress, prerequisites: seq<ObjectId>, references: seq<Reference>, maxEntries: nat)
    requires s == INITIAL.(format := s.format, filter := s.filter, capabilities := s.capabilities)
    requires Writable(s.format, prerequisites, references) && |references| + |prerequisites| <= maxEntries
    ensures var r := StepLines(version, maxEntries, s, PrerequisiteLines(prerequisites) + ReferenceLines(references));
      && r.Ok?
      && r.value.format == s.format && r.value.prerequisites == prerequisites
      && r.value.references == references && r.value.filter == s.filter
  {
    hide StepLines, GoodId, ValidRefName, PrerequisiteLines, ReferenceLines, DistinctNames, Names;
    PrerequisitesAreRead(version, maxEntries, s, prerequisites);
    ReferencesAreRead(version, maxEntries, WithPrerequisites(s, prerequisites), references);
    StepConcat(version, maxEntries, s, PrerequisiteLines(prerequisites), ReferenceLines(references));
    assert [] + prerequisites == prerequisites && [] + references == references;
  }

  /**
  Every header that creation may write is read back exactly, and the pack with it, by a parser
  with the limits that creation itself respected.
  */
  lemma RoundTrip(format: ObjectFormat, prerequisites: seq<ObjectId>, references: seq<Reference>, pack: Bytes,
                  limits: HeaderLimits)
    requires Writable(format, prerequisites, references)
    requires HeaderBound(format, prerequisites, references) <= limits.maxHeaderBytes
    requires |references| + |prerequisites| <= limits.maxEntries
    ensures Parsed(HeaderText(format, prerequisites, references) + pack, limits)
      == Ok(Bundle(VersionFor(format), format, prerequisites, references, None, pack))
  {
    hide StepLines, Parsed, HeaderBound, GoodId, ValidRefName, Terminated, PrerequisiteLines, ReferenceLines;
    var version, opening := VersionFor(format), OpeningLines(format);
    HeaderFits(format, prerequisites, references);
    OpeningIsRead(format, limits.maxEntries);
    var s := StepLines(version, limits.maxEntries, INITIAL, opening).value;
    assert opening + PrerequisiteLines(prerequisites) + ReferenceLines(references)
        == opening + (PrerequisiteLines(prerequisites) + ReferenceLines(references));
    TextIsRead(version, opening, s, prerequisites, references, pack, limits);
  }

  // Capabilities.

  datatype Capable = ObjectFormatIs(format: ObjectFormat) | FilterIs(value: Bytes) {

    predicate Valid()
    {
      this.FilterIs? ==> value != [] && LF !in value
    }

    function Line(): Bytes
    {
      [AT] + match this
             case ObjectFormatIs(f) => OBJECT_FORMAT + [EQUALS] + (match f case Sha1 => SHA1 case Sha256 => SHA256)
             case FilterIs(value) => FILTER + [EQUALS] + value
    }

    function Key(): Bytes
    {
      if this.FilterIs? then FILTER else OBJECT_FORMAT
    }

    /** What the capability changes. */
    ghost function Applied(s: Progress): Progress
    {
      var next := s.(capabilities := s.capabilities + {Key()});
      match this
      case ObjectFormatIs(f) => next.(format := f)
      case FilterIs(value) => next.(filter := Some(value))
    }
  }

  lemma KeysDiffer()
    ensures OBJECT_FORMAT != FILTER && SHA1 != SHA256 && EQUALS !in OBJECT_FORMAT && EQUALS !in FILTER
  {
    assert |OBJECT_FORMAT| != |FILTER| && |SHA1| != |SHA256|;
  }

  lemma CapabilityIsRead(maxEntries: nat, s: Progress, c: Capable)
    requires c.Valid() && !s.records && c.Key() !in s.capabilities
    ensures Step(V3, maxEntries, s, c.Line()) == Ok(c.Applied(s))
  {
    hide SplitOnce;
    KeysDiffer();
    var value := if c.FilterIs? then c.value else if c.format == Sha1 then SHA1 else SHA256;
    SplitOnceConcat(c.Key(), EQUALS, value);
    assert c.Line()[1..] == c.Key() + [EQUALS] + value;
  }

  /** No other capability line is accepted: not in version 2, after a record, repeated or unknown. */
  lemma OnlyCapabilities(version: Version, maxEntries: nat, s: Progress, line: Bytes)
    requires line != [] && line[0] == AT && LF !in line && Step(version, maxEntries, s, line).Ok?
    ensures version == V3 && !s.records
    ensures exists c: Capable :: c.Valid() && c.Line() == line && c.Key() !in s.capabilities
  {
    hide SplitOnce;
    KeysDiffer();
    var capability := line[1..];
    assert line == [AT] + capability;
    var pair := SplitOnce(capability, EQUALS);
    if pair.Some? {
      SplitOnceIs(capability, EQUALS);
      var (key, value) := pair.value;
      assert capability == key + [EQUALS] + value;
      var c := if key == FILTER then FilterIs(value) else ObjectFormatIs(if value == SHA1 then Sha1 else Sha256);
      assert c.Valid() && c.Line() == line && c.Key() == key;
    }
  }

  ghost predicate DistinctKeys(capable: seq<Capable>)
  {
    forall i, j :: 0 <= i < j < |capable| ==> capable[i].Key() != capable[j].Key()
  }

  function CapabilityLines(capable: seq<Capable>): seq<Bytes>
  {
    seq(|capable|, i requires 0 <= i < |capable| => capable[i].Line())
  }

  ghost function AllApplied(s: Progress, capable: seq<Capable>): Progress
    decreases |capable|
  {
    if capable == [] then s else AllApplied(capable[0].Applied(s), capable[1..])
  }

  lemma {:induction false} CapabilitiesAreRead(maxEntries: nat, s: Progress, capable: seq<Capable>)
    requires !s.records && DistinctKeys(capable)
    requires forall i :: 0 <= i < |capable| ==> capable[i].Valid() && capable[i].Key() !in s.capabilities
    ensures StepLines(V3, maxEntries, s, CapabilityLines(capable)) == Ok(AllApplied(s, capable))
    ensures AllApplied(s, capable)
      == s.(format := AllApplied(s, capable).format, filter := AllApplied(s, capable).filter,
            capabilities := AllApplied(s, capable).capabilities)
    decreases |capable|
  {
    hide Step, Capable.Line, Capable.Key;
    if capable != [] {
      var next := capable[0].Applied(s);
      CapabilityIsRead(maxEntries, s, capable[0]);
      assert CapabilityLines(capable)[1..] == CapabilityLines(capable[1..]);
      CapabilitiesAreRead(maxEntries, next, capable[1..]);
    }
  }

  /** The format and filter that capability lines select, in whatever order they come. */
  lemma {:induction false} CapabilitiesSelect(s: Progress, capable: seq<Capable>)
    requires DistinctKeys(capable)
    ensures forall f :: ObjectFormatIs(f) in capable ==> AllApplied(s, capable).format == f
    ensures (forall c :: c in capable ==> c.FilterIs?) ==> AllApplied(s, capable).format == s.format
    ensures forall value :: FilterIs(value) in capable ==> AllApplied(s, capable).filter == Some(value)
    ensures (forall c :: c in capable ==> c.ObjectFormatIs?) ==> AllApplied(s, capable).filter == s.filter
    decreases |capable|
  {
    hide Capable.Line;
    if capable != [] {
      var first, others := capable[0], capable[1..];
      KeysDiffer();
      CapabilitiesSelect(first.Applied(s), others);
      assert capable == [first] + others;
      assert forall i :: 0 <= i < |others| ==> others[i] == capable[i + 1];
      assert forall c :: c in others ==> c.Key() != first.Key();
    }
  }

  /** A version 3 header with any capabilities is read back, with the format and filter they select. */
  lemma CapableRoundTrip(capable: seq<Capable>, prerequisites: seq<ObjectId>, references: seq<Reference>, pack: Bytes,
                         limits: HeaderLimits)
    requires DistinctKeys(capable) && forall i :: 0 <= i < |capable| ==> capable[i].Valid()
    requires Writable(AllApplied(INITIAL, capable).format, prerequisites, references)
    requires |TextOf(V3, CapabilityLines(capable), prerequisites, references)| <= limits.maxHeaderBytes
    requires |references| + |prerequisites| <= limits.maxEntries
    ensures var s := AllApplied(INITIAL, capable);
      Parsed(TextOf(V3, CapabilityLines(capable), prerequisites, references) + pack, limits)
        == Ok(Bundle(V3, s.format, prerequisites, references, s.filter, pack))
  {
    hide Parsed, StepLines, TextOf, AllApplied, Writable;
    CapabilitiesAreRead(limits.maxEntries, INITIAL, capable);
    TextIsRead(V3, CapabilityLines(capable), AllApplied(INITIAL, capable), prerequisites, references, pack, limits);
  }

  // What an accepted header looks like.

  lemma KeywordsAreSpelled()
    ensures Ascii(V2_SIGNATURE, "# v2 git bundle") && Ascii(V3_SIGNATURE, "# v3 git bundle")
    ensures Ascii(OBJECT_FORMAT, "object-format") && Ascii(SHA1, "sha1") && Ascii(SHA256, "sha256") && Ascii(FILTER, "filter")
    ensures Ascii([AT], "@") && Ascii([DASH], "-") && Ascii(PREREQUISITE, " prerequisite")
  {
  }

  /** A line that names an object: its digits, a space and some text. */
  ghost predicate NamesObject(line: Bytes, id: ObjectId, text: Bytes)
  {
    exists raw :: SPACE !in raw && line == raw + [SPACE] + text && NonNullId(id.format, raw) == Some(id)
  }

  ghost predicate IsPrerequisite(line: Bytes, id: ObjectId)
  {
    line != [] && line[0] == DASH && exists text :: NamesObject(line[1..], id, text)
  }

  ghost predicate IsReference(line: Bytes, r: Reference)
  {
    line != [] && line[0] != DASH && NamesObject(line, r.id, r.name)
  }

  /** What has been read so far are these capabilities, then these prerequisites, then these references. */
  ghost predicate Shaped(version: Version, s: Progress, capable: seq<Capable>, first: seq<Bytes>, second: seq<Bytes>)
  {
    && (version == V2 ==> capable == []) && DistinctKeys(capable)
    && (forall i :: 0 <= i < |capable| ==> capable[i].Valid())
    && (forall key :: key in s.capabilities <==> exists i :: 0 <= i < |capable| && capable[i].Key() == key)
    && s.format == AllApplied(INITIAL, capable).format && s.filter == AllApplied(INITIAL, capable).filter
    && (s.records <==> first != [] || second != []) && (s.refsStarted <==> second != [])
    && |first| == |s.prerequisites| && |second| == |s.references|
    && (forall i :: 0 <= i < |first| ==> IsPrerequisite(first[i], s.prerequisites[i]))
    && (forall i :: 0 <= i < |second| ==> IsReference(second[i], s.references[i]))
  }

  lemma {:induction false} AppliedLast(s: Progress, capable: seq<Capable>, c: Capable)
    ensures AllApplied(s, capable + [c]) == c.Applied(AllApplied(s, capable))
    decreases |capable|
  {
    hide Capable.Applied;
    if capable == [] {
      assert [c][1..] == [];
    } else {
      assert (capable + [c])[1..] == capable[1..] + [c];
      AppliedLast(capable[0].Applied(s), capable[1..], c);
    }
  }

  lemma CapabilityShapes(version: Version, maxEntries: nat, s: Progress, line: Bytes, capable: seq<Capable>) returns (c: Capable)
    requires Shaped(version, s, capable, [], []) && line != [] && line[0] == AT && LF !in line
    requires Step(version, maxEntries, s, line).Ok?
    ensures c.Line() == line && Shaped(version, Step(version, maxEntries, s, line).value, capable + [c], [], [])
  {
    hide Step, Capable.Line, AllApplied;
    OnlyCapabilities(version, maxEntries, s, line);
    c :| c.Valid() && c.Line() == line && c.Key() !in s.capabilities;
    CapabilityIsRead(maxEntries, s, c);
    AppliedLast(INITIAL, capable, c);
    var more := capable + [c];
    assert more[|capable|] == c;
    forall key ensures key in s.capabilities + {c.Key()} <==> exists i :: 0 <= i < |more| && more[i].Key() == key {
      if key in s.capabilities {
        var i :| 0 <= i < |capable| && capable[i].Key() == key;
        assert more[i].Key() == key;
      }
    }
    assert forall i :: 0 <= i < |capable| ==> capable[i].Key() != c.Key();
  }

  lemma RecordShapes(version: Version, maxEntries: nat, s: Progress, line: Bytes, capable: seq<Capable>,
                     first: seq<Bytes>, second: seq<Bytes>)
    requires Shaped(version, s, capable, first, second) && line != [] && line[0] != AT
    requires Step(version, maxEntries, s, line).Ok?
    ensures var next := Step(version, maxEntries, s, line).value;
      if line[0] == DASH then second == [] && Shaped(version, next, capable, first + [line], [])
      else Shaped(version, next, capable, first, second + [line])
  {
    hide NonNullId, ValidRefName, AllApplied, SplitOnce, DistinctKeys;
    var record := if line[0] == DASH then line[1..] else line;
    SplitOnceIs(record, SPACE);
    var (raw, text) := SplitOnce(record, SPACE).value;
    var id := NonNullId(s.format, raw).value;
    assert NamesObject(record, id, text);
  }

  lemma TakeLineIsPlain(rest: Bytes, maxHeaderBytes: nat, consumed: nat)
    requires TakeLine(rest, maxHeaderBytes, consumed).Some?
    ensures LF !in TakeLine(rest, maxHeaderBytes, consumed).value.0
  {
    hide IndexOf;
    var available := if consumed <= maxHeaderBytes then maxHeaderBytes - consumed else 0;
    var window := rest[..if |rest| < available then |rest| else available];
    assert rest[..IndexOf(window, LF)] == window[..IndexOf(window, LF)];
  }

  ghost function AllLines(capable: seq<Capable>, first: seq<Bytes>, second: seq<Bytes>): seq<Bytes>
  {
    CapabilityLines(capable) + first + second
  }

  lemma {:induction false} ReadIsShaped(version: Version, limits: HeaderLimits, s: Progress, rest: Bytes, consumed: nat,
                                        capable: seq<Capable>, first: seq<Bytes>, second: seq<Bytes>)
    returns (capable': seq<Capable>, first': seq<Bytes>, second': seq<Bytes>)
    requires Shaped(version, s, capable, first, second) && ReadLines(version, limits, s, rest, consumed).Ok?
    ensures var (last, pack) := ReadLines(version, limits, s, rest, consumed).value;
      && Shaped(version, last, capable', first', second')
      && Terminated(AllLines(capable', first', second')) + [LF] + pack == Terminated(AllLines(capable, first, second)) + rest
    decreases |rest|
  {
    hide Shaped, Step, TakeLine, Terminated, Capable.Line;
    var (line, after) := TakeLine(rest, limits.maxHeaderBytes, consumed).value;
    var lines := AllLines(capable, first, second);
    if line == [] {
      capable', first', second' := capable, first, second;
      assert [] + [LF] + after == [LF] + after;
      Associate(Terminated(lines), [LF], after);
    } else {
      TakeLineIsPlain(rest, limits.maxHeaderBytes, consumed);
      var next := Step(version, limits.maxEntries, s, line).value;
      capable', first', second' := LineShapes(version, limits.maxEntries, s, line, capable, first, second);
      assert AllLines(capable', first', second') == lines + [line];
      TerminatedConcat(lines, [line]);
      TerminatedOne(line);
      Associate(Terminated(lines), line + [LF], after);
      capable', first', second' :=
        ReadIsShaped(version, limits, next, after, consumed + |line| + 1, capable', first', second');
    }
  }

  lemma LineShapes(version: Version, maxEntries: nat, s: Progress, line: Bytes, capable: seq<Capable>,
                   first: seq<Bytes>, second: seq<Bytes>)
    returns (capable': seq<Capable>, first': seq<Bytes>, second': seq<Bytes>)
    requires Shaped(version, s, capable, first, second) && line != [] && LF !in line
    requires Step(version, maxEntries, s, line).Ok?
    ensures Shaped(version, Step(version, maxEntries, s, line).value, capable', first', second')
    ensures AllLines(capable', first', second') == AllLines(capable, first, second) + [line]
  {
    hide Step, Capable.Line, Capable.Key, AllApplied;
    capable', first', second' := capable, first, second;
    if line[0] == AT {
      OnlyCapabilities(version, maxEntries, s, line);
      assert first == [] && second == [];
      var c := CapabilityShapes(version, maxEntries, s, line, capable);
      capable' := capable + [c];
      assert CapabilityLines(capable') == CapabilityLines(capable) + [line];
    } else {
      RecordShapes(version, maxEntries, s, line, capable, first, second);
      if line[0] == DASH { first' := first + [line]; } else { second' := second + [line]; }
    }
  }

  /**
  An accepted input is a signature, distinct capabilities that select the format and filter, then
  the prerequisites, then the references, an empty line and the pack.
  */
  lemma ParsedIsShaped(bytes: Bytes, limits: HeaderLimits)
    returns (s: Progress, capable: seq<Capable>, first: seq<Bytes>, second: seq<Bytes>)
    requires Parsed(bytes, limits).Ok?
    ensures var b := Parsed(bytes, limits).value;
      && Shaped(b.version, s, capable, first, second)
      && b == Bundle(b.version, s.format, s.prerequisites, s.references, s.filter, b.pack)
      && bytes == SignatureOf(b.version) + [LF] + (Terminated(AllLines(capable, first, second)) + [LF] + b.pack)
  {
    hide Shaped, ReadLines, TakeLine, Terminated;
    var (line, after) := TakeLine(bytes, limits.maxHeaderBytes, 0).value;
    var version := VersionOf(line).value;
    StartIsShaped(version);
    capable, first, second := ReadIsShaped(version, limits, INITIAL, after, |line| + 1, [], [], []);
    s := ReadLines(version, limits, INITIAL, after, |line| + 1).value.0;
    assert AllLines([], [], []) == [];
    TerminatedNone();
    assert [] + after == after;
  }

  lemma StartIsShaped(version: Version)
    ensures Shaped(version, INITIAL, [], [], [])
  {
  }
}
