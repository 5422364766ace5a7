/** Bundle creation: the collected pack behind the header that announces it. */
module BundleFile {

  import opened Bytes
  import opened ByteStrings
  import C = BundleClosure
  import opened H = BundleHeader
  import opened Objects
  import opened Options
  import opened RefNames
  import opened Sets

  datatype CreateError = ShallowSource | NoReferences | HeaderLimit | EntryLimit | Collecting(failure: C.Failure) | Packing | BadReference

  datatype CreateLimits = CreateLimits(collecting: C.Limits, maxHeaderBytes: nat)

  function Tips(references: seq<Reference>): seq<ObjectId>
  {
    seq(|references|, i requires 0 <= i < |references| => references[i].id)
  }

  /** Identities are digests of content, so a stored object has its store's format and is never null. */
  ghost predicate HashedStore(format: ObjectFormat, store: C.Store)
  {
    forall id :: id in store ==> GoodId(format, id)
  }

  ghost function Packed(store: C.Store, prerequisites: seq<ObjectId>, references: seq<Reference>): set<ObjectId>
  {
    C.Packed(store, SetOf(prerequisites), SetOf(Tips(references)))
  }

  /** What the caller must supply for a bundle to be made. */
  ghost predicate Creatable(format: ObjectFormat, store: C.Store, shallow: bool, references: seq<Reference>,
                            prerequisites: seq<ObjectId>, limits: CreateLimits, pack: set<ObjectId> -> Option<Bytes>)
  {
    && !shallow
    && references != []
    && HeaderBound(format, prerequisites, references) <= limits.maxHeaderBytes
    && |references| + |prerequisites| <= limits.collecting.maxObjects
    && C.Bundleable(store, SetOf(prerequisites), SetOf(Tips(references)), limits.collecting)
    && Packed(store, prerequisites, references) != {}
    && pack(Packed(store, prerequisites, references)).Some?
    && DistinctNames(references)
  }

  /** What a refusal says about the inputs. */
  ghost predicate Refuses(format: ObjectFormat, store: C.Store, shallow: bool, references: seq<Reference>,
                          prerequisites: seq<ObjectId>, limits: CreateLimits, pack: set<ObjectId> -> Option<Bytes>,
                          e: CreateError)
  {
    match e
    case ShallowSource => shallow
    case NoReferences => references == []
    case HeaderLimit => HeaderBound(format, prerequisites, references) > limits.maxHeaderBytes
    case EntryLimit => |references| + |prerequisites| > limits.collecting.maxObjects
    case Collecting(f) => C.Explains(store, SetOf(prerequisites), SetOf(Tips(references)), limits.collecting, f)
    case Packing => pack(Packed(store, prerequisites, references)).None?
    case BadReference => !DistinctNames(references)
  }

  /** Every listed identity was visited, so it is stored. */
  lemma ListedAreStored(format: ObjectFormat, store: C.Store, references: seq<Reference>, prerequisites: seq<ObjectId>,
                        limits: C.Limits)
    requires HashedStore(format, store)
    requires C.Bundleable(store, SetOf(prerequisites), SetOf(Tips(references)), limits)
    ensures forall i :: 0 <= i < |prerequisites| ==> GoodId(format, prerequisites[i])
    ensures forall i :: 0 <= i < |references| ==> GoodId(format, references[i].id)
  {
    hide GoodId;
    C.ClosureWithin(store, SetOf(prerequisites), SetOf(Tips(references)));
    forall i | 0 <= i < |prerequisites| ensures GoodId(format, prerequisites[i]) {
      assert prerequisites[i] in SetOf(prerequisites);
    }
    forall i | 0 <= i < |references| ensures GoodId(format, references[i].id) {
      assert Tips(references)[i] in SetOf(Tips(references));
    }
  }

  method SizeBound(format: ObjectFormat, prerequisites: seq<ObjectId>, references: seq<Reference>) returns (total: nat)
    ensures total == HeaderBound(format, prerequisites, references)
  {
    total := 128;
    var i := 0;
    while i < |references|
      invariant i <= |references|
      invariant total == 128 + ReferenceBound(format, references[..i])
    {
      assert references[..i + 1][..i] == references[..i];
      total := total + |references[i].name| + (format.DigestLength() * 2 + 2);
      i := i + 1;
    }
    assert references[..i] == references;
    total := total + |prerequisites| * (format.DigestLength() * 2 + 15);
  }

  ghost predicate AllOf(format: ObjectFormat, references: seq<Reference>)
  {
    forall i :: 0 <= i < |references| ==> references[i].id.format == format
  }

  /** The signature, the capability a SHA-256 bundle needs, and the prerequisites. */
  method WriteOpening(format: ObjectFormat, prerequisites: seq<ObjectId>) returns (output: Bytes)
    ensures output == SignatureOf(VersionFor(format)) + [LF]
      + Terminated(OpeningLines(format) + PrerequisiteLines(prerequisites))
  {
    hide *;
    output := Opening(format);
    StartOfHeader(format, prerequisites);
    var i := 0;
    while i < |prerequisites|
      invariant i <= |prerequisites|
      invariant output == SignatureOf(VersionFor(format)) + [LF]
                          + Terminated(OpeningLines(format) + PrerequisiteLines(prerequisites[..i]))
    {
      var line := [DASH] + Hex(prerequisites[i].digest) + PREREQUISITE;
      PrerequisitesGrow(format, prerequisites, i);
      output := output + line + [LF];
      i := i + 1;
    }
    assert prerequisites[..i] == prerequisites;
  }

  /** Writes the header up to its blank line, or stops at a foreign identity or a repeated name. */
  method WriteHeader(format: ObjectFormat, prerequisites: seq<ObjectId>, references: seq<Reference>)
    returns (r: Option<Bytes>)
    ensures r.Some? <==> DistinctNames(references) && AllOf(format, references)
    ensures r.Some? ==> r.value == HeaderText(format, prerequisites, references)
  {
    hide *;
    var output := WriteOpening(format, prerequisites);
    var names := {};
    var i := 0;
    StartOfReferences(format, prerequisites, references);
    while i < |references|
      invariant i <= |references|
      invariant names == Names(references[..i]) && DistinctNames(references[..i]) && AllOf(format, references[..i])
      invariant output == SignatureOf(VersionFor(format)) + [LF] + Terminated(HeaderLines(format, prerequisites, references[..i]))
    {
      ReferencesGrow(format, prerequisites, references, i);
      if references[i].id.format != format || references[i].name in names {
        BadReferenceStops(format, references, i);
        return None;
      }
      names := names + {references[i].name};
      output := output + Hex(references[i].id.digest) + [SPACE] + references[i].name + [LF];
      i := i + 1;
    }
    assert references[..i] == references;
    output := output + [LF];
    HeaderIsWritten(format, prerequisites, references);
    r := Some(output);
  }

  lemma HeaderIsWritten(format: ObjectFormat, prerequisites: seq<ObjectId>, references: seq<Reference>)
    ensures SignatureOf(VersionFor(format)) + [LF] + Terminated(HeaderLines(format, prerequisites, references)) + [LF]
      == HeaderText(format, prerequisites, references)
  {
  }

  lemma BadReferenceStops(format: ObjectFormat, references: seq<Reference>, i: nat)
    requires i < |references|
    requires references[i].id.format != format || references[i].name in Names(references[..i])
    ensures !(DistinctNames(references) && AllOf(format, references))
  {
    if references[i].id.format == format {
      var j :| 0 <= j < i && references[..i][j].name == references[i].name;
      assert references[j].name == references[i].name;
    }
  }

  lemma StartOfReferences(format: ObjectFormat, prerequisites: seq<ObjectId>, references: seq<Reference>)
    ensures HeaderLines(format, prerequisites, references[..0]) == OpeningLines(format) + PrerequisiteLines(prerequisites)
    ensures Names(references[..0]) == {} && DistinctNames(references[..0]) && AllOf(format, references[..0])
  {
    hide PrerequisiteLines, OpeningLines;
  }

  function Opening(format: ObjectFormat): Bytes
  {
    match format
    case Sha1 => V2_SIGNATURE + [LF]
    case Sha256 => V3_SIGNATURE + [LF] + ([AT] + OBJECT_FORMAT + [EQUALS] + SHA256) + [LF]
  }

  lemma StartOfHeader(format: ObjectFormat, prerequisites: seq<ObjectId>)
    ensures Opening(format) == SignatureOf(VersionFor(format)) + [LF]
      + Terminated(OpeningLines(format) + PrerequisiteLines(prerequisites[..0]))
  {
    hide Terminated;
    TerminatedNone();
    TerminatedOne(OpeningLines(Sha256)[0]);
    assert OpeningLines(format) + PrerequisiteLines(prerequisites[..0]) == OpeningLines(format);
  }

  lemma PrerequisitesGrow(format: ObjectFormat, prerequisites: seq<ObjectId>, i: nat)
    requires i < |prerequisites|
    ensures var start := SignatureOf(VersionFor(format)) + [LF];
      start + Terminated(OpeningLines(format) + PrerequisiteLines(prerequisites[..i + 1]))
      == start + Terminated(OpeningLines(format) + PrerequisiteLines(prerequisites[..i]))
         + ([DASH] + Hex(prerequisites[i].digest) + PREREQUISITE) + [LF]
  {
    hide Hex, Terminated, OpeningLines, SignatureOf;
    var line := [DASH] + Hex(prerequisites[i].digest) + PREREQUISITE;
    var before := OpeningLines(format) + PrerequisiteLines(prerequisites[..i]);
    assert OpeningLines(format) + PrerequisiteLines(prerequisites[..i + 1]) == before + [line];
    TerminatedConcat(before, [line]);
    TerminatedOne(line);
  }

  lemma ReferencesGrow(format: ObjectFormat, prerequisites: seq<ObjectId>, references: seq<Reference>, i: nat)
    requires i < |references|
    ensures Terminated(HeaderLines(format, prerequisites, references[..i + 1]))
      == Terminated(HeaderLines(format, prerequisites, references[..i]))
         + (Hex(references[i].id.digest) + [SPACE] + references[i].name) + [LF]
    ensures Names(references[..i + 1]) == Names(references[..i]) + {references[i].name}
    ensures DistinctNames(references[..i + 1]) <==>
      DistinctNames(references[..i]) && references[i].name !in Names(references[..i])
    ensures AllOf(format, references[..i + 1]) <==> AllOf(format, references[..i]) && references[i].id.format == format
  {
    hide Hex, Terminated, OpeningLines, PrerequisiteLines, Names, DistinctNames;
    NamesGrow(references[..i], references[i]);
    assert references[..i + 1] == references[..i] + [references[i]];
    var line := Hex(references[i].id.digest) + [SPACE] + references[i].name;
    var before := HeaderLines(format, prerequisites, references[..i]);
    assert HeaderLines(format, prerequisites, references[..i + 1]) == before + [line];
    TerminatedConcat(before, [line]);
    TerminatedOne(line);
  }

  /**
  A bundle is made exactly when its inputs allow one, and then a parser with the same limits
  reads back the inputs and the pack of closure(tips) minus closure(prerequisites).
  */
  method Create(format: ObjectFormat, store: C.Store, shallow: bool, references: seq<Reference>,
                prerequisites: seq<ObjectId>, limits: CreateLimits, pack: set<ObjectId> -> Option<Bytes>)
    returns (r: Result<Bytes, CreateError>)
    requires HashedStore(format, store)
    requires forall i :: 0 <= i < |references| ==> ValidRefName(references[i].name)
    ensures r.Ok? <==> Creatable(format, store, shallow, references, prerequisites, limits, pack)
    ensures r.Err? ==> Refuses(format, store, shallow, references, prerequisites, limits, pack, r.error)
    ensures r.Ok? ==>
      Parsed(r.value, HeaderLimits(limits.maxHeaderBytes, limits.collecting.maxObjects))
      == Ok(Bundle(VersionFor(format), format, prerequisites, references, None,
                   pack(Packed(store, prerequisites, references)).value))
  {
    hide C.Bundleable, HeaderBound, DistinctNames, HeaderText, Parsed, HashedStore, GoodId, ValidRefName, C.Packed, SetOf, Tips, AllOf, C.Explains;
    if shallow {
      return Err(ShallowSource);
    }
    if references == [] {
      return Err(NoReferences);
    }
    var size := SizeBound(format, prerequisites, references);
    if size > limits.maxHeaderBytes {
      return Err(HeaderLimit);
    }
    if |references| + |prerequisites| > limits.collecting.maxObjects {
      return Err(EntryLimit);
    }
    var retained := C.Collect(store, prerequisites, Tips(references), limits.collecting);
    if retained.Err? {
      return Err(Collecting(retained.error));
    }
    ListedAreStored(format, store, references, prerequisites, limits.collecting);
    var body := pack(retained.value);
    if body.None? {
      return Err(Packing);
    }
    FormatsAgree(format, references);
    var header := WriteHeader(format, prerequisites, references);
    if header.None? {
      return Err(BadReference);
    }
    RoundTrip(format, prerequisites, references, body.value,
              HeaderLimits(limits.maxHeaderBytes, limits.collecting.maxObjects));
    r := Ok(header.value + body.value);
  }

  lemma FormatsAgree(format: ObjectFormat, references: seq<Reference>)
    requires forall i :: 0 <= i < |references| ==> GoodId(format, references[i].id)
    ensures AllOf(format, references)
  {
  }
}
