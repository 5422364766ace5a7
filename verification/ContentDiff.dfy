/** The whole comparison of two payloads: classification, line tables, search and compaction. */
module ContentDiff {

  import opened Bytes
  import opened EditGraph
  import opened LineTable
  import Myers
  import Compaction

  datatype BinaryMode = Auto | Text | Binary

  /** One change as line ranges and as the byte ranges they occupy. */
  datatype ContentEdit = ContentEdit(lines: Edit, bytes: Edit)

  datatype Outcome = Unchanged | BinaryChange | TextChange(edits: seq<ContentEdit>) | LimitExceeded

  ghost function LineEdits(edits: seq<ContentEdit>): seq<Edit>
  {
    seq(|edits|, i requires 0 <= i < |edits| => edits[i].lines)
  }

  ghost function ByteEdits(edits: seq<ContentEdit>): seq<Edit>
  {
    seq(|edits|, i requires 0 <= i < |edits| => edits[i].bytes)
  }

  /** No deleted and inserted lines that leave the same lines are fewer than `cost`. */
  ghost predicate Least(a: seq<Line>, b: seq<Line>, cost: int)
  {
    forall removed: seq<bool>, added: seq<bool> ::
      |removed| == |a| && |added| == |b| && Kept(a, removed) == Kept(b, added)
      ==> cost <= Marked(removed) + Marked(added)
  }

  lemma ShortestIsLeast(a: seq<Line>, b: seq<Line>)
    ensures Least(a, b, Distance(a, b, |a|, |b|))
  {
    forall removed: seq<bool>, added: seq<bool> |
      |removed| == |a| && |added| == |b| && Kept(a, removed) == Kept(b, added)
      ensures Distance(a, b, |a|, |b|) <= Marked(removed) + Marked(added)
    {
      assert a[..|removed|] == a && b[..|added|] == b;
      DistanceIsLeast(a, b, removed, added);
    }
  }

  function ByteSpan(was: Lines, now: Lines, e: Edit): Edit
    requires e.oldStart <= |was.ends| && e.oldEnd <= |was.ends| && e.newStart <= |now.ends| && e.newEnd <= |now.ends|
  {
    Edit(was.Offset(e.oldStart), was.Offset(e.oldEnd), now.Offset(e.newStart), now.Offset(e.newEnd))
  }

  lemma {:induction false} ChainSpans(was: Lines, now: Lines, es: seq<Edit>, x: nat, y: nat)
    requires was.Valid() && now.Valid()
    requires Chain(was.View(), now.View(), es, x, y, |was.ends|, |now.ends|)
    ensures x <= |was.ends| && y <= |now.ends|
    ensures forall e :: e in es ==> e.oldStart <= e.oldEnd <= |was.ends| && e.newStart <= e.newEnd <= |now.ends|
    decreases |es|
  {
    if es != [] {
      ChainSpans(was, now, es[1..], es[0].oldEnd, es[0].newEnd);
    }
  }

  /** Equal gaps between lines are equal gaps between bytes. */
  lemma {:induction false} ChainToBytes(was: Lines, now: Lines, es: seq<Edit>, bs: seq<Edit>, x: nat, y: nat)
    requires was.Valid() && now.Valid() && |es| == |bs| && x <= |was.ends| && y <= |now.ends|
    requires Chain(was.View(), now.View(), es, x, y, |was.ends|, |now.ends|)
    requires forall e :: e in es ==> e.oldStart <= e.oldEnd <= |was.ends| && e.newStart <= e.newEnd <= |now.ends|
    requires forall i :: 0 <= i < |es| ==> es[i] in es && bs[i] == ByteSpan(was, now, es[i])
    ensures Chain(was.bytes, now.bytes, bs, was.Offset(x), now.Offset(y), |was.bytes|, |now.bytes|)
    decreases |es|
  {
    hide Lines.Valid, Lines.View, Flatten;
    if es == [] {
      was.LastOffset();
      now.LastOffset();
      was.RangeIsFlatten(x, |was.ends|);
      now.RangeIsFlatten(y, |now.ends|);
    } else {
      var e := es[0];
      was.RangeIsFlatten(x, e.oldStart);
      now.RangeIsFlatten(y, e.newStart);
      was.RangeIsFlatten(e.oldStart, e.oldEnd);
      now.RangeIsFlatten(e.newStart, e.newEnd);
      assert forall i :: 0 <= i < |es| - 1 ==> es[1..][i] == es[i + 1] && bs[1..][i] == bs[i + 1];
      ChainToBytes(was, now, es[1..], bs[1..], e.oldEnd, e.newEnd);
    }
  }

  ghost function Length(lines: seq<Line>): nat
  {
    |Flatten(lines)|
  }

  /** The byte ranges of an edit are those of its lines. */
  ghost predicate Located(a: seq<Line>, b: seq<Line>, e: ContentEdit)
  {
    var lines := e.lines;
    && lines.oldStart <= lines.oldEnd <= |a| && lines.newStart <= lines.newEnd <= |b|
    && e.bytes == Edit(Length(a[..lines.oldStart]), Length(a[..lines.oldEnd]),
                       Length(b[..lines.newStart]), Length(b[..lines.newEnd]))
  }

  lemma SpanIsLocated(was: Lines, now: Lines, e: Edit)
    requires was.Valid() && now.Valid()
    requires e.oldStart <= e.oldEnd <= |was.ends| && e.newStart <= e.newEnd <= |now.ends|
    ensures Located(was.View(), now.View(), ContentEdit(e, ByteSpan(was, now, e)))
  {
    hide Lines.Valid, Lines.View, Flatten;
    was.OffsetIsLength(e.oldStart);
    was.OffsetIsLength(e.oldEnd);
    now.OffsetIsLength(e.newStart);
    now.OffsetIsLength(e.newEnd);
  }

  /** Adds byte ranges to line edits. */
  method Locate(was: Lines, now: Lines, es: seq<Edit>) returns (edits: seq<ContentEdit>)
    requires was.Valid() && now.Valid()
    requires Chain(was.View(), now.View(), es, 0, 0, |was.ends|, |now.ends|)
    ensures LineEdits(edits) == es
    ensures Chain(was.bytes, now.bytes, ByteEdits(edits), 0, 0, |was.bytes|, |now.bytes|)
    ensures forall i :: 0 <= i < |edits| ==>
      Located(was.View(), now.View(), edits[i]) && edits[i].bytes == ByteSpan(was, now, edits[i].lines)
  {
    hide Lines.Valid, Lines.View, Chain, Located;
    edits := [];
    ChainSpans(was, now, es, 0, 0);
    for i := 0 to |es|
      invariant |edits| == i
      invariant forall j :: 0 <= j < i ==> es[j] in es && edits[j] == ContentEdit(es[j], ByteSpan(was, now, es[j]))
      invariant forall j :: 0 <= j < i ==> Located(was.View(), now.View(), edits[j])
    {
      assert es[i] in es;
      SpanIsLocated(was, now, es[i]);
      edits := edits + [ContentEdit(es[i], ByteSpan(was, now, es[i]))];
    }
    ChainToBytes(was, now, es, ByteEdits(edits), 0, 0);
  }

  ghost predicate ComparesText(old0: Bytes, new0: Bytes, mode: BinaryMode)
  {
    old0 != new0 && !mode.Binary? && (mode.Auto? ==> 0 !in old0 && 0 !in new0)
  }

  /** The edits are those the search finds, with the groups of both sides moved to where they rest. */
  ghost predicate Selects(a: seq<Line>, b: seq<Line>, found: seq<Edit>, es: seq<Edit>, indentHeuristic: bool)
  {
    var removed, added := Compaction.Marks(es, true, |a|), Compaction.Marks(es, false, |b|);
    && Myers.Canonical(a, b, found)
    && Compaction.Rested(a, removed, Compaction.Marks(found, false, |b|), indentHeuristic)
    && Compaction.Rested(b, added, removed, indentHeuristic)
  }

  /**
  Compares two payloads. A text result replaces byte ranges of the old payload by byte ranges of
  the new one, is equal everywhere else, and changes as few lines as any correct result could.
  */
  method Diff(was: Bytes, now: Bytes, mode: BinaryMode, indentHeuristic: bool, maxBytes: nat, maxLines: nat)
    returns (r: Outcome)
    ensures r.LimitExceeded? <==>
      || |was| + |now| > maxBytes
      || (ComparesText(was, now, mode) && maxLines < LineCount(was) + LineCount(now))
    ensures r.Unchanged? <==> |was| + |now| <= maxBytes && was == now
    ensures r.BinaryChange? <==> |was| + |now| <= maxBytes && was != now && !ComparesText(was, now, mode)
    ensures r.TextChange? ==> Chain(was, now, ByteEdits(r.edits), 0, 0, |was|, |now|)
    ensures r.TextChange? ==> Applied(was, now, ByteEdits(r.edits), 0, 0, |was|, |now|) == now
    ensures r.TextChange? ==> Chain(SplitLines(was), SplitLines(now), LineEdits(r.edits), 0, 0,
                                    |SplitLines(was)|, |SplitLines(now)|)
    ensures r.TextChange? ==> Least(SplitLines(was), SplitLines(now), Cost(LineEdits(r.edits)))
    ensures r.TextChange? ==> Coalesced(LineEdits(r.edits))
    ensures r.TextChange? ==>
      forall i :: 0 <= i < |r.edits| ==> Located(SplitLines(was), SplitLines(now), r.edits[i])
    ensures r.TextChange? ==>
      exists found :: Selects(SplitLines(was), SplitLines(now), found, LineEdits(r.edits), indentHeuristic)
  {
    hide Chain, Cost, Distance, Coalesced, LineCount, SplitLines, Least, Lines.Valid, Lines.View, Located, Flatten;
    hide Compaction.Rested, Compaction.Marks, Myers.Canonical;
    if |was| + |now| > maxBytes {
      return LimitExceeded;
    }
    if was == now {
      return Unchanged;
    }
    var binary := match mode
      case Auto => 0 in was || 0 in now
      case Text => false
      case Binary => true;
    if binary {
      return BinaryChange;
    }
    var wasScan, remaining := NewLines(was, maxLines);
    if wasScan.LineLimit? {
      return LimitExceeded;
    }
    var nowScan, rest := NewLines(now, remaining);
    if nowScan.LineLimit? {
      return LimitExceeded;
    }
    var wasLines, nowLines := wasScan.lines, nowScan.lines;
    wasLines.ViewIsSplit();
    nowLines.ViewIsSplit();
    var a, b := wasLines.View(), nowLines.View();
    var found := Myers.ShortestEdits(a, b);
    var es := Compaction.CompactEdits(a, b, found, indentHeuristic);
    assert Selects(a, b, found, es, indentHeuristic);
    ShortestIsLeast(a, b);
    var edits := Locate(wasLines, nowLines, es);
    AppliedIsNew(was, now, ByteEdits(edits), 0, 0, |was|, |now|);
    r := TextChange(edits);
  }
}
