/** Typed edges of decoded payloads, in payload order. */
module Edges {

  import opened Objects

  datatype EntryMode = BlobEntry | ExecutableEntry | SymlinkEntry | TreeEntry | Gitlink

  /** A payload as its parser reads it. */
  datatype Payload =
    | Contents
    | CommitRecord(tree: ObjectId, parents: seq<ObjectId>)
    | TreeRecord(entries: seq<(EntryMode, ObjectId)>)
    | TagRecord(target: ObjectId, targetKind: ObjectKind)

  datatype Edge = Edge(target: ObjectId, kind: ObjectKind)

  /** Gitlinks name commits of other repositories and are not edges. */
  function EntryEdges(entries: seq<(EntryMode, ObjectId)>): seq<Edge>
  {
    if entries == [] then []
    else
      var (mode, target) := entries[0];
      (match mode
       case Gitlink => []
       case TreeEntry => [Edge(target, Tree)]
       case BlobEntry | ExecutableEntry | SymlinkEntry => [Edge(target, Blob)])
      + EntryEdges(entries[1..])
  }

  function ParentEdges(parents: seq<ObjectId>): (edges: seq<Edge>)
    ensures |edges| == |parents| && forall i :: 0 <= i < |parents| ==> edges[i] == Edge(parents[i], Commit)
  {
    seq(|parents|, i requires 0 <= i < |parents| => Edge(parents[i], Commit))
  }

  function Visit(payload: Payload): (edges: seq<Edge>)
  {
    match payload
    case Contents => []
    case CommitRecord(tree, parents) => [Edge(tree, Tree)] + ParentEdges(parents)
    case TreeRecord(entries) => EntryEdges(entries)
    case TagRecord(target, kind) => [Edge(target, kind)]
  }

  /** A commit has its tree and then its parents in order. */
  lemma CommitEdges(tree: ObjectId, parents: seq<ObjectId>)
    ensures var edges := Visit(CommitRecord(tree, parents));
      && |edges| == 1 + |parents| && edges[0] == Edge(tree, Tree)
      && forall i :: 0 <= i < |parents| ==> edges[i + 1] == Edge(parents[i], Commit)
  {
    hide ParentEdges;
  }

  /** A tag has its target at the recorded kind, and plain contents have no edge. */
  lemma TagEdges(target: ObjectId, kind: ObjectKind)
    ensures Visit(TagRecord(target, kind)) == [Edge(target, kind)] && Visit(Contents) == []
  {
  }

  /** The positions of the entries that are edges, in ascending order and all of them. */
  ghost predicate LinkedEntries(entries: seq<(EntryMode, ObjectId)>, at: seq<nat>)
  {
    && (forall k, l :: 0 <= k < l < |at| ==> at[k] < at[l])
    && (forall i: nat :: i in at <==> i < |entries| && entries[i].0 != Gitlink)
  }

  /** The edge of an entry that is no gitlink: a tree for a tree entry, else a blob. */
  ghost function EntryEdge(entry: (EntryMode, ObjectId)): Edge
  {
    Edge(entry.1, if entry.0 == TreeEntry then Tree else Blob)
  }

  ghost predicate EdgesAt(entries: seq<(EntryMode, ObjectId)>, at: seq<nat>, edges: seq<Edge>)
  {
    |edges| == |at| && forall k :: 0 <= k < |at| ==> at[k] < |entries| && edges[k] == EntryEdge(entries[at[k]])
  }

  /** A tree has one edge for each entry but gitlinks, in entry order. */
  lemma {:induction false} TreeEdges(entries: seq<(EntryMode, ObjectId)>) returns (at: seq<nat>)
    ensures LinkedEntries(entries, at) && EdgesAt(entries, at, Visit(TreeRecord(entries)))
    decreases |entries|
  {
    hide EntryEdges, EntryEdge, LinkedEntries;
    if entries == [] {
      at := [];
      NoEntries();
    } else {
      var n := |entries| - 1;
      at := TreeEdges(entries[..n]);
      EntryEdgesAppend(entries[..n], entries[n]);
      assert entries == entries[..n] + [entries[n]];
      LinkedAppend(entries, at);
      if entries[n].0 != Gitlink {
        at := at + [n];
      }
    }
  }

  lemma NoEntries()
    ensures LinkedEntries([], []) && EntryEdges([]) == []
  {
  }

  lemma LinkedAppend(entries: seq<(EntryMode, ObjectId)>, at: seq<nat>)
    requires entries != [] && LinkedEntries(entries[..|entries| - 1], at)
    ensures var n := |entries| - 1; LinkedEntries(entries, if entries[n].0 == Gitlink then at else at + [n])
  {
    var n := |entries| - 1;
    var all := if entries[n].0 == Gitlink then at else at + [n];
    forall i: nat ensures i in all <==> i < |entries| && entries[i].0 != Gitlink {
      assert i in all <==> i in at || (entries[n].0 != Gitlink && i == n);
    }
    assert forall k :: 0 <= k < |at| ==> at[k] in at;
  }

  lemma {:induction false} EntryEdgesAppend(entries: seq<(EntryMode, ObjectId)>, last: (EntryMode, ObjectId))
    ensures EntryEdges(entries + [last]) == EntryEdges(entries) +
      if last.0 == Gitlink then [] else [EntryEdge(last)]
  {
    if entries == [] {
      assert [last][1..] == [];
    } else {
      EntryEdgesAppend(entries[1..], last);
      assert (entries + [last])[1..] == entries[1..] + [last];
    }
  }

  function Targets(edges: seq<Edge>): (targets: seq<ObjectId>)
    ensures |targets| == |edges|
    ensures forall i :: 0 <= i < |edges| ==> targets[i] == edges[i].target
  {
    seq(|edges|, i requires 0 <= i < |edges| => edges[i].target)
  }
}
