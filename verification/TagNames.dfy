/** Choosing a name for a commit: the preferred reference at each commit, then the nearest one. */
module TagNames {

  import opened Bytes
  import opened ByteStrings
  import opened Objects
  import opened Options
  import opened Reachability
  import opened Describe

  datatype Named = Named(name: Bytes, reference: Bytes, rank: nat, taggerSeconds: int, renamed: bool)

  /** Lower rank first, then the newest tagger date, then the first name alphabetically. */
  predicate PreferredOver(a: Named, b: Named)
  {
    a.rank < b.rank ||
    (a.rank == b.rank &&
     (a.taggerSeconds > b.taggerSeconds || (a.taggerSeconds == b.taggerSeconds && Before(a.name, b.name))))
  }

  lemma PreferenceIsAnOrder(a: Named, b: Named, c: Named)
    ensures PreferredOver(a, b) && PreferredOver(b, c) ==> PreferredOver(a, c)
    ensures PreferredOver(a, b) && !PreferredOver(c, b) ==> PreferredOver(a, c)
    ensures !(PreferredOver(a, b) && PreferredOver(b, a))
  {
    hide Before;
    BeforeIsTotal(a.name, b.name);
    BeforeIsTotal(b.name, c.name);
    if Before(a.name, b.name) && Before(b.name, c.name) {
      BeforeIsTransitive(a.name, b.name, c.name);
    }
  }

  /** A listed reference that peels to a commit and that the options allow. */
  datatype Listed = Listed(named: Named, target: ObjectId)

  /** Reference `k` is the first of the most preferred ones at its commit. */
  ghost predicate Preferred(listed: seq<Listed>, k: nat)
  {
    k < |listed| &&
    forall i :: 0 <= i < |listed| && listed[i].target == listed[k].target ==>
      && !PreferredOver(listed[i].named, listed[k].named)
      && (i < k ==> PreferredOver(listed[k].named, listed[i].named))
  }

  /** The kept reference beats or equals every other one at its commit: by kind, then tagger date, then name, then place. */
  lemma PreferredMeans(listed: seq<Listed>, k: nat, i: nat)
    requires Preferred(listed, k) && i < |listed| && listed[i].target == listed[k].target
    ensures var kept, other := listed[k].named, listed[i].named;
      || kept.rank < other.rank
      || (kept.rank == other.rank && kept.taggerSeconds > other.taggerSeconds)
      || (&& kept.rank == other.rank && kept.taggerSeconds == other.taggerSeconds
          && ((exists n: nat :: SmallerFrom(kept.name, other.name, n)) || (kept.name == other.name && k <= i)))
  {
    hide Before;
    var kept, other := listed[k].named, listed[i].named;
    BeforeIsTotal(kept.name, other.name);
    BeforeIsFirstDifference(kept.name, other.name);
  }

  ghost predicate Names(listed: seq<Listed>, target: ObjectId, named: Named)
  {
    exists k: nat :: Preferred(listed, k) && listed[k].target == target && listed[k].named == named
  }

  lemma NamesStep(listed: seq<Listed>, next: Listed, names: map<ObjectId, Named>, t: ObjectId)
    requires t in names && Names(listed, t, names[t])
    ensures Names(listed + [next], t,
                  if next.target == t && PreferredOver(next.named, names[t]) then next.named else names[t])
  {
    hide PreferredOver;
    var k: nat :| Preferred(listed, k) && listed[k].target == t && listed[k].named == names[t];
    var longer := listed + [next];
    var best := if next.target == t && PreferredOver(next.named, names[t]) then |listed| else k;
    forall i | 0 <= i < |longer| && longer[i].target == t
      ensures !PreferredOver(longer[i].named, longer[best].named)
      ensures i < best ==> PreferredOver(longer[best].named, longer[i].named)
    {
      PreferenceIsAnOrder(next.named, names[t], longer[i].named);
      PreferenceIsAnOrder(longer[i].named, next.named, names[t]);
      PreferenceIsAnOrder(next.named, next.named, next.named);
    }
    assert Preferred(longer, best);
  }

  lemma NamesFirst(listed: seq<Listed>, next: Listed)
    requires forall i :: 0 <= i < |listed| ==> listed[i].target != next.target
    ensures Names(listed + [next], next.target, next.named)
  {
    PreferenceIsAnOrder(next.named, next.named, next.named);
    assert Preferred(listed + [next], |listed|);
  }

  /** Keeps the preferred reference for each commit; equally preferred ones keep the first. */
  method CandidateNames(listed: seq<Listed>) returns (names: map<ObjectId, Named>)
    ensures forall t :: t in names <==> exists i :: 0 <= i < |listed| && listed[i].target == t
    ensures forall t :: t in names ==> Names(listed, t, names[t])
  {
    hide PreferredOver, Names;
    names := map[];
    for n := 0 to |listed|
      invariant forall t :: t in names <==> exists i :: 0 <= i < n && listed[i].target == t
      invariant forall t :: t in names ==> Names(listed[..n], t, names[t])
    {
      var next := listed[n];
      assert listed[..n + 1] == listed[..n] + [next];
      ghost var before := names;
      forall t | t in names
        ensures Names(listed[..n + 1], t,
                      if next.target == t && PreferredOver(next.named, names[t]) then next.named else names[t])
      {
        NamesStep(listed[..n], next, names, t);
      }
      if next.target in names && !PreferredOver(next.named, names[next.target]) {
      } else {
        if next.target !in names { NamesFirst(listed[..n], next); }
        names := names[next.target := next.named];
      }
    }
    assert listed[..|listed|] == listed;
  }

  /** Commits reachable from `start` and not from `tagged`, counted after marking both closures. */
  method RangeLength(h: History, start: ObjectId, tagged: ObjectId) returns (count: nat)
    ensures count == |Reach(h.Links(), {start}) - Reach(h.Links(), {tagged})|
  {
    hide Reach, History.Parents;
    var g := h.Links();
    var selected := Mark(g, start, {});
    var hidden := Mark(g, tagged, {});
    assert {} + Reach(g, {start}) == Reach(g, {start}) && {} + Reach(g, {tagged}) == Reach(g, {tagged});
    count := |selected - hidden|;
  }

  datatype Description = Description(named: Named, tagged: ObjectId, distance: nat, commit: ObjectId)

  datatype Answer = Described(description: Option<Description>) | Failed(search: Search)

  /** The answer a candidate stands for, if there is one. */
  ghost function AnswerOf(h: History, names: map<ObjectId, Named>, commit: ObjectId, best: Option<Entry>)
    : Option<Description>
  {
    if best.None? || best.value.id !in names then None
    else Some(Description(names[best.value.id], best.value.id, Distance(h, commit, best.value), commit))
  }

  /**
  Describes a commit. A name at the commit itself is used directly; otherwise, on a completely
  readable history, the result is that of an exhaustive search: the nearest of the first
  `max` named ancestors in date order, the first of several, with its exact distance.
  */
  method DescribeCommit(h: History, names: map<ObjectId, Named>, commit: ObjectId, max: nat, maxCommits: nat)
    returns (r: Answer)
    ensures commit in names ==> r == Described(Some(Description(names[commit], commit, 0, commit)))
    ensures commit !in names && max == 0 ==> r == Described(None)
    ensures commit !in names && 0 < max && h.Complete(commit) && r.Described? ==>
      r.description == AnswerOf(h, names, commit, ExhaustiveNearest(h, commit, names.Keys, max))
    ensures r.Failed? ==> Fails(h, commit, maxCommits, r.search)
  {
    hide Reach, Distance, Fails, ExhaustiveNearest, Nearest;
    if commit in names {
      return Described(Some(Description(names[commit], commit, 0, commit)));
    }
    if max == 0 {
      return Described(None);
    }
    var search := NewestFirst(h, commit, names.Keys, max, maxCommits);
    if !search.Found? {
      return Answer.Failed(search);
    }
    var found := search.found;
    var best: Option<(nat, ObjectId)> := None;
    ghost var nearest := Nearest(h, commit, []);
    NearestOfNone(h, commit);
    for i := 0 to |found|
      invariant nearest == Nearest(h, commit, found[..i])
      invariant best == if nearest.None? then None else Some((Distance(h, commit, nearest.value), nearest.value.id))
      invariant nearest.Some? ==> nearest.value in found
    {
      var distance;
      if h.firstParent {
        distance := found[i].steps;
      } else {
        distance := RangeLength(h, commit, found[i].id);
      }
      DistanceOf(h, commit, found[i]);
      NearestAppend(h, commit, found, i);
      nearest := Nearest(h, commit, found[..i + 1]);
      if best.None? || distance < best.value.0 {
        best := Some((distance, found[i].id));
      }
    }
    assert found[..|found|] == found;
    if best.None? {
      return Described(None);
    }
    r := Described(Some(Description(names[best.value.1], best.value.1, best.value.0, commit)));
  }

  lemma NearestOfNone(h: History, start: ObjectId)
    ensures Nearest(h, start, []) == None
  {
  }

  lemma DistanceOf(h: History, start: ObjectId, e: Entry)
    ensures Distance(h, start, e) == if h.firstParent then e.steps
      else |Reach(h.Links(), {start}) - Reach(h.Links(), {e.id})|
  {
  }

  lemma NearestAppend(h: History, start: ObjectId, found: seq<Entry>, i: nat)
    requires i < |found|
    ensures var best := Nearest(h, start, found[..i]);
      Nearest(h, start, found[..i + 1]) ==
        if best.None? || Distance(h, start, found[i]) < Distance(h, start, best.value) then Some(found[i]) else best
  {
    assert found[..i + 1][..i] == found[..i];
  }
}
