/**
Nearest-tag search: ancestors are visited newest committer date first, candidates covered by an
earlier candidate are dropped, and the walk stops once every queued commit is covered.
*/
module Describe {

  import opened Objects
  import opened Options
  import opened Reachability
  import opened Sets

  datatype Commit = Commit(date: int, parents: seq<ObjectId>)

  /** The readable commits, the shallow boundary, and whether only first parents count. */
  datatype History = History(commits: map<ObjectId, Commit>, shallow: set<ObjectId>, firstParent: bool) {

    function Parents(id: ObjectId): seq<ObjectId>
      requires id in commits
    {
      var parents := commits[id].parents;
      if id in shallow then []
      else if firstParent && |parents| > 1 then parents[..1]
      else parents
    }

    function Links(): Graph<ObjectId>
    {
      map id | id in commits :: Parents(id)
    }

    /** Every commit that `start` reaches can be read. */
    ghost predicate Complete(start: ObjectId)
    {
      Reach(Links(), {start}) <= commits.Keys
    }
  }

  /** A queued commit; `order` counts queued commits, so earlier ones come first on equal dates. */
  datatype Entry = Entry(date: int, order: nat, id: ObjectId, steps: nat)

  predicate Newer(a: Entry, b: Entry)
  {
    a.date > b.date || (a.date == b.date && a.order < b.order)
  }

  /** The slot of the entry a heap would pop. */
  function Top(queue: seq<Entry>): (top: nat)
    requires queue != []
    ensures top < |queue| && forall i :: 0 <= i < |queue| ==> !Newer(queue[i], queue[top])
  {
    if |queue| == 1 then 0
    else
      var last := |queue| - 1;
      var top := Top(queue[..last]);
      if Newer(queue[last], queue[top]) then last else top
  }

  // The walk itself, without any pruning.

  datatype Walk = Walk(queue: seq<Entry>, seen: set<ObjectId>, order: nat)

  function Start(h: History, start: ObjectId): Walk
    requires start in h.commits
  {
    Walk([Entry(h.commits[start].date, 0, start, 0)], {start}, 0)
  }

  function Popped(w: Walk): Walk
    requires w.queue != []
  {
    w.(queue := w.queue[..Top(w.queue)] + w.queue[Top(w.queue) + 1..])
  }

  function Push(h: History, w: Walk, parent: ObjectId, steps: nat): Walk
    requires parent in h.commits
  {
    if parent in w.seen then w
    else Walk(w.queue + [Entry(h.commits[parent].date, w.order + 1, parent, steps + 1)],
              w.seen + {parent}, w.order + 1)
  }

  ghost function PushAll(h: History, w: Walk, parents: seq<ObjectId>, steps: nat): (w': Walk)
    requires forall p :: p in parents ==> p in h.commits
    ensures w.seen <= w'.seen
    ensures w'.seen == w.seen ==> w' == w
    decreases |parents|
  {
    if parents == [] then w
    else
      assert parents[0] in parents;
      PushAll(h, Push(h, w, parents[0], steps), parents[1..], steps)
  }

  /** A set of readable commits that contains the parents of its members. */
  ghost predicate Universe(h: History, u: set<ObjectId>)
  {
    u <= h.commits.Keys && Closed(h.Links(), u)
  }

  ghost function Ids(queue: seq<Entry>): set<ObjectId>
  {
    set e | e in queue :: e.id
  }

  ghost predicate Ready(h: History, u: set<ObjectId>, w: Walk)
  {
    Universe(h, u) && w.seen <= u && Ids(w.queue) <= w.seen
  }

  lemma {:induction false} PushAllReady(h: History, u: set<ObjectId>, w: Walk, parents: seq<ObjectId>, steps: nat)
    requires Ready(h, u, w) && forall p :: p in parents ==> p in u
    ensures Ready(h, u, PushAll(h, w, parents, steps))
    decreases |parents|
  {
    if parents != [] {
      assert parents[0] in parents;
      PushAllReady(h, u, Push(h, w, parents[0], steps), parents[1..], steps);
    }
  }

  lemma ParentsInUniverse(h: History, u: set<ObjectId>, id: ObjectId)
    requires Universe(h, u) && id in u
    ensures forall p :: p in h.Parents(id) ==> p in u
  {
    forall p | p in h.Parents(id)
      ensures p in u
    {
      assert p in Successors(h.Links(), id);
    }
  }

  ghost function Next(h: History, u: set<ObjectId>, w: Walk): (w': Walk)
    requires Ready(h, u, w) && w.queue != []
    ensures Ready(h, u, w')
    ensures w.seen < w'.seen || (w.seen == w'.seen && |w'.queue| < |w.queue|)
  {
    var e := w.queue[Top(w.queue)];
    assert e.id in Ids(w.queue);
    ParentsInUniverse(h, u, e.id);
    assert Ready(h, u, Popped(w)) by {
      assert forall x :: x in Popped(w).queue ==> x in w.queue;
    }
    PushAllReady(h, u, Popped(w), h.Parents(e.id), e.steps);
    PushAll(h, Popped(w), h.Parents(e.id), e.steps)
  }

  /** The walk's termination measure. */
  lemma SmallerUniverse(h: History, u: set<ObjectId>, w: Walk)
    requires Ready(h, u, w) && w.queue != []
    ensures var w' := Next(h, u, w);
      |u - w'.seen| < |u - w.seen| || (|u - w'.seen| == |u - w.seen| && |w'.queue| < |w.queue|)
  {
    var w' := Next(h, u, w);
    if w.seen < w'.seen {
      var x :| x in w'.seen && x !in w.seen;
      assert x in u - w.seen && x !in u - w'.seen;
      SubsetIsSmaller((u - w'.seen) + {x}, u - w.seen);
    }
  }

  /** Every commit the walk pops from here on, in order. */
  ghost function Visits(h: History, u: set<ObjectId>, w: Walk): seq<Entry>
    requires Ready(h, u, w)
    decreases |u - w.seen|, |w.queue|
  {
    if w.queue == [] then []
    else
      var w' := Next(h, u, w);
      SmallerUniverse(h, u, w);
      [w.queue[Top(w.queue)]] + Visits(h, u, w')
  }

  // What the search is for.

  /** Commits between a candidate and the described commit. */
  ghost function Distance(h: History, start: ObjectId, e: Entry): nat
  {
    if h.firstParent then e.steps
    else |Reach(h.Links(), {start}) - Reach(h.Links(), {e.id})|
  }

  /** The entry with the least distance, the first of several. */
  ghost function Nearest(h: History, start: ObjectId, entries: seq<Entry>): Option<Entry>
  {
    if entries == [] then None
    else
      var last := |entries| - 1;
      var best := Nearest(h, start, entries[..last]);
      if best.None? || Distance(h, start, entries[last]) < Distance(h, start, best.value) then Some(entries[last])
      else best
  }

  /** Entry `k` is the first of those at the least distance. */
  ghost predicate FirstLeast(h: History, start: ObjectId, entries: seq<Entry>, k: nat)
  {
    k < |entries| &&
    forall i :: 0 <= i < |entries| ==>
      && Distance(h, start, entries[k]) <= Distance(h, start, entries[i])
      && (i < k ==> Distance(h, start, entries[k]) < Distance(h, start, entries[i]))
  }

  lemma {:induction false} NearestIsLeast(h: History, start: ObjectId, entries: seq<Entry>) returns (k: nat)
    requires entries != []
    ensures FirstLeast(h, start, entries, k) && Nearest(h, start, entries) == Some(entries[k])
    decreases |entries|
  {
    hide Distance;
    var last := |entries| - 1;
    var before := entries[..last];
    if last == 0 {
      k := 0;
    } else {
      k := NearestIsLeast(h, start, before);
      assert forall i :: 0 <= i < last ==> before[i] == entries[i];
      if Distance(h, start, entries[last]) < Distance(h, start, entries[k]) {
        k := last;
      }
    }
  }

  /** The tagged commits among the visited ones, other than the described commit itself. */
  ghost function Candidates(tags: set<ObjectId>, start: ObjectId, entries: seq<Entry>): seq<Entry>
  {
    if entries == [] then []
    else
      var e := entries[|entries| - 1];
      Candidates(tags, start, entries[..|entries| - 1]) + if e.id != start && e.id in tags then [e] else []
  }

  ghost function Take(entries: seq<Entry>, count: nat): seq<Entry>
  {
    if |entries| <= count then entries else entries[..count]
  }

  /** Some entry found so far is at least as near as `e`. */
  ghost predicate Dominated(h: History, start: ObjectId, found: seq<Entry>, e: Entry)
  {
    exists f :: f in found && Distance(h, start, f) <= Distance(h, start, e)
  }

  /** A candidate no nearer than one already counted changes nothing. */
  lemma DominatedChangesNothing(h: History, start: ObjectId, entries: seq<Entry>, e: Entry)
    requires Dominated(h, start, entries, e)
    ensures Nearest(h, start, entries + [e]) == Nearest(h, start, entries)
  {
    hide Distance;
    var k := NearestIsLeast(h, start, entries);
    var f :| f in entries && Distance(h, start, f) <= Distance(h, start, e);
    var i :| 0 <= i < |entries| && entries[i] == f;
    assert (entries + [e])[..|entries|] == entries;
  }

  lemma {:induction false} DominatedTail(h: History, start: ObjectId, entries: seq<Entry>, more: seq<Entry>)
    requires forall e :: e in more ==> Dominated(h, start, entries, e)
    ensures Nearest(h, start, entries + more) == Nearest(h, start, entries)
    decreases |more|
  {
    hide Distance, Nearest;
    if more == [] {
      assert entries + more == entries;
    } else {
      var e, before := more[|more| - 1], more[..|more| - 1];
      assert e in more;
      DominatedTail(h, start, entries, before);
      assert forall f :: f in entries ==> f in entries + before;
      DominatedChangesNothing(h, start, entries + before, e);
      assert entries + more == entries + before + [e];
    }
  }

  /** A commit that a candidate reaches is no nearer than that candidate. */
  lemma ReachedIsFarther(h: History, start: ObjectId, f: Entry, e: Entry)
    requires !h.firstParent && e.id in Reach(h.Links(), {f.id})
    ensures Distance(h, start, f) <= Distance(h, start, e)
  {
    hide Reach;
    var g := h.Links();
    ReachWithin(g, {e.id}, {f.id});
    SubsetIsSmaller(Reach(g, {start}) - Reach(g, {f.id}), Reach(g, {start}) - Reach(g, {e.id}));
  }

  // Everything visited later lies below the queue.

  lemma {:induction false} PushAllWithin(h: History, w: Walk, parents: seq<ObjectId>, steps: nat, s: set<ObjectId>)
    requires Ids(w.queue) <= s && forall p :: p in parents ==> p in h.commits && p in s
    ensures Ids(PushAll(h, w, parents, steps).queue) <= s
    decreases |parents|
  {
    if parents != [] {
      assert parents[0] in parents;
      PushAllWithin(h, Push(h, w, parents[0], steps), parents[1..], steps, s);
    }
  }

  lemma {:induction false} VisitsWithin(h: History, u: set<ObjectId>, w: Walk, s: set<ObjectId>)
    requires Ready(h, u, w) && Closed(h.Links(), s) && Ids(w.queue) <= s
    ensures forall e :: e in Visits(h, u, w) ==> e.id in s
    decreases |u - w.seen|, |w.queue|
  {
    if w.queue != [] {
      var e, w' := w.queue[Top(w.queue)], Next(h, u, w);
      assert Visits(h, u, w) == [e] + Visits(h, u, w');
      assert e.id in Ids(w.queue);
      ParentsInUniverse(h, u, e.id);
      forall p | p in h.Parents(e.id)
        ensures p in s
      {
        assert p in Successors(h.Links(), e.id);
      }
      assert forall x :: x in Popped(w).queue ==> x in w.queue;
      PushAllWithin(h, Popped(w), h.Parents(e.id), e.steps, s);
      SmallerUniverse(h, u, w);
      VisitsWithin(h, u, w', s);
    }
  }

  // The exhaustive walk pops every ancestor exactly once.

  ghost predicate Unique(queue: seq<Entry>)
  {
    forall i, j :: 0 <= i < j < |queue| ==> queue[i].id != queue[j].id
  }

  lemma PopUnique(w: Walk)
    requires w.queue != [] && Unique(w.queue)
    ensures Unique(Popped(w).queue) && Ids(Popped(w).queue) == Ids(w.queue) - {w.queue[Top(w.queue)].id}
  {
    hide Top, Newer;
    var top, rest := Top(w.queue), Popped(w).queue;
    var e := w.queue[top];
    forall x ensures x in rest <==> x in w.queue && x.id != e.id {
      if x in w.queue && x.id != e.id {
        var j :| 0 <= j < |w.queue| && w.queue[j] == x;
        assert x == if j < top then rest[j] else rest[j - 1];
      }
    }
  }

  lemma {:induction false} PushAllUnique(h: History, w: Walk, parents: seq<ObjectId>, steps: nat)
    requires Unique(w.queue) && Ids(w.queue) <= w.seen && forall p :: p in parents ==> p in h.commits
    ensures var w' := PushAll(h, w, parents, steps);
      && Unique(w'.queue) && Ids(w'.queue) == Ids(w.queue) + (w'.seen - w.seen)
      && forall p :: p in parents ==> p in w'.seen
    decreases |parents|
  {
    if parents != [] {
      assert parents[0] in parents;
      PushUnique(h, w, parents[0], steps);
      PushAllUnique(h, Push(h, w, parents[0], steps), parents[1..], steps);
    }
  }

  lemma PushUnique(h: History, w: Walk, p: ObjectId, steps: nat)
    requires Unique(w.queue) && Ids(w.queue) <= w.seen && p in h.commits
    ensures var w' := Push(h, w, p, steps);
      Unique(w'.queue) && w'.seen == w.seen + {p} && Ids(w'.queue) == Ids(w.queue) + (w'.seen - w.seen)
  {
    var w' := Push(h, w, p, steps);
    if p in w.seen {
      assert w.seen + {p} == w.seen;
    } else {
      assert forall e :: e in w.queue ==> e.id in Ids(w.queue);
      assert Ids(w'.queue) == Ids(w.queue) + {p};
    }
  }

  lemma NextUnique(h: History, u: set<ObjectId>, w: Walk)
    requires Ready(h, u, w) && w.queue != [] && Unique(w.queue)
    ensures var w' := Next(h, u, w); var e := w.queue[Top(w.queue)];
      && Unique(w'.queue) && e.id in Ids(w.queue)
      && Ids(w'.queue) == Ids(w.queue) - {e.id} + (w'.seen - w.seen)
      && forall p :: p in Successors(h.Links(), e.id) ==> p in w'.seen
  {
    var e := w.queue[Top(w.queue)];
    assert e.id in Ids(w.queue);
    PopUnique(w);
    ParentsInUniverse(h, u, e.id);
    PushAllUnique(h, Popped(w), h.Parents(e.id), e.steps);
  }

  lemma VisitsUnfold(h: History, u: set<ObjectId>, w: Walk)
    requires Ready(h, u, w)
    ensures Visits(h, u, w) == if w.queue == [] then [] else [w.queue[Top(w.queue)]] + Visits(h, u, Next(h, u, w))
  {
  }

  lemma UniqueCons(e: Entry, rest: seq<Entry>)
    requires Unique(rest) && e.id !in Ids(rest)
    ensures Unique([e] + rest)
  {
    assert forall i :: 0 <= i < |rest| ==> rest[i].id in Ids(rest);
  }

  lemma IdsCons(e: Entry, rest: seq<Entry>)
    ensures Ids([e] + rest) == {e.id} + Ids(rest)
  {
    assert forall x :: x in [e] + rest <==> x == e || x in rest;
  }

  /** What was already popped is not visited again, and no commit is visited twice. */
  lemma {:induction false} VisitsOnce(h: History, u: set<ObjectId>, w: Walk)
    requires Ready(h, u, w) && Unique(w.queue)
    ensures Unique(Visits(h, u, w))
    ensures Ids(Visits(h, u, w)) !! w.seen - Ids(w.queue)
    decreases |u - w.seen|, |w.queue|
  {
    hide Ready, Next, Visits, Unique, Ids;
    VisitsUnfold(h, u, w);
    if w.queue == [] {
      NoneIsUnique();
    } else {
      var e, w' := w.queue[Top(w.queue)], Next(h, u, w);
      NextUnique(h, u, w);
      SmallerUniverse(h, u, w);
      VisitsOnce(h, u, w');
      IdsCons(e, Visits(h, u, w'));
      assert e.id in w'.seen - Ids(w'.queue) by { SeenIds(h, u, w); }
      UniqueCons(e, Visits(h, u, w'));
      assert w.seen - Ids(w.queue) <= w'.seen - Ids(w'.queue);
    }
  }

  lemma NoneIsUnique()
    ensures Unique([]) && Ids([]) == {}
  {
  }

  lemma SeenIds(h: History, u: set<ObjectId>, w: Walk)
    requires Ready(h, u, w)
    ensures Ids(w.queue) <= w.seen
  {
  }

  /** Together with what was popped before, the visits follow every edge. */
  lemma {:induction false} VisitsClose(h: History, u: set<ObjectId>, w: Walk)
    requires Ready(h, u, w) && Unique(w.queue)
    requires forall x, p {:trigger p in Successors(h.Links(), x)} ::
      x in w.seen - Ids(w.queue) && p in Successors(h.Links(), x) ==> p in w.seen
    ensures var all := Ids(Visits(h, u, w)) + (w.seen - Ids(w.queue));
      w.seen <= all && Closed(h.Links(), all)
    decreases |u - w.seen|, |w.queue|
  {
    hide Ready, Next, Visits, Unique, Ids, History.Links;
    VisitsUnfold(h, u, w);
    if w.queue == [] {
      NoneIsUnique();
    } else {
      var e, w' := w.queue[Top(w.queue)], Next(h, u, w);
      NextUnique(h, u, w);
      SeenIds(h, u, w);
      SmallerUniverse(h, u, w);
      IdsCons(e, Visits(h, u, w'));
      assert w'.seen - Ids(w'.queue) == (w.seen - Ids(w.queue)) + {e.id};
      VisitsClose(h, u, w');
      assert Ids(Visits(h, u, w)) + (w.seen - Ids(w.queue)) == Ids(Visits(h, u, w')) + (w'.seen - Ids(w'.queue));
    }
  }

  lemma StartReady(h: History, start: ObjectId)
    requires h.Complete(start)
    ensures start in h.commits && Ready(h, Reach(h.Links(), {start}), Start(h, start))
  {
    hide Reach;
    ReachIsClosed(h.Links(), {start});
    assert Ids(Start(h, start).queue) == {start};
  }

  /** All commits the walk visits from a start, in order. */
  ghost function Exhaustive(h: History, start: ObjectId): seq<Entry>
    requires h.Complete(start)
  {
    StartReady(h, start);
    Visits(h, Reach(h.Links(), {start}), Start(h, start))
  }

  /** Without pruning, the walk visits exactly the ancestors of its start, each once. */
  lemma WalkIsExhaustive(h: History, start: ObjectId)
    requires h.Complete(start)
    ensures Unique(Exhaustive(h, start)) && Ids(Exhaustive(h, start)) == Reach(h.Links(), {start})
  {
    hide Reach, Visits;
    StartReady(h, start);
    var u, w := Reach(h.Links(), {start}), Start(h, start);
    assert Ids(w.queue) == {start};
    VisitsOnce(h, u, w);
    VisitsWithin(h, u, w, u);
    VisitsClose(h, u, w);
    ReachIsLeast(h.Links(), {start}, Ids(Visits(h, u, w)) + (w.seen - Ids(w.queue)));
  }

  /** Along first parents, the n-th visit is n steps away and the first parent of the one before. */
  lemma {:induction false} VisitsFollow(h: History, u: set<ObjectId>, w: Walk)
    requires Ready(h, u, w) && h.firstParent && |w.queue| <= 1
    ensures var visits := Visits(h, u, w);
      && (visits != [] ==> w.queue != [] && visits[0] == w.queue[0])
      && forall i :: 0 <= i < |visits| - 1 ==>
           && visits[i].id in h.commits && h.Parents(visits[i].id) == [visits[i + 1].id]
           && visits[i + 1].steps == visits[i].steps + 1
    decreases |u - w.seen|, |w.queue|
  {
    if w.queue != [] {
      var e, w' := w.queue[0], Next(h, u, w);
      assert e.id in Ids(w.queue);
      SmallerUniverse(h, u, w);
      FollowStep(h, u, w);
      VisitsFollow(h, u, w');
      assert Visits(h, u, w) == [e] + Visits(h, u, w');
    }
  }

  lemma FollowStep(h: History, u: set<ObjectId>, w: Walk)
    requires Ready(h, u, w) && h.firstParent && |w.queue| == 1
    ensures w.queue[0].id in h.commits
    ensures var e, w' := w.queue[0], Next(h, u, w);
      |w'.queue| <= 1 && (w'.queue != [] ==> h.Parents(e.id) == [w'.queue[0].id] && w'.queue[0].steps == e.steps + 1)
  {
    var e := w.queue[0];
    assert e.id in Ids(w.queue);
    assert Popped(w).queue == [];
    var parents := h.Parents(e.id);
    if parents != [] {
      assert parents == [parents[0]] && parents[0] in parents;
      ParentsInUniverse(h, u, e.id);
      var one := Push(h, Popped(w), parents[0], e.steps);
      assert PushAll(h, one, parents[1..], e.steps) == one;
    }
  }

  lemma FirstParentWalk(h: History, start: ObjectId)
    requires h.Complete(start) && h.firstParent
    ensures var visits := Exhaustive(h, start); visits != [] && visits[0].id == start && visits[0].steps == 0
    ensures var visits := Exhaustive(h, start); forall i :: 0 <= i < |visits| - 1 ==>
      && FirstParentOf(h, visits[i].id) == Some(visits[i + 1].id)
      && visits[i + 1].steps == visits[i].steps + 1
    ensures var visits := Exhaustive(h, start); var end := FirstParentOf(h, visits[|visits| - 1].id);
      end.None? || end.value in Ids(visits)
  {
    hide Reach, Visits, Ids, FirstParentOf, History.Parents, Ready;
    StartReady(h, start);
    VisitsFollow(h, Reach(h.Links(), {start}), Start(h, start));
    VisitsUnfold(h, Reach(h.Links(), {start}), Start(h, start));
    var visits := Exhaustive(h, start);
    forall i | 0 <= i < |visits| - 1 ensures FirstParentOf(h, visits[i].id) == Some(visits[i + 1].id) {
      FirstParentIs(h, visits[i].id, visits[i + 1].id);
    }
    FirstParentsStayWithin(h, start, Exhaustive(h, start)[|Exhaustive(h, start)| - 1]);
  }

  /** The recorded first parent of a commit above the shallow boundary. */
  ghost function FirstParentOf(h: History, id: ObjectId): Option<ObjectId>
  {
    if id in h.commits && id !in h.shallow && h.commits[id].parents != [] then Some(h.commits[id].parents[0])
    else None
  }

  lemma FirstParentIs(h: History, id: ObjectId, p: ObjectId)
    requires id in h.commits && h.firstParent && h.Parents(id) == [p]
    ensures FirstParentOf(h, id) == Some(p)
  {
    assert h.Parents(id)[0] == p;
  }

  lemma FirstParentsStayWithin(h: History, start: ObjectId, e: Entry)
    requires h.Complete(start) && h.firstParent && e in Exhaustive(h, start)
    ensures FirstParentOf(h, e.id).Some? ==> FirstParentOf(h, e.id).value in Ids(Exhaustive(h, start))
  {
    hide Reach, Exhaustive;
    WalkIsExhaustive(h, start);
    ReachIsClosed(h.Links(), {start});
    assert e.id in Ids(Exhaustive(h, start));
    if FirstParentOf(h, e.id).Some? {
      assert FirstParentOf(h, e.id).value in Successors(h.Links(), e.id);
    }
  }

  // The pruned search.

  /**
  What every step keeps: the queued set and the count of uncovered queued commits are exact,
  everything seen is an ancestor, and everything covered lies below a found candidate.
  */
  ghost predicate Searching(h: History, start: ObjectId, w: Walk, found: seq<Entry>,
                            covered: set<ObjectId>, queued: set<ObjectId>, uncovered: nat)
  {
    && Unique(w.queue) && queued == Ids(w.queue) && queued <= w.seen
    && w.seen <= h.commits.Keys && w.seen <= Reach(h.Links(), {start})
    && uncovered == |queued - covered|
    && covered <= Reach(h.Links(), Ids(found))
  }

  lemma CountAfterPop(queued: set<ObjectId>, covered: set<ObjectId>, x: ObjectId)
    requires x in queued
    ensures |queued - {x} - covered| == |queued - covered| - One(x !in covered)
  {
    CountWithout(queued - covered, x);
    assert queued - covered - {x} == queued - {x} - covered;
  }

  lemma PopStep(h: History, start: ObjectId, w: Walk, found: seq<Entry>,
                covered: set<ObjectId>, queued: set<ObjectId>, uncovered: nat)
    requires Searching(h, start, w, found, covered, queued, uncovered) && w.queue != []
    ensures var e := w.queue[Top(w.queue)];
      && e.id in h.commits && e.id in Reach(h.Links(), {start}) && One(e.id !in covered) <= uncovered
      && Searching(h, start, Popped(w), found, covered, queued - {e.id}, uncovered - One(e.id !in covered))
  {
    hide Reach, History.Links, Unique, Ids, One, Top;
    var e := w.queue[Top(w.queue)];
    IdsContain(w.queue, Top(w.queue));
    PopUnique(w);
    CountAfterPop(queued, covered, e.id);
  }

  lemma FoundStep(h: History, start: ObjectId, w: Walk, found: seq<Entry>,
                  covered: set<ObjectId>, queued: set<ObjectId>, uncovered: nat, e: Entry)
    requires Searching(h, start, w, found, covered, queued, uncovered) && e.id !in queued
    ensures Searching(h, start, w, found + [e], covered + {e.id}, queued, uncovered)
  {
    hide Reach, History.Links, Unique;
    var g := h.Links();
    assert Ids(found + [e]) == Ids(found) + {e.id} by {
      assert forall x :: x in found + [e] <==> x in found || x == e;
    }
    ReachOfUnion(g, Ids(found), {e.id});
    ReachIsClosed(g, {e.id});
    assert queued - (covered + {e.id}) == queued - covered;
  }

  /** The count after one parent, as the four branches of the source update it. */
  function Uncovered(seen: set<ObjectId>, covered: set<ObjectId>, queued: set<ObjectId>, uncovered: nat,
                     isCovered: bool, p: ObjectId): int
  {
    var newlyCovered := isCovered && p !in covered;
    if p !in seen then uncovered + One(!isCovered && p !in covered)
    else if newlyCovered && p in queued then uncovered - 1
    else uncovered
  }

  lemma CountAfterPush(seen: set<ObjectId>, covered: set<ObjectId>, queued: set<ObjectId>, isCovered: bool, p: ObjectId)
    requires queued <= seen
    ensures var covered' := if isCovered then covered + {p} else covered;
      var queued' := if p in seen then queued else queued + {p};
      |queued' - covered'| == Uncovered(seen, covered, queued, |queued - covered|, isCovered, p)
  {
    var covered' := if isCovered then covered + {p} else covered;
    var queued' := if p in seen then queued else queued + {p};
    CountWithout(queued - covered, p);
    CountWithout(queued' - covered', p);
    assert queued - covered - {p} == queued' - covered' - {p};
  }

  lemma IdsContain(queue: seq<Entry>, i: nat)
    requires i < |queue|
    ensures queue[i].id in Ids(queue)
  {
  }

  lemma PushStep(h: History, start: ObjectId, w: Walk, found: seq<Entry>,
                 covered: set<ObjectId>, queued: set<ObjectId>, uncovered: nat,
                 isCovered: bool, p: ObjectId, steps: nat)
    requires Searching(h, start, w, found, covered, queued, uncovered)
    requires p in h.commits && p in Reach(h.Links(), {start})
    requires isCovered ==> p in Reach(h.Links(), Ids(found))
    ensures 0 <= Uncovered(w.seen, covered, queued, uncovered, isCovered, p)
    ensures Searching(h, start, Push(h, w, p, steps), found,
                      if isCovered then covered + {p} else covered,
                      if p in w.seen then queued else queued + {p},
                      Uncovered(w.seen, covered, queued, uncovered, isCovered, p))
  {
    hide Reach, History.Links, Unique, Ids, Uncovered, Push;
    PushUnique(h, w, p, steps);
    CountAfterPush(w.seen, covered, queued, isCovered, p);
  }

  lemma {:induction false} PushAllAppend(h: History, w: Walk, parents: seq<ObjectId>, p: ObjectId, steps: nat)
    requires p in h.commits && forall x :: x in parents ==> x in h.commits
    ensures forall x :: x in parents + [p] ==> x in h.commits
    ensures PushAll(h, w, parents + [p], steps) == Push(h, PushAll(h, w, parents, steps), p, steps)
    decreases |parents|
  {
    if parents == [] {
      assert parents + [p] == [p];
    } else {
      assert parents[0] in parents && (parents + [p])[0] == parents[0];
      PushAllAppend(h, Push(h, w, parents[0], steps), parents[1..], p, steps);
      assert (parents + [p])[1..] == parents[1..] + [p];
    }
  }

  datatype Search = Found(found: seq<Entry>) | Missing(id: ObjectId) | CommitLimit

  datatype Expansion = Expanded(walk: Walk, covered: set<ObjectId>, queued: set<ObjectId>, uncovered: nat)
                     | Failed(search: Search)

  /** The two ways a search can fail, and what each says about the history. */
  ghost predicate Fails(h: History, start: ObjectId, maxCommits: nat, search: Search)
  {
    match search
    case Found(_) => false
    case Missing(id) => id in Reach(h.Links(), {start}) && id !in h.commits
    case CommitLimit => maxCommits < |Reach(h.Links(), {start})|
  }

  lemma LimitFails(h: History, start: ObjectId, seen: set<ObjectId>, p: ObjectId, maxCommits: nat)
    requires seen <= Reach(h.Links(), {start}) && p in Reach(h.Links(), {start}) && p !in seen
    requires maxCommits < |seen| + 1
    ensures Fails(h, start, maxCommits, CommitLimit)
  {
    SubsetIsSmaller(seen + {p}, Reach(h.Links(), {start}));
  }

  lemma ParentsAreReached(h: History, roots: set<ObjectId>, id: ObjectId, p: ObjectId)
    requires id in h.commits && id in Reach(h.Links(), roots) && p in h.Parents(id)
    ensures p in Reach(h.Links(), roots)
  {
    ReachIsClosed(h.Links(), roots);
    assert p in Successors(h.Links(), id);
  }

  lemma SeenWithin(h: History, start: ObjectId, w: Walk, found: seq<Entry>,
                   covered: set<ObjectId>, queued: set<ObjectId>, uncovered: nat)
    requires Searching(h, start, w, found, covered, queued, uncovered)
    ensures w.seen <= h.commits.Keys && w.seen <= Reach(h.Links(), {start})
  {
  }

  /** Queues the parents of a popped commit and passes its coverage on to them. */
  method Expand(h: History, ghost start: ObjectId, ghost found: seq<Entry>, e: Entry, isCovered: bool,
                w0: Walk, covered0: set<ObjectId>, queued0: set<ObjectId>, uncovered0: nat, maxCommits: nat)
    returns (r: Expansion)
    requires Searching(h, start, w0, found, covered0, queued0, uncovered0)
    requires e.id in h.commits && e.id in Reach(h.Links(), {start})
    requires isCovered ==> e.id in Reach(h.Links(), Ids(found))
    ensures r.Expanded? ==>
      && (forall p :: p in h.Parents(e.id) ==> p in h.commits)
      && r.walk == PushAll(h, w0, h.Parents(e.id), e.steps)
      && Searching(h, start, r.walk, found, r.covered, r.queued, r.uncovered)
    ensures r.Failed? ==> !r.search.Found? && Fails(h, start, maxCommits, r.search)
  {
    hide Reach, History.Links, Searching, Fails, PushAll, Uncovered, History.Parents;
    var parents := h.Parents(e.id);
    var w, covered, queued, uncovered: nat := w0, covered0, queued0, uncovered0;
    PushNone(h, w0, e.steps);
    for i := 0 to |parents|
      invariant forall p :: p in parents[..i] ==> p in h.commits
      invariant w == PushAll(h, w0, parents[..i], e.steps)
      invariant Searching(h, start, w, found, covered, queued, uncovered)
    {
      var p := parents[i];
      assert p in parents;
      ParentsAreReached(h, {start}, e.id, p);
      if isCovered { ParentsAreReached(h, Ids(found), e.id, p); }
      SeenWithin(h, start, w, found, covered, queued, uncovered);
      if p !in w.seen {
        if |w.seen| + 1 > maxCommits {
          LimitFails(h, start, w.seen, p, maxCommits);
          return Failed(CommitLimit);
        }
        if p !in h.commits {
          MissingFails(h, start, p, maxCommits);
          return Failed(Missing(p));
        }
      }
      PushStep(h, start, w, found, covered, queued, uncovered, isCovered, p, e.steps);
      PushAllAppend(h, w0, parents[..i], p, e.steps);
      assert parents[..i + 1] == parents[..i] + [p];
      uncovered := Uncovered(w.seen, covered, queued, uncovered, isCovered, p);
      covered := if isCovered then covered + {p} else covered;
      queued := if p in w.seen then queued else queued + {p};
      w := Push(h, w, p, e.steps);
    }
    assert parents[..|parents|] == parents;
    r := Expanded(w, covered, queued, uncovered);
  }

  lemma PushNone(h: History, w: Walk, steps: nat)
    ensures PushAll(h, w, [], steps) == w
  {
  }

  lemma MissingFails(h: History, start: ObjectId, p: ObjectId, maxCommits: nat)
    requires p in Reach(h.Links(), {start}) && p !in h.commits
    ensures Fails(h, start, maxCommits, Missing(p))
  {
  }

  // Pruning loses nothing.

  /** Along first parents, at most one commit is queued and it is farther than every candidate. */
  ghost predicate Linear(h: History, w: Walk, found: seq<Entry>)
  {
    h.firstParent ==> |w.queue| <= 1 && forall f, e :: f in found && e in w.queue ==> f.steps <= e.steps
  }

  lemma CoveredIsDominated(h: History, start: ObjectId, found: seq<Entry>, e: Entry)
    requires e.id in Reach(h.Links(), Ids(found))
    requires h.firstParent ==> forall f :: f in found ==> f.steps <= e.steps
    ensures Dominated(h, start, found, e)
  {
    hide Reach, History.Links;
    var id := ReachFromOne(h.Links(), Ids(found), e.id);
    var f :| f in found && f.id == id;
    if !h.firstParent {
      ReachedIsFarther(h, start, f, e);
    }
    assert Distance(h, start, f) <= Distance(h, start, e);
  }

  lemma {:induction false} PushAllLinear(h: History, w: Walk, parents: seq<ObjectId>, steps: nat)
    requires forall p :: p in parents ==> p in h.commits
    ensures var w' := PushAll(h, w, parents, steps);
      |w'.queue| <= |w.queue| + |parents| && forall e :: e in w'.queue ==> e in w.queue || e.steps == steps + 1
    decreases |parents|
  {
    if parents != [] {
      assert parents[0] in parents;
      PushAllLinear(h, Push(h, w, parents[0], steps), parents[1..], steps);
    }
  }

  lemma LinearStep(h: History, w: Walk, found: seq<Entry>, found': seq<Entry>, parents: seq<ObjectId>)
    requires w.queue != [] && Linear(h, w, found)
    requires h.firstParent ==> |parents| <= 1
    requires forall p :: p in parents ==> p in h.commits
    requires var e := w.queue[Top(w.queue)]; forall f :: f in found' ==> f in found || f == e
    ensures Linear(h, PushAll(h, Popped(w), parents, w.queue[Top(w.queue)].steps), found')
  {
    PushAllLinear(h, Popped(w), parents, w.queue[Top(w.queue)].steps);
  }

  lemma {:induction false} VisitsLinear(h: History, u: set<ObjectId>, w: Walk, least: nat)
    requires Ready(h, u, w) && h.firstParent && |w.queue| <= 1 && forall e :: e in w.queue ==> least <= e.steps
    ensures forall e :: e in Visits(h, u, w) ==> least <= e.steps
    decreases |u - w.seen|, |w.queue|
  {
    if w.queue != [] {
      var e, w' := w.queue[Top(w.queue)], Next(h, u, w);
      assert e.id in Ids(w.queue);
      ParentsInUniverse(h, u, e.id);
      PushAllLinear(h, Popped(w), h.Parents(e.id), e.steps);
      SmallerUniverse(h, u, w);
      VisitsLinear(h, u, w', least);
      assert Visits(h, u, w) == [e] + Visits(h, u, w');
    }
  }

  /** Once the whole queue is covered, so is everything still to be visited. */
  lemma RestIsDominated(h: History, start: ObjectId, u: set<ObjectId>, w: Walk, found: seq<Entry>)
    requires Ready(h, u, w) && Linear(h, w, found) && Ids(w.queue) <= Reach(h.Links(), Ids(found))
    ensures forall e :: e in Visits(h, u, w) ==> Dominated(h, start, found, e)
  {
    hide Reach, Visits, Ready, Dominated;
    ReachIsClosed(h.Links(), Ids(found));
    VisitsWithin(h, u, w, Reach(h.Links(), Ids(found)));
    if h.firstParent {
      forall f | f in found
        ensures forall e :: e in Visits(h, u, w) ==> f.steps <= e.steps
      {
        VisitsLinear(h, u, w, f.steps);
      }
    }
    forall e | e in Visits(h, u, w)
      ensures Dominated(h, start, found, e)
    {
      CoveredIsDominated(h, start, found, e);
    }
  }

  lemma {:induction false} CandidatesConcat(tags: set<ObjectId>, start: ObjectId, a: seq<Entry>, b: seq<Entry>)
    ensures Candidates(tags, start, a + b) == Candidates(tags, start, a) + Candidates(tags, start, b)
    decreases |b|
  {
    if b == [] {
      assert a + b == a;
    } else {
      CandidatesConcat(tags, start, a, b[..|b| - 1]);
      assert (a + b)[..|a + b| - 1] == a + b[..|b| - 1];
    }
  }

  lemma {:induction false} CandidatesWithin(tags: set<ObjectId>, start: ObjectId, entries: seq<Entry>)
    ensures forall e :: e in Candidates(tags, start, entries) ==> e in entries && e.id in tags
    decreases |entries|
  {
    if entries != [] { CandidatesWithin(tags, start, entries[..|entries| - 1]); }
  }

  /** The answer an exhaustive search gives: the nearest of the first `max` tagged ancestors. */
  ghost function ExhaustiveNearest(h: History, start: ObjectId, tags: set<ObjectId>, max: nat): Option<Entry>
    requires h.Complete(start)
  {
    Nearest(h, start, Take(Candidates(tags, start, Exhaustive(h, start)), max))
  }

  /** Dominated candidates after the ones already counted do not change the answer. */
  lemma StoppingIsSound(h: History, start: ObjectId, tags: set<ObjectId>, max: nat,
                        popped: seq<Entry>, rest: seq<Entry>, found: seq<Entry>)
    requires Nearest(h, start, found) == Nearest(h, start, Candidates(tags, start, popped))
    requires |Candidates(tags, start, popped)| <= max
    requires |Candidates(tags, start, popped)| == max || forall e :: e in rest ==> Dominated(h, start, found, e)
    ensures Nearest(h, start, Take(Candidates(tags, start, popped + rest), max)) == Nearest(h, start, found)
  {
    hide Candidates, Nearest, Distance, Dominated;
    var counted, later := Candidates(tags, start, popped), Candidates(tags, start, rest);
    CandidatesConcat(tags, start, popped, rest);
    if |counted| == max {
      assert Take(counted + later, max) == counted;
    } else {
      var n := if |later| <= max - |counted| then |later| else max - |counted|;
      assert Take(counted + later, max) == counted + later[..n];
      CandidatesWithin(tags, start, rest);
      forall e | e in later[..n]
        ensures Dominated(h, start, counted, e)
      {
        DominatedBySame(h, start, found, counted, e);
      }
      DominatedTail(h, start, counted, later[..n]);
    }
  }

  lemma DominatedBySame(h: History, start: ObjectId, a: seq<Entry>, b: seq<Entry>, e: Entry)
    requires Dominated(h, start, a, e) && Nearest(h, start, a) == Nearest(h, start, b)
    ensures Dominated(h, start, b, e)
  {
    hide Distance;
    var f :| f in a && Distance(h, start, f) <= Distance(h, start, e);
    var k := NearestIsLeast(h, start, a);
    var i :| 0 <= i < |a| && a[i] == f;
    var k' := NearestIsLeast(h, start, b);
    assert b[k'] in b;
  }

  /** How far the search has come, compared with the exhaustive walk. */
  ghost predicate Progress(h: History, start: ObjectId, tags: set<ObjectId>, w: Walk,
                           popped: seq<Entry>, found: seq<Entry>, counted: nat)
  {
    && (h.Complete(start) ==>
          && Ready(h, Reach(h.Links(), {start}), w)
          && Exhaustive(h, start) == popped + Visits(h, Reach(h.Links(), {start}), w))
    && counted == |Candidates(tags, start, popped)|
    && Nearest(h, start, found) == Nearest(h, start, Candidates(tags, start, popped))
    && Linear(h, w, found)
    && (forall f :: f in found ==> f.id in tags && f.id in Reach(h.Links(), {start}))
  }

  lemma ProgressStart(h: History, start: ObjectId, tags: set<ObjectId>)
    requires start in h.commits
    ensures Progress(h, start, tags, Start(h, start), [], [], 0)
    ensures Searching(h, start, Start(h, start), [], {}, {start}, 1)
  {
    hide Reach;
    ReachIsClosed(h.Links(), {start});
    if h.Complete(start) {
      StartReady(h, start);
      assert [] + Exhaustive(h, start) == Exhaustive(h, start);
    }
    assert {start} - {} == {start};
    assert Ids(Start(h, start).queue) == {start};
  }

  lemma CandidatesStep(tags: set<ObjectId>, start: ObjectId, popped: seq<Entry>, e: Entry)
    ensures Candidates(tags, start, popped + [e])
         == Candidates(tags, start, popped) + if e.id != start && e.id in tags then [e] else []
  {
    assert (popped + [e])[..|popped|] == popped;
  }

  lemma NearestStep(h: History, start: ObjectId, a: seq<Entry>, b: seq<Entry>, e: Entry)
    requires Nearest(h, start, a) == Nearest(h, start, b)
    ensures Nearest(h, start, a + [e]) == Nearest(h, start, b + [e])
  {
    assert (a + [e])[..|a|] == a && (b + [e])[..|b|] == b;
  }

  /** One pop: a new candidate is recorded, a covered one is only counted. */
  lemma ProgressCandidates(h: History, start: ObjectId, tags: set<ObjectId>, popped: seq<Entry>, found: seq<Entry>,
                           e: Entry, isCovered: bool)
    requires Nearest(h, start, found) == Nearest(h, start, Candidates(tags, start, popped))
    requires isCovered ==> Dominated(h, start, found, e)
    ensures var candidate := e.id != start && e.id in tags;
      var found' := if candidate && !isCovered then found + [e] else found;
      Nearest(h, start, found') == Nearest(h, start, Candidates(tags, start, popped + [e]))
  {
    hide Nearest, Candidates, Dominated, Distance;
    CandidatesStep(tags, start, popped, e);
    if e.id != start && e.id in tags {
      if isCovered {
        DominatedBySame(h, start, found, Candidates(tags, start, popped), e);
        DominatedChangesNothing(h, start, Candidates(tags, start, popped), e);
      } else {
        NearestStep(h, start, found, Candidates(tags, start, popped), e);
      }
    } else {
      assert Candidates(tags, start, popped) + [] == Candidates(tags, start, popped);
    }
  }

  lemma ProgressVisits(h: History, start: ObjectId, w: Walk, popped: seq<Entry>)
    requires h.Complete(start) && Ready(h, Reach(h.Links(), {start}), w) && w.queue != []
    requires Exhaustive(h, start) == popped + Visits(h, Reach(h.Links(), {start}), w)
    ensures var e := w.queue[Top(w.queue)]; e.id in h.commits
    ensures forall p :: p in h.Parents(w.queue[Top(w.queue)].id) ==> p in h.commits
    ensures var e := w.queue[Top(w.queue)]; var w' := PushAll(h, Popped(w), h.Parents(e.id), e.steps);
      && Ready(h, Reach(h.Links(), {start}), w')
      && Exhaustive(h, start) == popped + [e] + Visits(h, Reach(h.Links(), {start}), w')
  {
    hide Reach, Exhaustive, Visits;
    var u, e := Reach(h.Links(), {start}), w.queue[Top(w.queue)];
    assert e.id in Ids(w.queue);
    ParentsInUniverse(h, u, e.id);
    VisitsUnfold(h, u, w);
    assert popped + ([e] + Visits(h, u, Next(h, u, w))) == popped + [e] + Visits(h, u, Next(h, u, w));
  }

  lemma ProgressStep(h: History, start: ObjectId, tags: set<ObjectId>, w: Walk,
                     popped: seq<Entry>, found: seq<Entry>, counted: nat, isCovered: bool)
    requires Progress(h, start, tags, w, popped, found, counted) && w.queue != []
    requires var e := w.queue[Top(w.queue)];
      && e.id in h.commits && e.id in Reach(h.Links(), {start}) && (isCovered ==> Dominated(h, start, found, e))
      && forall p :: p in h.Parents(e.id) ==> p in h.commits
    ensures var e := w.queue[Top(w.queue)]; var candidate := e.id != start && e.id in tags;
      Progress(h, start, tags, PushAll(h, Popped(w), h.Parents(e.id), e.steps), popped + [e],
               if candidate && !isCovered then found + [e] else found, counted + One(candidate))
  {
    hide Reach, Exhaustive, Visits, Ready, Nearest, Candidates, Dominated, Linear, History.Links, PushAll, Popped;
    var e := w.queue[Top(w.queue)];
    var found' := if e.id != start && e.id in tags && !isCovered then found + [e] else found;
    ProgressCandidates(h, start, tags, popped, found, e, isCovered);
    CandidatesStep(tags, start, popped, e);
    LinearStep(h, w, found, found', h.Parents(e.id));
    if h.Complete(start) {
      ProgressVisits(h, start, w, popped);
    }
  }

  /** What the search promises about the candidates it returns. */
  ghost predicate Answers(h: History, start: ObjectId, tags: set<ObjectId>, max: nat, found: seq<Entry>)
  {
    && (forall f :: f in found ==> f.id in tags && f.id in Reach(h.Links(), {start}))
    && (h.Complete(start) ==> Nearest(h, start, found) == ExhaustiveNearest(h, start, tags, max))
  }

  lemma AnswerAtLimit(h: History, start: ObjectId, tags: set<ObjectId>, w: Walk,
                      popped: seq<Entry>, found: seq<Entry>, counted: nat, max: nat, isCovered: bool)
    requires Progress(h, start, tags, w, popped, found, counted) && w.queue != [] && counted + 1 == max
    requires var e := w.queue[Top(w.queue)];
      && e.id != start && e.id in tags && e.id in Reach(h.Links(), {start})
      && (isCovered ==> Dominated(h, start, found, e))
    ensures Answers(h, start, tags, max, if isCovered then found else found + [w.queue[Top(w.queue)]])
  {
    hide Reach, Exhaustive, Visits, Ready, Nearest, Candidates, Dominated, Linear, History.Links, PushAll, Popped;
    var e := w.queue[Top(w.queue)];
    ProgressCandidates(h, start, tags, popped, found, e, isCovered);
    CandidatesStep(tags, start, popped, e);
    if h.Complete(start) {
      ProgressVisits(h, start, w, popped);
      var w' := PushAll(h, Popped(w), h.Parents(e.id), e.steps);
      StoppingIsSound(h, start, tags, max, popped + [e], Visits(h, Reach(h.Links(), {start}), w'),
                      if isCovered then found else found + [e]);
    }
  }

  lemma AnswerWhenCovered(h: History, start: ObjectId, tags: set<ObjectId>, w: Walk,
                          popped: seq<Entry>, found: seq<Entry>, counted: nat, max: nat,
                          covered: set<ObjectId>, queued: set<ObjectId>)
    requires Progress(h, start, tags, w, popped, found, counted) && counted <= max
    requires Searching(h, start, w, found, covered, queued, 0)
    ensures Answers(h, start, tags, max, found)
  {
    hide Reach, Exhaustive, Visits, Ready, Nearest, Candidates, Dominated, Linear, History.Links, Unique;
    assert queued - covered == {};
    if h.Complete(start) {
      var u := Reach(h.Links(), {start});
      RestIsDominated(h, start, u, w, found);
      StoppingIsSound(h, start, tags, max, popped, Visits(h, u, w), found);
    }
  }

  /**
  The pruned search. On a completely readable history its candidates name the same nearest
  commit, at the same distance, as visiting every ancestor would; it fails only on a commit
  that cannot be read or on more ancestors than allowed.
  */
  method NewestFirst(h: History, start: ObjectId, tags: set<ObjectId>, max: nat, maxCommits: nat) returns (r: Search)
    requires 0 < max
    ensures r.Found? ==> Answers(h, start, tags, max, r.found)
    ensures !r.Found? ==> Fails(h, start, maxCommits, r)
  {
    hide *;
    OneIsCount();
    if start !in h.commits {
      StartFails(h, start, maxCommits);
      return Missing(start);
    }
    var w, found: seq<Entry>, counted: nat := Start(h, start), [], 0;
    var covered: set<ObjectId>, queued, uncovered: nat := {}, {start}, 1;
    ghost var popped: seq<Entry> := [];
    ProgressStart(h, start, tags);
    while w.queue != []
      invariant Searching(h, start, w, found, covered, queued, uncovered)
      invariant Progress(h, start, tags, w, popped, found, counted) && counted < max
      decreases |h.commits.Keys - w.seen|, |w.queue|
    {
      var e := w.queue[Top(w.queue)];
      var isCovered := e.id in covered;
      PopStep(h, start, w, found, covered, queued, uncovered);
      if isCovered { TopIsDominated(h, start, tags, w, popped, found, counted, covered, queued, uncovered); }
      ghost var w0, found0, counted0, covered0 := w, found, counted, isCovered;
      w := Popped(w);
      queued := queued - {e.id};
      if !isCovered { uncovered := uncovered - 1; }
      if e.id != start && e.id in tags {
        counted := counted + 1;
        if !isCovered {
          FoundStep(h, start, w, found, covered, queued, uncovered, e);
          found := found + [e];
          covered := covered + {e.id};
          isCovered := true;
        }
        if counted == max {
          AnswerAtLimit(h, start, tags, w0, popped, found0, counted0, max, covered0);
          return Found(found);
        }
      }
      if isCovered { CoveredIsReached(h, start, w, found, covered, queued, uncovered, e.id); }
      var expansion := Expand(h, start, found, e, isCovered, w, covered, queued, uncovered, maxCommits);
      if expansion.Failed? {
        return expansion.search;
      }
      ProgressStep(h, start, tags, w0, popped, found0, counted0, covered0);
      MeasureStep(h, start, w0, expansion.walk, found, expansion.covered, expansion.queued, expansion.uncovered, e);
      popped := popped + [e];
      w, covered, queued, uncovered :=
        expansion.walk, expansion.covered, expansion.queued, expansion.uncovered;
      if found != [] && uncovered == 0 {
        AnswerWhenCovered(h, start, tags, w, popped, found, counted, max, covered, queued);
        return Found(found);
      }
    }
    AnswerWhenEmpty(h, start, tags, w, popped, found, counted, max, covered, queued, uncovered);
    r := Found(found);
  }

  lemma StartFails(h: History, start: ObjectId, maxCommits: nat)
    requires start !in h.commits
    ensures Fails(h, start, maxCommits, Missing(start))
  {
    ReachIsClosed(h.Links(), {start});
  }

  lemma AnswerWhenEmpty(h: History, start: ObjectId, tags: set<ObjectId>, w: Walk,
                        popped: seq<Entry>, found: seq<Entry>, counted: nat, max: nat,
                        covered: set<ObjectId>, queued: set<ObjectId>, uncovered: nat)
    requires Progress(h, start, tags, w, popped, found, counted) && counted <= max && w.queue == []
    requires Searching(h, start, w, found, covered, queued, uncovered)
    ensures Answers(h, start, tags, max, found)
  {
    hide Reach, Nearest, Candidates, Linear, History.Links, Progress;
    assert queued - covered == {};
    AnswerWhenCovered(h, start, tags, w, popped, found, counted, max, covered, queued);
  }

  lemma TopIsDominated(h: History, start: ObjectId, tags: set<ObjectId>, w: Walk,
                       popped: seq<Entry>, found: seq<Entry>, counted: nat,
                       covered: set<ObjectId>, queued: set<ObjectId>, uncovered: nat)
    requires Progress(h, start, tags, w, popped, found, counted) && w.queue != []
    requires Searching(h, start, w, found, covered, queued, uncovered)
    requires w.queue[Top(w.queue)].id in covered
    ensures Dominated(h, start, found, w.queue[Top(w.queue)])
  {
    hide Reach, Nearest, Candidates, History.Links, Visits, Exhaustive, Unique, Ready;
    CoveredIsDominated(h, start, found, w.queue[Top(w.queue)]);
  }

  lemma CoveredIsReached(h: History, start: ObjectId, w: Walk, found: seq<Entry>,
                         covered: set<ObjectId>, queued: set<ObjectId>, uncovered: nat, id: ObjectId)
    requires Searching(h, start, w, found, covered, queued, uncovered) && id in covered
    ensures id in Reach(h.Links(), Ids(found))
  {
  }

  lemma MeasureStep(h: History, start: ObjectId, w: Walk, w': Walk, found: seq<Entry>,
                    covered: set<ObjectId>, queued: set<ObjectId>, uncovered: nat, e: Entry)
    requires w.queue != [] && e.id in h.commits && forall p :: p in h.Parents(e.id) ==> p in h.commits
    requires w' == PushAll(h, Popped(w), h.Parents(e.id), e.steps)
    requires Searching(h, start, w', found, covered, queued, uncovered)
    ensures var keys := h.commits.Keys;
      |keys - w'.seen| < |keys - w.seen| || (|keys - w'.seen| == |keys - w.seen| && |w'.queue| < |w.queue|)
  {
    hide Reach, Unique, Ids, PushAll;
    var keys := h.commits.Keys;
    if w'.seen == w.seen {
    } else {
      var x :| x in w'.seen && x !in w.seen;
      SubsetIsSmaller((keys - w'.seen) + {x}, keys - w.seen);
    }
  }
}
