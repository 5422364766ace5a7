/**
The order of the nearest-tag walk, said without its queue: of the commits that have arrived, the
one dated last comes next, and of several the one that arrived first.
*/
module VisitOrder {

  import opened Objects
  import opened Reachability
  import opened Sets
  import opened Describe

  // Which commits follow which.

  /** A shallow commit has no parents; otherwise they are the recorded ones, or only the first of them. */
  lemma ParentsAre(h: History, id: ObjectId)
    requires id in h.commits
    ensures id in h.shallow ==> h.Parents(id) == []
    ensures id !in h.shallow && !h.firstParent ==> h.Parents(id) == h.commits[id].parents
    ensures id !in h.shallow && h.firstParent ==>
      if h.commits[id].parents == [] then h.Parents(id) == [] else h.Parents(id) == [h.commits[id].parents[0]]
  {
  }

  /** The commits named so far: the start, then the parents of every commit in the order of the commits. */
  ghost function Arrivals(h: History, start: ObjectId, ids: seq<ObjectId>): seq<ObjectId>
  {
    if ids == [] then [start]
    else
      var last := ids[|ids| - 1];
      Arrivals(h, start, ids[..|ids| - 1]) + if last in h.commits then h.Parents(last) else []
  }

  /** Of two commits, `x` is named before `y` is. */
  ghost predicate Earlier(arrivals: seq<ObjectId>, x: ObjectId, y: ObjectId)
  {
    exists n: nat :: n <= |arrivals| && NamedWithin(arrivals, n, x) && !NamedWithin(arrivals, n, y)
  }

  ghost predicate NamedWithin(arrivals: seq<ObjectId>, n: nat, x: ObjectId)
    requires n <= |arrivals|
  {
    x in arrivals[..n]
  }

  ghost predicate Precedes(h: History, arrivals: seq<ObjectId>, x: ObjectId, y: ObjectId)
    requires x in h.commits && y in h.commits
  {
    || h.commits[x].date > h.commits[y].date
    || (h.commits[x].date == h.commits[y].date && Earlier(arrivals, x, y))
  }

  /** From position `from` on, each commit has arrived and precedes every later one that has. */
  ghost predicate NewestFirst(h: History, start: ObjectId, ids: seq<ObjectId>, from: nat)
  {
    && (forall i :: from <= i < |ids| ==> ids[i] in h.commits && ids[i] in Arrivals(h, start, ids[..i]))
    && (forall i, j :: from <= i < j < |ids| && ids[j] in Arrivals(h, start, ids[..i]) ==>
          Precedes(h, Arrivals(h, start, ids[..i]), ids[i], ids[j]))
  }

  lemma EarlierStays(arrivals: seq<ObjectId>, more: seq<ObjectId>, x: ObjectId, y: ObjectId)
    requires Earlier(arrivals, x, y)
    ensures Earlier(arrivals + more, x, y)
  {
    var n: nat :| n <= |arrivals| && NamedWithin(arrivals, n, x) && !NamedWithin(arrivals, n, y);
    assert (arrivals + more)[..n] == arrivals[..n];
    assert NamedWithin(arrivals + more, n, x) && !NamedWithin(arrivals + more, n, y);
  }

  lemma EarlierThanNew(arrivals: seq<ObjectId>, x: ObjectId, y: ObjectId)
    requires x in arrivals && y !in arrivals
    ensures Earlier(arrivals + [y], x, y)
  {
    var more := arrivals + [y];
    assert more[..|arrivals|] == arrivals;
    assert NamedWithin(more, |arrivals|, x) && !NamedWithin(more, |arrivals|, y);
  }

  lemma EarlierIsOneWay(arrivals: seq<ObjectId>, x: ObjectId, y: ObjectId)
    requires Earlier(arrivals, x, y)
    ensures !Earlier(arrivals, y, x)
  {
    var n: nat :| n <= |arrivals| && NamedWithin(arrivals, n, x) && !NamedWithin(arrivals, n, y);
    forall m: nat | m <= |arrivals| && NamedWithin(arrivals, m, y) ensures NamedWithin(arrivals, m, x) {
      if m <= n { NamedGrows(arrivals, m, n, y); } else { NamedGrows(arrivals, n, m, x); }
    }
  }

  lemma NamedGrows(arrivals: seq<ObjectId>, m: nat, n: nat, x: ObjectId)
    requires m <= n <= |arrivals| && NamedWithin(arrivals, m, x)
    ensures NamedWithin(arrivals, n, x)
  {
    assert arrivals[..n] == arrivals[..m] + arrivals[m..n];
  }

  // The queue holds what has arrived, in the order of arrival.

  /** The walk has seen the arrivals, and its queue counts them in order. */
  ghost predicate Queues(h: History, arrivals: seq<ObjectId>, w: Walk)
  {
    && (forall x :: x in w.seen <==> x in arrivals)
    && (forall e :: e in w.queue ==>
          e.order <= w.order && e.id in arrivals && e.id in h.commits && e.date == h.commits[e.id].date)
    && (forall e, f :: e in w.queue && f in w.queue && e.id != f.id ==>
          e.order != f.order && (e.order < f.order ==> Earlier(arrivals, e.id, f.id)))
  }

  lemma PushQueues(h: History, arrivals: seq<ObjectId>, w: Walk, p: ObjectId, steps: nat)
    requires Queues(h, arrivals, w) && p in h.commits
    ensures Queues(h, arrivals + [p], Push(h, w, p, steps))
  {
    hide Earlier;
    var w', more := Push(h, w, p, steps), arrivals + [p];
    assert forall e :: e in w'.queue && e !in w.queue ==> p !in w.seen && e.id == p && e.order == w.order + 1;
    forall e, f | e in w'.queue && f in w'.queue && e.id != f.id
      ensures e.order != f.order && (e.order < f.order ==> Earlier(more, e.id, f.id))
    {
      if e in w.queue && f in w.queue {
        if e.order < f.order { EarlierStays(arrivals, [p], e.id, f.id); }
      } else if e in w.queue {
        EarlierThanNew(arrivals, e.id, p);
      }
    }
  }

  lemma {:induction false} PushAllQueues(h: History, arrivals: seq<ObjectId>, w: Walk, parents: seq<ObjectId>, steps: nat)
    requires Queues(h, arrivals, w) && forall p :: p in parents ==> p in h.commits
    ensures Queues(h, arrivals + parents, PushAll(h, w, parents, steps))
    decreases |parents|
  {
    hide Queues;
    if parents == [] {
      assert arrivals + parents == arrivals;
    } else {
      var p := parents[0];
      assert p in parents;
      PushQueues(h, arrivals, w, p, steps);
      PushAllQueues(h, arrivals + [p], Push(h, w, p, steps), parents[1..], steps);
      assert arrivals + [p] + parents[1..] == arrivals + parents;
    }
  }

  lemma PoppedQueues(h: History, arrivals: seq<ObjectId>, w: Walk)
    requires Queues(h, arrivals, w) && w.queue != []
    ensures Queues(h, arrivals, Popped(w))
  {
    assert forall e :: e in Popped(w).queue ==> e in w.queue;
  }

  /** The popped entry precedes everything else in the queue. */
  lemma PoppedPrecedes(h: History, arrivals: seq<ObjectId>, w: Walk, f: Entry)
    requires Queues(h, arrivals, w) && w.queue != [] && f in w.queue && f.id != w.queue[Top(w.queue)].id
    ensures w.queue[Top(w.queue)].id in h.commits && f.id in h.commits
    ensures Precedes(h, arrivals, w.queue[Top(w.queue)].id, f.id)
  {
    hide Earlier;
    var e := w.queue[Top(w.queue)];
    assert e in w.queue;
    var i :| 0 <= i < |w.queue| && w.queue[i] == f;
    assert !Newer(w.queue[i], e);
  }

  ghost function IdSeq(entries: seq<Entry>): (ids: seq<ObjectId>)
    ensures |ids| == |entries| && forall i :: 0 <= i < |ids| ==> ids[i] == entries[i].id
  {
    seq(|entries|, i requires 0 <= i < |entries| => entries[i].id)
  }

  lemma ArrivalsStep(h: History, start: ObjectId, ids: seq<ObjectId>, x: ObjectId)
    requires x in h.commits
    ensures Arrivals(h, start, ids + [x]) == Arrivals(h, start, ids) + h.Parents(x)
  {
    assert (ids + [x])[..|ids|] == ids;
  }

  /** The commit at `from` has arrived and precedes whatever else has and is still to come. */
  ghost predicate ComesFirst(h: History, arrivals: seq<ObjectId>, ids: seq<ObjectId>, from: nat)
  {
    && from < |ids| && ids[from] in h.commits && ids[from] in arrivals
    && forall j :: from < j < |ids| && ids[j] in arrivals ==>
         ids[j] in h.commits && Precedes(h, arrivals, ids[from], ids[j])
  }

  lemma NewestFirstStep(h: History, start: ObjectId, ids: seq<ObjectId>, from: nat)
    requires from < |ids| && NewestFirst(h, start, ids, from + 1)
    requires ComesFirst(h, Arrivals(h, start, ids[..from]), ids, from)
    ensures NewestFirst(h, start, ids, from)
  {
    hide Arrivals, Precedes;
  }

  /** After the commits `popped`, the rest of the walk is in order. */
  lemma {:induction false} VisitsInOrder(h: History, u: set<ObjectId>, w: Walk, start: ObjectId, popped: seq<ObjectId>)
    requires Ready(h, u, w) && Unique(w.queue) && Queues(h, Arrivals(h, start, popped), w)
    requires forall x :: x in w.seen && x !in Ids(w.queue) ==> x in popped
    ensures NewestFirst(h, start, popped + IdSeq(Visits(h, u, w)), |popped|)
    decreases |u - w.seen|, |w.queue|
  {
    hide Ready, Next, Visits, Unique, Ids, Arrivals, Queues, NewestFirst, IdSeq, Precedes, Top, ComesFirst;
    VisitsUnfold(h, u, w);
    var arrivals := Arrivals(h, start, popped);
    if w.queue == [] {
      NothingLeft(h, start, popped, IdSeq(Visits(h, u, w)));
    } else {
      var e, w', rest := w.queue[Top(w.queue)], Next(h, u, w), Visits(h, u, Next(h, u, w));
      var ids := popped + IdSeq(Visits(h, u, w));
      NextQueues(h, u, w, start, popped);
      NextUnique(h, u, w);
      SmallerUniverse(h, u, w);
      PoppedGrows(w, w', e.id, popped);
      VisitsInOrder(h, u, w', start, popped + [e.id]);
      IdSeqFirst(e, rest);
      assert ids == popped + ([e.id] + IdSeq(rest)) == popped + [e.id] + IdSeq(rest);
      FirstInOrder(h, u, w, start, popped);
      NewestFirstStep(h, start, ids, |popped|);
    }
  }

  lemma IdSeqFirst(e: Entry, rest: seq<Entry>)
    ensures IdSeq([e] + rest) == [e.id] + IdSeq(rest)
  {
  }

  lemma PoppedGrows(w: Walk, w': Walk, x: ObjectId, popped: seq<ObjectId>)
    requires Ids(w'.queue) == Ids(w.queue) - {x} + (w'.seen - w.seen)
    requires forall y :: y in w.seen && y !in Ids(w.queue) ==> y in popped
    ensures forall y :: y in w'.seen && y !in Ids(w'.queue) ==> y in popped + [x]
  {
    hide Ids;
  }

  lemma NothingLeft(h: History, start: ObjectId, popped: seq<ObjectId>, rest: seq<ObjectId>)
    requires rest == []
    ensures NewestFirst(h, start, popped + rest, |popped|)
  {
  }

  lemma NextQueues(h: History, u: set<ObjectId>, w: Walk, start: ObjectId, popped: seq<ObjectId>)
    requires Ready(h, u, w) && w.queue != [] && Queues(h, Arrivals(h, start, popped), w)
    ensures Queues(h, Arrivals(h, start, popped + [w.queue[Top(w.queue)].id]), Next(h, u, w))
  {
    hide Queues, Arrivals;
    var e := w.queue[Top(w.queue)];
    assert e.id in Ids(w.queue);
    ParentsInUniverse(h, u, e.id);
    PoppedQueues(h, Arrivals(h, start, popped), w);
    PushAllQueues(h, Arrivals(h, start, popped), Popped(w), h.Parents(e.id), e.steps);
    ArrivalsStep(h, start, popped, e.id);
  }

  lemma FirstInOrder(h: History, u: set<ObjectId>, w: Walk, start: ObjectId, popped: seq<ObjectId>)
    requires Ready(h, u, w) && Unique(w.queue) && Queues(h, Arrivals(h, start, popped), w) && w.queue != []
    ensures var ids := popped + IdSeq(Visits(h, u, w));
      |popped| < |ids| && ids[..|popped|] == popped && ComesFirst(h, Arrivals(h, start, popped), ids, |popped|)
  {
    hide Ready, Next, Visits, Arrivals, Precedes, Queues, Unique, Top;
    var visits, arrivals := Visits(h, u, w), Arrivals(h, start, popped);
    var ids, from := popped + IdSeq(visits), |popped|;
    FirstVisit(h, u, w, arrivals);
    assert ids[..from] == popped && ids[from] == IdSeq(visits)[0] == visits[0].id;
    forall j | from < j < |ids| && ids[j] in arrivals
      ensures ids[j] in h.commits && Precedes(h, arrivals, ids[from], ids[j])
    {
      assert ids[j] == IdSeq(visits)[j - from] == visits[j - from].id;
      LaterVisit(h, u, w, arrivals, j - from);
    }
  }

  lemma FirstVisit(h: History, u: set<ObjectId>, w: Walk, arrivals: seq<ObjectId>)
    requires Ready(h, u, w) && Queues(h, arrivals, w) && w.queue != []
    ensures var visits := Visits(h, u, w);
      visits != [] && visits[0] == w.queue[Top(w.queue)] && visits[0].id in h.commits && visits[0].id in arrivals
  {
    hide Ready, Next, Visits;
    VisitsUnfold(h, u, w);
    assert w.queue[Top(w.queue)] in w.queue;
  }

  lemma LaterVisit(h: History, u: set<ObjectId>, w: Walk, arrivals: seq<ObjectId>, k: nat)
    requires Ready(h, u, w) && Unique(w.queue) && Queues(h, arrivals, w) && w.queue != []
    requires 0 < k < |Visits(h, u, w)| && Visits(h, u, w)[k].id in arrivals
    ensures var visits := Visits(h, u, w);
      visits[0].id in h.commits && visits[k].id in h.commits && Precedes(h, arrivals, visits[0].id, visits[k].id)
  {
    hide Ready, Next, Visits, Precedes;
    var g := Visits(h, u, w)[k];
    FirstVisit(h, u, w, arrivals);
    VisitsOnce(h, u, w);
    IdsContain(Visits(h, u, w), k);
    assert g.id in Ids(w.queue);
    var f :| f in w.queue && f.id == g.id;
    PoppedPrecedes(h, arrivals, w, f);
  }

  /** The walk visits all ancestors of its start, each once, newest first. */
  ghost predicate Enumerates(h: History, start: ObjectId, ids: seq<ObjectId>)
  {
    && (forall x :: x in ids <==> x in Reach(h.Links(), {start}))
    && Distinct(ids)
    && NewestFirst(h, start, ids, 0)
  }

  lemma StartQueues(h: History, start: ObjectId)
    requires start in h.commits
    ensures var w := Start(h, start); Queues(h, [start], w) && Unique(w.queue) && Ids(w.queue) == w.seen
  {
  }

  lemma WalkIsNewestFirst(h: History, start: ObjectId)
    requires h.Complete(start)
    ensures Enumerates(h, start, IdSeq(Exhaustive(h, start)))
  {
    hide Reach, Visits, NewestFirst, Ids, Unique, Distinct, Queues;
    StartReady(h, start);
    WalkIsExhaustive(h, start);
    var u, w, visits := Reach(h.Links(), {start}), Start(h, start), Exhaustive(h, start);
    assert Arrivals(h, start, []) == [start];
    StartQueues(h, start);
    VisitsInOrder(h, u, w, start, []);
    assert [] + IdSeq(visits) == IdSeq(visits);
    IdSeqDistinct(visits);
    forall x ensures x in IdSeq(visits) <==> x in u { IdSeqMembers(visits, x); }
  }

  lemma IdSeqDistinct(entries: seq<Entry>)
    requires Unique(entries)
    ensures Distinct(IdSeq(entries))
  {
  }

  lemma IdSeqMembers(entries: seq<Entry>, x: ObjectId)
    ensures x in IdSeq(entries) <==> x in Ids(entries)
  {
    if x in Ids(entries) {
      var e :| e in entries && e.id == x;
      var i :| 0 <= i < |entries| && entries[i] == e;
      assert IdSeq(entries)[i] == x;
    }
  }

  /** No other sequence of commits is in that order: the history alone determines the walk. */
  lemma OrderIsUnique(h: History, start: ObjectId, ids: seq<ObjectId>, others: seq<ObjectId>)
    requires Enumerates(h, start, ids) && Enumerates(h, start, others)
    ensures ids == others
  {
    hide Reach, NewestFirst;
    DistinctCount(ids);
    DistinctCount(others);
    assert SetOf(ids) == SetOf(others);
    PrefixIsUnique(h, start, ids, others, |ids|);
    assert ids[..|ids|] == ids && others[..|ids|] == others;
  }

  lemma {:induction false} PrefixIsUnique(h: History, start: ObjectId, ids: seq<ObjectId>, others: seq<ObjectId>, n: nat)
    requires Enumerates(h, start, ids) && Enumerates(h, start, others) && n <= |ids| && n <= |others|
    ensures ids[..n] == others[..n]
  {
    hide Enumerates;
    if n > 0 {
      PrefixIsUnique(h, start, ids, others, n - 1);
      NextIsUnique(h, start, ids, others, n - 1);
      assert ids[..n] == ids[..n - 1] + [ids[n - 1]] && others[..n] == others[..n - 1] + [others[n - 1]];
    }
  }

  lemma NextIsUnique(h: History, start: ObjectId, ids: seq<ObjectId>, others: seq<ObjectId>, n: nat)
    requires Enumerates(h, start, ids) && Enumerates(h, start, others)
    requires n < |ids| && n < |others| && ids[..n] == others[..n]
    ensures ids[n] == others[n]
  {
    hide Reach, Arrivals, Earlier;
    var arrivals, x, y := Arrivals(h, start, ids[..n]), ids[n], others[n];
    if x != y {
      LaterIn(h, start, ids, others, n);
      LaterIn(h, start, others, ids, n);
      if Earlier(arrivals, x, y) { EarlierIsOneWay(arrivals, x, y); }
      assert false;
    }
  }

  /** What the other sequence visits at `n`, this one visits later, so its own choice precedes it. */
  lemma LaterIn(h: History, start: ObjectId, ids: seq<ObjectId>, others: seq<ObjectId>, n: nat)
    requires Enumerates(h, start, ids) && Enumerates(h, start, others)
    requires n < |ids| && n < |others| && ids[..n] == others[..n] && ids[n] != others[n]
    ensures ids[n] in h.commits && others[n] in h.commits
    ensures Precedes(h, Arrivals(h, start, ids[..n]), ids[n], others[n])
  {
    hide Reach, Arrivals, Precedes;
    var y := others[n];
    assert y in others && y in ids;
    var j :| 0 <= j < |ids| && ids[j] == y;
    assert forall k :: 0 <= k < n ==> ids[k] == ids[..n][k] && others[k] == others[..n][k];
    assert n < j;
  }

  /** Where no parent is dated after its child, the dates of the walk never increase. */
  lemma DatesNeverIncrease(h: History, start: ObjectId, ids: seq<ObjectId>, i: nat)
    requires Enumerates(h, start, ids) && i + 1 < |ids|
    requires forall x, p :: x in h.commits && p in h.Parents(x) && p in h.commits ==>
      h.commits[p].date <= h.commits[x].date
    ensures ids[i] in h.commits && ids[i + 1] in h.commits && h.commits[ids[i + 1]].date <= h.commits[ids[i]].date
  {
    hide Reach, Earlier, Arrivals, Distinct, History.Parents;
    var x, y, before := ids[i], ids[i + 1], ids[..i];
    assert ids[..i + 1] == before + [x];
    assert y in Arrivals(h, start, ids[..i + 1]);
    ArrivalsStep(h, start, before, x);
    assert y in Arrivals(h, start, before) || y in h.Parents(x);
  }
}
