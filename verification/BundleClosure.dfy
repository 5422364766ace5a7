/**
What a bundle packs: the closure of its tips without the closure of its prerequisites, collected
by two depth-first phases that share their visited set and their budgets.
*/
module BundleClosure {

  import opened Objects
  import opened Edges
  import opened Options
  import opened Reachability
  import opened Sets

  /** A stored object; `parsed` is absent when its payload cannot be read as its kind. */
  datatype StoredObject = StoredObject(kind: ObjectKind, length: nat, parsed: Option<Payload>)

  type Store = map<ObjectId, StoredObject>

  function EdgesOf(store: Store, id: ObjectId): seq<Edge>
  {
    if id in store && store[id].parsed.Some? then Visit(store[id].parsed.value) else []
  }

  ghost function Links(store: Store): Graph<ObjectId>
  {
    map id | id in store :: Targets(EdgesOf(store, id))
  }

  datatype Limits = Limits(maxObjects: nat, maxBytes: nat, maxEdges: nat)

  datatype Failure = WrongKind | TooManyObjects | MissingObject | TooManyBytes | BadGraph | TooManyEdges | EmptyBundle

  ghost function Lengths(store: Store): map<ObjectId, nat>
  {
    map id | id in store :: store[id].length
  }

  ghost function EdgeCounts(store: Store): map<ObjectId, nat>
  {
    map id | id in store :: |EdgesOf(store, id)|
  }

  // When a bundle can be made.

  type Demand = (ObjectId, Option<ObjectKind>)

  /** The demands a list of objects starts with; prerequisites must be commits. */
  function First(ids: seq<ObjectId>, kind: Option<ObjectKind>): seq<Demand>
  {
    seq(|ids|, i requires 0 <= i < |ids| => (ids[i], kind))
  }

  ghost function Everything(store: Store, prerequisites: set<ObjectId>, tips: set<ObjectId>): set<ObjectId>
  {
    Reach(Links(store), prerequisites + tips)
  }

  /** Both closures are stored, readable, of the kinds their edges demand, and within the limits. */
  ghost predicate Bundleable(store: Store, prerequisites: set<ObjectId>, tips: set<ObjectId>, limits: Limits)
  {
    var all := Everything(store, prerequisites, tips);
    && (forall id :: id in all ==> id in store && store[id].parsed.Some?)
    && (forall id :: id in prerequisites && id in store ==> store[id].kind == Commit)
    && (forall x, e :: x in all && e in EdgesOf(store, x) && e.target in store ==> store[e.target].kind == e.kind)
    && |all| <= limits.maxObjects
    && Total(Lengths(store), all) <= limits.maxBytes
    && Total(EdgeCounts(store), all) <= limits.maxEdges
  }

  // The state of the collection.

  datatype State = State(visited: map<ObjectId, ObjectKind>, retained: set<ObjectId>, bytes: nat, edges: nat)

  /** The visited objects are stored and readable, and the counters are their totals. */
  ghost predicate Counted(store: Store, limits: Limits, s: State)
  {
    && (forall id :: id in s.visited ==> id in store && store[id].parsed.Some? && s.visited[id] == store[id].kind)
    && |s.visited| <= limits.maxObjects
    && s.bytes == Total(Lengths(store), s.visited.Keys) <= limits.maxBytes
    && s.edges == Total(EdgeCounts(store), s.visited.Keys) <= limits.maxEdges
  }

  /** A demand has been checked against a visited object. */
  ghost predicate Met(s: State, d: Demand)
  {
    d.0 in s.visited && (d.1.Some? ==> s.visited[d.0] == d.1.value)
  }

  ghost predicate MetOrPending(s: State, pending: seq<Demand>, d: Demand)
  {
    d in pending || Met(s, d)
  }

  function Asks(e: Edge): Demand
  {
    (e.target, Some(e.kind))
  }

  /** Everything demanded so far has been checked or is pending. */
  ghost predicate Owed(store: Store, first: seq<Demand>, s: State, pending: seq<Demand>)
  {
    && (forall d :: d in first ==> MetOrPending(s, pending, d))
    && (forall x, e :: x in s.visited && e in EdgesOf(store, x) ==> MetOrPending(s, pending, Asks(e)))
  }

  /** Every pending demand is a prerequisite's, a tip's, or that of an edge inside `all`. */
  ghost predicate Justified(store: Store, prerequisites: set<ObjectId>, all: set<ObjectId>, pending: seq<Demand>)
  {
    forall d :: d in pending ==>
      && d.0 in all
      && (d.1.Some? ==>
            || (d.0 in prerequisites && d.1.value == Commit)
            || exists x, e :: x in all && e in EdgesOf(store, x) && Asks(e) == d)
  }

  function Rest(pending: seq<Demand>): seq<Demand>
    requires pending != []
  {
    pending[..|pending| - 1]
  }

  function Demands(edges: seq<Edge>): (demands: seq<Demand>)
    ensures |demands| == |edges|
  {
    seq(|edges|, i requires 0 <= i < |edges| => Asks(edges[i]))
  }

  lemma RestMembers(pending: seq<Demand>)
    requires pending != []
    ensures forall d :: d in pending <==> d in Rest(pending) || d == pending[|pending| - 1]
  {
    assert pending == Rest(pending) + [pending[|pending| - 1]];
  }

  lemma DemandMembers(edges: seq<Edge>)
    ensures forall d :: d in Demands(edges) <==> exists e :: e in edges && Asks(e) == d
  {
    forall e | e in edges
      ensures Asks(e) in Demands(edges)
    {
      var i :| 0 <= i < |edges| && edges[i] == e;
      assert Demands(edges)[i] == Asks(e);
    }
  }

  lemma OwedSkip(store: Store, first: seq<Demand>, s: State, pending: seq<Demand>)
    requires Owed(store, first, s, pending) && pending != [] && Met(s, pending[|pending| - 1])
    ensures Owed(store, first, s, Rest(pending))
  {
    hide Met, EdgesOf;
    RestMembers(pending);
  }

  /** The state after visiting a new object. */
  ghost function Visited(store: Store, s: State, id: ObjectId, excluding: bool): State
    requires id in store
  {
    State(s.visited[id := store[id].kind], if excluding then s.retained else s.retained + {id},
          s.bytes + store[id].length, s.edges + |EdgesOf(store, id)|)
  }

  lemma OwedVisit(store: Store, first: seq<Demand>, s: State, pending: seq<Demand>, excluding: bool)
    requires Owed(store, first, s, pending) && pending != []
    requires var (id, expected) := pending[|pending| - 1];
      id in store && id !in s.visited && (expected.Some? ==> expected.value == store[id].kind)
    ensures var id := pending[|pending| - 1].0;
      Owed(store, first, Visited(store, s, id, excluding), Rest(pending) + Demands(EdgesOf(store, id)))
  {
    hide EdgesOf;
    var id := pending[|pending| - 1].0;
    var s', pending' := Visited(store, s, id, excluding), Rest(pending) + Demands(EdgesOf(store, id));
    RestMembers(pending);
    DemandMembers(EdgesOf(store, id));
    forall d | MetOrPending(s, pending, d)
      ensures MetOrPending(s', pending', d)
    {
    }
  }

  lemma JustifiedVisit(store: Store, prerequisites: set<ObjectId>, all: set<ObjectId>, pending: seq<Demand>)
    requires Justified(store, prerequisites, all, pending) && pending != [] && Closed(Links(store), all)
    requires pending[|pending| - 1].0 in store
    ensures Justified(store, prerequisites, all, Rest(pending))
    ensures Justified(store, prerequisites, all, Rest(pending) + Demands(EdgesOf(store, pending[|pending| - 1].0)))
  {
    hide EdgesOf;
    var id := pending[|pending| - 1].0;
    RestMembers(pending);
    DemandMembers(EdgesOf(store, id));
    forall e | e in EdgesOf(store, id)
      ensures e.target in all
    {
      TargetIsSuccessor(store, id, e);
    }
  }

  lemma TargetIsSuccessor(store: Store, id: ObjectId, e: Edge)
    requires id in store && e in EdgesOf(store, id)
    ensures e.target in Successors(Links(store), id)
  {
    var i :| 0 <= i < |EdgesOf(store, id)| && EdgesOf(store, id)[i] == e;
    assert Targets(EdgesOf(store, id))[i] == e.target;
  }

  // One phase.

  function Ids(pending: seq<Demand>): (ids: seq<ObjectId>)
    ensures |ids| == |pending|
  {
    seq(|pending|, i requires 0 <= i < |pending| => pending[i].0)
  }

  /** What a phase is for: its roots, what was visited before it, and the demands it starts with. */
  datatype Phase = Phase(roots: set<ObjectId>, before: set<ObjectId>, first: seq<Demand>, excluding: bool)

  ghost predicate Draining(store: Store, limits: Limits, prerequisites: set<ObjectId>, all: set<ObjectId>,
                           phase: Phase, s: State, pending: seq<Demand>)
  {
    && Counted(store, limits, s) && Owed(store, phase.first, s, pending)
    && Justified(store, prerequisites, all, pending)
    && Closed(Links(store), all) && s.visited.Keys <= all
    && Marking(Links(store), phase.roots, phase.before, s.visited.Keys, Ids(pending))
    && s.retained == if phase.excluding then {} else s.visited.Keys - phase.before
  }

  lemma CountedVisit(store: Store, limits: Limits, s: State, id: ObjectId, excluding: bool)
    requires Counted(store, limits, s) && id in store && id !in s.visited && store[id].parsed.Some?
    requires |s.visited| < limits.maxObjects
    requires s.bytes + store[id].length <= limits.maxBytes
    requires s.edges + |EdgesOf(store, id)| <= limits.maxEdges
    ensures Counted(store, limits, Visited(store, s, id, excluding))
  {
    hide EdgesOf;
    TotalAdd(Lengths(store), s.visited.Keys, id);
    TotalAdd(EdgeCounts(store), s.visited.Keys, id);
    var visited' := s.visited[id := store[id].kind];
    assert visited'.Keys == s.visited.Keys + {id};
    assert |visited'| == |visited'.Keys| && |s.visited| == |s.visited.Keys|;
  }

  lemma MarkingIds(g: Graph<ObjectId>, phase: Phase, marks: set<ObjectId>, pending: seq<Demand>)
    requires Marking(g, phase.roots, phase.before, marks, Ids(pending)) && pending != []
    ensures var id := pending[|pending| - 1].0;
      && Marking(g, phase.roots, phase.before, marks + {id}, Ids(Rest(pending)) + Successors(g, id))
      && (id in marks ==> Marking(g, phase.roots, phase.before, marks, Ids(Rest(pending))))
      && id in Reach(g, phase.roots)
  {
    hide Marking, Reach;
    var ids := Ids(pending);
    assert ids[..|ids| - 1] == Ids(Rest(pending));
    MarkingVisit(g, phase.roots, phase.before, marks, ids);
    if pending[|pending| - 1].0 in marks {
      MarkingSkip(g, phase.roots, phase.before, marks, ids);
    }
    PendingIsReached(g, phase.roots, phase.before, marks, ids, ids[|ids| - 1]);
  }

  lemma DrainSkip(store: Store, limits: Limits, prerequisites: set<ObjectId>, all: set<ObjectId>,
                  phase: Phase, s: State, pending: seq<Demand>)
    requires Draining(store, limits, prerequisites, all, phase, s, pending) && pending != []
    requires Met(s, pending[|pending| - 1])
    ensures Draining(store, limits, prerequisites, all, phase, s, Rest(pending))
  {
    hide Marking, Reach, Owed, Counted, Justified;
    OwedSkip(store, phase.first, s, pending);
    MarkingIds(Links(store), phase, s.visited.Keys, pending);
    JustifiedRest(store, prerequisites, all, pending);
  }

  lemma JustifiedRest(store: Store, prerequisites: set<ObjectId>, all: set<ObjectId>, pending: seq<Demand>)
    requires Justified(store, prerequisites, all, pending) && pending != []
    ensures Justified(store, prerequisites, all, Rest(pending))
  {
    RestMembers(pending);
  }

  /** A new object of the demanded kind, within the limits, keeps the state. */
  lemma DrainVisit(store: Store, limits: Limits, prerequisites: set<ObjectId>, all: set<ObjectId>,
                   phase: Phase, s: State, pending: seq<Demand>)
    requires Draining(store, limits, prerequisites, all, phase, s, pending) && pending != []
    requires var (id, expected) := pending[|pending| - 1];
      && id in store && id !in s.visited && store[id].parsed.Some?
      && (expected.Some? ==> expected.value == store[id].kind)
      && |s.visited| < limits.maxObjects
      && s.bytes + store[id].length <= limits.maxBytes
      && s.edges + |EdgesOf(store, id)| <= limits.maxEdges
    ensures var id := pending[|pending| - 1].0;
      Draining(store, limits, prerequisites, all, phase, Visited(store, s, id, phase.excluding),
               Rest(pending) + Demands(EdgesOf(store, id)))
  {
    hide Marking, Reach, Owed, Counted, EdgesOf, Justified, Links, Ids, Demands, Visited, Rest;
    var id := pending[|pending| - 1].0;
    CountedVisit(store, limits, s, id, phase.excluding);
    OwedVisit(store, phase.first, s, pending, phase.excluding);
    JustifiedVisit(store, prerequisites, all, pending);
    LastIsJustified(store, prerequisites, all, pending);
    MarkingIds(Links(store), phase, s.visited.Keys, pending);
    IdsAfterVisit(store, pending);
    NewIsNotBefore(Links(store), phase, s.visited.Keys, pending);
    VisitedKeys(store, s, id, phase);
  }

  lemma IdsAfterVisit(store: Store, pending: seq<Demand>)
    requires pending != [] && pending[|pending| - 1].0 in store
    ensures var id := pending[|pending| - 1].0;
      Ids(Rest(pending) + Demands(EdgesOf(store, id))) == Ids(Rest(pending)) + Successors(Links(store), id)
  {
    hide EdgesOf;
  }

  lemma VisitedKeys(store: Store, s: State, id: ObjectId, phase: Phase)
    requires id in store && id !in phase.before && phase.before <= s.visited.Keys
    requires s.retained == if phase.excluding then {} else s.visited.Keys - phase.before
    ensures var s' := Visited(store, s, id, phase.excluding);
      && s'.visited.Keys == s.visited.Keys + {id}
      && s'.retained == if phase.excluding then {} else s'.visited.Keys - phase.before
  {
    hide EdgesOf;
    var visited' := s.visited[id := store[id].kind];
    assert visited'.Keys == s.visited.Keys + {id};
  }

  lemma LastIsJustified(store: Store, prerequisites: set<ObjectId>, all: set<ObjectId>, pending: seq<Demand>)
    requires Justified(store, prerequisites, all, pending) && pending != []
    ensures pending[|pending| - 1].0 in all
  {
    assert pending[|pending| - 1] in pending;
  }

  lemma NewIsNotBefore(g: Graph<ObjectId>, phase: Phase, marks: set<ObjectId>, pending: seq<Demand>)
    requires Marking(g, phase.roots, phase.before, marks, Ids(pending))
    ensures phase.before <= marks
  {
  }

  // A phase that fails could not have succeeded in any order.

  /** What a failure says about the two closures. */
  ghost predicate Explains(store: Store, prerequisites: set<ObjectId>, tips: set<ObjectId>, limits: Limits, f: Failure)
  {
    var all := Everything(store, prerequisites, tips);
    match f
    case WrongKind =>
      || (exists id :: id in prerequisites && id in store && store[id].kind != Commit)
      || (exists x, e :: x in all && e in EdgesOf(store, x) && e.target in store && store[e.target].kind != e.kind)
    case TooManyObjects => |all| > limits.maxObjects
    case MissingObject => exists id :: id in all && id !in store
    case TooManyBytes => Total(Lengths(store), all) > limits.maxBytes
    case BadGraph => exists id :: id in all && id in store && store[id].parsed.None?
    case TooManyEdges => Total(EdgeCounts(store), all) > limits.maxEdges
    case EmptyBundle => Packed(store, prerequisites, tips) == {}
  }

  lemma ExplainedFails(store: Store, prerequisites: set<ObjectId>, tips: set<ObjectId>, limits: Limits, f: Failure)
    requires Explains(store, prerequisites, tips, limits, f) && f != EmptyBundle
    ensures !Bundleable(store, prerequisites, tips, limits)
  {
    hide EdgesOf, Reach, Total;
  }

  lemma KindFails(store: Store, limits: Limits, prerequisites: set<ObjectId>, tips: set<ObjectId>, pending: seq<Demand>,
                  d: Demand)
    requires Justified(store, prerequisites, Everything(store, prerequisites, tips), pending) && d in pending
    requires d.0 in store && d.1.Some? && d.1.value != store[d.0].kind
    ensures Explains(store, prerequisites, tips, limits, WrongKind)
  {
    hide EdgesOf, Reach;
  }

  lemma UnreadableFails(store: Store, limits: Limits, prerequisites: set<ObjectId>, tips: set<ObjectId>, id: ObjectId)
    requires id in Everything(store, prerequisites, tips)
    ensures id !in store ==> Explains(store, prerequisites, tips, limits, MissingObject)
    ensures id in store && store[id].parsed.None? ==> Explains(store, prerequisites, tips, limits, BadGraph)
  {
    hide EdgesOf, Reach;
  }

  /** One more object would exceed a limit that the whole must respect. */
  lemma LimitFails(store: Store, limits: Limits, prerequisites: set<ObjectId>, tips: set<ObjectId>, s: State, id: ObjectId)
    requires var all := Everything(store, prerequisites, tips); id in all && s.visited.Keys <= all
    requires Counted(store, limits, s) && id !in s.visited
    ensures |s.visited| >= limits.maxObjects ==> Explains(store, prerequisites, tips, limits, TooManyObjects)
    ensures id in store && s.bytes + store[id].length > limits.maxBytes ==>
      Explains(store, prerequisites, tips, limits, TooManyBytes)
    ensures id in store && s.edges + |EdgesOf(store, id)| > limits.maxEdges ==>
      Explains(store, prerequisites, tips, limits, TooManyEdges)
  {
    hide EdgesOf, Reach;
    var all, more := Everything(store, prerequisites, tips), s.visited.Keys + {id};
    SubsetIsSmaller(more, all);
    TotalAdd(Lengths(store), s.visited.Keys, id);
    TotalAdd(EdgeCounts(store), s.visited.Keys, id);
    TotalGrows(Lengths(store), more, all);
    TotalGrows(EdgeCounts(store), more, all);
  }

  method PushEdges(pending0: seq<Demand>, edges0: nat, edges: seq<Edge>, maxEdges: nat)
    returns (ok: bool, pending: seq<Demand>, count: nat)
    requires edges0 <= maxEdges
    ensures ok <==> edges0 + |edges| <= maxEdges
    ensures ok ==> pending == pending0 + Demands(edges) && count == edges0 + |edges|
  {
    pending, count := pending0, edges0;
    for i := 0 to |edges|
      invariant count == edges0 + i <= maxEdges && pending == pending0 + Demands(edges[..i])
    {
      if count >= maxEdges {
        return false, pending, count;
      }
      count := count + 1;
      assert Demands(edges[..i + 1]) == Demands(edges[..i]) + [Asks(edges[i])];
      pending := pending + [Asks(edges[i])];
    }
    assert edges[..|edges|] == edges;
    ok := true;
  }

  ghost function Left(store: Store, roots: set<ObjectId>, visited: set<ObjectId>): nat
  {
    |Reach(Links(store), roots) - visited|
  }

  lemma LeftShrinks(store: Store, roots: set<ObjectId>, visited: set<ObjectId>, id: ObjectId)
    requires id in Reach(Links(store), roots) && id !in visited
    ensures Left(store, roots, visited + {id}) < Left(store, roots, visited)
  {
    hide Links;
    DifferenceShrinks(Reach(Links(store), roots), visited, id);
  }

  lemma DrainFacts(store: Store, limits: Limits, prerequisites: set<ObjectId>, all: set<ObjectId>,
                   phase: Phase, s: State, pending: seq<Demand>)
    requires Draining(store, limits, prerequisites, all, phase, s, pending) && pending != []
    ensures Justified(store, prerequisites, all, pending) && Counted(store, limits, s)
    ensures s.visited.Keys <= all && s.edges <= limits.maxEdges
    ensures var id := pending[|pending| - 1].0;
      && id in all && pending[|pending| - 1] in pending && id in Reach(Links(store), phase.roots)
      && (id in s.visited ==> id in store && s.visited[id] == store[id].kind)
  {
    hide Marking, Reach, Owed, Links;
    MarkingIds(Links(store), phase, s.visited.Keys, pending);
  }

  /** Empties the pending stack. It fails only if the whole bundle is impossible. */
  method Drain(store: Store, limits: Limits, ghost prerequisites: set<ObjectId>, ghost tips: set<ObjectId>,
               ghost phase: Phase, excluding: bool, s0: State, pending0: seq<Demand>)
    returns (r: Result<State, Failure>)
    requires excluding == phase.excluding
    requires Draining(store, limits, prerequisites, Everything(store, prerequisites, tips), phase, s0, pending0)
    ensures r.Ok? ==> Draining(store, limits, prerequisites, Everything(store, prerequisites, tips), phase, r.value, [])
    ensures r.Err? ==> r.error != EmptyBundle && Explains(store, prerequisites, tips, limits, r.error)
  {
    hide *;
    ghost var all := Everything(store, prerequisites, tips);
    var s, pending := s0, pending0;
    while pending != []
      invariant Draining(store, limits, prerequisites, all, phase, s, pending)
      decreases Left(store, phase.roots, s.visited.Keys), |pending|
    {
      var (id, expected) := pending[|pending| - 1];
      ghost var last := pending[|pending| - 1];
      DrainFacts(store, limits, prerequisites, all, phase, s, pending);
      if id in s.visited {
        if expected.Some? && expected.value != s.visited[id] {
          KindFails(store, limits, prerequisites, tips, pending, last);
          return Err(WrongKind);
        }
        IsMet(s, last);
        DrainSkip(store, limits, prerequisites, all, phase, s, pending);
        RestShrinks(pending);
        pending := Rest(pending);
      } else {
        if |s.visited| >= limits.maxObjects {
          LimitFails(store, limits, prerequisites, tips, s, id);
          return Err(TooManyObjects);
        }
        if id !in store {
          UnreadableFails(store, limits, prerequisites, tips, id);
          return Err(MissingObject);
        }
        if expected.Some? && expected.value != store[id].kind {
          KindFails(store, limits, prerequisites, tips, pending, last);
          return Err(WrongKind);
        }
        if s.bytes + store[id].length > limits.maxBytes {
          LimitFails(store, limits, prerequisites, tips, s, id);
          return Err(TooManyBytes);
        }
        if store[id].parsed.None? {
          UnreadableFails(store, limits, prerequisites, tips, id);
          return Err(BadGraph);
        }
        var edges := EdgesOf(store, id);
        var ok, pending', count := PushEdges(Rest(pending), s.edges, edges, limits.maxEdges);
        if !ok {
          LimitFails(store, limits, prerequisites, tips, s, id);
          return Err(TooManyEdges);
        }
        DrainVisit(store, limits, prerequisites, all, phase, s, pending);
        LeftShrinks(store, phase.roots, s.visited.Keys, id);
        VisitedIs(store, s, id, excluding);
        s := State(s.visited[id := store[id].kind], if excluding then s.retained else s.retained + {id},
                   s.bytes + store[id].length, count);
        pending := pending';
      }
    }
    r := Ok(s);
  }

  lemma IsMet(s: State, d: Demand)
    requires d.0 in s.visited && (d.1.Some? ==> s.visited[d.0] == d.1.value)
    ensures Met(s, d)
  {
  }

  lemma RestShrinks(pending: seq<Demand>)
    requires pending != []
    ensures |Rest(pending)| < |pending|
  {
  }

  lemma VisitedIs(store: Store, s: State, id: ObjectId, excluding: bool)
    requires id in store
    ensures s.visited[id := store[id].kind].Keys == s.visited.Keys + {id}
    ensures Visited(store, s, id, excluding)
         == State(s.visited[id := store[id].kind], if excluding then s.retained else s.retained + {id},
                  s.bytes + store[id].length, s.edges + |EdgesOf(store, id)|)
  {
  }

  // Both phases.

  /** What a bundle packs. */
  ghost function Packed(store: Store, prerequisites: set<ObjectId>, tips: set<ObjectId>): set<ObjectId>
  {
    Reach(Links(store), tips) - Reach(Links(store), prerequisites)
  }

  lemma FirstMembers(ids: seq<ObjectId>, kind: Option<ObjectKind>)
    ensures forall d :: d in First(ids, kind) <==> d.0 in ids && d.1 == kind
    ensures Ids(First(ids, kind)) == ids
  {
    forall id | id in ids
      ensures (id, kind) in First(ids, kind)
    {
      var i :| 0 <= i < |ids| && ids[i] == id;
      assert First(ids, kind)[i] == (id, kind);
    }
  }

  lemma ClosureWithin(store: Store, prerequisites: set<ObjectId>, tips: set<ObjectId>)
    ensures var all := Everything(store, prerequisites, tips);
      && Closed(Links(store), all)
      && all == Reach(Links(store), prerequisites) + Reach(Links(store), tips)
      && prerequisites <= all && tips <= all
  {
    hide Reach, Links;
    ReachIsClosed(Links(store), prerequisites + tips);
    ReachOfUnion(Links(store), prerequisites, tips);
  }

  lemma MarkingFrom(g: Graph<ObjectId>, roots: seq<ObjectId>, before: set<ObjectId>)
    requires Closed(g, before)
    ensures Marking(g, SetOf(roots), before, before, roots)
  {
    hide Reach;
    ReachIsClosed(g, SetOf(roots));
  }

  lemma FirstPhase(store: Store, limits: Limits, prerequisites: seq<ObjectId>, tips: set<ObjectId>)
    ensures var pending := First(prerequisites, Some(Commit));
      Draining(store, limits, SetOf(prerequisites), Everything(store, SetOf(prerequisites), tips),
               Phase(SetOf(prerequisites), {}, pending, true), State(map[], {}, 0, 0), pending)
  {
    hide Reach, Links;
    FirstMembers(prerequisites, Some(Commit));
    ClosureWithin(store, SetOf(prerequisites), tips);
    MarkingFrom(Links(store), prerequisites, {});
  }

  lemma SecondPhase(store: Store, limits: Limits, prerequisites: seq<ObjectId>, tips: seq<ObjectId>, s: State)
    requires var pending := First(prerequisites, Some(Commit));
      Draining(store, limits, SetOf(prerequisites), Everything(store, SetOf(prerequisites), SetOf(tips)),
               Phase(SetOf(prerequisites), {}, pending, true), s, [])
    ensures s.visited.Keys == Reach(Links(store), SetOf(prerequisites)) && s.retained == {}
    ensures var pending := First(tips, None);
      Draining(store, limits, SetOf(prerequisites), Everything(store, SetOf(prerequisites), SetOf(tips)),
               Phase(SetOf(tips), s.visited.Keys, First(prerequisites, Some(Commit)) + pending, false), s, pending)
  {
    hide Reach, Links, Marking, EdgesOf, Counted;
    FirstMembers(tips, None);
    ClosureWithin(store, SetOf(prerequisites), SetOf(tips));
    assert Ids([]) == [];
    MarkingEnd(Links(store), SetOf(prerequisites), {}, s.visited.Keys);
    MarkingFrom(Links(store), tips, s.visited.Keys);
  }

  lemma BothPhases(store: Store, limits: Limits, prerequisites: seq<ObjectId>, tips: seq<ObjectId>,
                   before: set<ObjectId>, s: State)
    requires before == Reach(Links(store), SetOf(prerequisites))
    requires Draining(store, limits, SetOf(prerequisites), Everything(store, SetOf(prerequisites), SetOf(tips)),
                      Phase(SetOf(tips), before, First(prerequisites, Some(Commit)) + First(tips, None), false), s, [])
    ensures s.retained == Packed(store, SetOf(prerequisites), SetOf(tips))
    ensures Bundleable(store, SetOf(prerequisites), SetOf(tips), limits)
  {
    hide Reach, Links, Marking, EdgesOf, Total;
    var all := Everything(store, SetOf(prerequisites), SetOf(tips));
    assert Ids([]) == [];
    MarkingEnd(Links(store), SetOf(tips), before, s.visited.Keys);
    ClosureWithin(store, SetOf(prerequisites), SetOf(tips));
    assert s.visited.Keys == all && |s.visited| == |s.visited.Keys|;
    FirstMembers(prerequisites, Some(Commit));
    forall id | id in prerequisites
      ensures id in store && store[id].kind == Commit
    {
      assert (id, Some(Commit)) in First(prerequisites, Some(Commit)) + First(tips, None);
      assert Met(s, (id, Some(Commit)));
    }
    forall x, e | x in all && e in EdgesOf(store, x)
      ensures e.target in store && store[e.target].kind == e.kind
    {
      assert MetOrPending(s, [], Asks(e));
    }
  }

  lemma NothingPacked(store: Store, prerequisites: set<ObjectId>, tips: set<ObjectId>, limits: Limits)
    requires Packed(store, prerequisites, tips) == {}
    ensures Explains(store, prerequisites, tips, limits, EmptyBundle)
  {
  }

  /**
  Collects what a bundle packs. It succeeds exactly when both closures can be bundled and
  something is left to pack, and then packs the tips' closure without the prerequisites'.
  */
  method Collect(store: Store, prerequisites: seq<ObjectId>, tips: seq<ObjectId>, limits: Limits)
    returns (r: Result<set<ObjectId>, Failure>)
    ensures r.Ok? <==>
      && Bundleable(store, SetOf(prerequisites), SetOf(tips), limits)
      && Packed(store, SetOf(prerequisites), SetOf(tips)) != {}
    ensures r.Ok? ==> r.value == Packed(store, SetOf(prerequisites), SetOf(tips))
    ensures r.Err? ==> Explains(store, SetOf(prerequisites), SetOf(tips), limits, r.error)
  {
    hide *;
    FirstPhase(store, limits, prerequisites, SetOf(tips));
    var first := Drain(store, limits, SetOf(prerequisites), SetOf(tips),
                       Phase(SetOf(prerequisites), {}, First(prerequisites, Some(Commit)), true), true,
                       State(map[], {}, 0, 0), First(prerequisites, Some(Commit)));
    if first.Err? {
      ExplainedFails(store, SetOf(prerequisites), SetOf(tips), limits, first.error);
      return Err(first.error);
    }
    SecondPhase(store, limits, prerequisites, tips, first.value);
    ghost var before := first.value.visited.Keys;
    var second := Drain(store, limits, SetOf(prerequisites), SetOf(tips),
                        Phase(SetOf(tips), before, First(prerequisites, Some(Commit)) + First(tips, None), false), false,
                        first.value, First(tips, None));
    if second.Err? {
      ExplainedFails(store, SetOf(prerequisites), SetOf(tips), limits, second.error);
      return Err(second.error);
    }
    BothPhases(store, limits, prerequisites, tips, before, second.value);
    if second.value.retained == {} {
      NothingPacked(store, SetOf(prerequisites), SetOf(tips), limits);
      return Err(EmptyBundle);
    }
    r := Ok(second.value.retained);
  }

  /** An object of a kind that is in the pack or among what the prerequisites reach. */
  ghost predicate Provided(store: Store, prerequisites: set<ObjectId>, tips: set<ObjectId>, id: ObjectId, kind: ObjectKind)
  {
    && (id in Packed(store, prerequisites, tips) || id in Reach(Links(store), prerequisites))
    && id in store && store[id].kind == kind
  }

  /** With a commit, a bundle provides its tree and all of its parents. */
  lemma HistoryIsPacked(store: Store, prerequisites: set<ObjectId>, tips: set<ObjectId>, limits: Limits,
                        x: ObjectId, tree: ObjectId, parents: seq<ObjectId>)
    requires Bundleable(store, prerequisites, tips, limits) && x in Packed(store, prerequisites, tips)
    requires x in store && store[x].parsed == Some(CommitRecord(tree, parents))
    ensures Provided(store, prerequisites, tips, tree, Tree)
    ensures forall p :: p in parents ==> Provided(store, prerequisites, tips, p, Commit)
  {
    hide Reach, Total, Links, Visit, Packed, Bundleable;
    CommitEdges(tree, parents);
    assert EdgesOf(store, x)[0] in EdgesOf(store, x);
    PackIsSelfContained(store, prerequisites, tips, limits, x, Edge(tree, Tree));
    forall p | p in parents ensures Provided(store, prerequisites, tips, p, Commit) {
      var i :| 0 <= i < |parents| && parents[i] == p;
      assert EdgesOf(store, x)[i + 1] in EdgesOf(store, x);
      PackIsSelfContained(store, prerequisites, tips, limits, x, Edge(p, Commit));
    }
  }

  /** With a tree, a bundle provides what its entries name, apart from gitlinks. */
  lemma EntriesArePacked(store: Store, prerequisites: set<ObjectId>, tips: set<ObjectId>, limits: Limits,
                         x: ObjectId, entries: seq<(EntryMode, ObjectId)>, i: nat)
    requires Bundleable(store, prerequisites, tips, limits) && x in Packed(store, prerequisites, tips)
    requires x in store && store[x].parsed == Some(TreeRecord(entries))
    requires i < |entries| && entries[i].0 != Gitlink
    ensures Provided(store, prerequisites, tips, entries[i].1, if entries[i].0 == TreeEntry then Tree else Blob)
  {
    hide Reach, Total, Links, Visit, Packed, Bundleable;
    var at := TreeEdges(entries);
    assert i in at;
    var k :| 0 <= k < |at| && at[k] == i;
    var e := EdgesOf(store, x)[k];
    assert e in EdgesOf(store, x);
    PackIsSelfContained(store, prerequisites, tips, limits, x, e);
  }

  /** Every edge of a packed object leads into the pack or into the prerequisites, at the right kind. */
  lemma PackIsSelfContained(store: Store, prerequisites: set<ObjectId>, tips: set<ObjectId>, limits: Limits,
                            x: ObjectId, e: Edge)
    requires Bundleable(store, prerequisites, tips, limits)
    requires x in Packed(store, prerequisites, tips) && e in EdgesOf(store, x)
    ensures e.target in Packed(store, prerequisites, tips) || e.target in Reach(Links(store), prerequisites)
    ensures e.target in store && store[e.target].kind == e.kind
  {
    hide Reach, EdgesOf, Total, Links;
    ClosureWithin(store, prerequisites, tips);
    ReachIsClosed(Links(store), tips);
    TargetIsSuccessor(store, x, e);
  }
}
