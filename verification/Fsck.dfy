/** The connectivity part of an integrity scan: links, reachability and what is left dangling. */
module Fsck {

  import opened Objects
  import opened Edges
  import opened Reachability
  import opened Sets

  datatype Decoded = Decoded(kind: ObjectKind, edges: seq<Edge>)

  type Store = map<ObjectId, Decoded>

  function Links(store: Store): Graph<ObjectId>
  {
    map id | id in store :: Targets(store[id].edges)
  }

  datatype Finding =
    | Unreadable(id: ObjectId)
    | Missing(id: ObjectId)
    | BrokenLink(source: ObjectId, sourceKind: ObjectKind, target: ObjectId, expected: ObjectKind)
    | WrongKind(id: ObjectId, expected: ObjectKind, actual: ObjectKind)

  // What a complete set of link findings is.

  /** The finding an edge calls for, apart from a missing target. */
  ghost predicate Calls(store: Store, source: ObjectId, e: Edge, f: Finding)
    requires source in store
  {
    if e.target !in store then f == BrokenLink(source, store[source].kind, e.target, e.kind)
    else store[e.target].kind != e.kind && f == WrongKind(e.target, e.kind, store[e.target].kind)
  }

  ghost predicate LinkFinding(f: Finding)
  {
    f.BrokenLink? || f.WrongKind?
  }

  /** The same object is never reported missing twice. */
  ghost predicate MissingOnce(findings: seq<Finding>)
  {
    forall i, j :: 0 <= i < j < |findings| && findings[i].Missing? ==> findings[i] != findings[j]
  }

  ghost predicate References(done: set<(ObjectId, Edge)>, referenced: set<ObjectId>)
  {
    forall id :: id in referenced <==> exists p :: p in done && p.1.target == id
  }

  /** The link findings are exactly those the edges call for. */
  ghost predicate LinksReported(store: Store, done: set<(ObjectId, Edge)>, findings: seq<Finding>)
  {
    && (forall p :: p in done ==> p.0 in store)
    && (forall f :: LinkFinding(f) ==> (f in findings <==> exists p :: p in done && Calls(store, p.0, p.1, f)))
  }

  /** Every absent object not known before is reported missing, once. */
  ghost predicate MissingReported(known: set<ObjectId>, absent: set<ObjectId>, findings: seq<Finding>,
                                  missing: set<ObjectId>)
  {
    && missing == known + absent
    && (forall id :: Missing(id) in findings <==> id in absent && id !in known)
    && MissingOnce(findings)
  }

  /** The report after looking at the edges in `done`. */
  ghost predicate Reported(store: Store, known: set<ObjectId>, done: set<(ObjectId, Edge)>,
                           findings: seq<Finding>, missing: set<ObjectId>, referenced: set<ObjectId>)
  {
    && References(done, referenced)
    && LinksReported(store, done, findings)
    && MissingReported(known, referenced - store.Keys, findings, missing)
  }

  /** The findings one more edge adds. */
  function EdgeFindings(store: Store, missing: set<ObjectId>, source: ObjectId, e: Edge): seq<Finding>
    requires source in store
  {
    if e.target in store then
      if store[e.target].kind != e.kind then [WrongKind(e.target, e.kind, store[e.target].kind)] else []
    else
      [BrokenLink(source, store[source].kind, e.target, e.kind)]
      + if e.target in missing then [] else [Missing(e.target)]
  }

  // The order of the link findings.

  ghost function LinkFindings(findings: seq<Finding>): seq<Finding>
  {
    if findings == [] then []
    else
      var last := |findings| - 1;
      LinkFindings(findings[..last]) + if LinkFinding(findings[last]) then [findings[last]] else []
  }

  /** What one edge calls for, if anything. */
  ghost function Called(store: Store, source: ObjectId, e: Edge): seq<Finding>
    requires source in store
  {
    if e.target !in store then [BrokenLink(source, store[source].kind, e.target, e.kind)]
    else if store[e.target].kind != e.kind then [WrongKind(e.target, e.kind, store[e.target].kind)]
    else []
  }

  /** What the edges of one object call for, edge by edge. */
  ghost function CalledBy(store: Store, source: ObjectId, edges: seq<Edge>): seq<Finding>
    requires source in store
  {
    if edges == [] then []
    else CalledBy(store, source, edges[..|edges| - 1]) + Called(store, source, edges[|edges| - 1])
  }

  /** What all objects call for, object by object. */
  ghost function CalledByAll(store: Store, sources: seq<ObjectId>): seq<Finding>
    requires forall id :: id in sources ==> id in store
  {
    if sources == [] then []
    else
      var last := sources[|sources| - 1];
      assert last in sources;
      CalledByAll(store, sources[..|sources| - 1]) + CalledBy(store, last, store[last].edges)
  }

  lemma {:induction false} LinkFindingsConcat(a: seq<Finding>, b: seq<Finding>)
    ensures LinkFindings(a + b) == LinkFindings(a) + LinkFindings(b)
    decreases |b|
  {
    if b == [] {
      assert a + b == a;
    } else {
      var n := |b| - 1;
      LinkFindingsConcat(a, b[..n]);
      assert (a + b)[..|a + b| - 1] == a + b[..n];
    }
  }

  lemma LinksOfEdge(store: Store, missing: set<ObjectId>, source: ObjectId, e: Edge)
    requires source in store
    ensures LinkFindings(EdgeFindings(store, missing, source, e)) == Called(store, source, e)
  {
    var more := EdgeFindings(store, missing, source, e);
    if e.target !in store {
      var first := [BrokenLink(source, store[source].kind, e.target, e.kind)];
      LinkFindingsConcat(first, more[1..]);
      assert more == first + more[1..];
    }
  }

  lemma CalledStep(store: Store, source: ObjectId, edges: seq<Edge>, j: nat)
    requires source in store && j < |edges|
    ensures CalledBy(store, source, edges[..j + 1]) == CalledBy(store, source, edges[..j]) + Called(store, source, edges[j])
  {
    assert edges[..j + 1][..j] == edges[..j];
  }

  lemma CalledAllStep(store: Store, sources: seq<ObjectId>, i: nat)
    requires i < |sources| && forall id :: id in sources ==> id in store
    ensures CalledByAll(store, sources[..i + 1])
      == CalledByAll(store, sources[..i]) + CalledBy(store, sources[i], store[sources[i]].edges)
  {
    assert sources[..i + 1][..i] == sources[..i];
  }

  lemma LinksSnoc(findings: seq<Finding>, f: Finding)
    ensures LinkFindings(findings + [f]) == if LinkFinding(f) then LinkFindings(findings) + [f] else LinkFindings(findings)
  {
    assert (findings + [f])[..|findings|] == findings;
  }

  lemma UnforgivenSnoc(findings: seq<Finding>, promised: set<ObjectId>, f: Finding)
    ensures Unforgiven(findings + [f], promised)
      == if Forgiven(f, promised) then Unforgiven(findings, promised) else Unforgiven(findings, promised) + [f]
  {
    assert (findings + [f])[..|findings|] == findings;
  }

  lemma {:induction false} UnforgivenLinks(findings: seq<Finding>, promised: set<ObjectId>)
    ensures LinkFindings(Unforgiven(findings, promised)) == Unforgiven(LinkFindings(findings), promised)
    decreases |findings|
  {
    if findings != [] {
      hide Forgiven, LinkFinding, LinkFindings, Unforgiven;
      var n := |findings| - 1;
      var before, last := findings[..n], findings[n];
      assert findings == before + [last];
      UnforgivenLinks(before, promised);
      LinksSnoc(before, last);
      LinksSnoc(Unforgiven(before, promised), last);
      UnforgivenSnoc(before, promised, last);
      UnforgivenSnoc(LinkFindings(before), promised, last);
    }
  }

  lemma {:induction false} UnforgivenOnce(findings: seq<Finding>, promised: set<ObjectId>)
    requires MissingOnce(findings)
    ensures MissingOnce(Unforgiven(findings, promised))
    decreases |findings|
  {
    hide Forgiven;
    if findings != [] {
      var n := |findings| - 1;
      UnforgivenOnce(findings[..n], promised);
      UnforgivenMembers(findings[..n], promised);
      assert forall f :: f in findings[..n] && f.Missing? ==> f != findings[n];
      assert forall i :: 0 <= i < |Unforgiven(findings[..n], promised)| ==>
          Unforgiven(findings[..n], promised)[i] in Unforgiven(findings[..n], promised);
    }
  }

  lemma ReferencesStep(done: set<(ObjectId, Edge)>, referenced: set<ObjectId>, source: ObjectId, e: Edge)
    requires References(done, referenced)
    ensures References(done + {(source, e)}, referenced + {e.target})
  {
    var done' := done + {(source, e)};
    assert (source, e) in done';
    forall id | id in referenced
      ensures exists p :: p in done' && p.1.target == id
    {
      var p :| p in done && p.1.target == id;
      assert p in done';
    }
  }

  lemma LinksStep(store: Store, done: set<(ObjectId, Edge)>, findings: seq<Finding>, missing: set<ObjectId>,
                  source: ObjectId, e: Edge)
    requires LinksReported(store, done, findings) && source in store
    ensures LinksReported(store, done + {(source, e)}, findings + EdgeFindings(store, missing, source, e))
  {
    var done', more := done + {(source, e)}, EdgeFindings(store, missing, source, e);
    assert (source, e) in done';
    forall f | LinkFinding(f)
      ensures f in findings + more <==> exists p :: p in done' && Calls(store, p.0, p.1, f)
    {
      assert f in more <==> Calls(store, source, e, f);
      hide Calls, EdgeFindings;
      if f in findings {
        var p :| p in done && Calls(store, p.0, p.1, f);
        assert p in done';
      }
    }
  }

  lemma MissingStep(store: Store, known: set<ObjectId>, findings: seq<Finding>, missing: set<ObjectId>,
                    referenced: set<ObjectId>, source: ObjectId, e: Edge)
    requires MissingReported(known, referenced - store.Keys, findings, missing) && source in store
    ensures MissingReported(known, referenced + {e.target} - store.Keys,
                            findings + EdgeFindings(store, missing, source, e),
                            if e.target in store then missing else missing + {e.target})
  {
    var more := EdgeFindings(store, missing, source, e);
    assert forall id :: Missing(id) in more <==> id == e.target && id !in store && id !in missing;
  }

  lemma EdgeStep(store: Store, known: set<ObjectId>, done: set<(ObjectId, Edge)>,
                 findings: seq<Finding>, missing: set<ObjectId>, referenced: set<ObjectId>, source: ObjectId, e: Edge)
    requires Reported(store, known, done, findings, missing, referenced) && source in store
    ensures Reported(store, known, done + {(source, e)},
                     findings + EdgeFindings(store, missing, source, e),
                     if e.target in store then missing else missing + {e.target},
                     referenced + {e.target})
  {
    hide References, LinksReported, MissingReported, EdgeFindings;
    ReferencesStep(done, referenced, source, e);
    LinksStep(store, done, findings, missing, source, e);
    MissingStep(store, known, findings, missing, referenced, source, e);
  }

  ghost function AllEdges(store: Store): set<(ObjectId, Edge)>
  {
    set s, e | s in store && e in store[s].edges :: (s, e)
  }

  /** The order in which the stored objects are looked at. */
  ghost predicate Lists(store: Store, sources: seq<ObjectId>)
  {
    forall id :: id in sources <==> id in store
  }

  lemma NothingReported(store: Store, known: set<ObjectId>)
    ensures Reported(store, known, {}, [], known, {})
  {
  }

  /** Looks at every edge of every decoded object. */
  method CheckLinks(store: Store, sources: seq<ObjectId>, known: set<ObjectId>)
    returns (findings: seq<Finding>, missing: set<ObjectId>, referenced: set<ObjectId>)
    requires Lists(store, sources)
    ensures Reported(store, known, AllEdges(store), findings, missing, referenced)
    ensures LinkFindings(findings) == CalledByAll(store, sources)
  {
    hide Reported, EdgeFindings, LinkFindings, Called, CalledBy;
    NoLinkFindings();
    findings, missing, referenced := [], known, {};
    ghost var done: set<(ObjectId, Edge)> := {};
    NothingReported(store, known);
    for i := 0 to |sources|
      invariant Reported(store, known, done, findings, missing, referenced)
      invariant done == set s, e | s in sources[..i] && s in store && e in store[s].edges :: (s, e)
      invariant LinkFindings(findings) == CalledByAll(store, sources[..i])
    {
      var source := sources[i];
      assert source in sources;
      var edges := store[source].edges;
      ghost var before, reported := done, findings;
      NothingCalled(store, source);
      assert edges[..0] == [];
      for j := 0 to |edges|
        invariant Reported(store, known, done, findings, missing, referenced)
        invariant done == before + set e | e in edges[..j] :: (source, e)
        invariant LinkFindings(findings) == LinkFindings(reported) + CalledBy(store, source, edges[..j])
      {
        var e := edges[j];
        LinksOfEdge(store, missing, source, e);
        LinkFindingsConcat(findings, EdgeFindings(store, missing, source, e));
        CalledStep(store, source, edges, j);
        EdgeStep(store, known, done, findings, missing, referenced, source, e);
        findings := findings + EdgeFindings(store, missing, source, e);
        missing := if e.target in store then missing else missing + {e.target};
        referenced := referenced + {e.target};
        done := done + {(source, e)};
        assert edges[..j + 1] == edges[..j] + [e];
      }
      assert edges[..|edges|] == edges && sources[..i + 1] == sources[..i] + [source];
      CalledAllStep(store, sources, i);
    }
    assert sources[..|sources|] == sources;
    assert done == AllEdges(store);
  }

  lemma NoLinkFindings()
    ensures LinkFindings([]) == []
  {
  }

  lemma NothingCalled(store: Store, source: ObjectId)
    requires source in store
    ensures CalledBy(store, source, []) == []
  {
  }

  // What the roots reach.

  lemma PendingStart(g: Graph<ObjectId>, roots: seq<ObjectId>)
    ensures Marking(g, SetOf(roots), {}, {}, roots)
  {
    hide Reach;
    ReachIsClosed(g, SetOf(roots));
  }

  lemma RootMissing(known: set<ObjectId>, absent: set<ObjectId>, findings: seq<Finding>, missing: set<ObjectId>,
                    id: ObjectId)
    requires MissingReported(known, absent, findings, missing)
    ensures MissingReported(known, absent + {id}, if id in missing then findings else findings + [Missing(id)],
                            missing + {id})
  {
  }

  /** Links stay reported when only missing objects are added. */
  lemma LinksKept(store: Store, done: set<(ObjectId, Edge)>, findings: seq<Finding>, id: ObjectId)
    requires LinksReported(store, done, findings)
    ensures LinksReported(store, done, findings + [Missing(id)])
    ensures LinkFindings(findings + [Missing(id)]) == LinkFindings(findings)
  {
    hide Calls;
    assert (findings + [Missing(id)])[..|findings|] == findings;
  }

  /** The walk from the roots: `gone` are the absent objects met so far. */
  ghost predicate Following(store: Store, roots: set<ObjectId>, reachable: set<ObjectId>, gone: set<ObjectId>,
                            pending: seq<ObjectId>)
  {
    reachable <= store.Keys && gone !! store.Keys && Marking(Links(store), roots, {}, reachable + gone, pending)
  }

  /** What is left to visit. */
  ghost function Unvisited(store: Store, roots: set<ObjectId>, visited: set<ObjectId>): nat
  {
    |Reach(Links(store), roots) - visited|
  }

  lemma FollowStep(store: Store, roots: set<ObjectId>, reachable: set<ObjectId>, gone: set<ObjectId>,
                   pending: seq<ObjectId>)
    requires Following(store, roots, reachable, gone, pending) && pending != []
    ensures var id, rest := pending[|pending| - 1], pending[..|pending| - 1];
      && (id !in store ==> Following(store, roots, reachable, gone + {id}, rest))
      && (id in store && id !in reachable ==>
            Following(store, roots, reachable + {id}, gone, rest + Targets(store[id].edges)))
      && (id in reachable ==> Following(store, roots, reachable, gone, rest))
  {
    hide Marking, Reach;
    var g, id, rest := Links(store), pending[|pending| - 1], pending[..|pending| - 1];
    LinkedStored(store, id);
    if id in reachable {
      MarkingSkip(g, roots, {}, reachable + gone, pending);
    } else {
      MarkingVisit(g, roots, {}, reachable + gone, pending);
      if id in store {
        assert reachable + {id} + gone == reachable + gone + {id};
      } else {
        assert reachable + (gone + {id}) == reachable + gone + {id};
        assert rest + [] == rest;
      }
    }
  }

  lemma FollowMeasure(store: Store, roots: set<ObjectId>, reachable: set<ObjectId>, gone: set<ObjectId>,
                      pending: seq<ObjectId>)
    requires Following(store, roots, reachable, gone, pending) && pending != []
    ensures var id := pending[|pending| - 1];
      && Unvisited(store, roots, reachable + (gone + {id})) <= Unvisited(store, roots, reachable + gone)
      && (id in store && id !in reachable ==>
            Unvisited(store, roots, reachable + {id} + gone) < Unvisited(store, roots, reachable + gone))
  {
    hide Reach;
    var g, id := Links(store), pending[|pending| - 1];
    SubsetIsSmaller(Reach(g, roots) - (reachable + (gone + {id})), Reach(g, roots) - (reachable + gone));
    if id in store && id !in reachable {
      assert id in pending;
      DifferenceShrinks(Reach(g, roots), reachable + gone, id);
      assert reachable + {id} + gone == reachable + gone + {id};
    }
  }

  lemma FollowEnd(store: Store, roots: set<ObjectId>, reachable: set<ObjectId>, gone: set<ObjectId>)
    requires Following(store, roots, reachable, gone, [])
    ensures reachable == Reach(Links(store), roots) * store.Keys
    ensures gone == Reach(Links(store), roots) - store.Keys
  {
    hide Marking, Reach;
    MarkingEnd(Links(store), roots, {}, reachable + gone);
  }

  /** Follows decoded objects from the roots; absent ones are reported and have no edges. */
  method FollowRoots(store: Store, roots: seq<ObjectId>, known: set<ObjectId>, ghost absent: set<ObjectId>,
                     findings0: seq<Finding>, missing0: set<ObjectId>)
    returns (reachable: set<ObjectId>, findings: seq<Finding>)
    requires MissingReported(known, absent, findings0, missing0)
    requires LinksReported(store, AllEdges(store), findings0)
    ensures reachable == Reach(Links(store), SetOf(roots)) * store.Keys
    ensures var absent' := absent + (Reach(Links(store), SetOf(roots)) - store.Keys);
      MissingReported(known, absent', findings, known + absent')
    ensures LinksReported(store, AllEdges(store), findings)
    ensures LinkFindings(findings) == LinkFindings(findings0)
  {
    hide *;
    var pending, missing := roots, missing0;
    reachable, findings := {}, findings0;
    ghost var gone: set<ObjectId> := {};
    FollowStart(store, roots);
    assert absent + gone == absent;
    while pending != []
      invariant Following(store, SetOf(roots), reachable, gone, pending)
      invariant MissingReported(known, absent + gone, findings, missing)
      invariant LinksReported(store, AllEdges(store), findings)
      invariant LinkFindings(findings) == LinkFindings(findings0)
      decreases Unvisited(store, SetOf(roots), reachable + gone), |pending|
    {
      var id := pending[|pending| - 1];
      FollowStep(store, SetOf(roots), reachable, gone, pending);
      FollowMeasure(store, SetOf(roots), reachable, gone, pending);
      pending := pending[..|pending| - 1];
      if id !in store {
        RootMissing(known, absent + gone, findings, missing, id);
        assert absent + gone + {id} == absent + (gone + {id});
        if id !in missing {
          LinksKept(store, AllEdges(store), findings, id);
          findings := findings + [Missing(id)];
        }
        missing := missing + {id};
        gone := gone + {id};
      } else if id !in reachable {
        reachable := reachable + {id};
        pending := pending + Targets(store[id].edges);
      }
    }
    FollowEnd(store, SetOf(roots), reachable, gone);
    MissingIs(known, absent + gone, findings, missing);
  }

  lemma FollowStart(store: Store, roots: seq<ObjectId>)
    ensures Following(store, SetOf(roots), {}, {}, roots)
  {
    hide Marking, Reach;
    PendingStart(Links(store), roots);
    var none: set<ObjectId> := {};
    assert none + none == none;
  }

  lemma MissingIs(known: set<ObjectId>, absent: set<ObjectId>, findings: seq<Finding>, missing: set<ObjectId>)
    requires MissingReported(known, absent, findings, missing)
    ensures missing == known + absent
  {
  }

  lemma LinkedStored(store: Store, id: ObjectId)
    ensures Successors(Links(store), id) == if id in store then Targets(store[id].edges) else []
  {
  }

  // Objects a partial clone has been promised.

  /** Targets of broken links whose source lies in a promisor pack. */
  ghost function Promised(findings: seq<Finding>, promisor: set<ObjectId>): set<ObjectId>
  {
    set f | f in findings && f.BrokenLink? && f.source in promisor :: f.target
  }

  predicate Forgiven(f: Finding, promised: set<ObjectId>)
  {
    match f
    case BrokenLink(_, _, target, _) => target in promised
    case Missing(id) => id in promised
    case Unreadable(_) => false
    case WrongKind(_, _, _) => false
  }

  ghost function Unforgiven(findings: seq<Finding>, promised: set<ObjectId>): seq<Finding>
  {
    if findings == [] then []
    else
      var last := |findings| - 1;
      Unforgiven(findings[..last], promised) + if Forgiven(findings[last], promised) then [] else [findings[last]]
  }

  lemma {:induction false} UnforgivenMembers(findings: seq<Finding>, promised: set<ObjectId>)
    ensures forall f :: f in Unforgiven(findings, promised) <==> f in findings && !Forgiven(f, promised)
    decreases |findings|
  {
    if findings != [] {
      var last := |findings| - 1;
      UnforgivenMembers(findings[..last], promised);
      assert findings == findings[..last] + [findings[last]];
    }
  }

  /** Drops the findings about promised objects, in a partial clone; keeps the others in order. */
  method ForgivePromised(findings: seq<Finding>, partialClone: bool, promisor: set<ObjectId>)
    returns (kept: seq<Finding>)
    ensures kept == Unforgiven(findings, if partialClone then Promised(findings, promisor) else {})
  {
    hide Forgiven;
    var promised: set<ObjectId> := {};
    if partialClone {
      for i := 0 to |findings|
        invariant promised == Promised(findings[..i], promisor)
      {
        assert findings[..i + 1] == findings[..i] + [findings[i]];
        if findings[i].BrokenLink? && findings[i].source in promisor {
          promised := promised + {findings[i].target};
        }
      }
      assert findings[..|findings|] == findings;
    }
    kept := [];
    for i := 0 to |findings|
      invariant kept == Unforgiven(findings[..i], promised)
    {
      assert findings[..i + 1][..i] == findings[..i];
      if !Forgiven(findings[i], promised) {
        kept := kept + [findings[i]];
      }
    }
    assert findings[..|findings|] == findings;
  }

  // Dangling objects.

  ghost predicate Acyclic(g: Graph<ObjectId>)
  {
    forall x, y {:trigger y in Successors(g, x)} :: y in Successors(g, x) ==> x !in Reach(g, {y})
  }

  /** The stored objects from which `x` can be reached. */
  ghost function Ancestors(store: Store, x: ObjectId): set<ObjectId>
  {
    set y | y in store && x in Reach(Links(store), {y})
  }

  lemma AncestorsShrink(store: Store, x: ObjectId, y: ObjectId)
    requires Acyclic(Links(store)) && x in store && y in store && x in Successors(Links(store), y)
    ensures |Ancestors(store, y)| < |Ancestors(store, x)|
  {
    hide Reach;
    var g := Links(store);
    ReachIsClosed(g, {x});
    forall z | z in Ancestors(store, y)
      ensures z in Ancestors(store, x) && z != x
    {
      ReachIsClosed(g, {z});
      if z == x {
        ReachWithin(g, {y}, {x});
      }
    }
    SubsetIsSmaller(Ancestors(store, y) + {x}, Ancestors(store, x));
  }

  /** Every unreachable object hangs below a dangling one. */
  lemma {:induction false} DanglingGenerates(store: Store, roots: set<ObjectId>, x: ObjectId) returns (d: ObjectId)
    requires Acyclic(Links(store)) && x in store && x !in Reach(Links(store), roots)
    ensures d in store && d !in Reach(Links(store), roots) && x in Reach(Links(store), {d})
    ensures forall y :: y in store ==> d !in Successors(Links(store), y)
    decreases |Ancestors(store, x)|
  {
    hide Reach, Ancestors;
    var g := Links(store);
    ReachIsClosed(g, {x});
    if exists y :: y in store && x in Successors(g, y) {
      var y :| y in store && x in Successors(g, y);
      ReachIsClosed(g, roots);
      AncestorsShrink(store, x, y);
      d := DanglingGenerates(store, roots, y);
      ReachIsClosed(g, {d});
    } else {
      d := x;
    }
  }

  /** Nothing else reaches an object that nothing references. */
  lemma UnreferencedIsItsOwnSource(store: Store, d: ObjectId, sources: set<ObjectId>)
    requires forall y :: y in store ==> d !in Successors(Links(store), y)
    requires d in Reach(Links(store), sources)
    ensures d in sources
  {
    hide Reach;
    var all := Reach(Links(store), sources);
    ReachIsClosed(Links(store), sources);
    if d !in sources {
      assert Closed(Links(store), all - {d});
      ReachIsLeast(Links(store), sources, all - {d});
    }
  }

  datatype Report = Report(findings: seq<Finding>, reachable: set<ObjectId>, unreachable: set<ObjectId>,
                           dangling: set<ObjectId>)

  /** The stored objects the roots reach, those they do not, and those of the latter nothing references. */
  ghost predicate Classifies(store: Store, roots: set<ObjectId>, r: Report)
  {
    && r.reachable == Reach(Links(store), roots) * store.Keys
    && r.unreachable == store.Keys - Reach(Links(store), roots)
    && (forall d :: d in r.dangling <==>
          d in r.unreachable && forall y :: y in store ==> d !in Successors(Links(store), y))
  }

  /** The absent objects that some promisor object refers to. */
  ghost function PromisedObjects(store: Store, partialClone: bool, promisor: set<ObjectId>): set<ObjectId>
  {
    if partialClone then set p | p in AllEdges(store) && p.0 in promisor && p.1.target !in store :: p.1.target
    else {}
  }

  /** Whether a finding belongs in the report. */
  ghost predicate Expected(store: Store, roots: set<ObjectId>, known: set<ObjectId>, promised: set<ObjectId>, f: Finding)
  {
    match f
    case Unreadable(_) => false
    case Missing(id) =>
      && id !in store && id !in known && id !in promised
      && (id in Reach(Links(store), roots) || exists p :: p in AllEdges(store) && p.1.target == id)
    case BrokenLink(source, kind, target, expected) =>
      && target !in promised && target !in store
      && source in store && kind == store[source].kind && Edge(target, expected) in store[source].edges
    case WrongKind(id, expected, actual) =>
      && id in store && actual == store[id].kind && actual != expected
      && exists p :: p in AllEdges(store) && p.1 == Edge(id, expected)
  }

  lemma ReferencedByEdge(store: Store, referenced: set<ObjectId>, d: ObjectId)
    requires References(AllEdges(store), referenced)
    ensures d in referenced <==> exists y :: y in store && d in Successors(Links(store), y)
  {
    if d in referenced {
      var p :| p in AllEdges(store) && p.1.target == d;
      var i :| 0 <= i < |store[p.0].edges| && store[p.0].edges[i] == p.1;
      assert Targets(store[p.0].edges)[i] in Successors(Links(store), p.0);
    }
    if exists y :: y in store && d in Successors(Links(store), y) {
      var y :| y in store && d in Successors(Links(store), y);
      var i :| 0 <= i < |store[y].edges| && Targets(store[y].edges)[i] == d;
      assert (y, store[y].edges[i]) in AllEdges(store);
    }
  }

  lemma PromisedAre(store: Store, findings: seq<Finding>, partialClone: bool, promisor: set<ObjectId>)
    requires LinksReported(store, AllEdges(store), findings)
    ensures (if partialClone then Promised(findings, promisor) else {}) == PromisedObjects(store, partialClone, promisor)
  {
    var all := AllEdges(store);
    if partialClone {
      forall p | p in all && p.0 in promisor && p.1.target !in store
        ensures p.1.target in Promised(findings, promisor)
      {
        var f := BrokenLink(p.0, store[p.0].kind, p.1.target, p.1.kind);
        assert Calls(store, p.0, p.1, f) && LinkFinding(f);
        assert f in findings;
      }
      forall f | f in findings && f.BrokenLink? && f.source in promisor
        ensures f.target in PromisedObjects(store, partialClone, promisor)
      {
        assert LinkFinding(f);
        var p :| p in all && Calls(store, p.0, p.1, f);
      }
    }
  }

  lemma LinkExpected(store: Store, roots: set<ObjectId>, known: set<ObjectId>, promised: set<ObjectId>,
                     findings: seq<Finding>, f: Finding)
    requires LinksReported(store, AllEdges(store), findings) && LinkFinding(f) && promised !! store.Keys
    ensures f in findings && !Forgiven(f, promised) <==> Expected(store, roots, known, promised, f)
  {
    if f in findings {
      var p :| p in AllEdges(store) && Calls(store, p.0, p.1, f);
    }
    if Expected(store, roots, known, promised, f) {
      if f.BrokenLink? {
        assert Calls(store, f.source, Edge(f.target, f.expected), f);
        assert (f.source, Edge(f.target, f.expected)) in AllEdges(store);
      } else {
        var p :| p in AllEdges(store) && p.1 == Edge(f.id, f.expected);
        assert Calls(store, p.0, p.1, f);
      }
    }
  }

  /**
  The connectivity scan: exact sets, and exactly the findings that belong in the report. No object is
  reported missing twice, and the link findings follow the objects and their edges in order.
  */
  method Scan(store: Store, sources: seq<ObjectId>, roots: seq<ObjectId>, known: set<ObjectId>,
              partialClone: bool, promisor: set<ObjectId>)
    returns (r: Report)
    requires Lists(store, sources) && known !! store.Keys
    ensures Classifies(store, SetOf(roots), r)
    ensures var promised := PromisedObjects(store, partialClone, promisor);
      forall f :: f in r.findings && !f.Unreadable? <==> Expected(store, SetOf(roots), known, promised, f)
    ensures MissingOnce(r.findings)
    ensures LinkFindings(r.findings)
      == Unforgiven(CalledByAll(store, sources), PromisedObjects(store, partialClone, promisor))
  {
    hide Reach, LinksReported, MissingReported, References, AllEdges, Links, Forgiven, Unforgiven;
    hide MissingOnce, LinkFindings, CalledByAll;
    var findings, missing, referenced := CheckLinks(store, sources, known);
    var reachable, all := FollowRoots(store, roots, known, referenced - store.Keys, findings, missing);
    var kept := ForgivePromised(all, partialClone, promisor);
    var unreachable := set id | id in store && id !in reachable;
    r := Report(kept, reachable, unreachable, unreachable - referenced);
    forall d
      ensures d in referenced <==> exists y :: y in store && d in Successors(Links(store), y)
    {
      ReferencedByEdge(store, referenced, d);
    }
    FindingsAreExpected(store, SetOf(roots), known, partialClone, promisor, all, referenced);
    UnforgivenLinks(all, PromisedObjects(store, partialClone, promisor));
  }

  lemma FindingsAreExpected(store: Store, roots: set<ObjectId>, known: set<ObjectId>, partialClone: bool,
                            promisor: set<ObjectId>, all: seq<Finding>, referenced: set<ObjectId>)
    requires LinksReported(store, AllEdges(store), all) && References(AllEdges(store), referenced)
    requires var absent := (referenced - store.Keys) + (Reach(Links(store), roots) - store.Keys);
      MissingReported(known, absent, all, known + absent)
    ensures var promised := PromisedObjects(store, partialClone, promisor);
      var kept := Unforgiven(all, if partialClone then Promised(all, promisor) else {});
      && (forall f :: f in kept && !f.Unreadable? <==> Expected(store, roots, known, promised, f))
      && MissingOnce(kept) && kept == Unforgiven(all, promised)
  {
    hide Reach, LinksReported, AllEdges, Links;
    var promised := PromisedObjects(store, partialClone, promisor);
    PromisedAre(store, all, partialClone, promisor);
    var kept := Unforgiven(all, promised);
    UnforgivenMembers(all, promised);
    UnforgivenOnce(all, promised);
    forall f
      ensures f in kept && !f.Unreadable? <==> Expected(store, roots, known, promised, f)
    {
      if LinkFinding(f) {
        LinkExpected(store, roots, known, promised, all, f);
      } else if f.Missing? {
        assert f in all <==> Missing(f.id) in all;
      }
    }
  }

  /** In an acyclic store the dangling objects are the least set that generates the unreachable ones. */
  lemma DanglingIsLeastGenerator(store: Store, roots: set<ObjectId>, r: Report)
    requires Acyclic(Links(store)) && Classifies(store, roots, r)
    ensures r.unreachable <= Reach(Links(store), r.dangling)
    ensures forall s :: r.unreachable <= Reach(Links(store), s) ==> r.dangling <= s
  {
    hide Reach, Links, Acyclic;
    forall x | x in r.unreachable
      ensures x in Reach(Links(store), r.dangling)
    {
      var d := DanglingGenerates(store, roots, x);
      assert d in r.dangling;
      ReachIsClosed(Links(store), r.dangling);
      ReachWithin(Links(store), {d}, r.dangling);
    }
    forall s, d | r.unreachable <= Reach(Links(store), s) && d in r.dangling
      ensures d in s
    {
      UnreferencedIsItsOwnSource(store, d, s);
    }
  }
}
