/** Closures of finite directed graphs, given by an adjacency map. */
module Reachability {

  import opened Sets

  type Graph<T> = map<T, seq<T>>

  /** Nodes without an entry have no edges. */
  function Successors<T>(g: Graph<T>, x: T): seq<T>
  {
    if x in g then g[x] else []
  }

  ghost predicate IsPath<T>(g: Graph<T>, p: seq<T>)
  {
    p != [] && forall i :: 0 <= i < |p| - 1 ==> p[i + 1] in Successors(g, p[i])
  }

  ghost predicate Connects<T>(g: Graph<T>, p: seq<T>, a: T, b: T)
  {
    IsPath(g, p) && p[0] == a && p[|p| - 1] == b
  }

  ghost predicate Reaches<T(!new)>(g: Graph<T>, a: T, b: T)
  {
    exists p :: Connects(g, p, a, b)
  }

  ghost predicate Closed<T(!new)>(g: Graph<T>, s: set<T>)
  {
    forall x, y {:trigger y in Successors(g, x)} :: x in s && y in Successors(g, x) ==> y in s
  }

  ghost function Nodes<T>(g: Graph<T>): set<T>
  {
    g.Keys + set x, i | x in g && 0 <= i < |g[x]| :: g[x][i]
  }

  /** Everything some root reaches, the roots included. */
  ghost function Reach<T(!new)>(g: Graph<T>, roots: set<T>): set<T>
  {
    set x | x in roots + Nodes(g) && exists r :: r in roots && Reaches(g, r, x)
  }

  lemma {:induction false} PathStaysIn<T(!new)>(g: Graph<T>, s: set<T>, p: seq<T>)
    requires IsPath(g, p) && Closed(g, s) && p[0] in s
    ensures p[|p| - 1] in s
    decreases |p|
  {
    if |p| > 1 {
      assert p[1] in Successors(g, p[0]);
      assert forall i :: 0 <= i < |p| - 2 ==> p[1..][i + 1] in Successors(g, p[1..][i]);
      PathStaysIn(g, s, p[1..]);
    }
  }

  lemma PathExtends<T(!new)>(g: Graph<T>, a: T, x: T, y: T)
    requires Reaches(g, a, x) && y in Successors(g, x)
    ensures Reaches(g, a, y)
  {
    var p :| Connects(g, p, a, x);
    var q := p + [y];
    forall i | 0 <= i < |q| - 1
      ensures q[i + 1] in Successors(g, q[i])
    {
      if i < |p| - 1 { assert p[i + 1] in Successors(g, p[i]); }
    }
    assert Connects(g, q, a, y);
  }

  /** A closure contains its roots and follows its own edges, */
  lemma ReachIsClosed<T(!new)>(g: Graph<T>, roots: set<T>)
    ensures roots <= Reach(g, roots) && Closed(g, Reach(g, roots))
  {
    forall r | r in roots
      ensures Reaches(g, r, r)
    {
      assert Connects(g, [r], r, r);
    }
    hide Reaches;
    forall x, y | x in Reach(g, roots) && y in Successors(g, x)
      ensures y in Reach(g, roots)
    {
      var r :| r in roots && Reaches(g, r, x);
      PathExtends(g, r, x, y);
      assert y in Nodes(g);
    }
  }

  /** and is the least set that does. */
  lemma ReachIsLeast<T(!new)>(g: Graph<T>, roots: set<T>, s: set<T>)
    requires roots <= s && Closed(g, s)
    ensures Reach(g, roots) <= s
  {
    forall x | x in Reach(g, roots)
      ensures x in s
    {
      var r :| r in roots && Reaches(g, r, x);
      var p :| Connects(g, p, r, x);
      PathStaysIn(g, s, p);
    }
  }

  /** A closure of nodes of a closure adds nothing. */
  lemma ReachWithin<T(!new)>(g: Graph<T>, more: set<T>, roots: set<T>)
    requires more <= Reach(g, roots)
    ensures Reach(g, more) <= Reach(g, roots)
  {
    hide Reach;
    ReachIsClosed(g, roots);
    ReachIsLeast(g, more, Reach(g, roots));
  }

  lemma ReachFromOne<T(!new)>(g: Graph<T>, roots: set<T>, x: T) returns (root: T)
    requires x in Reach(g, roots)
    ensures root in roots && x in Reach(g, {root})
  {
    root :| root in roots && Reaches(g, root, x);
    ReachIsClosed(g, {root});
    var p :| Connects(g, p, root, x);
    PathStaysIn(g, Reach(g, {root}), p);
  }

  lemma ReachOfUnion<T(!new)>(g: Graph<T>, a: set<T>, b: set<T>)
    ensures Reach(g, a + b) == Reach(g, a) + Reach(g, b)
  {
    hide Reach;
    ReachIsClosed(g, a + b);
    ReachIsClosed(g, a);
    ReachIsClosed(g, b);
    ReachIsLeast(g, a, Reach(g, a + b));
    ReachIsLeast(g, b, Reach(g, a + b));
    ReachIsLeast(g, a + b, Reach(g, a) + Reach(g, b));
  }

  /** A depth-first walk in progress: marked nodes' edges lead to marked or pending nodes. */
  ghost predicate Marking<T(!new)>(g: Graph<T>, roots: set<T>, before: set<T>, marks: set<T>, pending: seq<T>)
  {
    && before <= marks <= before + Reach(g, roots)
    && (forall x :: x in roots ==> x in marks || x in pending)
    && (forall x :: x in pending ==> x in Reach(g, roots))
    && (forall x, y {:trigger y in Successors(g, x)} ::
          x in marks && y in Successors(g, x) ==> y in marks || y in pending)
  }

  lemma MarkingStart<T(!new)>(g: Graph<T>, root: T, before: set<T>)
    requires Closed(g, before)
    ensures Marking(g, {root}, before, before, [root])
  {
    hide Reach;
    ReachIsClosed(g, {root});
  }

  lemma MarkingSkip<T(!new)>(g: Graph<T>, roots: set<T>, before: set<T>, marks: set<T>, pending: seq<T>)
    requires Marking(g, roots, before, marks, pending) && pending != [] && pending[|pending| - 1] in marks
    ensures Marking(g, roots, before, marks, pending[..|pending| - 1])
  {
    hide Reach;
    PendingShrinks(pending);
  }

  lemma PendingShrinks<T>(pending: seq<T>)
    requires pending != []
    ensures forall x :: x in pending <==> x in pending[..|pending| - 1] || x == pending[|pending| - 1]
  {
    assert pending == pending[..|pending| - 1] + [pending[|pending| - 1]];
  }

  lemma MarkingVisit<T(!new)>(g: Graph<T>, roots: set<T>, before: set<T>, marks: set<T>, pending: seq<T>)
    requires Marking(g, roots, before, marks, pending) && pending != []
    ensures var x := pending[|pending| - 1];
      Marking(g, roots, before, marks + {x}, pending[..|pending| - 1] + Successors(g, x))
  {
    hide Reach;
    var x := pending[|pending| - 1];
    PendingShrinks(pending);
    ReachIsClosed(g, roots);
    assert x in pending;
  }

  lemma MarkingEnd<T(!new)>(g: Graph<T>, roots: set<T>, before: set<T>, marks: set<T>)
    requires Marking(g, roots, before, marks, [])
    ensures marks == before + Reach(g, roots) && Closed(g, marks)
  {
    hide Reach;
    ReachIsLeast(g, roots, marks);
  }

  /** Marks everything reachable from `root`, skipping what is marked already. */
  method Mark<T(==, !new)>(g: Graph<T>, root: T, marks0: set<T>) returns (marks: set<T>)
    requires Closed(g, marks0)
    ensures marks == marks0 + Reach(g, {root}) && Closed(g, marks)
  {
    hide *;
    marks := marks0;
    var stack := [root];
    MarkingStart(g, root, marks0);
    while stack != []
      invariant Marking(g, {root}, marks0, marks, stack)
      decreases |Reach(g, {root}) - marks|, |stack|
    {
      var x := stack[|stack| - 1];
      if x in marks {
        MarkingSkip(g, {root}, marks0, marks, stack);
        stack := stack[..|stack| - 1];
      } else {
        MarkingVisit(g, {root}, marks0, marks, stack);
        PendingIsReached(g, {root}, marks0, marks, stack, x);
        DifferenceShrinks(Reach(g, {root}), marks, x);
        marks := marks + {x};
        stack := stack[..|stack| - 1] + Successors(g, x);
      }
    }
    MarkingEnd(g, {root}, marks0, marks);
  }

  lemma PendingIsReached<T(!new)>(g: Graph<T>, roots: set<T>, before: set<T>, marks: set<T>, pending: seq<T>, x: T)
    requires Marking(g, roots, before, marks, pending) && x in pending
    ensures x in Reach(g, roots)
  {
  }
}
