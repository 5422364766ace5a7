/**
The ancestry of an indexed history: a depth-first search with an explicit stack that finds a
cycle exactly when there is one, and the generation orders that make the search unnecessary.
*/
module Ancestry {

  import opened Options
  import opened Sets
  import Range

  type Parents = seq<seq<nat>>

  ghost predicate Inside(parents: Parents)
  {
    forall x, y {:trigger y in parents[x]} :: 0 <= x < |parents| && y in parents[x] ==> y < |parents|
  }

  ghost predicate Edge(parents: Parents, x: nat, y: nat)
  {
    x < |parents| && y in parents[x]
  }

  ghost predicate Walk(parents: Parents, path: seq<nat>)
  {
    path != [] && forall i :: 0 < i < |path| ==> Edge(parents, path[i - 1], path[i])
  }

  /** No commit is its own ancestor. */
  ghost predicate Acyclic(parents: Parents)
  {
    forall path :: Walk(parents, path) && |path| > 1 ==> path[0] != path[|path| - 1]
  }

  // A rank that falls along every edge.

  ghost predicate Ranked(parents: Parents, rank: seq<nat>)
  {
    |rank| == |parents| && forall x: nat, y: nat :: Edge(parents, x, y) ==> y < |rank| && rank[y] < rank[x]
  }

  lemma {:induction false} RankFalls(parents: Parents, rank: seq<nat>, path: seq<nat>)
    requires Ranked(parents, rank) && Walk(parents, path) && |path| > 1
    ensures path[0] < |rank| && path[|path| - 1] < |rank| && rank[path[|path| - 1]] < rank[path[0]]
    decreases |path|
  {
    var n := |path| - 1;
    assert Edge(parents, path[n - 1], path[n]);
    if n > 1 {
      var shorter := path[..n];
      forall i | 0 < i < n ensures Edge(parents, shorter[i - 1], shorter[i]) { assert Edge(parents, path[i - 1], path[i]); }
      RankFalls(parents, rank, shorter);
    }
  }

  lemma RankedIsAcyclic(parents: Parents, rank: seq<nat>)
    requires Ranked(parents, rank)
    ensures Acyclic(parents)
  {
    forall path | Walk(parents, path) && |path| > 1 ensures path[0] != path[|path| - 1] {
      RankFalls(parents, rank, path);
    }
  }

  // The search.

  datatype Mark = Unseen | Open | Done

  datatype Frame = Frame(node: nat, exiting: bool)

  /** The innermost commit whose parents are being searched. */
  ghost function Top(stack: seq<Frame>): Option<nat>
  {
    if stack == [] then None
    else
      var last := stack[|stack| - 1];
      if last.exiting then Some(last.node) else Top(stack[..|stack| - 1])
  }

  /** Each frame is a parent of the innermost open commit below it. */
  ghost predicate Linked(parents: Parents, stack: seq<Frame>)
  {
    stack == [] ||
    (var n := |stack| - 1;
     && Linked(parents, stack[..n])
     && (Top(stack[..n]).Some? ==> Edge(parents, Top(stack[..n]).value, stack[n].node)))
  }

  ghost predicate Above(stack: seq<Frame>, i: nat, y: nat)
  {
    exists j: nat :: i < j < |stack| && stack[j].node == y
  }

  /** Exactly the open commits have an exit frame, each one. */
  ghost predicate Marked(marks: seq<Mark>, stack: seq<Frame>)
  {
    && (forall i: nat :: i < |stack| ==> stack[i].node < |marks|)
    && (forall i: nat :: i < |stack| && stack[i].exiting ==> marks[stack[i].node] == Open)
    && (forall x: nat :: x < |marks| && marks[x] == Open ==> Frame(x, true) in stack)
    && (forall i: nat, j: nat :: i < j < |stack| && stack[i].exiting && stack[j].exiting ==> stack[i].node != stack[j].node)
  }

  /** The parents of the commit that frame `i` will leave are done or wait above. */
  ghost predicate Waiting(parents: Parents, marks: seq<Mark>, stack: seq<Frame>, i: nat)
    requires i < |stack|
  {
    forall y: nat :: Edge(parents, stack[i].node, y) ==> y < |marks| && (marks[y] == Done || Above(stack, i, y))
  }

  ghost predicate Settled(parents: Parents, marks: seq<Mark>, rank: seq<nat>, x: nat)
    requires x < |marks| == |rank|
  {
    forall y: nat :: Edge(parents, x, y) ==> y < |marks| && marks[y] == Done && rank[y] < rank[x]
  }

  /** Done commits rank above their done parents; an open commit's other parents wait above it. */
  ghost predicate Searching(parents: Parents, marks: seq<Mark>, stack: seq<Frame>, rank: seq<nat>, clock: nat)
  {
    && |marks| == |parents| == |rank|
    && Marked(marks, stack)
    && Linked(parents, stack)
    && (forall i: nat :: i < |stack| && stack[i].exiting ==> Waiting(parents, marks, stack, i))
    && (forall x: nat :: x < |marks| && marks[x] == Done ==> Settled(parents, marks, rank, x) && rank[x] < clock)
  }

  lemma PopMarked(marks: seq<Mark>, stack: seq<Frame>, next: seq<Mark>)
    requires Marked(marks, stack) && stack != []
    requires var top := stack[|stack| - 1]; next == if top.exiting then marks[top.node := Done] else marks
    ensures Marked(next, stack[..|stack| - 1])
  {
    var n := |stack| - 1;
    var rest := stack[..n];
    forall x: nat | x < |next| && next[x] == Open ensures Frame(x, true) in rest {
      assert Frame(x, true) in stack;
    }
  }

  lemma PopWaiting(parents: Parents, marks: seq<Mark>, stack: seq<Frame>, next: seq<Mark>, i: nat)
    requires i < |stack| - 1 && Waiting(parents, marks, stack, i) && |next| == |marks|
    requires forall y: nat :: y < |marks| && marks[y] == Done ==> next[y] == Done
    requires stack[|stack| - 1].node < |next| && next[stack[|stack| - 1].node] == Done
    ensures Waiting(parents, next, stack[..|stack| - 1], i)
  {
    hide Edge;
    var rest := stack[..|stack| - 1];
    forall y: nat | Edge(parents, rest[i].node, y) ensures y < |next| && (next[y] == Done || Above(rest, i, y)) {
      assert Edge(parents, stack[i].node, y);
      if next[y] != Done {
        var j: nat :| i < j < |stack| && stack[j].node == y;
        assert rest[j].node == y;
      }
    }
  }

  lemma PopDone(parents: Parents, marks: seq<Mark>, stack: seq<Frame>, rank: seq<nat>, clock: nat)
    requires Searching(parents, marks, stack, rank, clock) && stack != []
    requires var top := stack[|stack| - 1]; !top.exiting && top.node < |marks| && marks[top.node] == Done
    ensures Searching(parents, marks, stack[..|stack| - 1], rank, clock)
  {
    hide Marked, Waiting, Settled, Edge;
    var n := |stack| - 1;
    PopMarked(marks, stack, marks);
    forall i: nat | i < n && stack[..n][i].exiting ensures Waiting(parents, marks, stack[..n], i) {
      PopWaiting(parents, marks, stack, marks, i);
    }
  }

  lemma PopExit(parents: Parents, marks: seq<Mark>, stack: seq<Frame>, rank: seq<nat>, clock: nat)
    requires Searching(parents, marks, stack, rank, clock) && stack != [] && stack[|stack| - 1].exiting
    ensures var x := stack[|stack| - 1].node;
      && x < |marks| && marks[x] == Open
      && Searching(parents, marks[x := Done], stack[..|stack| - 1], rank[x := clock], clock + 1)
  {
    hide Edge;
    var n := |stack| - 1;
    var x := stack[n].node;
    var next, ranks := marks[x := Done], rank[x := clock];
    PopMarked(marks, stack, next);
    forall i: nat | i < n && stack[..n][i].exiting ensures Waiting(parents, next, stack[..n], i) {
      PopWaiting(parents, marks, stack, next, i);
    }
    forall z: nat | z < |next| && next[z] == Done ensures Settled(parents, next, ranks, z) && ranks[z] < clock + 1 {
      if z == x {
        ExitSettles(parents, marks, stack, rank, clock);
      } else {
        assert Settled(parents, marks, rank, z);
      }
    }
  }

  /** Nothing waits above the top frame, so its commit's parents are done. */
  lemma ExitSettles(parents: Parents, marks: seq<Mark>, stack: seq<Frame>, rank: seq<nat>, clock: nat)
    requires Searching(parents, marks, stack, rank, clock) && stack != [] && stack[|stack| - 1].exiting
    ensures var x := stack[|stack| - 1].node;
      x < |marks| && Settled(parents, marks[x := Done], rank[x := clock], x)
  {
    hide Edge, Linked;
    var n := |stack| - 1;
    var x := stack[n].node;
    assert Waiting(parents, marks, stack, n);
    assert marks[x] == Open;
    forall y: nat | Edge(parents, x, y) ensures y < |marks| && marks[y] == Done && rank[y] < clock {
    }
  }

  /** Frames for a commit's parents, first parent on top. */
  function Pushed(ids: seq<nat>): (frames: seq<Frame>)
    ensures |frames| == |ids| && forall i :: 0 <= i < |ids| ==> frames[i] == Frame(ids[|ids| - 1 - i], false)
  {
    seq(|ids|, i requires 0 <= i < |ids| => Frame(ids[|ids| - 1 - i], false))
  }

  lemma {:induction false} LinkedPush(parents: Parents, base: seq<Frame>, x: nat, frames: seq<Frame>)
    requires Linked(parents, base) && Top(base) == Some(x)
    requires forall i :: 0 <= i < |frames| ==> !frames[i].exiting && Edge(parents, x, frames[i].node)
    ensures Linked(parents, base + frames) && Top(base + frames) == Some(x)
    decreases |frames|
  {
    hide Edge;
    if frames == [] {
      assert base + frames == base;
    } else {
      var n := |frames| - 1;
      LinkedPush(parents, base, x, frames[..n]);
      assert (base + frames)[..|base| + n] == base + frames[..n];
    }
  }

  lemma PushedHolds(ids: seq<nat>, y: nat)
    requires y in ids
    ensures exists j: nat :: j < |ids| && ids[|ids| - 1 - j] == y && Pushed(ids)[j].node == y
  {
    var i :| 0 <= i < |ids| && ids[i] == y;
    var j: nat := |ids| - 1 - i;
    assert j < |ids| && Pushed(ids)[j].node == y;
  }

  /** The stack after visiting the commit on top: its exit frame, and its parents above. */
  function Visited(parents: Parents, stack: seq<Frame>): seq<Frame>
    requires stack != [] && stack[|stack| - 1].node < |parents|
  {
    var x := stack[|stack| - 1].node;
    stack[..|stack| - 1] + [Frame(x, true)] + Pushed(parents[x])
  }

  lemma VisitMarked(parents: Parents, marks: seq<Mark>, stack: seq<Frame>)
    requires Inside(parents) && |marks| == |parents| && Marked(marks, stack) && stack != []
    requires var top := stack[|stack| - 1]; !top.exiting && marks[top.node] == Unseen
    ensures Marked(marks[stack[|stack| - 1].node := Open], Visited(parents, stack))
  {
    var n := |stack| - 1;
    var x := stack[n].node;
    var more, next := Visited(parents, stack), marks[x := Open];
    assert more[n] == Frame(x, true);
    forall i: nat | i < |more| ensures more[i].node < |next| {
      if i > n {
        PushedIsParent(parents, x, i - n - 1);
        assert more[i].node in parents[x];
      }
    }
    forall z: nat | z < |next| && next[z] == Open ensures Frame(z, true) in more {
      if z != x {
        assert Frame(z, true) in stack;
        var i :| 0 <= i < |stack| && stack[i] == Frame(z, true);
        assert more[i] == Frame(z, true);
      }
    }
  }

  lemma VisitWaiting(parents: Parents, marks: seq<Mark>, stack: seq<Frame>, i: nat)
    requires Inside(parents) && |marks| == |parents| && stack != [] && i < |stack|
    requires var top := stack[|stack| - 1]; !top.exiting && top.node < |marks| && marks[top.node] == Unseen
    requires i < |stack| - 1 ==> Waiting(parents, marks, stack, i)
    ensures Waiting(parents, marks[stack[|stack| - 1].node := Open], Visited(parents, stack), i)
  {
    var n := |stack| - 1;
    var x := stack[n].node;
    var more, next := Visited(parents, stack), marks[x := Open];
    forall y: nat | Edge(parents, more[i].node, y) ensures y < |next| && (next[y] == Done || Above(more, i, y)) {
      if i == n {
        PushedHolds(parents[x], y);
        var j: nat :| j < |parents[x]| && Pushed(parents[x])[j].node == y;
        assert more[n + 1 + j].node == y;
      } else {
        assert Edge(parents, stack[i].node, y);
        if next[y] != Done {
          var j: nat :| i < j < |stack| && stack[j].node == y;
          assert more[j].node == y;
        }
      }
    }
  }

  lemma VisitLinked(parents: Parents, stack: seq<Frame>)
    requires Linked(parents, stack) && stack != [] && stack[|stack| - 1].node < |parents|
    ensures Linked(parents, Visited(parents, stack))
  {
    hide Edge;
    var n := |stack| - 1;
    var x := stack[n].node;
    var base := stack[..n] + [Frame(x, true)];
    assert base[..n] == stack[..n];
    forall i | 0 <= i < |parents[x]| ensures Edge(parents, x, Pushed(parents[x])[i].node) { PushedIsParent(parents, x, i); }
    LinkedPush(parents, base, x, Pushed(parents[x]));
  }

  lemma PushedIsParent(parents: Parents, x: nat, i: nat)
    requires x < |parents| && i < |parents[x]|
    ensures Edge(parents, x, Pushed(parents[x])[i].node)
  {
  }

  lemma Visit(parents: Parents, marks: seq<Mark>, stack: seq<Frame>, rank: seq<nat>, clock: nat)
    requires Inside(parents) && Searching(parents, marks, stack, rank, clock) && stack != []
    requires var top := stack[|stack| - 1]; !top.exiting && top.node < |marks| && marks[top.node] == Unseen
    ensures Searching(parents, marks[stack[|stack| - 1].node := Open], Visited(parents, stack), rank, clock)
  {
    hide Inside, Edge, Linked, Marked, Waiting;
    var n := |stack| - 1;
    var x := stack[n].node;
    var more, next := Visited(parents, stack), marks[x := Open];
    VisitMarked(parents, marks, stack);
    VisitLinked(parents, stack);
    forall i: nat | i < |more| && more[i].exiting ensures Waiting(parents, next, more, i) {
      assert i <= n;
      VisitWaiting(parents, marks, stack, i);
    }
    forall z: nat | z < |next| && next[z] == Done ensures Settled(parents, next, rank, z) {
      assert Settled(parents, marks, rank, z);
    }
  }

  /** Open commits lead to the innermost one. */
  lemma {:induction false} OpenLeadsToTop(parents: Parents, stack: seq<Frame>, i: nat) returns (path: seq<nat>)
    requires Linked(parents, stack) && i < |stack| && stack[i].exiting
    ensures Walk(parents, path) && path[0] == stack[i].node && Top(stack) == Some(path[|path| - 1])
    decreases |stack|
  {
    hide Edge;
    var n := |stack| - 1;
    if i == n {
      return [stack[n].node];
    }
    path := OpenLeadsToTop(parents, stack[..n], i);
    if stack[n].exiting {
      path := path + [stack[n].node];
    }
  }

  /** Meeting an open commit again closes a cycle. */
  lemma OpenAgain(parents: Parents, marks: seq<Mark>, stack: seq<Frame>, rank: seq<nat>, clock: nat)
    requires Searching(parents, marks, stack, rank, clock) && stack != []
    requires var top := stack[|stack| - 1]; !top.exiting && top.node < |marks| && marks[top.node] == Open
    ensures !Acyclic(parents)
  {
    hide Edge, Waiting, Settled;
    var n := |stack| - 1;
    var y := stack[n].node;
    assert Frame(y, true) in stack;
    var i :| 0 <= i < |stack| && stack[i] == Frame(y, true);
    assert stack[..n][i] == Frame(y, true);
    var path := OpenLeadsToTop(parents, stack[..n], i);
    var cycle := path + [y];
    assert Walk(parents, cycle) && cycle[0] == cycle[|cycle| - 1];
  }

  function UnseenCount(marks: seq<Mark>): nat
  {
    if marks == [] then 0 else UnseenCount(marks[..|marks| - 1]) + One(marks[|marks| - 1] == Unseen)
  }

  lemma {:induction false} UnseenFalls(marks: seq<Mark>, x: nat, m: Mark)
    requires x < |marks| && m != Unseen
    ensures UnseenCount(marks[x := m]) == UnseenCount(marks) - One(marks[x] == Unseen)
    decreases |marks|
  {
    var n := |marks| - 1;
    if x == n {
      assert marks[x := m][..n] == marks[..n];
    } else {
      UnseenFalls(marks[..n], x, m);
      assert marks[x := m][..n] == marks[..n][x := m];
    }
  }

  /** Everything from one commit on, or the cycle it runs into. */
  method SearchFrom(parents: Parents, root: nat, marks: array<Mark>, ghost rank0: seq<nat>, ghost clock0: nat)
    returns (ok: bool, ghost rank: seq<nat>, ghost clock: nat)
    requires Inside(parents) && marks.Length == |parents| && root < |parents|
    requires Searching(parents, marks[..], [], rank0, clock0)
    modifies marks
    ensures !ok ==> !Acyclic(parents)
    ensures ok ==> Searching(parents, marks[..], [], rank, clock) && marks[root] == Done
    ensures ok ==> forall x: nat :: x < |parents| && old(marks[x]) == Done ==> marks[x] == Done
  {
    hide *;
    rank, clock := rank0, clock0;
    var stack := [Frame(root, false)];
    ghost var start := marks[..];
    RootIsPushed(parents, start, root, rank, clock);
    while stack != []
      invariant marks.Length == |parents| && Searching(parents, marks[..], stack, rank, clock)
      invariant forall x: nat :: x < |parents| && start[x] == Done ==> marks[x] == Done
      invariant if stack == [] then marks[root] == Done else stack[0].node == root
      decreases UnseenCount(marks[..]), |stack|
    {
      var top := stack[|stack| - 1];
      ghost var before, frames := marks[..], stack;
      NodeIsInside(parents, before, stack, rank, clock);
      stack := stack[..|stack| - 1];
      if top.exiting {
        PopExit(parents, before, frames, rank, clock);
        UnseenFalls(before, top.node, Done);
        OneIsCount();
        marks[top.node] := Done;
        assert marks[..] == before[top.node := Done];
        rank, clock := rank[top.node := clock], clock + 1;
      } else if marks[top.node] == Done {
        PopDone(parents, before, frames, rank, clock);
      } else if marks[top.node] == Open {
        OpenAgain(parents, before, frames, rank, clock);
        return false, rank, clock;
      } else {
        Visit(parents, before, frames, rank, clock);
        UnseenFalls(before, top.node, Open);
        OneIsCount();
        marks[top.node] := Open;
        assert marks[..] == before[top.node := Open];
        stack := stack + [Frame(top.node, true)] + Pushed(parents[top.node]);
        VisitedIs(parents, frames);
      }
    }
    return true, rank, clock;
  }

  lemma VisitedIs(parents: Parents, stack: seq<Frame>)
    requires stack != [] && stack[|stack| - 1].node < |parents|
    ensures var x := stack[|stack| - 1].node;
      Visited(parents, stack) == stack[..|stack| - 1] + [Frame(x, true)] + Pushed(parents[x])
  {
  }

  lemma NodeIsInside(parents: Parents, marks: seq<Mark>, stack: seq<Frame>, rank: seq<nat>, clock: nat)
    requires Searching(parents, marks, stack, rank, clock) && stack != []
    ensures stack[|stack| - 1].node < |marks| == |parents| == |rank|
  {
  }

  lemma RootIsPushed(parents: Parents, marks: seq<Mark>, root: nat, rank: seq<nat>, clock: nat)
    requires Searching(parents, marks, [], rank, clock) && root < |parents|
    ensures Searching(parents, marks, [Frame(root, false)], rank, clock)
  {
    assert [Frame(root, false)][..0] == [];
  }

  /** Accepts exactly the histories in which no commit is its own ancestor. */
  method CheckAncestry(parents: Parents) returns (ok: bool)
    requires Inside(parents)
    ensures ok <==> Acyclic(parents)
  {
    hide Inside, Acyclic, Searching;
    var marks := new Mark[|parents|](_ => Unseen);
    ghost var rank: seq<nat> := seq(|parents|, _ => 0);
    ghost var clock := 0;
    NothingSearched(parents, marks[..], rank);
    var root := 0;
    while root < |parents|
      invariant root <= |parents| == marks.Length && Searching(parents, marks[..], [], rank, clock)
      invariant forall x: nat :: x < root ==> marks[x] == Done
    {
      if marks[root] != Done {
        var found;
        found, rank, clock := SearchFrom(parents, root, marks, rank, clock);
        if !found {
          return false;
        }
      }
      root := root + 1;
    }
    AllDone(parents, marks[..], rank, clock);
    return true;
  }

  lemma NothingSearched(parents: Parents, marks: seq<Mark>, rank: seq<nat>)
    requires |marks| == |parents| == |rank| && forall x: nat :: x < |marks| ==> marks[x] == Unseen
    ensures Searching(parents, marks, [], rank, 0)
  {
  }

  lemma AllDone(parents: Parents, marks: seq<Mark>, rank: seq<nat>, clock: nat)
    requires Searching(parents, marks, [], rank, clock) && forall x: nat :: x < |marks| ==> marks[x] == Done
    ensures Acyclic(parents)
  {
    forall x: nat, y: nat | Edge(parents, x, y) ensures y < |rank| && rank[y] < rank[x] {
      assert Settled(parents, marks, rank, x);
    }
    RankedIsAcyclic(parents, rank);
  }

  // Generation orders.

  datatype Order = Unavailable | Topological | CorrectedDates

  datatype History = History(order: Order, generations: seq<nat>)

  /** The largest level that a graph file can store without saturating. */
  const MAX_LEVEL: nat := 0x3fff_ffff

  ghost predicate UsableLevels(parents: Parents, levels: seq<nat>)
  {
    Ranked(parents, levels) && forall x :: 0 <= x < |levels| ==> 0 < levels[x] < MAX_LEVEL
  }

  /** One pass over the edges decides whether the values fall along each of them. */
  method FallsAlongEdges(parents: Parents, values: seq<nat>) returns (falls: bool)
    requires Inside(parents) && |values| == |parents|
    ensures falls <==> Ranked(parents, values)
  {
    falls := true;
    var child := 0;
    while child < |parents|
      invariant child <= |parents|
      invariant falls <==> forall x: nat, y: nat :: x < child && Edge(parents, x, y) ==> values[y] < values[x]
    {
      var i := 0;
      ghost var before := falls;
      while i < |parents[child]|
        invariant i <= |parents[child]|
        invariant falls <==> before && forall y :: y in parents[child][..i] ==> y < |values| && values[y] < values[child]
      {
        var parent := parents[child][i];
        assert parent in parents[child];
        assert parents[child][..i + 1] == parents[child][..i] + [parent];
        assert parent in parents[child][..i + 1];
        assert forall y :: y in parents[child][..i + 1] <==> y in parents[child][..i] || y == parent;
        falls := falls && values[parent] < values[child];
        i := i + 1;
      }
      assert parents[child][..i] == parents[child];
      child := child + 1;
    }
  }

  /**
  Derives a history index from checked layers. It refuses exactly the cyclic ones, and an order
  that it does report makes the index usable for generation-ordered walks.
  */
  method Prepare(parents: Parents, levels: seq<nat>, dates: Option<seq<nat>>) returns (r: Option<History>)
    requires Inside(parents) && |levels| == |parents| && (dates.Some? ==> |dates.value| == |parents|)
    ensures r.Some? <==> Acyclic(parents)
    ensures r.Some? && r.value.order != Unavailable ==> Range.Index(parents, r.value.generations, {}).Valid()
    ensures r.Some? && r.value.order == CorrectedDates ==> dates.Some? && r.value.generations == dates.value
    ensures r.Some? && r.value.order == Unavailable ==>
      !UsableLevels(parents, levels) && (dates.Some? ==> !Ranked(parents, dates.value))
  {
    hide Acyclic, Ranked, Inside;
    if dates.Some? {
      var corrected := FallsAlongEdges(parents, dates.value);
      if corrected {
        RankedIsAcyclic(parents, dates.value);
        RankedIsIndexed(parents, dates.value);
        return Some(History(CorrectedDates, dates.value));
      }
    }
    var topological := FallsAlongEdges(parents, levels);
    var x := 0;
    while x < |levels|
      invariant x <= |levels|
      invariant topological <==> Ranked(parents, levels) && forall y :: 0 <= y < x ==> 0 < levels[y] < MAX_LEVEL
    {
      topological := topological && levels[x] != 0 && levels[x] < MAX_LEVEL;
      x := x + 1;
    }
    if topological {
      RankedIsAcyclic(parents, levels);
      RankedIsIndexed(parents, levels);
      return Some(History(Topological, levels));
    }
    var ok := CheckAncestry(parents);
    r := if ok then Some(History(Unavailable, [])) else None;
  }

  lemma RankedIsIndexed(parents: Parents, rank: seq<nat>)
    requires Ranked(parents, rank)
    ensures Range.Index(parents, rank, {}).Valid()
  {
    forall p, c {:trigger c in parents[p]} | 0 <= p < |parents| && c in parents[p] ensures c < |parents| && rank[c] < rank[p] {
      assert Edge(parents, p, c);
    }
  }
}
