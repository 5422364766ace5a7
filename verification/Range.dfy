/**
Commits reachable from one set of tips and not from another: the two-colour walk over a
commit-graph in generation order, which stops as soon as no queued commit can matter.
*/
module Range {

  import opened Reachability
  import opened Sets

  /** The two sides of a range: what the tips reach, and what is to be left out. */
  datatype Side = Tips | Hidden

  /** A commit's two colour bits; neither set means not yet reached. */
  datatype Color = Color(included: bool, excluded: bool) {

    predicate Has(side: Side)
    {
      match side
      case Tips => included
      case Hidden => excluded
    }

    function Or(other: Color): Color
    {
      Color(included || other.included, excluded || other.excluded)
    }
  }

  const NONE := Color(false, false)
  const INCLUDE := Color(true, false)
  const EXCLUDE := Color(false, true)

  /** Which single-coloured commits a walk collects and waits for. */
  datatype Sides = Include | Both {

    predicate Counts(color: Color)
    {
      match this
      case Include => color == INCLUDE
      case Both => color == INCLUDE || color == EXCLUDE
    }
  }

  /** Indexed commits by position: parents, generations, and where history is cut off. */
  datatype Index = Index(parents: seq<seq<nat>>, generation: seq<nat>, shallow: set<nat>) {

    /** Every edge stays inside the index and strictly lowers the generation. */
    ghost predicate Valid()
    {
      && |parents| == |generation|
      && forall p, c {:trigger c in parents[p]} :: 0 <= p < |parents| && c in parents[p] ==> c < |parents| && generation[c] < generation[p]
    }

    function Edges(position: nat): seq<nat>
      requires position < |parents|
    {
      if position in shallow then [] else parents[position]
    }

    ghost function Links(): Graph<nat>
    {
      map p: nat | p < |parents| :: Edges(p)
    }
  }

  /** The links are the recorded parents, except where history is cut off. */
  lemma LinksAre(index: Index, p: nat, c: nat)
    ensures c in Successors(index.Links(), p) <==> p < |index.parents| && p !in index.shallow && c in index.parents[p]
  {
  }

  /** What one walk is about: the index and the two sets of tips. */
  datatype Query = Query(index: Index, tips: set<nat>, hidden: set<nat>) {

    ghost predicate Valid()
    {
      index.Valid() && forall r :: r in tips || r in hidden ==> r < |index.parents|
    }

    ghost function Roots(side: Side): set<nat>
    {
      match side
      case Tips => tips
      case Hidden => hidden
    }

    ghost function Closure(side: Side): set<nat>
    {
      Reach<nat>(index.Links(), Roots(side))
    }
  }

  // The state of a walk.

  /** Every colour a commit has, its parents have too. */
  ghost predicate PassedOn(q: Query, colors: seq<Color>, p: nat)
  {
    && p < |q.index.parents| && p < |colors|
    && forall c, side {:trigger c in q.index.Edges(p), colors[p].Has(side)} ::
         c in q.index.Edges(p) && colors[p].Has(side) ==> c < |colors| && colors[c].Has(side)
  }

  /**
  Between two steps, colours are sound everywhere and final on popped commits; popped commits
  have passed their colours on, except those in `open`; no queued commit is above a popped one.
  */
  ghost predicate Painting(q: Query, colors: seq<Color>, queue: set<nat>, popped: set<nat>, open: set<nat>)
  {
    && |colors| == |q.index.parents| == |q.index.generation|
    && (forall p: nat :: p in queue || p in popped <==> p < |colors| && colors[p] != NONE)
    && queue !! popped
    && (forall p: nat, side :: p < |colors| && colors[p].Has(side) ==> p in q.Closure(side))
    && (forall p: nat, side :: p in popped && p in q.Closure(side) ==> colors[p].Has(side))
    && (forall p: nat :: p in popped - open ==> PassedOn(q, colors, p))
    && (forall p: nat, c: nat :: p in popped && c in queue ==> q.index.generation[c] <= q.index.generation[p])
  }

  ghost predicate RootsPainted(q: Query, colors: seq<Color>)
  {
    forall r, side {:trigger r in q.Roots(side)} :: r in q.Roots(side) ==> r < |colors| && colors[r].Has(side)
  }

  ghost function Frontier(colors: seq<Color>, queue: set<nat>, side: Side): set<nat>
  {
    set c | c in queue && c < |colors| && colors[c].Has(side)
  }

  /** Nothing a side reaches can hide from the walk: it is popped or still below the queue. */
  lemma ClosureIsCovered(q: Query, colors: seq<Color>, queue: set<nat>, popped: set<nat>, side: Side)
    requires q.Valid() && Painting(q, colors, queue, popped, {}) && RootsPainted(q, colors)
    ensures q.Closure(side) <= popped + Reach<nat>(q.index.Links(), Frontier(colors, queue, side))
  {
    hide Reach;
    var g, frontier := q.index.Links(), Frontier(colors, queue, side);
    var below := Reach<nat>(g, frontier);
    ReachIsClosed<nat>(g, frontier);
    var s := (set p | p in popped && colors[p].Has(side)) + below;
    forall x, y | x in s && y in Successors(g, x)
      ensures y in s
    {
      if x !in below {
        assert PassedOn(q, colors, x);
        assert y in q.index.Edges(x);
        assert y in queue || y in popped;
      }
    }
    forall r | r in q.Roots(side)
      ensures r in s
    {
      assert colors[r].Has(side);
      assert r in queue || r in popped;
    }
    ReachIsLeast<nat>(g, q.Roots(side), s);
  }

  ghost predicate Highest(q: Query, queue: set<nat>, x: nat)
  {
    && x in queue && x < |q.index.generation|
    && forall c :: c in queue ==> c < |q.index.generation| && q.index.generation[c] <= q.index.generation[x]
  }

  /** Below a queue whose highest commit is `x`, only the queue itself is as high as `x`. */
  lemma BelowIsLower(q: Query, queue: set<nat>, some: set<nat>, x: nat)
    requires q.Valid() && Highest(q, queue, x) && some <= queue
    ensures x in Reach<nat>(q.index.Links(), some) ==> x in some
  {
    hide Reach;
    var lower := set y: nat | y < |q.index.generation| && q.index.generation[y] < q.index.generation[x];
    forall y, z | y in some + lower && z in Successors(q.index.Links(), y)
      ensures z in some + lower
    {
      assert y < |q.index.parents| && z in q.index.Edges(y);
      assert q.index.generation[y] <= q.index.generation[x];
      assert q.index.generation[z] < q.index.generation[y];
    }
    ReachIsLeast<nat>(q.index.Links(), some, some + lower);
    assert x !in lower;
  }

  /** The highest queued commit has its final colour. */
  lemma ColorIsFinal(q: Query, colors: seq<Color>, queue: set<nat>, popped: set<nat>, x: nat, side: Side)
    requires q.Valid() && Painting(q, colors, queue, popped, {}) && RootsPainted(q, colors)
    requires Highest(q, queue, x) && x in q.Closure(side)
    ensures x < |colors| && colors[x].Has(side)
  {
    ClosureIsCovered(q, colors, queue, popped, side);
    BelowIsLower(q, queue, Frontier(colors, queue, side), x);
  }

  lemma PopStep(q: Query, colors: seq<Color>, queue: set<nat>, popped: set<nat>, x: nat)
    requires q.Valid() && Painting(q, colors, queue, popped, {}) && RootsPainted(q, colors) && Highest(q, queue, x)
    ensures Painting(q, colors, queue - {x}, popped + {x}, {x})
  {
    hide Reach;
    forall side | x in q.Closure(side)
      ensures colors[x].Has(side)
    {
      ColorIsFinal(q, colors, queue, popped, x, side);
    }
  }

  /** Painting a commit that is not above any popped one keeps the state. */
  lemma EnqueueStep(q: Query, colors: seq<Color>, queue: set<nat>, popped: set<nat>, open: set<nat>,
                    at: nat, color: Color)
    requires Painting(q, colors, queue, popped, open) && at < |colors| && at !in popped && color != NONE
    requires forall side :: color.Has(side) ==> at in q.Closure(side)
    requires forall p :: p in popped ==> q.index.generation[at] <= q.index.generation[p]
    ensures Painting(q, colors[at := colors[at].Or(color)], queue + {at}, popped, open)
  {
    hide Reach;
    var colors' := colors[at := colors[at].Or(color)];
    forall p: nat | p in popped - open
      ensures PassedOn(q, colors', p)
    {
      assert PassedOn(q, colors, p);
    }
  }

  // How many queued commits still matter.

  ghost predicate Matters(sides: Sides, colors: seq<Color>, c: nat)
  {
    c < |colors| && sides.Counts(colors[c])
  }

  ghost function Interesting(sides: Sides, colors: seq<Color>, queue: set<nat>): set<nat>
  {
    set c | c in queue && Matters(sides, colors, c)
  }

  lemma InterestingAfterPop(sides: Sides, colors: seq<Color>, queue: set<nat>, x: nat)
    requires x in queue && x < |colors|
    ensures |Interesting(sides, colors, queue - {x})|
         == |Interesting(sides, colors, queue)| - if sides.Counts(colors[x]) then 1 else 0
  {
    var before, after := Interesting(sides, colors, queue), Interesting(sides, colors, queue - {x});
    if sides.Counts(colors[x]) {
      assert before == after + {x};
    } else {
      assert before == after;
    }
  }

  lemma InterestingAfterPaint(sides: Sides, colors: seq<Color>, queue: set<nat>, at: nat, color: Color)
    requires at < |colors| && (at in queue || !sides.Counts(colors[at]))
    ensures |Interesting(sides, colors[at := color], queue + {at})|
         == |Interesting(sides, colors, queue)| + One(sides.Counts(color)) - One(sides.Counts(colors[at]))
  {
    hide Sides.Counts;
    var colors' := colors[at := color];
    var before, after := Interesting(sides, colors, queue), Interesting(sides, colors', queue + {at});
    assert at in before <==> sides.Counts(colors[at]);
    assert at in after <==> sides.Counts(color);
    assert forall c :: c != at ==> Matters(sides, colors', c) == Matters(sides, colors, c);
    hide Matters;
    CountWithout<nat>(before, at);
    CountWithout<nat>(after, at);
    assert before - {at} == after - {at};
  }

  // The walk.

  datatype Outcome = Painted(included: seq<nat>, excluded: seq<nat>) | CommitLimit | EdgeLimit

  ghost function Colored(colors: seq<Color>): set<nat>
  {
    set p: nat | p < |colors| && colors[p] != NONE
  }

  /** The counters agree with the colours and the queue. */
  ghost predicate Consistent(sides: Sides, colors: seq<Color>, queue: seq<nat>, marked: nat, interesting: nat)
  {
    && Distinct(queue) && (forall c :: c in queue ==> c < |colors| && colors[c] != NONE)
    && marked == |Colored(colors)|
    && interesting == |Interesting(sides, colors, SetOf(queue))|
  }

  lemma NoneIsDull(sides: Sides)
    ensures !sides.Counts(NONE)
  {
  }

  lemma ColoredAfterPaint(colors: seq<Color>, at: nat, color: Color)
    requires at < |colors| && color != NONE
    ensures |Colored(colors[at := color])| == |Colored(colors)| + One(colors[at] == NONE)
  {
    var a, b := Colored(colors), Colored(colors[at := color]);
    assert at in b && (at in a <==> colors[at] != NONE) && a - {at} == b - {at};
    SameButOne(a, b, at);
  }

  lemma SameButOne(a: set<nat>, b: set<nat>, at: nat)
    requires a - {at} == b - {at} && at in b
    ensures |b| == |a| + One(at !in a)
  {
    CountWithout<nat>(a, at);
    CountWithout<nat>(b, at);
  }

  lemma ConsistentAfterPaint(sides: Sides, colors: seq<Color>, queue: seq<nat>, marked: nat, interesting: nat,
                             at: nat, color: Color)
    requires Consistent(sides, colors, queue, marked, interesting) && at < |colors| && color != NONE
    requires colors[at] != NONE ==> at in queue
    ensures 0 <= interesting + One(sides.Counts(color)) - One(sides.Counts(colors[at]))
    ensures Consistent(sides, colors[at := color], if colors[at] == NONE then queue + [at] else queue,
                       marked + One(colors[at] == NONE),
                       interesting + One(sides.Counts(color)) - One(sides.Counts(colors[at])))
  {
    hide Interesting, Sides.Counts, Colored, One;
    var queue' := if colors[at] == NONE then queue + [at] else queue;
    NoneIsDull(sides);
    InterestingAfterPaint(sides, colors, SetOf(queue), at, color);
    ColoredAfterPaint(colors, at, color);
    assert SetOf(queue') == SetOf(queue) + {at};
  }

  class Paint {
    const index: Index
    const sides: Sides
    const maxCommits: nat
    var colors: seq<Color>
    var queue: seq<nat>
    var marked: nat
    var interesting: nat

    ghost predicate Valid()
      reads this
    {
      && |colors| == |index.parents| && marked <= maxCommits
      && Consistent(sides, colors, queue, marked, interesting)
    }

    constructor (index: Index, sides: Sides, maxCommits: nat)
      ensures Valid() && this.index == index && this.sides == sides && this.maxCommits == maxCommits
      ensures queue == [] && colors == seq(|index.parents|, i => NONE)
    {
      this.index, this.sides, this.maxCommits := index, sides, maxCommits;
      colors := seq(|index.parents|, i => NONE);
      queue, marked, interesting := [], 0, 0;
      new;
      assert Colored(colors) == {};
      assert Interesting(sides, colors, SetOf(queue)) == {};
    }

    /** Adds a colour to a commit, queueing it when it had none. */
    method Enqueue(position: nat, color: Color) returns (ok: bool)
      requires Valid() && position < |colors| && color != NONE
      requires colors[position] != NONE ==> position in queue
      modifies `colors, `queue, `marked, `interesting
      ensures ok ==> Valid() && colors == old(colors)[position := old(colors[position]).Or(color)]
      ensures ok ==> queue == if old(colors[position]) == NONE then old(queue) + [position] else old(queue)
      ensures !ok ==> maxCommits <= |Colored(old(colors))| && old(colors[position]) == NONE
    {
      hide Consistent, Sides.Counts, Colored;
      var before := colors[position];
      var after := before.Or(color);
      ConsistentAfterPaint(sides, colors, queue, marked, interesting, position, after);
      if before == after {
        assert colors == colors[position := after];
        return true;
      }
      if before == NONE {
        if marked >= maxCommits {
          MarkedIsColored(sides, colors, queue, marked, interesting);
          return false;
        }
        marked := marked + 1;
        queue := queue + [position];
      }
      interesting := interesting + One(sides.Counts(after));
      interesting := interesting - One(sides.Counts(before));
      colors := colors[position := after];
      return true;
    }
  }

  lemma MarkedIsColored(sides: Sides, colors: seq<Color>, queue: seq<nat>, marked: nat, interesting: nat)
    requires Consistent(sides, colors, queue, marked, interesting)
    ensures marked == |Colored(colors)|
  {
  }

  /** The heap's order: higher generation first, then higher position. */
  predicate Above(index: Index, a: nat, b: nat)
    requires a < |index.generation| && b < |index.generation|
  {
    index.generation[a] > index.generation[b] || (index.generation[a] == index.generation[b] && a > b)
  }

  /** The slot of the queue's greatest entry. */
  function Top(index: Index, queue: seq<nat>): (top: nat)
    requires queue != [] && forall i :: 0 <= i < |queue| ==> queue[i] < |index.generation|
    ensures top < |queue| && forall i :: 0 <= i < |queue| ==> !Above(index, queue[i], queue[top])
  {
    if |queue| == 1 then 0
    else
      var last := |queue| - 1;
      var top := Top(index, queue[..last]);
      if Above(index, queue[last], queue[top]) then last else top
  }

  function Without(queue: seq<nat>, i: nat): seq<nat>
    requires i < |queue|
  {
    queue[..i] + queue[i + 1..]
  }

  lemma WithoutTop(queue: seq<nat>, i: nat)
    requires i < |queue| && Distinct(queue)
    ensures Distinct(Without(queue, i)) && SetOf(Without(queue, i)) == SetOf(queue) - {queue[i]}
  {
    var rest := Without(queue, i);
    forall c ensures c in rest <==> c in queue && c != queue[i] {
      if c in queue && c != queue[i] {
        var j :| 0 <= j < |queue| && queue[j] == c;
        assert c == if j < i then rest[j] else rest[j - 1];
      }
    }
  }

  lemma ConsistentAfterPop(sides: Sides, colors: seq<Color>, queue: seq<nat>, marked: nat, interesting: nat, i: nat)
    requires Consistent(sides, colors, queue, marked, interesting) && i < |queue|
    ensures queue[i] < |colors| && 0 <= interesting - One(sides.Counts(colors[queue[i]]))
    ensures Consistent(sides, colors, Without(queue, i), marked, interesting - One(sides.Counts(colors[queue[i]])))
  {
    hide Interesting, Sides.Counts, Colored, Without;
    assert queue[i] in queue;
    WithoutTop(queue, i);
    InterestingAfterPop(sides, colors, SetOf(queue), queue[i]);
    assert forall c :: c in Without(queue, i) ==> c in SetOf(Without(queue, i));
  }

  /** The collected commits: what was popped and belongs to exactly one side. */
  ghost predicate Collected(q: Query, sides: Sides, popped: set<nat>, included: seq<nat>, excluded: seq<nat>)
  {
    && Distinct(included) && SetOf(included) == popped * (q.Closure(Tips) - q.Closure(Hidden))
    && (sides.Both? ==> Distinct(excluded) && SetOf(excluded) == popped * (q.Closure(Hidden) - q.Closure(Tips)))
  }

  lemma CollectStep(q: Query, sides: Sides, colors: seq<Color>, queue: set<nat>, popped: set<nat>, x: nat,
                    included: seq<nat>, excluded: seq<nat>)
    requires Painting(q, colors, queue, popped + {x}, {x}) && x !in popped
    requires Collected(q, sides, popped, included, excluded)
    ensures x < |colors|
    ensures Collected(q, sides, popped + {x},
                      if colors[x] == INCLUDE then included + [x] else included,
                      if colors[x] == EXCLUDE && sides.Both? then excluded + [x] else excluded)
  {
    hide Reach;
    assert x in popped + {x};
    var included' := if colors[x] == INCLUDE then included + [x] else included;
    var excluded' := if colors[x] == EXCLUDE && sides.Both? then excluded + [x] else excluded;
    assert x in q.Closure(Tips) <==> colors[x].Has(Tips);
    assert x in q.Closure(Hidden) <==> colors[x].Has(Hidden);
    assert x !in SetOf(included) && (sides.Both? ==> x !in SetOf(excluded));
    assert SetOf(included') == SetOf(included) + if colors[x] == INCLUDE then {x} else {};
    assert SetOf(excluded') == SetOf(excluded) + if colors[x] == EXCLUDE && sides.Both? then {x} else {};
  }

  function Paintbrush(side: Side): Color
  {
    match side
    case Tips => INCLUDE
    case Hidden => EXCLUDE
  }

  /** Colours are only added. */
  ghost predicate Spreads(before: seq<Color>, after: seq<Color>)
  {
    |before| == |after| && forall p, side :: 0 <= p < |before| && before[p].Has(side) ==> after[p].Has(side)
  }

  /** A commit that may be painted now: its sides reach it, and nothing popped is below it. */
  ghost predicate Paintable(q: Query, popped: set<nat>, at: nat, color: Color)
  {
    && at < |q.index.generation| && at !in popped && color != NONE
    && (forall side :: color.Has(side) ==> at in q.Closure(side))
    && (forall p :: p in popped ==> p < |q.index.generation| && q.index.generation[at] <= q.index.generation[p])
  }

  function Queued(colors: seq<Color>, queue: seq<nat>, at: nat): seq<nat>
    requires at < |colors|
  {
    if colors[at] == NONE then queue + [at] else queue
  }

  lemma PaintStep(q: Query, colors: seq<Color>, queue: seq<nat>, popped: set<nat>, open: set<nat>, at: nat, color: Color)
    requires Painting(q, colors, SetOf(queue), popped, open) && Paintable(q, popped, at, color)
    ensures at < |colors| && (colors[at] != NONE ==> at in queue)
    ensures var colors' := colors[at := colors[at].Or(color)];
      && Painting(q, colors', SetOf(Queued(colors, queue, at)), popped, open) && Spreads(colors, colors')
      && forall side :: color.Has(side) ==> colors'[at].Has(side)
  {
    EnqueueStep(q, colors, SetOf(queue), popped, open, at, color);
    hide Reach, PassedOn;
    assert colors[at] != NONE ==> at in SetOf(queue) || at in popped;
    assert SetOf(Queued(colors, queue, at)) == SetOf(queue) + {at};
  }

  /** A refused commit is one more than the limit allows. */
  lemma TooMany(q: Query, colors: seq<Color>, queue: set<nat>, popped: set<nat>, open: set<nat>, at: nat, color: Color)
    requires Painting(q, colors, queue, popped, open) && Paintable(q, popped, at, color) && colors[at] == NONE
    ensures |Colored(colors)| < |q.Closure(Tips) + q.Closure(Hidden)|
  {
    hide Reach, PassedOn;
    var all := q.Closure(Tips) + q.Closure(Hidden);
    assert color.Has(Tips) || color.Has(Hidden);
    forall p | p in Colored(colors)
      ensures p in all
    {
      assert colors[p].Has(Tips) || colors[p].Has(Hidden);
    }
    SubsetIsSmaller<nat>(Colored(colors) + {at}, all);
  }

  ghost predicate RootsOf(q: Query, roots: seq<nat>, side: Side)
  {
    forall i :: 0 <= i < |roots| ==> roots[i] in q.Roots(side)
  }

  lemma RootIsPaintable(q: Query, root: nat, side: Side)
    requires q.Valid() && root in q.Roots(side)
    ensures Paintable(q, {}, root, Paintbrush(side))
  {
    hide Reach;
    ReachIsClosed<nat>(q.index.Links(), q.Roots(side));
  }

  /** Paints one side's tips, before anything is popped. */
  method EnqueueRoots(state: Paint, ghost q: Query, roots: seq<nat>, side: Side) returns (ok: bool)
    requires q.Valid() && q.index == state.index && RootsOf(q, roots, side)
    requires state.Valid() && Painting(q, state.colors, SetOf(state.queue), {}, {})
    modifies state`colors, state`queue, state`marked, state`interesting
    ensures ok ==> state.Valid() && Painting(q, state.colors, SetOf(state.queue), {}, {})
    ensures ok ==> forall i :: 0 <= i < |roots| ==> roots[i] < |state.colors| && state.colors[roots[i]].Has(side)
    ensures ok ==> Spreads(old(state.colors), state.colors)
    ensures !ok ==> state.maxCommits < |q.Closure(Tips) + q.Closure(Hidden)|
  {
    hide Consistent, Reach, Painting, Colored, Paintable, Query.Valid;
    for i := 0 to |roots|
      invariant state.Valid() && Painting(q, state.colors, SetOf(state.queue), {}, {})
      invariant forall j :: 0 <= j < i ==> roots[j] < |state.colors| && state.colors[roots[j]].Has(side)
      invariant Spreads(old(state.colors), state.colors)
    {
      RootIsPaintable(q, roots[i], side);
      PaintStep(q, state.colors, state.queue, {}, {}, roots[i], Paintbrush(side));
      ghost var colors, queue := state.colors, state.queue;
      ok := state.Enqueue(roots[i], Paintbrush(side));
      if !ok {
        TooMany(q, colors, SetOf(queue), {}, {}, roots[i], Paintbrush(side));
        return;
      }
    }
    ok := true;
  }

  lemma ParentIsPaintable(q: Query, colors: seq<Color>, queue: set<nat>, popped: set<nat>, x: nat, at: nat)
    requires q.Valid() && Painting(q, colors, queue, popped, {x}) && x in popped && at in q.index.Edges(x)
    requires forall p :: p in popped ==> q.index.generation[x] <= q.index.generation[p]
    ensures colors[x] != NONE && Paintable(q, popped, at, colors[x]) && at != x
  {
    hide Reach, PassedOn;
    assert colors[x] != NONE;
    assert at in q.index.parents[x];
    forall side | colors[x].Has(side)
      ensures at in q.Closure(side)
    {
      ReachIsClosed<nat>(q.index.Links(), q.Roots(side));
      assert at in Successors(q.index.Links(), x);
    }
  }

  /** Paints the parents of the commit just popped. */
  method EnqueueParents(state: Paint, ghost q: Query, x: nat, ghost popped: set<nat>) returns (ok: bool)
    requires q.Valid() && q.index == state.index && x in popped && x < |q.index.parents|
    requires forall p :: p in popped ==> p < |q.index.generation| && q.index.generation[x] <= q.index.generation[p]
    requires state.Valid() && Painting(q, state.colors, SetOf(state.queue), popped, {x})
    modifies state`colors, state`queue, state`marked, state`interesting
    ensures ok ==> state.Valid() && Painting(q, state.colors, SetOf(state.queue), popped, {})
    ensures ok ==> Spreads(old(state.colors), state.colors)
    ensures !ok ==> state.maxCommits < |q.Closure(Tips) + q.Closure(Hidden)|
  {
    hide Consistent, Reach, Painting, Colored, Paintable, Query.Valid;
    var color := state.colors[x];
    var parents := state.index.Edges(x);
    for i := 0 to |parents|
      invariant state.Valid() && Painting(q, state.colors, SetOf(state.queue), popped, {x})
      invariant state.colors[x] == color && Spreads(old(state.colors), state.colors)
      invariant forall j, side :: 0 <= j < i && color.Has(side) ==>
        parents[j] < |state.colors| && state.colors[parents[j]].Has(side)
    {
      ParentIsPaintable(q, state.colors, SetOf(state.queue), popped, x, parents[i]);
      PaintStep(q, state.colors, state.queue, popped, {x}, parents[i], color);
      ghost var colors, queue := state.colors, state.queue;
      ok := state.Enqueue(parents[i], color);
      if !ok {
        TooMany(q, colors, SetOf(queue), popped, {x}, parents[i], color);
        return;
      }
    }
    CloseStep(q, state.colors, SetOf(state.queue), popped, x);
    ok := true;
  }

  lemma CloseStep(q: Query, colors: seq<Color>, queue: set<nat>, popped: set<nat>, x: nat)
    requires Painting(q, colors, queue, popped, {x}) && x in popped && PassedOn(q, colors, x)
    ensures Painting(q, colors, queue, popped, {})
  {
    hide Reach, PassedOn;
  }

  lemma TopIsHighest(q: Query, colors: seq<Color>, queue: seq<nat>, popped: set<nat>)
    requires Painting(q, colors, SetOf(queue), popped, {}) && queue != []
    ensures forall i :: 0 <= i < |queue| ==> queue[i] < |q.index.generation|
    ensures Highest(q, SetOf(queue), queue[Top(q.index, queue)])
  {
    hide Reach, PassedOn;
    forall i | 0 <= i < |queue|
      ensures queue[i] < |q.index.generation|
    {
      assert queue[i] in SetOf(queue);
    }
  }

  /** With nothing interesting queued, everything wanted has been popped. */
  lemma NothingMissed(q: Query, sides: Sides, colors: seq<Color>, queue: set<nat>, popped: set<nat>)
    requires q.Valid() && Painting(q, colors, queue, popped, {}) && RootsPainted(q, colors)
    requires Interesting(sides, colors, queue) == {}
    ensures q.Closure(Tips) - q.Closure(Hidden) <= popped
    ensures sides.Both? ==> q.Closure(Hidden) - q.Closure(Tips) <= popped
  {
    hide Reach;
    ClosureIsCovered(q, colors, queue, popped, Tips);
    ClosureIsCovered(q, colors, queue, popped, Hidden);
    forall c | c in queue
      ensures !Matters(sides, colors, c)
    {
      assert c !in Interesting(sides, colors, queue);
    }
    assert Frontier(colors, queue, Tips) <= q.Closure(Hidden);
    ReachWithin<nat>(q.index.Links(), Frontier(colors, queue, Tips), q.hidden);
    if sides.Both? {
      assert Frontier(colors, queue, Hidden) <= q.Closure(Tips);
      ReachWithin<nat>(q.index.Links(), Frontier(colors, queue, Hidden), q.tips);
    }
  }

  lemma StartState(q: Query, colors: seq<Color>)
    requires q.Valid() && colors == seq(|q.index.parents|, i => NONE)
    ensures Painting(q, colors, SetOf([]), {}, {})
  {
    hide Reach;
  }

  lemma SpreadsKeepsRoots(q: Query, before: seq<Color>, after: seq<Color>)
    requires RootsPainted(q, before) && Spreads(before, after)
    ensures RootsPainted(q, after)
  {
  }

  lemma PoppedAreAbove(q: Query, colors: seq<Color>, queue: set<nat>, popped: set<nat>, x: nat)
    requires Painting(q, colors, queue, popped, {}) && x in queue
    ensures x < |q.index.parents| == |colors| && x in q.index.Links().Keys && x !in popped
    ensures forall p :: p in popped + {x} ==>
      p < |q.index.generation| && x < |q.index.generation| && q.index.generation[x] <= q.index.generation[p]
  {
    hide Reach, PassedOn;
  }

  lemma DullQueue(sides: Sides, colors: seq<Color>, queue: seq<nat>, marked: nat, interesting: nat)
    requires Consistent(sides, colors, queue, marked, interesting) && (interesting == 0 || queue == [])
    ensures Interesting(sides, colors, SetOf(queue)) == {}
  {
  }

  /**
  Collects the commits that only the tips reach, or with both sides, also those that only the
  hidden tips reach. Each is listed once, and the walk stops early without missing any.
  */
  method PaintRange(index: Index, tips: seq<nat>, hidden: seq<nat>, sides: Sides, maxCommits: nat, maxParents: nat)
    returns (r: Outcome)
    requires index.Valid()
    requires forall i :: 0 <= i < |tips| ==> tips[i] < |index.parents|
    requires forall i :: 0 <= i < |hidden| ==> hidden[i] < |index.parents|
    ensures var q := Query(index, SetOf(tips), SetOf(hidden));
      && (r.Painted? ==> Distinct(r.included) && SetOf(r.included) == q.Closure(Tips) - q.Closure(Hidden))
      && (r.Painted? && sides.Both? ==>
            Distinct(r.excluded) && SetOf(r.excluded) == q.Closure(Hidden) - q.Closure(Tips))
      && (r.CommitLimit? ==> maxCommits < |q.Closure(Tips) + q.Closure(Hidden)|)
      && (r.EdgeLimit? ==> maxParents < AllEdges(q))
  {
    ghost var q := Query(index, SetOf(tips), SetOf(hidden));
    var state := new Paint(index, sides, maxCommits);
    assert q.Valid();
    StartState(q, state.colors);
    var ok := EnqueueRoots(state, q, tips, Tips);
    if !ok { return CommitLimit; }
    ok := EnqueueRoots(state, q, hidden, Hidden);
    if !ok { return CommitLimit; }
    assert RootsPainted(q, state.colors);
    r := Walk(state, q, maxParents);
  }

  ghost function EdgeCounts(index: Index): map<nat, nat>
  {
    map p: nat | p < |index.parents| :: |index.Edges(p)|
  }

  /** Every parent occurrence of what either side reaches. */
  ghost function AllEdges(q: Query): nat
  {
    Total<nat>(EdgeCounts(q.index), q.Closure(Tips) + q.Closure(Hidden))
  }

  /** Parent occurrences are charged once per popped commit, never beyond what there is. */
  lemma EdgesCharged(q: Query, colors: seq<Color>, queue: set<nat>, popped: set<nat>, x: nat)
    requires Painting(q, colors, queue, popped + {x}, {x}) && x !in popped
    ensures x < |q.index.parents|
    ensures Total<nat>(EdgeCounts(q.index), popped + {x}) == Total<nat>(EdgeCounts(q.index), popped) + |q.index.Edges(x)|
    ensures Total<nat>(EdgeCounts(q.index), popped + {x}) <= AllEdges(q)
  {
    hide Reach, PassedOn, Total;
    var all := q.Closure(Tips) + q.Closure(Hidden);
    assert x in popped + {x};
    forall p: nat | p in popped + {x} ensures p in all {
      assert colors[p] != NONE;
      assert colors[p].Has(Tips) || colors[p].Has(Hidden);
    }
    TotalAdd<nat>(EdgeCounts(q.index), popped, x);
    TotalGrows<nat>(EdgeCounts(q.index), popped + {x}, all);
  }

  lemma NothingCharged(index: Index)
    ensures Total<nat>(EdgeCounts(index), {}) == 0
  {
  }

  method Walk(state: Paint, ghost q: Query, maxParents: nat) returns (r: Outcome)
    requires q.Valid() && q.index == state.index && state.Valid()
    requires Painting(q, state.colors, SetOf(state.queue), {}, {}) && RootsPainted(q, state.colors)
    modifies state`colors, state`queue, state`marked, state`interesting
    ensures r.Painted? ==> Distinct(r.included) && SetOf(r.included) == q.Closure(Tips) - q.Closure(Hidden)
    ensures r.Painted? && state.sides.Both? ==>
      Distinct(r.excluded) && SetOf(r.excluded) == q.Closure(Hidden) - q.Closure(Tips)
    ensures r.CommitLimit? ==> state.maxCommits < |q.Closure(Tips) + q.Closure(Hidden)|
    ensures r.EdgeLimit? ==> maxParents < AllEdges(q)
  {
    hide Consistent, Reach, Painting, RootsPainted, Query.Valid, Top, Without, Highest, AllEdges, EdgeCounts, Total;
    var included: seq<nat>, excluded: seq<nat>, remaining := [], [], maxParents;
    NothingCharged(q.index);
    ghost var popped: set<nat> := {};
    while state.interesting != 0
      invariant state.Valid() && Painting(q, state.colors, SetOf(state.queue), popped, {})
      invariant RootsPainted(q, state.colors)
      invariant Collected(q, state.sides, popped, included, excluded)
      invariant remaining == maxParents - Total<nat>(EdgeCounts(q.index), popped)
      decreases q.index.Links().Keys - popped
    {
      if state.queue == [] { break; }
      TopIsHighest(q, state.colors, state.queue, popped);
      var top := Top(state.index, state.queue);
      var position := state.queue[top];
      PoppedAreAbove(q, state.colors, SetOf(state.queue), popped, position);
      PopStep(q, state.colors, SetOf(state.queue), popped, position);
      ConsistentAfterPop(state.sides, state.colors, state.queue, state.marked, state.interesting, top);
      DistinctQueue(state.sides, state.colors, state.queue, state.marked, state.interesting);
      WithoutTop(state.queue, top);
      state.queue := Without(state.queue, top);
      var color := state.colors[position];
      CollectStep(q, state.sides, state.colors, SetOf(state.queue), popped, position, included, excluded);
      if state.sides.Counts(color) {
        state.interesting := state.interesting - 1;
        if color == INCLUDE {
          included := included + [position];
        } else {
          excluded := excluded + [position];
        }
      }
      EdgesCharged(q, state.colors, SetOf(state.queue), popped, position);
      popped := popped + {position};
      var parents := state.index.Edges(position);
      if remaining < |parents| { return EdgeLimit; }
      remaining := remaining - |parents|;
      ghost var colors := state.colors;
      var ok := EnqueueParents(state, q, position, popped);
      if !ok { return CommitLimit; }
      SpreadsKeepsRoots(q, colors, state.colors);
    }
    DullQueue(state.sides, state.colors, state.queue, state.marked, state.interesting);
    NothingMissed(q, state.sides, state.colors, SetOf(state.queue), popped);
    r := Painted(included, excluded);
  }

  lemma DistinctQueue(sides: Sides, colors: seq<Color>, queue: seq<nat>, marked: nat, interesting: nat)
    requires Consistent(sides, colors, queue, marked, interesting)
    ensures Distinct(queue)
  {
  }

  datatype Counts = AheadBehind(ahead: nat, behind: nat) | Failed(outcome: Outcome)

  /** How many commits each of two tips has that the other lacks. */
  method AheadBehindCounts(index: Index, left: nat, right: nat, maxCommits: nat, maxParents: nat) returns (r: Counts)
    requires index.Valid() && left < |index.parents| && right < |index.parents|
    ensures var ours, theirs := Reach<nat>(index.Links(), {left}), Reach<nat>(index.Links(), {right});
      && (r.AheadBehind? ==> r.ahead == |ours - theirs| && r.behind == |theirs - ours|)
      && (r == Failed(CommitLimit) ==> maxCommits < |ours + theirs|)
      && (r == Failed(EdgeLimit) ==> maxParents < AllEdges(Query(index, {left}, {right})))
  {
    hide Reach;
    var outcome := PaintRange(index, [left], [right], Both, maxCommits, maxParents);
    assert SetOf([left]) == {left} && SetOf([right]) == {right};
    if !outcome.Painted? {
      return Failed(outcome);
    }
    DistinctCount(outcome.included);
    DistinctCount(outcome.excluded);
    r := AheadBehind(|outcome.included|, |outcome.excluded|);
  }
}
