/**
The edit graph of two line sequences: how few deletions and insertions turn a prefix of one
into a prefix of the other, and what a set of deleted and inserted lines has to satisfy.
*/
module EditGraph {

  import opened Bytes

  type Line = Bytes

  /** The diagonal edge leaving (x, y): both inputs have that line and the lines are equal. */
  ghost predicate Matches(a: seq<Line>, b: seq<Line>, x: nat, y: nat)
  {
    x < |a| && y < |b| && a[x] == b[y]
  }

  /**
  The fewest edits on a path from (0, 0) to (x, y). The graph has no diagonals outside the two
  inputs, so the definition also covers the points a frontier can reach beyond their ends.
  */
  ghost function Distance(a: seq<Line>, b: seq<Line>, x: nat, y: nat): nat
    decreases x + y
  {
    if x == 0 then y
    else if y == 0 then x
    else if Matches(a, b, x - 1, y - 1) then Distance(a, b, x - 1, y - 1)
    else
      var left, up := Distance(a, b, x - 1, y), Distance(a, b, x, y - 1);
      1 + if left <= up then left else up
  }

  /** One step right or down changes the distance by at most one. */
  lemma {:induction false} DistanceStep(a: seq<Line>, b: seq<Line>, x: nat, y: nat)
    ensures Distance(a, b, x, y) <= Distance(a, b, x + 1, y) + 1
    ensures Distance(a, b, x, y) <= Distance(a, b, x, y + 1) + 1
    ensures Distance(a, b, x + 1, y) <= Distance(a, b, x, y) + 1
    ensures Distance(a, b, x, y + 1) <= Distance(a, b, x, y) + 1
    decreases x + y
  {
    if y > 0 { DistanceStep(a, b, x, y - 1); }
    if x > 0 { DistanceStep(a, b, x - 1, y); }
  }

  /** Distances never shrink along a diagonal, and a match keeps them. */
  lemma DistanceDiagonal(a: seq<Line>, b: seq<Line>, x: nat, y: nat)
    ensures Distance(a, b, x, y) <= Distance(a, b, x + 1, y + 1)
    ensures Matches(a, b, x, y) ==> Distance(a, b, x, y) == Distance(a, b, x + 1, y + 1)
  {
    DistanceStep(a, b, x, y);
  }

  /** The same, over any number of diagonal steps. */
  lemma {:induction false} DistanceAlong(a: seq<Line>, b: seq<Line>, x: nat, y: nat, n: nat)
    ensures Distance(a, b, x, y) <= Distance(a, b, x + n, y + n)
    decreases n
  {
    if n > 0 {
      DistanceAlong(a, b, x, y, n - 1);
      DistanceDiagonal(a, b, x + n - 1, y + n - 1);
    }
  }

  lemma {:induction false} DistanceBounds(a: seq<Line>, b: seq<Line>, x: nat, y: nat)
    ensures x - y <= Distance(a, b, x, y) <= x + y
    ensures y - x <= Distance(a, b, x, y)
    decreases x + y
  {
    if x > 0 && y > 0 {
      DistanceBounds(a, b, x - 1, y - 1);
      DistanceBounds(a, b, x - 1, y);
      DistanceBounds(a, b, x, y - 1);
    }
  }

  /** A distance has the parity of its diagonal, so each frontier row covers every other one. */
  lemma {:induction false} DistanceParity(a: seq<Line>, b: seq<Line>, x: nat, y: nat) returns (half: int)
    ensures Distance(a, b, x, y) + x - y == 2 * half
    decreases x + y
  {
    if x == 0 {
      half := 0;
    } else if y == 0 {
      half := x;
    } else if Matches(a, b, x - 1, y - 1) {
      half := DistanceParity(a, b, x - 1, y - 1);
    } else {
      half := DistanceParity(a, b, x - 1, y);
      var up := DistanceParity(a, b, x, y - 1);
      half := if Distance(a, b, x - 1, y) <= Distance(a, b, x, y - 1) then half + 1 else up;
    }
  }

  // Marks: which lines of one side an edit list deletes or inserts.

  ghost function Kept(lines: seq<Line>, marks: seq<bool>): seq<Line>
    requires |lines| == |marks|
  {
    if lines == [] then []
    else
      var last := |lines| - 1;
      Kept(lines[..last], marks[..last]) + if marks[last] then [] else [lines[last]]
  }

  ghost function Marked(marks: seq<bool>): nat
  {
    if marks == [] then 0
    else Marked(marks[..|marks| - 1]) + if marks[|marks| - 1] then 1 else 0
  }

  /**
  The distance is a true minimum: whatever lines are deleted from the first `x` of `a` and
  inserted among the first `y` of `b`, if what remains is the same then at least that many
  lines were marked.
  */
  lemma {:induction false} DistanceIsLeast(a: seq<Line>, b: seq<Line>, removed: seq<bool>, added: seq<bool>)
    requires |removed| <= |a| && |added| <= |b|
    requires Kept(a[..|removed|], removed) == Kept(b[..|added|], added)
    ensures Distance(a, b, |removed|, |added|) <= Marked(removed) + Marked(added)
    decreases |removed| + |added|
  {
    var x, y := |removed|, |added|;
    if x > 0 { assert a[..x][..x - 1] == a[..x - 1]; }
    if y > 0 { assert b[..y][..y - 1] == b[..y - 1]; }
    if x > 0 && removed[x - 1] {
      DistanceIsLeast(a, b, removed[..x - 1], added);
      DistanceStep(a, b, x - 1, y);
    } else if y > 0 && added[y - 1] {
      DistanceIsLeast(a, b, removed, added[..y - 1]);
      DistanceStep(a, b, x, y - 1);
    } else if x > 0 && y > 0 {
      var left, right := Kept(a[..x - 1], removed[..x - 1]), Kept(b[..y - 1], added[..y - 1]);
      assert left + [a[x - 1]] == right + [b[y - 1]];
      assert (left + [a[x - 1]])[..|left|] == left && (right + [b[y - 1]])[..|right|] == right;
      assert (left + [a[x - 1]])[|left|] == a[x - 1] && (right + [b[y - 1]])[|right|] == b[y - 1];
      DistanceIsLeast(a, b, removed[..x - 1], added[..y - 1]);
    }
  }

  // Edit lists: spans of old lines replaced by spans of new lines.

  datatype Edit = Edit(oldStart: nat, oldEnd: nat, newStart: nat, newEnd: nat)

  /**
  The edits lead from (x0, y0) to (x1, y1): they are in order, in range, and the lines between
  one edit and the next are the same on both sides.
  */
  ghost predicate Chain<T>(a: seq<T>, b: seq<T>, es: seq<Edit>, x0: nat, y0: nat, x1: nat, y1: nat)
    requires x1 <= |a| && y1 <= |b|
  {
    if es == [] then x0 <= x1 && y0 <= y1 && a[x0..x1] == b[y0..y1]
    else
      var e := es[0];
      && x0 <= e.oldStart <= e.oldEnd <= x1 && y0 <= e.newStart <= e.newEnd <= y1
      && a[x0..e.oldStart] == b[y0..e.newStart]
      && Chain(a, b, es[1..], e.oldEnd, e.newEnd, x1, y1)
  }

  ghost function Cost(es: seq<Edit>): int
  {
    if es == [] then 0
    else es[0].oldEnd - es[0].oldStart + es[0].newEnd - es[0].newStart + Cost(es[1..])
  }

  /** Neighbouring edits are separated by a kept line on both sides. */
  ghost predicate Coalesced(es: seq<Edit>)
  {
    forall i :: 0 <= i < |es| - 1 ==> es[i].oldEnd < es[i + 1].oldStart && es[i].newEnd < es[i + 1].newStart
  }

  /** A chain stays one when equal lines are put in front of it. */
  lemma ChainExtend<T>(a: seq<T>, b: seq<T>, es: seq<Edit>, x: nat, y: nat, n: nat, x1: nat, y1: nat)
    requires x1 <= |a| && y1 <= |b| && n <= x && n <= y
    requires Chain(a, b, es, x, y, x1, y1)
    requires a[x - n..x] == b[y - n..y]
    ensures Chain(a, b, es, x - n, y - n, x1, y1)
  {
    var x', y' := if es == [] then x1 else es[0].oldStart, if es == [] then y1 else es[0].newStart;
    assert a[x - n..x'] == a[x - n..x] + a[x..x'];
    assert b[y - n..y'] == b[y - n..y] + b[y..y'];
  }

  /** The result of replacing each old span from line `x` on by its new span. */
  ghost function Applied<T>(a: seq<T>, b: seq<T>, es: seq<Edit>, x: nat, y: nat, x1: nat, y1: nat): seq<T>
    requires x1 <= |a| && y1 <= |b| && Chain(a, b, es, x, y, x1, y1)
  {
    if es == [] then a[x..x1]
    else a[x..es[0].oldStart] + b[es[0].newStart..es[0].newEnd]
         + Applied(a, b, es[1..], es[0].oldEnd, es[0].newEnd, x1, y1)
  }

  lemma {:induction false} AppliedIsNew<T>(a: seq<T>, b: seq<T>, es: seq<Edit>, x: nat, y: nat, x1: nat, y1: nat)
    requires x1 <= |a| && y1 <= |b| && Chain(a, b, es, x, y, x1, y1)
    ensures y <= y1 && Applied(a, b, es, x, y, x1, y1) == b[y..y1]
    decreases |es|
  {
    if es != [] {
      var e := es[0];
      AppliedIsNew(a, b, es[1..], e.oldEnd, e.newEnd, x1, y1);
      assert b[y..y1] == b[y..e.newStart] + b[e.newStart..e.newEnd] + b[e.newEnd..y1];
    }
  }
}
