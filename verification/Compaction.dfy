/**
Boundary rotation of changed groups: a group of deleted or inserted lines slides over equal
neighbouring lines, in place on one side's marks.
*/
module Compaction {

  import opened Bytes
  import opened EditGraph
  import opened Indentation
  import opened Options
  import opened Sets

  // Marks split at any line.

  lemma {:induction false} KeptConcat(l1: seq<Line>, m1: seq<bool>, l2: seq<Line>, m2: seq<bool>)
    requires |l1| == |m1| && |l2| == |m2|
    ensures Kept(l1 + l2, m1 + m2) == Kept(l1, m1) + Kept(l2, m2)
    decreases |l2|
  {
    if l2 == [] {
      assert l1 + l2 == l1 && m1 + m2 == m1;
    } else {
      var n := |l2| - 1;
      KeptConcat(l1, m1, l2[..n], m2[..n]);
      assert (l1 + l2)[..|l1 + l2| - 1] == l1 + l2[..n];
      assert (m1 + m2)[..|m1 + m2| - 1] == m1 + m2[..n];
    }
  }

  lemma {:induction false} MarkedConcat(m1: seq<bool>, m2: seq<bool>)
    ensures Marked(m1 + m2) == Marked(m1) + Marked(m2)
    decreases |m2|
  {
    if m2 == [] {
      assert m1 + m2 == m1;
    } else {
      MarkedConcat(m1, m2[..|m2| - 1]);
      assert (m1 + m2)[..|m1 + m2| - 1] == m1 + m2[..|m2| - 1];
    }
  }

  /** Every line from `s` up to `e` is marked. */
  ghost predicate Run(c: seq<bool>, s: nat, e: nat)
  {
    s <= e <= |c| && forall i :: s <= i < e ==> c[i]
  }

  lemma {:induction false} KeptInRun(lines: seq<Line>, c: seq<bool>)
    requires |lines| == |c| && Run(c, 0, |c|)
    ensures Kept(lines, c) == [] && Marked(c) == |c|
    decreases |c|
  {
    if c != [] {
      KeptInRun(lines[..|c| - 1], c[..|c| - 1]);
    }
  }

  /** The number of unmarked lines. */
  ghost function Rank(marks: seq<bool>): int
  {
    |marks| - Marked(marks)
  }

  // A rotation exchanges one edge of a group with an equal neighbouring line.

  function RotatedUp(c: seq<bool>, start: nat, end: nat): (c': seq<bool>)
    requires 0 < start < end <= |c|
  {
    c[end - 1 := false][start - 1 := true]
  }

  lemma WindowUp(lines: seq<Line>, c: seq<bool>)
    requires |lines| == |c| > 1 && !c[0] && Run(c, 1, |c|) && lines[0] == lines[|c| - 1]
    ensures var c' := RotatedUp(c, 1, |c|); Kept(lines, c') == Kept(lines, c) && Marked(c') == Marked(c)
  {
    hide Kept, Marked;
    var n := |c| - 1;
    var c' := RotatedUp(c, 1, |c|);
    var first, last := [lines[0]], [lines[n]];
    KeptInRun(lines[1..], c[1..]);
    KeptConcat(first, [false], lines[1..], c[1..]);
    MarkedConcat([false], c[1..]);
    assert lines == first + lines[1..] && c == [false] + c[1..];
    KeptInRun(lines[..n], c'[..n]);
    KeptConcat(lines[..n], c'[..n], last, [false]);
    MarkedConcat(c'[..n], [false]);
    assert lines == lines[..n] + last && c' == c'[..n] + [false];
    KeptOne(lines[0]);
  }

  lemma KeptOne(line: Line)
    ensures Kept([line], [false]) == [line] && Marked([false]) == 0
  {
  }

  /** A rotation keeps the unmarked lines, as contents, and the number of marks. */
  lemma RotationKeeps(lines: seq<Line>, c: seq<bool>, start: nat, end: nat)
    requires |lines| == |c| && 0 < start < end <= |c|
    requires !c[start - 1] && Run(c, start, end) && lines[start - 1] == lines[end - 1]
    ensures Kept(lines, RotatedUp(c, start, end)) == Kept(lines, c)
    ensures Marked(RotatedUp(c, start, end)) == Marked(c)
  {
    hide Kept, Marked;
    var c', s := RotatedUp(c, start, end), start - 1;
    WindowUp(lines[s..end], c[s..end]);
    assert c'[s..end] == RotatedUp(c[s..end], 1, end - s);
    assert c'[..s] == c[..s] && c'[end..] == c[end..];
    KeptSplit(lines, c, s, end);
    KeptSplit(lines, c', s, end);
  }

  lemma KeptSplit(lines: seq<Line>, c: seq<bool>, s: nat, e: nat)
    requires |lines| == |c| && s <= e <= |c|
    ensures Kept(lines, c) == Kept(lines[..s], c[..s]) + (Kept(lines[s..e], c[s..e]) + Kept(lines[e..], c[e..]))
    ensures Marked(c) == Marked(c[..s]) + Marked(c[s..e]) + Marked(c[e..])
  {
    hide Kept, Marked;
    assert lines[s..] == lines[s..e] + lines[e..] && c[s..] == c[s..e] + c[e..];
    assert lines == lines[..s] + lines[s..] && c == c[..s] + c[s..];
    KeptConcat(lines[s..e], c[s..e], lines[e..], c[e..]);
    KeptConcat(lines[..s], c[..s], lines[s..], c[s..]);
    MarkedConcat(c[s..e], c[e..]);
    MarkedConcat(c[..s], c[s..]);
  }

  /** Sliding down is the rotation undone. */
  lemma RotationDownKeeps(lines: seq<Line>, c: seq<bool>, start: nat, end: nat)
    requires |lines| == |c| && start < end < |c|
    requires !c[end] && Run(c, start, end) && lines[start] == lines[end]
    ensures var c' := c[start := false][end := true];
      Kept(lines, c') == Kept(lines, c) && Marked(c') == Marked(c)
  {
    hide Kept, Marked;
    var c' := c[start := false][end := true];
    RotationKeeps(lines, c', start + 1, end + 1);
    assert RotatedUp(c', start + 1, end + 1) == c;
  }

  // Groups: maximal runs of marked lines.

  ghost predicate Group(c: seq<bool>, s: nat, e: nat)
  {
    s < e <= |c| && Run(c, s, e) && (s == 0 || !c[s - 1]) && (e == |c| || !c[e])
  }

  /** Two marks of the same lines leave the same lines and change equally many. */
  ghost predicate Equivalent(lines: seq<Line>, c: seq<bool>, c': seq<bool>)
  {
    |lines| == |c| == |c'| && Kept(lines, c) == Kept(lines, c') && Marked(c) == Marked(c')
  }

  lemma UpStep(lines: seq<Line>, c: seq<bool>, s: nat, e: nat)
    requires |lines| == |c| && 0 < s < e && Run(c, s, e) && !c[s - 1]
    requires lines[s - 1] == lines[e - 1]
    ensures var c' := RotatedUp(c, s, e);
      && Equivalent(lines, c, c') && Run(c', s - 1, e - 1) && !c'[e - 1]
      && Rank(c'[..s - 1]) == Rank(c[..s]) - 1
      && Marked(c'[e - 1..]) == Marked(c[e..])
      && forall i :: 0 <= i < |c| && i != s - 1 && i != e - 1 ==> c'[i] == c[i]
  {
    var c' := RotatedUp(c, s, e);
    RotationKeeps(lines, c, s, e);
    assert c[..s][..s - 1] == c'[..s - 1];
    assert c'[e - 1..] == [false] + c[e..];
    MarkedConcat([false], c[e..]);
  }

  lemma DownStep(lines: seq<Line>, c: seq<bool>, s: nat, e: nat)
    requires |lines| == |c| && s < e < |c| && Run(c, s, e) && !c[e]
    requires lines[s] == lines[e]
    ensures var c' := c[s := false][e := true];
      && Equivalent(lines, c, c') && Run(c', s + 1, e + 1) && !c'[s]
      && Rank(c'[..s + 1]) == Rank(c[..s]) + 1
      && Marked(c'[e + 1..]) == Marked(c[e..])
  {
    var c' := c[s := false][e := true];
    RotationDownKeeps(lines, c, s, e);
    assert c'[..s + 1][..s] == c[..s];
    assert c[e..] == [false] + c'[e + 1..];
    MarkedConcat([false], c'[e + 1..]);
  }

  lemma RankInRun(c: seq<bool>, s: nat, e: nat)
    requires Run(c, s, e)
    ensures Rank(c[..s]) == Rank(c[..e])
    ensures Marked(c[s..]) == e - s + Marked(c[e..])
  {
    assert c[..e] == c[..s] + c[s..e] && c[s..] == c[s..e] + c[e..];
    MarkedConcat(c[..s], c[s..e]);
    MarkedConcat(c[s..e], c[e..]);
    var lines: seq<Line> := seq(e - s, i => []);
    KeptInRun(lines, c[s..e]);
  }

  method GroupEnd(changed: array<bool>, from: nat) returns (end: nat)
    requires from <= changed.Length
    ensures Run(changed[..], from, end) && (end == changed.Length || !changed[end])
  {
    end := from;
    while end < changed.Length && changed[end]
      invariant Run(changed[..], from, end)
    {
      end := end + 1;
    }
  }

  /** The positions a group of unchanged length can still be rotated back to. */
  ghost predicate Retreat(lines: seq<Line>, c: seq<bool>, earliest: nat, start: nat, length: nat)
  {
    earliest <= start && start + length <= |c| == |lines| &&
    forall j :: earliest <= j < start ==> !c[j] && lines[j] == lines[j + length]
  }

  // Where groups come to rest.

  /** A group of `length` lines can be rotated to `earliest`, to `last` and to whatever is between, and no further. */
  ghost predicate Slides(lines: seq<Line>, earliest: nat, last: nat, length: nat)
  {
    && earliest <= last && last + length <= |lines|
    && (forall k: nat :: earliest <= k < last ==> SameAfter(lines, k, length))
    && (earliest > 0 ==> !SameAfter(lines, earliest - 1, length))
    && !SameAfter(lines, last, length)
  }

  /** Rotating a group of `length` lines from `k` to `k + 1` moves it over an equal line. */
  ghost predicate SameAfter(lines: seq<Line>, k: nat, length: nat)
  {
    k + length < |lines| && lines[k] == lines[k + length]
  }

  /**
  Of the positions a group can reach, `s` is the last one where the other side changes too. If
  there is none, it is the one that indentation chooses, or else the last.
  */
  ghost predicate RestsAt(lines: seq<Line>, boundaries: seq<bool>, earliest: nat, last: nat, length: nat,
                          s: nat, rank: int, indentHeuristic: bool)
    requires Slides(lines, earliest, last, length)
  {
    && earliest <= s <= last
    && (|| (&& Shared(boundaries, s, rank, s)
            && forall j: nat :: s < j <= last ==> !Shared(boundaries, s, rank, j))
        || (&& (forall j: nat :: earliest <= j <= last ==> !Shared(boundaries, s, rank, j))
            && s == if indentHeuristic then Chosen(lines, earliest, last, length) else last))
  }

  /** A group rests at the position the rule picks from the range of its rotations. */
  ghost predicate Rests(lines: seq<Line>, boundaries: seq<bool>, length: nat, s: nat, rank: int, indentHeuristic: bool)
  {
    exists earliest: nat, last: nat ::
      Slides(lines, earliest, last, length) && RestsAt(lines, boundaries, earliest, last, length, s, rank, indentHeuristic)
  }

  ghost predicate Settled(lines: seq<Line>, c: seq<bool>, boundaries: seq<bool>, s: nat, e: nat, indentHeuristic: bool)
    requires s < e <= |c| == |lines|
  {
    && Rests(lines, boundaries, e - s, s, Rank(c[..s]), indentHeuristic)
    && Apart(lines, c, s, e - s)
  }

  /** Nowhere that a group can reach above its position does it touch another one. */
  ghost predicate Apart(lines: seq<Line>, c: seq<bool>, s: nat, length: nat)
    requires s <= |c|
  {
    forall j: nat :: 0 < j <= s && Reaches(lines, s, length, j) ==> !c[j - 1]
  }

  /** Every line between two positions is equal to the one a group's length below it. */
  ghost predicate Reaches(lines: seq<Line>, s: nat, length: nat, j: nat)
  {
    forall k: nat :: s <= k < j || j <= k < s ==> SameAfter(lines, k, length)
  }

  /** The range of rotations is exactly the set of positions the group can reach. */
  lemma SlidesReach(lines: seq<Line>, earliest: nat, last: nat, length: nat, s: nat, j: nat)
    requires Slides(lines, earliest, last, length) && earliest <= s <= last
    ensures Reaches(lines, s, length, j) <==> earliest <= j <= last
  {
    if j < earliest {
      assert !SameAfter(lines, earliest - 1, length);
    } else if last < j {
      assert !SameAfter(lines, last, length);
    }
  }

  lemma RangeIsUnique(lines: seq<Line>, earliest: nat, last: nat, earliest': nat, last': nat, length: nat, s: nat)
    requires Slides(lines, earliest, last, length) && earliest <= s <= last
    requires Slides(lines, earliest', last', length) && earliest' <= s <= last'
    ensures earliest == earliest' && last == last'
  {
    hide Reaches;
    SlidesReach(lines, earliest, last, length, s, earliest');
    SlidesReach(lines, earliest, last, length, s, last');
    SlidesReach(lines, earliest', last', length, s, earliest);
    SlidesReach(lines, earliest', last', length, s, last);
  }

  /**
  A resting group is where the other side changes too exactly when some position it can reach,
  up or down, is; and no later one it can reach is.
  */
  lemma RestIsAligned(lines: seq<Line>, boundaries: seq<bool>, length: nat, s: nat, rank: int, indentHeuristic: bool)
    requires Rests(lines, boundaries, length, s, rank, indentHeuristic)
    ensures Shared(boundaries, s, rank, s) <==>
            exists j: nat :: Reaches(lines, s, length, j) && Shared(boundaries, s, rank, j)
    ensures forall j: nat :: s < j && Reaches(lines, s, length, j) ==> !Shared(boundaries, s, rank, j)
  {
    hide Slides, Reaches, Chosen, Shared;
    var earliest: nat, last: nat :| Slides(lines, earliest, last, length)
      && RestsAt(lines, boundaries, earliest, last, length, s, rank, indentHeuristic);
    forall j: nat ensures Reaches(lines, s, length, j) <==> earliest <= j <= last {
      SlidesReach(lines, earliest, last, length, s, j);
    }
    assert Reaches(lines, s, length, s);
  }

  /** Where nothing it can reach is aligned, a resting group is where indentation puts it, or at the bottom. */
  lemma RestIsChosen(lines: seq<Line>, boundaries: seq<bool>, earliest: nat, last: nat, length: nat, s: nat, rank: int,
                     indentHeuristic: bool)
    requires Rests(lines, boundaries, length, s, rank, indentHeuristic) && !Shared(boundaries, s, rank, s)
    requires Slides(lines, earliest, last, length) && earliest <= s <= last
    ensures s == if indentHeuristic then Chosen(lines, earliest, last, length) else last
  {
    hide Slides, Reaches, Chosen, Shared;
    var earliest', last' :| Slides(lines, earliest', last', length)
      && RestsAt(lines, boundaries, earliest', last', length, s, rank, indentHeuristic);
    RangeIsUnique(lines, earliest, last, earliest', last', length, s);
  }

  ghost predicate SettledBefore(lines: seq<Line>, c: seq<bool>, boundaries: seq<bool>, p: nat, indentHeuristic: bool)
    requires |c| == |lines|
  {
    forall s: nat, e: nat :: Group(c, s, e) && e < p ==> Settled(lines, c, boundaries, s, e, indentHeuristic)
  }

  /** Whether a group is settled depends only on the marks above it. */
  lemma SettledByPrefix(lines: seq<Line>, c: seq<bool>, c': seq<bool>, boundaries: seq<bool>, s: nat, e: nat,
                        indentHeuristic: bool)
    requires s < e <= |c| == |c'| == |lines| && c[..s] == c'[..s]
    requires Settled(lines, c, boundaries, s, e, indentHeuristic)
    ensures Settled(lines, c', boundaries, s, e, indentHeuristic)
  {
    hide Rank, Rests, Reaches;
    assert forall i :: 0 <= i < s ==> c[i] == c[..s][i] && c'[i] == c'[..s][i];
  }

  /** Cutting the prefix short, or adding unmarked lines to it, settles nothing anew. */
  lemma SettledKept(lines: seq<Line>, c: seq<bool>, c': seq<bool>, boundaries: seq<bool>, p: nat, p': nat,
                    indentHeuristic: bool)
    requires |c| == |c'| == |lines| && p <= |c| && p' <= p + 1 && p' <= |c|
    requires SettledBefore(lines, c, boundaries, p, indentHeuristic)
    requires forall i :: 0 <= i < p && i < p' ==> c'[i] == c[i]
    requires p' == p + 1 ==> (p == 0 || !c[p - 1])
    ensures SettledBefore(lines, c', boundaries, p', indentHeuristic)
  {
    hide Settled;
    forall s: nat, e: nat | Group(c', s, e) && e < p' ensures Settled(lines, c', boundaries, s, e, indentHeuristic) {
      assert c'[e - 1];
      assert e < p;
      assert Group(c, s, e);
      assert c[..s] == c'[..s];
      SettledByPrefix(lines, c, c', boundaries, s, e, indentHeuristic);
    }
  }

  /** Moves a group one line up, and on to the start of any group it meets. */
  method RotateUp(lines: seq<Line>, changed: array<bool>, start0: nat, end0: nat) returns (start: nat)
    requires |lines| == changed.Length && Group(changed[..], start0, end0) && 0 < start0
    requires lines[start0 - 1] == lines[end0 - 1]
    modifies changed
    ensures start < start0 && Group(changed[..], start, end0 - 1)
    ensures Rank(changed[..start]) == old(Rank(changed[..start0])) - 1
    ensures Marked(changed[end0 - 1..]) == old(Marked(changed[end0..]))
    ensures Equivalent(lines, old(changed[..]), changed[..])
    ensures forall i :: 0 <= i < start ==> changed[i] == old(changed[i])
  {
    hide Kept, Marked, Rank;
    ghost var c := changed[..];
    assert changed[..start0] == c[..start0] && changed[end0..] == c[end0..];
    UpStep(lines, c, start0, end0);
    changed[end0 - 1] := false;
    start := start0 - 1;
    changed[start] := true;
    assert changed[..] == RotatedUp(c, start0, end0);
    assert changed[..start] == changed[..][..start] && changed[end0 - 1..] == changed[..][end0 - 1..];
    ghost var top := start;
    while start > 0 && changed[start - 1]
      invariant start <= top && Run(changed[..], start, end0 - 1)
    {
      start := start - 1;
    }
    RankInRun(changed[..], start, top);
    assert changed[..start] == changed[..][..start] && changed[..top] == changed[..][..top];
  }

  /** Slides a group up over equal lines, taking in any group it meets. */
  method SlideUp(lines: seq<Line>, changed: array<bool>, start0: nat, end0: nat, rank0: int,
                 ghost boundaries: seq<bool>, ghost indentHeuristic: bool)
    returns (start: nat, end: nat, rank: int)
    requires |lines| == changed.Length && Group(changed[..], start0, end0) && rank0 == Rank(changed[..start0])
    requires SettledBefore(lines, changed[..], boundaries, start0, indentHeuristic)
    modifies changed
    ensures Group(changed[..], start, end) && rank == Rank(changed[..start])
    ensures Equivalent(lines, old(changed[..]), changed[..])
    ensures end0 - start0 <= end - start && Marked(changed[end..]) == old(Marked(changed[end0..]))
    ensures start == 0 || lines[start - 1] != lines[end - 1]
    ensures SettledBefore(lines, changed[..], boundaries, start, indentHeuristic)
  {
    hide Kept, Marked, Rank, SettledBefore, Run;
    start, end, rank := start0, end0, rank0;
    while start > 0 && lines[start - 1] == lines[end - 1]
      invariant Group(changed[..], start, end) && rank == Rank(changed[..start])
      invariant SettledBefore(lines, changed[..], boundaries, start, indentHeuristic)
      invariant Equivalent(lines, old(changed[..]), changed[..])
      invariant end0 - start0 <= end - start && Marked(changed[end..]) == old(Marked(changed[end0..]))
    {
      ghost var c, top := changed[..], start;
      start := RotateUp(lines, changed, start, end);
      end, rank := end - 1, rank - 1;
      SettledKept(lines, c, changed[..], boundaries, top, start, indentHeuristic);
    }
  }

  /** The other side changes where a group stands that left `from` at `rank` and is now at `j`. */
  ghost predicate Shared(boundaries: seq<bool>, from: nat, rank: int, j: nat)
  {
    0 <= rank + j - from < |boundaries| && boundaries[rank + j - from]
  }

  /** Moves a group one line down, and on to the end of any group it meets. */
  method RotateDown(lines: seq<Line>, changed: array<bool>, start: nat, end0: nat) returns (end: nat)
    requires |lines| == changed.Length && Group(changed[..], start, end0) && end0 < changed.Length
    requires lines[start] == lines[end0]
    modifies changed
    ensures changed[..] == old(changed[..])[start := false][end0 := true]
    ensures end0 < end && Group(changed[..], start + 1, end) && Marked(changed[end..]) <= old(Marked(changed[end0..]))
    ensures Rank(changed[..start + 1]) == old(Rank(changed[..start])) + 1
    ensures Equivalent(lines, old(changed[..]), changed[..])
  {
    hide Kept, Marked, Rank;
    ghost var c := changed[..];
    assert changed[..start] == c[..start] && changed[end0..] == c[end0..];
    DownStep(lines, c, start, end0);
    changed[start] := false;
    changed[end0] := true;
    assert changed[..] == c[start := false][end0 := true];
    assert changed[..start + 1] == changed[..][..start + 1];
    end := GroupEnd(changed, end0);
    RankInRun(changed[..], end0 + 1, end);
    assert changed[end0 + 1..] == changed[..][end0 + 1..] && changed[end..] == changed[..][end..];
  }

  lemma GroupStarts(c: seq<bool>, s: nat)
    requires s <= |c| && exists e: nat :: Group(c, s, e)
    ensures s == 0 || !c[s - 1]
  {
  }

  /** Of the positions from `from` up to `to`, the last one at a boundary of the other side. */
  ghost predicate Noted(boundaries: seq<bool>, from: nat, to: nat, rank: int, aligned: Option<nat>)
  {
    match aligned
    case None => forall j: nat :: from <= j < to ==> !Shared(boundaries, from, rank, j)
    case Some(a) =>
      from <= a < to && Shared(boundaries, from, rank, a)
      && forall j: nat :: a < j < to ==> !Shared(boundaries, from, rank, j)
  }

  lemma NothingNoted(boundaries: seq<bool>, from: nat, rank: int)
    ensures Noted(boundaries, from, from, rank, None)
  {
  }

  lemma NotedNext(boundaries: seq<bool>, from: nat, at: nat, rank: int, aligned: Option<nat>)
    requires Noted(boundaries, from, at, rank, aligned) && from <= at && 0 <= rank + at - from < |boundaries|
    ensures Noted(boundaries, from, at + 1, rank, if boundaries[rank + at - from] then Some(at) else aligned)
  {
  }

  lemma NoRetreat(lines: seq<Line>, c: seq<bool>, start: nat, end: nat)
    requires |lines| == |c| && start <= end <= |c|
    ensures Retreat(lines, c, start, start, end - start)
  {
  }

  lemma RetreatGrows(lines: seq<Line>, c: seq<bool>, earliest: nat, start: nat, length: nat)
    requires Retreat(lines, c, earliest, start, length) && start + length < |c| && 0 < length
    requires lines[start] == lines[start + length]
    ensures Retreat(lines, c[start := false][start + length := true], earliest, start + 1, length)
  {
  }

  /**
  Slides a group down over equal lines, noting the last boundary the other side shares. Unless
  it met another group, every position it passed remains available.
  */
  method SlideDown(lines: seq<Line>, changed: array<bool>, boundaries: seq<bool>, start0: nat, end0: nat, rank0: int,
                   ghost indentHeuristic: bool)
    returns (start: nat, end: nat, rank: int, aligned: Option<nat>)
    requires |lines| == changed.Length && Group(changed[..], start0, end0) && rank0 == Rank(changed[..start0])
    requires Rank(changed[..]) < |boundaries|
    requires SettledBefore(lines, changed[..], boundaries, start0, indentHeuristic)
    modifies changed
    ensures Group(changed[..], start, end) && rank == Rank(changed[..start])
    ensures Equivalent(lines, old(changed[..]), changed[..])
    ensures end0 - start0 <= end - start && Marked(changed[end..]) <= old(Marked(changed[end0..]))
    ensures start0 <= start && Noted(boundaries, start0, start + 1, rank0, aligned) && rank == rank0 + start - start0
    ensures end - start == end0 - start0 ==> Retreat(lines, changed[..], start0, start, end - start)
    ensures end == changed.Length || lines[start] != lines[end]
    ensures SettledBefore(lines, changed[..], boundaries, start, indentHeuristic)
    ensures forall j :: 0 <= j < start0 ==> changed[j] == old(changed[j])
  {
    hide Kept, Marked, Rank, SettledBefore, Noted, Retreat, Run;
    start, end, rank, aligned := start0, end0, rank0, None;
    NoRetreat(lines, changed[..], start, end);
    NothingNoted(boundaries, start0, rank0);
    ghost var length := end0 - start0;
    while true
      invariant Group(changed[..], start, end) && rank == Rank(changed[..start])
      invariant Equivalent(lines, old(changed[..]), changed[..])
      invariant length <= end - start && Marked(changed[end..]) <= old(Marked(changed[end0..]))
      invariant start0 <= start && Noted(boundaries, start0, start, rank0, aligned) && rank == rank0 + start - start0
      invariant end - start == length ==> Retreat(lines, changed[..], start0, start, length)
      invariant SettledBefore(lines, changed[..], boundaries, start, indentHeuristic)
      invariant forall j :: 0 <= j < start0 ==> changed[j] == old(changed[j])
      decreases changed.Length - end
    {
      RankWithin(old(changed[..]), changed[..], start);
      assert changed[..start] == changed[..][..start];
      NotedNext(boundaries, start0, start, rank0, aligned);
      if boundaries[rank] {
        aligned := Some(start);
      }
      if end == changed.Length || lines[start] != lines[end] {
        return;
      }
      ghost var c := changed[..];
      if end - start == length { RetreatGrows(lines, c, start0, start, length); }
      end := RotateDown(lines, changed, start, end);
      GroupStarts(c, start);
      SettledKept(lines, c, changed[..], boundaries, start, start + 1, indentHeuristic);
      start, rank := start + 1, rank + 1;
    }
  }

  lemma RankWithin(c: seq<bool>, c': seq<bool>, start: nat)
    requires |c| == |c'| && Marked(c) == Marked(c') && start <= |c|
    ensures 0 <= Rank(c'[..start]) <= Rank(c)
  {
    MarkedConcat(c'[..start], c'[start..]);
    assert c' == c'[..start] + c'[start..];
    MarkedAtMost(c'[..start]);
    MarkedAtMost(c'[start..]);
  }

  lemma {:induction false} MarkedAtMost(c: seq<bool>)
    ensures Marked(c) <= |c|
    decreases |c|
  {
    if c != [] { MarkedAtMost(c[..|c| - 1]); }
  }

  /** Rotates the group back up to a position it passed. */
  method Retreats(lines: seq<Line>, changed: array<bool>, earliest: nat, destination: nat, start0: nat, end0: nat,
                  rank0: int)
    returns (end: nat, rank: int)
    requires |lines| == changed.Length && start0 < end0 && Run(changed[..], start0, end0)
    requires end0 == changed.Length || !changed[end0]
    requires earliest <= destination <= start0 && Retreat(lines, changed[..], earliest, start0, end0 - start0)
    requires rank0 == Rank(changed[..start0])
    modifies changed
    ensures Run(changed[..], destination, end) && destination < end && rank == Rank(changed[..destination])
    ensures end == changed.Length || !changed[end]
    ensures Equivalent(lines, old(changed[..]), changed[..])
    ensures Marked(changed[end..]) == old(Marked(changed[end0..]))
    ensures end - destination == end0 - start0 && forall j :: 0 <= j < destination ==> changed[j] == old(changed[j])
  {
    hide Kept, Marked, Rank;
    var start := start0;
    end, rank := end0, rank0;
    while start > destination
      invariant destination <= start && end - start == end0 - start0 && rank == Rank(changed[..start])
      invariant Run(changed[..], start, end) && (end == changed.Length || !changed[end])
      invariant Retreat(lines, changed[..], earliest, start, end - start)
      invariant Equivalent(lines, old(changed[..]), changed[..])
      invariant Marked(changed[end..]) == old(Marked(changed[end0..]))
      invariant forall j :: 0 <= j < start ==> changed[j] == old(changed[j])
    {
      ghost var c := changed[..];
      UpStep(lines, c, start, end);
      changed[end - 1] := false;
      start := start - 1;
      changed[start] := true;
      end, rank := end - 1, rank - 1;
      assert changed[..] == RotatedUp(c, start + 1, end + 1);
      assert changed[..start] == changed[..][..start] && changed[end..] == changed[..][end..];
    }
  }

  /**
  Explores a group's positions; meeting another group starts over with the combined group, so
  the result is as long as rotation can make it.
  */
  method Explore(lines: seq<Line>, changed: array<bool>, boundaries: seq<bool>, start0: nat, end0: nat, rank0: int,
                 ghost indentHeuristic: bool)
    returns (start: nat, end: nat, rank: int, aligned: Option<nat>, earliest: nat)
    requires |lines| == changed.Length && Group(changed[..], start0, end0) && rank0 == Rank(changed[..start0])
    requires Rank(changed[..]) < |boundaries|
    requires SettledBefore(lines, changed[..], boundaries, start0, indentHeuristic)
    modifies changed
    ensures Group(changed[..], start, end) && rank == Rank(changed[..start])
    ensures Equivalent(lines, old(changed[..]), changed[..])
    ensures Marked(changed[end..]) <= old(Marked(changed[end0..]))
    ensures Retreat(lines, changed[..], earliest, start, end - start)
    ensures earliest <= start && Noted(boundaries, earliest, start + 1, rank - (start - earliest), aligned)
    ensures earliest == 0 || (!changed[earliest - 1] && lines[earliest - 1] != lines[earliest - 1 + (end - start)])
    ensures end == changed.Length || lines[start] != lines[end]
    ensures SettledBefore(lines, changed[..], boundaries, start, indentHeuristic)
  {
    hide Kept, Marked, Retreat, SettledBefore, Noted;
    start, end, rank := start0, end0, rank0;
    while true
      invariant Group(changed[..], start, end) && rank == Rank(changed[..start])
      invariant Equivalent(lines, old(changed[..]), changed[..])
      invariant Marked(changed[end..]) <= old(Marked(changed[end0..]))
      invariant SettledBefore(lines, changed[..], boundaries, start, indentHeuristic)
      decreases changed.Length - (end - start)
    {
      var length := end - start;
      start, end, rank := SlideUp(lines, changed, start, end, rank, boundaries, indentHeuristic);
      earliest := start;
      start, end, rank, aligned := SlideDown(lines, changed, boundaries, start, end, rank, indentHeuristic);
      if end - start == length {
        return;
      }
    }
  }

  /** One of the first `n` lines is marked and has `r` kept lines before it. */
  ghost predicate ChangesAt(marks: seq<bool>, n: nat, r: int)
  {
    exists i: nat :: i < n && ChangeAt(marks, i, r)
  }

  ghost predicate ChangeAt(marks: seq<bool>, i: nat, r: int)
  {
    i < |marks| && marks[i] && Rank(marks[..i]) == r
  }

  lemma ChangesGrow(marks: seq<bool>, i: nat, r: int)
    ensures ChangesAt(marks, i + 1, r) <==> ChangesAt(marks, i, r) || ChangeAt(marks, i, r)
  {
    hide ChangeAt;
    if ChangeAt(marks, i, r) {
      assert ChangesAt(marks, i + 1, r);
    }
    if ChangesAt(marks, i, r) {
      var j: nat :| j < i && ChangeAt(marks, j, r);
      assert j < i + 1;
    }
  }

  /** No change has more kept lines before it than there are. */
  lemma ChangesBelow(marks: seq<bool>, n: nat, r: int)
    requires n <= |marks| && ChangesAt(marks, n, r)
    ensures 0 <= r <= Rank(marks[..n])
  {
    hide Marked;
    var i: nat :| i < n && ChangeAt(marks, i, r);
    assert marks[..n] == marks[..i] + marks[i..n];
    MarkedConcat(marks[..i], marks[i..n]);
    MarkedAtMost(marks[i..n]);
    MarkedAtMost(marks[..i]);
  }

  /** Entry `r` says whether one of the first `n` lines is a change with `r` kept lines before it. */
  ghost predicate Boundaries(marks: seq<bool>, n: nat, boundaries: seq<bool>)
  {
    && n <= |marks|
    && |boundaries| == Rank(marks[..n]) + 1
    && forall r :: 0 <= r < |boundaries| ==> (boundaries[r] <==> ChangesAt(marks, n, r))
  }

  lemma BoundariesStart(marks: seq<bool>)
    ensures Boundaries(marks, 0, [false])
  {
  }

  lemma BoundariesGrow(marks: seq<bool>, n: nat, boundaries: seq<bool>)
    requires Boundaries(marks, n, boundaries) && n < |marks|
    ensures boundaries != []
    ensures Boundaries(marks, n + 1, if marks[n] then boundaries[|boundaries| - 1 := true] else boundaries + [false])
  {
    hide ChangesAt, Marked;
    MarkedAtMost(marks[..n]);
    RankOfNext(marks, n);
    var next := if marks[n] then boundaries[|boundaries| - 1 := true] else boundaries + [false];
    forall r | 0 <= r < |next| ensures next[r] <==> ChangesAt(marks, n + 1, r) {
      ChangesGrow(marks, n, r);
      if ChangesAt(marks, n, r) { ChangesBelow(marks, n, r); }
    }
  }

  lemma RankOfNext(marks: seq<bool>, n: nat)
    requires n < |marks|
    ensures Rank(marks[..n + 1]) == Rank(marks[..n]) + One(!marks[n])
  {
    assert marks[..n + 1][..n] == marks[..n];
  }

  /** For each number of kept lines, whether this side has a change just after them. */
  method ChangedBoundaries(marks: seq<bool>) returns (boundaries: seq<bool>)
    ensures Boundaries(marks, |marks|, boundaries)
  {
    hide *;
    boundaries := [false];
    BoundariesStart(marks);
    for i := 0 to |marks|
      invariant Boundaries(marks, i, boundaries)
    {
      BoundariesGrow(marks, i, boundaries);
      if marks[i] {
        boundaries := boundaries[|boundaries| - 1 := true];
      } else {
        boundaries := boundaries + [false];
      }
    }
  }

  ghost predicate SettledUpTo(lines: seq<Line>, c: seq<bool>, boundaries: seq<bool>, p: nat, indentHeuristic: bool)
    requires |c| == |lines|
  {
    forall s: nat, e: nat :: Group(c, s, e) && e <= p ==> Settled(lines, c, boundaries, s, e, indentHeuristic)
  }

  /** Every group of one side rests where the changes of the other side, or else indentation, put it. */
  ghost predicate Rested(lines: seq<Line>, c: seq<bool>, opposite: seq<bool>, indentHeuristic: bool)
    requires |c| == |lines|
  {
    exists boundaries ::
      Boundaries(opposite, |opposite|, boundaries) && SettledUpTo(lines, c, boundaries, |c|, indentHeuristic)
  }

  /** The other side changes next to a group that has `rank` kept lines before it at `s`, once it is at `j`. */
  ghost predicate Beside(opposite: seq<bool>, s: nat, rank: int, j: nat)
  {
    ChangesAt(opposite, |opposite|, rank + j - s)
  }

  lemma SharedIsBeside(opposite: seq<bool>, boundaries: seq<bool>, s: nat, rank: int, j: nat)
    requires Boundaries(opposite, |opposite|, boundaries)
    ensures Shared(boundaries, s, rank, j) <==> Beside(opposite, s, rank, j)
  {
    hide ChangesAt, Rank;
    if Beside(opposite, s, rank, j) { ChangesBelow(opposite, |opposite|, rank + j - s); }
  }

  /**
  Every group that compaction leaves is beside a change of the other side if and only if some
  position it can reach is, and then it is at the last such position. It cannot be rotated up to
  the group above it.
  */
  lemma RestedIsAligned(lines: seq<Line>, c: seq<bool>, opposite: seq<bool>, s: nat, e: nat, indentHeuristic: bool)
    requires |c| == |lines| && Rested(lines, c, opposite, indentHeuristic) && Group(c, s, e)
    ensures var rank, length := Rank(c[..s]), e - s;
      && (Beside(opposite, s, rank, s) <==>
          exists j: nat :: Reaches(lines, s, length, j) && Beside(opposite, s, rank, j))
      && (forall j: nat :: s < j && Reaches(lines, s, length, j) ==> !Beside(opposite, s, rank, j))
      && Apart(lines, c, s, length)
  {
    hide Boundaries, Rank, Rests, Reaches, Beside, Shared;
    var boundaries :| Boundaries(opposite, |opposite|, boundaries)
      && SettledUpTo(lines, c, boundaries, |c|, indentHeuristic);
    assert Settled(lines, c, boundaries, s, e, indentHeuristic);
    var rank, length := Rank(c[..s]), e - s;
    RestIsAligned(lines, boundaries, length, s, rank, indentHeuristic);
    forall j: nat ensures Shared(boundaries, s, rank, j) <==> Beside(opposite, s, rank, j) {
      SharedIsBeside(opposite, boundaries, s, rank, j);
    }
  }

  lemma SettledPastKept(lines: seq<Line>, c: seq<bool>, boundaries: seq<bool>, p: nat, indentHeuristic: bool)
    requires p < |c| == |lines| && !c[p] && SettledUpTo(lines, c, boundaries, p, indentHeuristic)
    ensures SettledUpTo(lines, c, boundaries, p + 1, indentHeuristic)
  {
    hide Settled;
    forall s: nat, e: nat | Group(c, s, e) && e <= p + 1 ensures e <= p { assert c[e - 1]; }
  }

  lemma RestedAtEnd(lines: seq<Line>, c: seq<bool>, opposite: seq<bool>, boundaries: seq<bool>, indentHeuristic: bool)
    requires |c| == |lines| && Boundaries(opposite, |opposite|, boundaries)
    requires SettledUpTo(lines, c, boundaries, |c|, indentHeuristic)
    ensures Rested(lines, c, opposite, indentHeuristic)
  {
  }

  lemma NothingSettled(lines: seq<Line>, c: seq<bool>, boundaries: seq<bool>, indentHeuristic: bool)
    requires |c| == |lines|
    ensures SettledUpTo(lines, c, boundaries, 0, indentHeuristic)
  {
  }

  /**
  Rotates every group of one side. The kept lines and the number of changed lines stay what they
  were, and every group comes to rest where the other side, or else indentation, puts it.
  */
  method Compact(lines: seq<Line>, changed: array<bool>, opposite: seq<bool>, indentHeuristic: bool)
    requires |lines| == changed.Length && Rank(opposite) == Rank(changed[..])
    modifies changed
    ensures Equivalent(lines, old(changed[..]), changed[..])
    ensures Rested(lines, changed[..], opposite, indentHeuristic)
  {
    hide Kept, Marked, Run, SettledBefore, SettledUpTo, ChangesAt, Rested;
    var boundaries := ChangedBoundaries(opposite);
    assert opposite[..|opposite|] == opposite;
    NothingSettled(lines, changed[..], boundaries, indentHeuristic);
    var cursor: nat, rank := 0, 0;
    MarkedAtMost(changed[..0]);
    while cursor < changed.Length
      invariant cursor <= changed.Length && rank == Rank(changed[..cursor])
      invariant Equivalent(lines, old(changed[..]), changed[..])
      invariant 0 < cursor < changed.Length && changed[cursor] ==> !changed[cursor - 1]
      invariant SettledUpTo(lines, changed[..], boundaries, cursor, indentHeuristic)
      decreases Marked(changed[cursor..]), changed.Length - cursor
    {
      if !changed[cursor] {
        RankAfterKept(changed[..], cursor);
        assert changed[..cursor] == changed[..][..cursor] && changed[..cursor + 1] == changed[..][..cursor + 1];
        assert changed[cursor..] == changed[..][cursor..] && changed[cursor + 1..] == changed[..][cursor + 1..];
        SettledPastKept(lines, changed[..], boundaries, cursor, indentHeuristic);
        cursor, rank := cursor + 1, rank + 1;
      } else {
        cursor, rank := PlaceGroup(lines, changed, boundaries, cursor, rank, indentHeuristic);
      }
    }
    RestedAtEnd(lines, changed[..], opposite, boundaries, indentHeuristic);
  }

  lemma RankAfterKept(c: seq<bool>, i: nat)
    requires i < |c| && !c[i]
    ensures Rank(c[..i + 1]) == Rank(c[..i]) + 1 && Marked(c[i + 1..]) == Marked(c[i..])
  {
    assert c[..i + 1][..i] == c[..i];
    assert c[i..] == [false] + c[i + 1..];
    MarkedConcat([false], c[i + 1..]);
  }

  lemma {:induction false} RankUnmarked(c: seq<bool>, j: nat, s: nat)
    requires j <= s <= |c| && forall i :: j <= i < s ==> !c[i]
    ensures Rank(c[..j]) == Rank(c[..s]) - (s - j)
    decreases s
  {
    if j < s {
      RankUnmarked(c, j, s - 1);
      RankAfterKept(c, s - 1);
    }
  }

  /** The group that a placement leaves is settled. */
  lemma PlacedSettles(lines: seq<Line>, c: seq<bool>, boundaries: seq<bool>, earliest: nat, start: nat, s: nat, e: nat,
                      aligned: Option<nat>, rank: int, indentHeuristic: bool)
    requires earliest <= s <= start && s < e <= |c| == |lines| && Rank(c[..s]) == rank - (start - s)
    requires Slides(lines, earliest, start, e - s)
    requires Noted(boundaries, earliest, start + 1, rank - (start - earliest), aligned)
    requires s == if aligned.Some? then aligned.value
                  else if indentHeuristic then Chosen(lines, earliest, start, e - s) else start
    requires forall i :: 0 <= i && earliest - 1 <= i < s ==> !c[i]
    ensures Settled(lines, c, boundaries, s, e, indentHeuristic)
  {
    hide Rank, Slides, Chosen, Shared, Reaches;
    var length, first, at := e - s, rank - (start - earliest), rank - (start - s);
    forall j: nat | 0 < j <= s && Reaches(lines, s, length, j) ensures !c[j - 1] {
      SlidesReach(lines, earliest, start, length, s, j);
    }
    forall j: nat ensures Shared(boundaries, earliest, first, j) <==> Shared(boundaries, s, at, j) {
      SharedFrom(boundaries, earliest, first, s, at, j);
    }
    assert RestsAt(lines, boundaries, earliest, start, length, s, at, indentHeuristic);
  }

  lemma SharedFrom(boundaries: seq<bool>, from: nat, rank: int, from': nat, rank': int, j: nat)
    requires rank - from == rank' - from'
    ensures Shared(boundaries, from, rank, j) <==> Shared(boundaries, from', rank', j)
  {
  }

  /** The positions explored are all there are. */
  lemma ExploredSlides(lines: seq<Line>, c: seq<bool>, earliest: nat, start: nat, length: nat)
    requires Retreat(lines, c, earliest, start, length)
    requires earliest == 0 || lines[earliest - 1] != lines[earliest - 1 + length]
    requires start + length == |c| || lines[start] != lines[start + length]
    ensures Slides(lines, earliest, start, length)
  {
  }

  /** Below settled groups and the placed one, nothing else ends before the placed one does. */
  lemma PlacedIsLast(lines: seq<Line>, c: seq<bool>, boundaries: seq<bool>, s: nat, e: nat, indentHeuristic: bool)
    requires s < e <= |c| == |lines| && Run(c, s, e) && (s == 0 || !c[s - 1]) && (e == |c| || !c[e])
    requires SettledBefore(lines, c, boundaries, s, indentHeuristic)
    requires Settled(lines, c, boundaries, s, e, indentHeuristic)
    ensures SettledUpTo(lines, c, boundaries, e, indentHeuristic)
  {
    hide Settled;
    forall a: nat, b: nat | Group(c, a, b) && b <= e ensures Settled(lines, c, boundaries, a, b, indentHeuristic) {
      assert c[b - 1] && c[a];
      if b > s {
        assert a >= s;
        assert a == s && b == e;
      }
    }
  }

  /** Moving a group up to its destination keeps the groups above it settled and settles it. */
  lemma PlacementSettles(lines: seq<Line>, c: seq<bool>, c': seq<bool>, boundaries: seq<bool>, earliest: nat, start: nat,
                         s: nat, e: nat, aligned: Option<nat>, rank: int, indentHeuristic: bool)
    requires earliest <= s <= start <= |c| && s < e <= |c| == |c'| == |lines| && rank == Rank(c[..start])
    requires Retreat(lines, c, earliest, start, e - s) && Slides(lines, earliest, start, e - s)
    requires SettledBefore(lines, c, boundaries, start, indentHeuristic)
    requires forall j :: 0 <= j < s ==> c'[j] == c[j]
    requires earliest == 0 || !c[earliest - 1]
    requires Run(c', s, e) && (e == |c| || !c'[e])
    requires Noted(boundaries, earliest, start + 1, rank - (start - earliest), aligned)
    requires s == if aligned.Some? then aligned.value
                  else if indentHeuristic then Chosen(lines, earliest, start, e - s) else start
    ensures SettledUpTo(lines, c', boundaries, e, indentHeuristic)
  {
    hide Rank, Slides, Chosen, Noted, SettledBefore, Settled, SettledUpTo;
    RankUnmarked(c, s, start);
    assert c[..s] == c'[..s];
    PlacedSettles(lines, c', boundaries, earliest, start, s, e, aligned, rank, indentHeuristic);
    SettledKept(lines, c, c', boundaries, start, s, indentHeuristic);
    PlacedIsLast(lines, c', boundaries, s, e, indentHeuristic);
  }

  method Destination(lines: seq<Line>, ghost boundaries: seq<bool>, earliest: nat, last: nat, length: nat,
                     aligned: Option<nat>, ghost rank: int, indentHeuristic: bool)
    returns (destination: nat)
    requires earliest <= last && last + length <= |lines|
    requires Noted(boundaries, earliest, last + 1, rank - (last - earliest), aligned)
    ensures earliest <= destination <= last
    ensures destination == if aligned.Some? then aligned.value
                           else if indentHeuristic then Chosen(lines, earliest, last, length) else last
  {
    if aligned.Some? {
      return aligned.value;
    }
    if indentHeuristic {
      destination := Choose(lines, earliest, last, length);
    } else {
      destination := last;
    }
  }

  /** Places the group starting at `cursor` and returns the position and rank after it. */
  method PlaceGroup(lines: seq<Line>, changed: array<bool>, boundaries: seq<bool>, cursor: nat, rank0: int,
                    indentHeuristic: bool)
    returns (end: nat, rank: int)
    requires |lines| == changed.Length && cursor < changed.Length && changed[cursor]
    requires cursor == 0 || !changed[cursor - 1]
    requires rank0 == Rank(changed[..cursor]) && Rank(changed[..]) < |boundaries|
    requires SettledUpTo(lines, changed[..], boundaries, cursor, indentHeuristic)
    modifies changed
    ensures end <= changed.Length && rank == Rank(changed[..end])
    ensures Equivalent(lines, old(changed[..]), changed[..])
    ensures end == changed.Length || !changed[end]
    ensures Marked(changed[end..]) < old(Marked(changed[cursor..]))
    ensures SettledUpTo(lines, changed[..], boundaries, end, indentHeuristic)
  {
    hide Kept, Marked, Rank, SettledBefore, SettledUpTo, Settled, Noted, Slides, Chosen;
    EarlierAreSettled(lines, changed[..], boundaries, cursor, indentHeuristic);
    ghost var c0 := changed[..];
    var end0 := GroupEnd(changed, cursor);
    RankInRun(c0, cursor, end0);
    assert changed[cursor..] == c0[cursor..] && changed[end0..] == c0[end0..];
    var start, last, rank', aligned, earliest := Explore(lines, changed, boundaries, cursor, end0, rank0, indentHeuristic);
    ghost var c1 := changed[..];
    ExploredSlides(lines, c1, earliest, start, last - start);
    var destination := Destination(lines, boundaries, earliest, start, last - start, aligned, rank', indentHeuristic);
    end, rank := Retreats(lines, changed, earliest, destination, start, last, rank');
    RankInRun(changed[..], destination, end);
    assert changed[..destination] == changed[..][..destination] && changed[..end] == changed[..][..end];
    PlacementSettles(lines, c1, changed[..], boundaries, earliest, start, destination, end, aligned, rank',
                     indentHeuristic);
  }

  lemma EarlierAreSettled(lines: seq<Line>, c: seq<bool>, boundaries: seq<bool>, p: nat, indentHeuristic: bool)
    requires |c| == |lines| && SettledUpTo(lines, c, boundaries, p, indentHeuristic)
    ensures SettledBefore(lines, c, boundaries, p, indentHeuristic)
  {
  }

  // From edits to marks and back.

  ghost function Repeat(value: bool, n: nat): seq<bool>
  {
    seq(n, i => value)
  }

  function Span(e: Edit, oldSide: bool): (nat, nat)
  {
    if oldSide then (e.oldStart, e.oldEnd) else (e.newStart, e.newEnd)
  }

  /** The edits are in order and in range on one side, from line `x` up to `n`. */
  ghost predicate Ordered(es: seq<Edit>, oldSide: bool, x: nat, n: nat)
  {
    if es == [] then x <= n
    else var (s, e) := Span(es[0], oldSide); x <= s <= e && Ordered(es[1..], oldSide, e, n)
  }

  /** The marks of lines `x` up to `n` that the edits stand for. */
  ghost function MarksOf(es: seq<Edit>, oldSide: bool, x: nat, n: nat): seq<bool>
    requires Ordered(es, oldSide, x, n)
  {
    if es == [] then Repeat(false, n - x)
    else
      var (s, e) := Span(es[0], oldSide);
      Repeat(false, s - x) + (Repeat(true, e - s) + MarksOf(es[1..], oldSide, e, n))
  }

  lemma {:induction false} MarksLength(es: seq<Edit>, oldSide: bool, x: nat, n: nat)
    requires Ordered(es, oldSide, x, n)
    ensures x <= n && |MarksOf(es, oldSide, x, n)| == n - x
    decreases |es|
  {
    if es != [] { MarksLength(es[1..], oldSide, Span(es[0], oldSide).1, n); }
  }

  /** Line `i` of one side is inside an edit. */
  ghost predicate InEdit(es: seq<Edit>, oldSide: bool, i: int)
  {
    exists k: nat :: k < |es| && InSpan(es[k], oldSide, i)
  }

  ghost predicate InSpan(e: Edit, oldSide: bool, i: int)
  {
    Span(e, oldSide).0 <= i < Span(e, oldSide).1
  }

  /** The marks of one side, line by line. */
  ghost function Marks(es: seq<Edit>, oldSide: bool, n: nat): (marks: seq<bool>)
    ensures |marks| == n && forall i :: 0 <= i < n ==> (marks[i] <==> InEdit(es, oldSide, i))
  {
    seq(n, i requires 0 <= i < n => InEdit(es, oldSide, i))
  }

  lemma {:induction false} MarksAgree(es: seq<Edit>, oldSide: bool, x: nat, n: nat, i: nat)
    requires Ordered(es, oldSide, x, n) && x <= i < n
    ensures |MarksOf(es, oldSide, x, n)| == n - x && (MarksOf(es, oldSide, x, n)[i - x] <==> InEdit(es, oldSide, i))
    decreases |es|
  {
    MarksLength(es, oldSide, x, n);
    if es != [] {
      var (s, e) := Span(es[0], oldSide);
      MarksLength(es[1..], oldSide, e, n);
      InEditSplits(es, oldSide, i);
      if i >= e {
        MarksAgree(es[1..], oldSide, e, n, i);
      } else {
        NotInLater(es[1..], oldSide, e, n, i);
      }
    }
  }

  lemma InEditSplits(es: seq<Edit>, oldSide: bool, i: int)
    requires es != []
    ensures InEdit(es, oldSide, i) <==> InSpan(es[0], oldSide, i) || InEdit(es[1..], oldSide, i)
  {
    hide InSpan;
    if InEdit(es, oldSide, i) {
      var k: nat :| k < |es| && InSpan(es[k], oldSide, i);
      if k > 0 { assert InSpan(es[1..][k - 1], oldSide, i); }
    }
    if InEdit(es[1..], oldSide, i) {
      var k: nat :| k < |es[1..]| && InSpan(es[1..][k], oldSide, i);
      assert InSpan(es[k + 1], oldSide, i);
    }
  }

  lemma {:induction false} NotInLater(es: seq<Edit>, oldSide: bool, x: nat, n: nat, i: int)
    requires Ordered(es, oldSide, x, n) && i < x
    ensures !InEdit(es, oldSide, i)
    decreases |es|
  {
    if es != [] {
      InEditSplits(es, oldSide, i);
      NotInLater(es[1..], oldSide, Span(es[0], oldSide).1, n, i);
    }
  }

  lemma {:induction false} KeptUnmarked(lines: seq<Line>)
    ensures Kept(lines, Repeat(false, |lines|)) == lines && Marked(Repeat(false, |lines|)) == 0
    decreases |lines|
  {
    if lines != [] {
      var n := |lines| - 1;
      KeptUnmarked(lines[..n]);
      assert Repeat(false, |lines|)[..n] == Repeat(false, n);
      assert lines == lines[..n] + [lines[n]];
    }
  }

  /** Kept lines and marks of a gap, a changed run and the rest. */
  lemma KeptGap(lines: seq<Line>, rest: seq<bool>, gap: nat, run: nat)
    requires |lines| == gap + run + |rest|
    ensures var c := Repeat(false, gap) + (Repeat(true, run) + rest);
      Kept(lines, c) == lines[..gap] + Kept(lines[gap + run..], rest) && Marked(c) == run + Marked(rest)
  {
    hide Kept, Marked;
    var middle, tail := lines[gap..gap + run], lines[gap + run..];
    assert lines[gap..] == middle + tail && lines == lines[..gap] + lines[gap..];
    KeptConcat(middle, Repeat(true, run), tail, rest);
    MarkedConcat(Repeat(true, run), rest);
    KeptConcat(lines[..gap], Repeat(false, gap), lines[gap..], Repeat(true, run) + rest);
    MarkedConcat(Repeat(false, gap), Repeat(true, run) + rest);
    KeptUnmarked(lines[..gap]);
    KeptInRun(middle, Repeat(true, run));
    assert [] + Kept(tail, rest) == Kept(tail, rest);
  }

  /** Both sides of a chain of edits keep the same lines, and the marks count its cost. */
  lemma {:induction false} ChainKeeps(a: seq<Line>, b: seq<Line>, es: seq<Edit>, x: nat, y: nat)
    requires Chain(a, b, es, x, y, |a|, |b|)
    ensures Ordered(es, true, x, |a|) && Ordered(es, false, y, |b|)
    ensures x <= |a| && |MarksOf(es, true, x, |a|)| == |a| - x
    ensures y <= |b| && |MarksOf(es, false, y, |b|)| == |b| - y
    ensures Kept(a[x..], MarksOf(es, true, x, |a|)) == Kept(b[y..], MarksOf(es, false, y, |b|))
    ensures Marked(MarksOf(es, true, x, |a|)) + Marked(MarksOf(es, false, y, |b|)) == Cost(es)
    decreases |es|
  {
    hide Kept, Marked;
    if es == [] {
      KeptUnmarked(a[x..]);
      KeptUnmarked(b[y..]);
      assert a[x..] == b[y..];
    } else {
      var e := es[0];
      ChainKeeps(a, b, es[1..], e.oldEnd, e.newEnd);
      KeptGap(a[x..], MarksOf(es[1..], true, e.oldEnd, |a|), e.oldStart - x, e.oldEnd - e.oldStart);
      KeptGap(b[y..], MarksOf(es[1..], false, e.newEnd, |b|), e.newStart - y, e.newEnd - e.newStart);
      assert a[x..][e.oldEnd - x..] == a[e.oldEnd..] && b[y..][e.newEnd - y..] == b[e.newEnd..];
      assert a[x..][..e.oldStart - x] == a[x..e.oldStart] && b[y..][..e.newStart - y] == b[y..e.newStart];
    }
  }

  /** Marks the lines of one side that the edits change. */
  method ChangedLines(count: nat, es: seq<Edit>, oldSide: bool) returns (changed: array<bool>)
    requires Ordered(es, oldSide, 0, count)
    ensures fresh(changed) && changed[..] == MarksOf(es, oldSide, 0, count)
  {
    ghost var marks := MarksOf(es, oldSide, 0, count);
    MarksLength(es, oldSide, 0, count);
    changed := new bool[count](i => false);
    ghost var done: nat := 0;
    assert es[0..] == es && marks[0..] == marks;
    for i := 0 to |es|
      invariant Ordered(es[i..], oldSide, done, count) && done <= count == |marks|
      invariant marks[done..] == MarksOf(es[i..], oldSide, done, count)
      invariant forall k :: 0 <= k < done ==> changed[k] == marks[k]
      invariant forall k :: done <= k < count ==> !changed[k]
    {
      var (s, e) := Span(es[i], oldSide);
      assert es[i..][0] == es[i] && es[i..][1..] == es[i + 1..];
      MarksStep(es[i..], oldSide, done, count, marks);
      forall k | s <= k < e {
        changed[k] := true;
      }
      done := e;
    }
    assert forall k :: done <= k < count ==> marks[k] == marks[done..][k - done];
  }

  lemma MarksStep(es: seq<Edit>, oldSide: bool, x: nat, n: nat, marks: seq<bool>)
    requires es != [] && Ordered(es, oldSide, x, n) && x <= n == |marks| && marks[x..] == MarksOf(es, oldSide, x, n)
    ensures var (s, e) := Span(es[0], oldSide);
      && x <= s <= e <= n && Ordered(es[1..], oldSide, e, n) && marks[e..] == MarksOf(es[1..], oldSide, e, n)
      && forall k :: x <= k < e ==> marks[k] == (s <= k)
  {
    var (s, e) := Span(es[0], oldSide);
    MarksLength(es[1..], oldSide, e, n);
    var front, rest := Repeat(false, s - x) + Repeat(true, e - s), MarksOf(es[1..], oldSide, e, n);
    assert marks[x..] == front + rest;
    assert marks[e..] == marks[x..][e - x..] == rest by { hide MarksOf; }
    forall k | x <= k < e ensures marks[k] == (s <= k) {
      assert marks[k] == marks[x..][k - x] == front[k - x];
    }
  }

  // Collecting marks into edits again.

  lemma {:induction false} ChainStep(a: seq<Line>, b: seq<Line>, es: seq<Edit>, x0: nat, y0: nat, x: nat, y: nat)
    requires x < |a| && y < |b| && a[x] == b[y] && Chain(a, b, es, x0, y0, x, y)
    ensures Chain(a, b, es, x0, y0, x + 1, y + 1)
    decreases |es|
  {
    if es == [] {
      assert a[x0..x + 1] == a[x0..x] + [a[x]] && b[y0..y + 1] == b[y0..y] + [b[y]];
    } else {
      ChainStep(a, b, es[1..], es[0].oldEnd, es[0].newEnd, x, y);
    }
  }

  lemma {:induction false} ChainAppend(a: seq<Line>, b: seq<Line>, es: seq<Edit>, x0: nat, y0: nat, e: Edit)
    requires e.oldStart <= e.oldEnd <= |a| && e.newStart <= e.newEnd <= |b|
    requires Chain(a, b, es, x0, y0, e.oldStart, e.newStart)
    ensures Chain(a, b, es + [e], x0, y0, e.oldEnd, e.newEnd)
    ensures Cost(es + [e]) == Cost(es) + e.oldEnd - e.oldStart + e.newEnd - e.newStart
    decreases |es|
  {
    if es == [] {
      assert es + [e] == [e];
    } else {
      ChainAppend(a, b, es[1..], es[0].oldEnd, es[0].newEnd, e);
      assert (es + [e])[1..] == es[1..] + [e];
    }
  }

  method RunEnd(marks: seq<bool>, from: nat) returns (end: nat)
    requires from <= |marks|
    ensures from <= end <= |marks| && Run(marks, from, end) && Unmarked(marks, end)
  {
    end := from;
    while end < |marks| && marks[end]
      invariant Run(marks, from, end)
    {
      end := end + 1;
    }
  }

  /** What is left to collect from (x, y): equal kept lines, with the rest of the cost. */
  ghost predicate Remaining(a: seq<Line>, b: seq<Line>, removed: seq<bool>, added: seq<bool>, x: nat, y: nat, cost: int)
  {
    && |a| == |removed| && |b| == |added| && x <= |a| && y <= |b|
    && Kept(a[x..], removed[x..]) == Kept(b[y..], added[y..])
    && cost + Marked(removed[x..]) + Marked(added[y..]) == Marked(removed) + Marked(added)
  }

  lemma SkipRun(lines: seq<Line>, c: seq<bool>, x: nat, e: nat)
    requires |lines| == |c| && Run(c, x, e)
    ensures Kept(lines[x..], c[x..]) == Kept(lines[e..], c[e..])
    ensures Marked(c[x..]) == e - x + Marked(c[e..])
  {
    hide Kept, Marked;
    assert lines[x..] == lines[x..e] + lines[e..] && c[x..] == c[x..e] + c[e..];
    KeptConcat(lines[x..e], c[x..e], lines[e..], c[e..]);
    MarkedConcat(c[x..e], c[e..]);
    KeptInRun(lines[x..e], c[x..e]);
    assert [] + Kept(lines[e..], c[e..]) == Kept(lines[e..], c[e..]);
  }

  lemma SkipKept(lines: seq<Line>, c: seq<bool>, x: nat)
    requires |lines| == |c| && x < |c| && !c[x]
    ensures Kept(lines[x..], c[x..]) == [lines[x]] + Kept(lines[x + 1..], c[x + 1..])
    ensures Marked(c[x..]) == Marked(c[x + 1..])
  {
    assert lines[x..] == [lines[x]] + lines[x + 1..] && c[x..] == [false] + c[x + 1..];
    KeptConcat([lines[x]], [false], lines[x + 1..], c[x + 1..]);
    MarkedConcat([false], c[x + 1..]);
  }

  /** Where neither side is marked, both have a line left and the lines are equal. */
  lemma RemainingStep(a: seq<Line>, b: seq<Line>, removed: seq<bool>, added: seq<bool>, x: nat, y: nat, cost: int)
    requires Remaining(a, b, removed, added, x, y, cost) && (x < |a| || y < |b|)
    requires (x == |a| || !removed[x]) && (y == |b| || !added[y])
    ensures x < |a| && y < |b| && a[x] == b[y] && Remaining(a, b, removed, added, x + 1, y + 1, cost)
  {
    if x < |a| { SkipKept(a, removed, x); }
    if y < |b| { SkipKept(b, added, y); }
    assert x < |a| && y < |b|;
    var left, right := Kept(a[x + 1..], removed[x + 1..]), Kept(b[y + 1..], added[y + 1..]);
    assert ([a[x]] + left)[0] == a[x] && ([b[y]] + right)[0] == b[y];
    assert ([a[x]] + left)[1..] == left && ([b[y]] + right)[1..] == right;
  }

  lemma RemainingRuns(a: seq<Line>, b: seq<Line>, removed: seq<bool>, added: seq<bool>, x: nat, y: nat, cost: int,
                      x': nat, y': nat)
    requires Remaining(a, b, removed, added, x, y, cost) && Run(removed, x, x') && Run(added, y, y')
    ensures Remaining(a, b, removed, added, x', y', cost + x' - x + y' - y)
  {
    SkipRun(a, removed, x, x');
    SkipRun(b, added, y, y');
  }

  ghost predicate Unmarked(c: seq<bool>, i: nat)
  {
    i >= |c| || !c[i]
  }

  /** Edits collected up to (x, y), the last one either behind that point or ending at it. */
  ghost predicate Collected(a: seq<Line>, b: seq<Line>, removed: seq<bool>, added: seq<bool>, x: nat, y: nat,
                            es: seq<Edit>)
  {
    && Remaining(a, b, removed, added, x, y, Cost(es))
    && Chain(a, b, es, 0, 0, x, y) && Coalesced(es)
    && (es == [] || (es[|es| - 1].oldEnd < x && es[|es| - 1].newEnd < y)
        || (es[|es| - 1].oldEnd == x && es[|es| - 1].newEnd == y && Unmarked(removed, x) && Unmarked(added, y)))
  }

  lemma CollectRuns(a: seq<Line>, b: seq<Line>, removed: seq<bool>, added: seq<bool>, x: nat, y: nat, es: seq<Edit>,
                    x': nat, y': nat)
    requires Collected(a, b, removed, added, x, y, es) && Run(removed, x, x') && Run(added, y, y')
    requires (x != x' || y != y') && Unmarked(removed, x') && Unmarked(added, y')
    ensures Collected(a, b, removed, added, x', y', es + [Edit(x, x', y, y')])
  {
    hide Kept, Marked, Cost, Chain, Remaining;
    InRange(a, b, removed, added, x, y, es);
    RemainingRuns(a, b, removed, added, x, y, Cost(es), x', y');
    ChainAppend(a, b, es, 0, 0, Edit(x, x', y, y'));
  }

  lemma InRange(a: seq<Line>, b: seq<Line>, removed: seq<bool>, added: seq<bool>, x: nat, y: nat, es: seq<Edit>)
    requires Collected(a, b, removed, added, x, y, es)
    ensures x <= |a| == |removed| && y <= |b| == |added|
  {
  }

  lemma CollectStep(a: seq<Line>, b: seq<Line>, removed: seq<bool>, added: seq<bool>, x: nat, y: nat, es: seq<Edit>)
    requires Collected(a, b, removed, added, x, y, es) && (x < |a| || y < |b|)
    requires Unmarked(removed, x) && Unmarked(added, y)
    ensures x < |a| && y < |b| && Collected(a, b, removed, added, x + 1, y + 1, es)
  {
    hide Kept, Marked, Cost, Chain, Remaining;
    InRange(a, b, removed, added, x, y, es);
    RemainingStep(a, b, removed, added, x, y, Cost(es));
    ChainStep(a, b, es, 0, 0, x, y);
  }

  lemma CollectStart(a: seq<Line>, b: seq<Line>, removed: seq<bool>, added: seq<bool>)
    requires |a| == |removed| && |b| == |added| && Kept(a, removed) == Kept(b, added)
    ensures Collected(a, b, removed, added, 0, 0, [])
  {
    assert a[0..] == a && b[0..] == b && removed[0..] == removed && added[0..] == added;
  }

  lemma CollectEnd(a: seq<Line>, b: seq<Line>, removed: seq<bool>, added: seq<bool>, es: seq<Edit>)
    requires Collected(a, b, removed, added, |a|, |b|, es)
    ensures Chain(a, b, es, 0, 0, |a|, |b|) && Coalesced(es) && Cost(es) == Marked(removed) + Marked(added)
  {
    hide Chain, Coalesced, Cost, Kept;
  }

  /** Turns marks that leave the same lines on both sides into edits between those lines. */
  method Collect(a: seq<Line>, b: seq<Line>, removed: seq<bool>, added: seq<bool>) returns (es: seq<Edit>)
    requires |a| == |removed| && |b| == |added| && Kept(a, removed) == Kept(b, added)
    ensures Chain(a, b, es, 0, 0, |a|, |b|)
    ensures Cost(es) == Marked(removed) + Marked(added)
    ensures Coalesced(es)
    ensures Marks(es, true, |a|) == removed && Marks(es, false, |b|) == added
  {
    hide *;
    var x: nat, y: nat := 0, 0;
    es := [];
    CollectStart(a, b, removed, added);
    NothingTracked(removed, true);
    NothingTracked(added, false);
    while x < |removed| || y < |added|
      invariant x <= |removed| && y <= |added| && Collected(a, b, removed, added, x, y, es)
      invariant Tracked(es, true, removed, x) && Tracked(es, false, added, y)
      decreases |removed| - x + |added| - y
    {
      var endX := RunEnd(removed, x);
      var endY := RunEnd(added, y);
      if endX != x || endY != y {
        CollectRuns(a, b, removed, added, x, y, es, endX, endY);
        TrackedRuns(es, removed, added, x, y, endX, endY);
        es := es + [Edit(x, endX, y, endY)];
        x, y := endX, endY;
      } else {
        CollectStep(a, b, removed, added, x, y, es);
        TrackedStep(es, true, removed, x);
        TrackedStep(es, false, added, y);
        x, y := x + 1, y + 1;
      }
    }
    CollectEnd(a, b, removed, added, es);
    TrackedAll(es, true, removed);
    TrackedAll(es, false, added);
  }

  /** The edits so far mark exactly the marked lines before `p`. */
  ghost predicate Tracked(es: seq<Edit>, oldSide: bool, marks: seq<bool>, p: nat)
  {
    && p <= |marks|
    && (forall i :: 0 <= i < p ==> (marks[i] <==> InEdit(es, oldSide, i)))
    && forall i :: p <= i ==> !InEdit(es, oldSide, i)
  }

  lemma NothingTracked(marks: seq<bool>, oldSide: bool)
    ensures Tracked([], oldSide, marks, 0)
  {
  }

  lemma TrackedStep(es: seq<Edit>, oldSide: bool, marks: seq<bool>, p: nat)
    requires Tracked(es, oldSide, marks, p) && p < |marks| && !marks[p]
    ensures Tracked(es, oldSide, marks, p + 1)
  {
    hide InEdit;
  }

  lemma TrackedRun(es: seq<Edit>, oldSide: bool, marks: seq<bool>, p: nat, e: Edit)
    requires Tracked(es, oldSide, marks, p) && Span(e, oldSide).0 == p <= Span(e, oldSide).1
    requires Run(marks, p, Span(e, oldSide).1)
    ensures Tracked(es + [e], oldSide, marks, Span(e, oldSide).1)
  {
    hide InEdit;
    forall i ensures InEdit(es + [e], oldSide, i) <==> InEdit(es, oldSide, i) || InSpan(e, oldSide, i) {
      InEditAppends(es, e, oldSide, i);
    }
  }

  lemma TrackedRuns(es: seq<Edit>, removed: seq<bool>, added: seq<bool>, x: nat, y: nat, endX: nat, endY: nat)
    requires Tracked(es, true, removed, x) && Tracked(es, false, added, y)
    requires Run(removed, x, endX) && Run(added, y, endY)
    ensures Tracked(es + [Edit(x, endX, y, endY)], true, removed, endX)
    ensures Tracked(es + [Edit(x, endX, y, endY)], false, added, endY)
  {
    hide Tracked;
    TrackedRun(es, true, removed, x, Edit(x, endX, y, endY));
    TrackedRun(es, false, added, y, Edit(x, endX, y, endY));
  }

  lemma InEditAppends(es: seq<Edit>, e: Edit, oldSide: bool, i: int)
    ensures InEdit(es + [e], oldSide, i) <==> InEdit(es, oldSide, i) || InSpan(e, oldSide, i)
  {
    hide InSpan;
    var more := es + [e];
    if InEdit(es, oldSide, i) {
      var k: nat :| k < |es| && InSpan(es[k], oldSide, i);
      assert InSpan(more[k], oldSide, i);
    }
    if InSpan(e, oldSide, i) { assert InSpan(more[|es|], oldSide, i); }
  }

  lemma TrackedAll(es: seq<Edit>, oldSide: bool, marks: seq<bool>)
    requires Tracked(es, oldSide, marks, |marks|)
    ensures Marks(es, oldSide, |marks|) == marks
  {
    hide InEdit;
  }

  lemma {:induction false} BoundariesExist(marks: seq<bool>, n: nat) returns (boundaries: seq<bool>)
    requires n <= |marks|
    ensures Boundaries(marks, n, boundaries)
  {
    hide Boundaries;
    if n == 0 {
      BoundariesStart(marks);
      return [false];
    }
    var before := BoundariesExist(marks, n - 1);
    BoundariesGrow(marks, n - 1, before);
    boundaries := if marks[n - 1] then before[|before| - 1 := true] else before + [false];
  }

  /** With every line changed there is one group, and it has nowhere to go. */
  lemma WholeRests(lines: seq<Line>, c: seq<bool>, opposite: seq<bool>, indentHeuristic: bool)
    requires |c| == |lines| && forall i :: 0 <= i < |c| ==> c[i]
    ensures Rested(lines, c, opposite, indentHeuristic)
  {
    hide Boundaries, Rank;
    var boundaries := BoundariesExist(opposite, |opposite|);
    forall s: nat, e: nat | Group(c, s, e) && e <= |c| ensures Settled(lines, c, boundaries, s, e, indentHeuristic) {
      assert s == 0 && e == |c|;
      assert RestsAt(lines, boundaries, 0, 0, e, 0, Rank(c[..0]), indentHeuristic);
    }
  }

  /**
  Compacts an edit list. The result still leads from the old lines to the new ones and changes
  exactly as many lines, so a shortest list stays shortest.
  */
  method CompactEdits(a: seq<Line>, b: seq<Line>, es: seq<Edit>, indentHeuristic: bool) returns (es': seq<Edit>)
    requires Chain(a, b, es, 0, 0, |a|, |b|) && Coalesced(es)
    ensures Chain(a, b, es', 0, 0, |a|, |b|)
    ensures Cost(es') == Cost(es)
    ensures Coalesced(es')
    ensures Rested(a, Marks(es', true, |a|), Marks(es, false, |b|), indentHeuristic)
    ensures Rested(b, Marks(es', false, |b|), Marks(es', true, |a|), indentHeuristic)
  {
    hide Kept, Marked, Rested, InEdit;
    if |es| == 1 && es[0] == Edit(0, |a|, 0, |b|) {
      WholeIsMarked(es, a, b);
      WholeRests(a, Marks(es, true, |a|), Marks(es, false, |b|), indentHeuristic);
      WholeRests(b, Marks(es, false, |b|), Marks(es, true, |a|), indentHeuristic);
      return es;
    }
    ChainKeeps(a, b, es, 0, 0);
    assert a[0..] == a && b[0..] == b;
    var removed := ChangedLines(|a|, es, true);
    var added := ChangedLines(|b|, es, false);
    RanksAgree(a, b, removed[..], added[..]);
    MarksAreMarks(es, false, |b|);
    Compact(a, removed, added[..], indentHeuristic);
    Compact(b, added, removed[..], indentHeuristic);
    es' := Collect(a, b, removed[..], added[..]);
  }

  lemma WholeIsMarked(es: seq<Edit>, a: seq<Line>, b: seq<Line>)
    requires |es| == 1 && es[0] == Edit(0, |a|, 0, |b|)
    ensures forall i :: 0 <= i < |a| ==> Marks(es, true, |a|)[i]
    ensures forall i :: 0 <= i < |b| ==> Marks(es, false, |b|)[i]
  {
    assert forall i :: 0 <= i < |a| ==> InSpan(es[0], true, i);
    assert forall i :: 0 <= i < |b| ==> InSpan(es[0], false, i);
  }

  lemma MarksAreMarks(es: seq<Edit>, oldSide: bool, n: nat)
    requires Ordered(es, oldSide, 0, n)
    ensures MarksOf(es, oldSide, 0, n) == Marks(es, oldSide, n)
  {
    hide InEdit;
    MarksLength(es, oldSide, 0, n);
    forall i: nat | i < n ensures MarksOf(es, oldSide, 0, n)[i] == Marks(es, oldSide, n)[i] {
      MarksAgree(es, oldSide, 0, n, i);
    }
  }

  lemma RanksAgree(a: seq<Line>, b: seq<Line>, removed: seq<bool>, added: seq<bool>)
    requires |a| == |removed| && |b| == |added| && Kept(a, removed) == Kept(b, added)
    ensures Rank(removed) == Rank(added)
  {
    KeptLength(a, removed);
    KeptLength(b, added);
  }

  lemma {:induction false} KeptLength(lines: seq<Line>, c: seq<bool>)
    requires |lines| == |c|
    ensures |Kept(lines, c)| == Rank(c)
    decreases |c|
  {
    if c != [] { KeptLength(lines[..|c| - 1], c[..|c| - 1]); }
  }
}
