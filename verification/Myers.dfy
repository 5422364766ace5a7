/**
The shortest-edit search: frontier rows over the edit graph's diagonals, then a traceback
through the retained rows.
*/
module Myers {

  import opened Bytes
  import opened EditGraph

  /** Slot `slot` of row `distance` is the diagonal x - y == 2 * slot - distance. */
  function NewPosition(x: nat, distance: nat, slot: nat): (y: nat)
    requires slot <= distance && 2 * slot <= x + distance
    ensures x - y == 2 * slot - distance
  {
    var opposite := distance - slot;
    if slot <= opposite then x + (opposite - slot) else x - (slot - opposite)
  }

  /** Whether a path enters `slot` by deleting a line; equal predecessors select deletion. */
  predicate Deletion(previous: seq<nat>, slot: nat)
    requires slot <= |previous| && 0 < |previous|
  {
    slot != 0 && (slot == |previous| || previous[slot - 1] >= previous[slot])
  }

  /** Where a path enters a diagonal before following its matches. */
  function Entry(previous: seq<nat>, slot: nat): (x: nat)
    requires slot <= |previous|
  {
    if previous == [] then 0
    else if Deletion(previous, slot) then previous[slot - 1] + 1
    else previous[slot]
  }

  /** `x` is the last point on the slot's diagonal within `distance` edits. */
  ghost predicate Furthest(a: seq<Line>, b: seq<Line>, distance: nat, slot: nat, x: nat)
    requires slot <= distance
  {
    && 2 * slot <= x + distance
    && Distance(a, b, x, NewPosition(x, distance, slot)) <= distance
    && distance < Distance(a, b, x + 1, NewPosition(x, distance, slot) + 1)
  }

  ghost predicate Row(a: seq<Line>, b: seq<Line>, distance: nat, row: seq<nat>)
  {
    |row| == distance + 1 && forall i :: 0 <= i <= distance ==> Furthest(a, b, distance, i, row[i])
  }

  /** The path to `x` enters the slot's diagonal from the previous row and then only matches. */
  ghost predicate Enters(a: seq<Line>, b: seq<Line>, previous: seq<nat>, slot: nat, x: nat)
    requires slot <= |previous|
  {
    var entry := Entry(previous, slot);
    && 2 * slot <= entry + |previous| && entry <= x
    && forall j :: entry <= j < x ==> Matches(a, b, j, NewPosition(j, |previous|, slot))
  }

  ghost function Previous(trace: seq<seq<nat>>, distance: nat): seq<nat>
    requires distance <= |trace|
  {
    if distance == 0 then [] else trace[distance - 1]
  }

  ghost predicate Traced(a: seq<Line>, b: seq<Line>, trace: seq<seq<nat>>)
  {
    forall d :: 0 <= d < |trace| ==>
      && Row(a, b, d, trace[d])
      && forall i :: 0 <= i <= d ==> |Previous(trace, d)| == d && Enters(a, b, Previous(trace, d), i, trace[d][i])
  }

  // The search keeps the furthest point of every diagonal.

  ghost predicate Precedes(a: seq<Line>, b: seq<Line>, previous: seq<nat>)
  {
    previous == [] || Row(a, b, |previous| - 1, previous)
  }

  lemma EntryWithin(a: seq<Line>, b: seq<Line>, previous: seq<nat>, slot: nat)
    requires Precedes(a, b, previous) && slot <= |previous|
    ensures var x := Entry(previous, slot);
      2 * slot <= x + |previous| && Distance(a, b, x, NewPosition(x, |previous|, slot)) <= |previous|
  {
    if previous != [] {
      var d := |previous|;
      if Deletion(previous, slot) {
        var p := previous[slot - 1];
        assert Furthest(a, b, d - 1, slot - 1, p);
        DistanceStep(a, b, p, NewPosition(p, d - 1, slot - 1));
      } else {
        var q := previous[slot];
        assert Furthest(a, b, d - 1, slot, q);
        DistanceStep(a, b, q, NewPosition(q, d - 1, slot));
      }
    }
  }

  /** From the entry on, the point one insertion ahead is already at the full distance. */
  lemma InsertionIsFar(a: seq<Line>, b: seq<Line>, previous: seq<nat>, slot: nat, x: nat)
    requires Precedes(a, b, previous) && slot <= |previous|
    requires Entry(previous, slot) <= x && 2 * slot <= x + |previous|
    ensures |previous| <= Distance(a, b, x, NewPosition(x, |previous|, slot) + 1)
  {
    hide Distance;
    var d := |previous|;
    if 0 < slot {
      var p := previous[slot - 1];
      assert Furthest(a, b, d - 1, slot - 1, p);
      DistanceAlong(a, b, p + 1, NewPosition(p, d - 1, slot - 1) + 1, x - p - 1);
    } else {
      DistanceBounds(a, b, x, NewPosition(x, d, slot) + 1);
    }
  }

  /** And so is the point one deletion ahead. */
  lemma DeletionIsFar(a: seq<Line>, b: seq<Line>, previous: seq<nat>, slot: nat, x: nat)
    requires Precedes(a, b, previous) && slot <= |previous|
    requires Entry(previous, slot) <= x && 2 * slot <= x + |previous|
    ensures |previous| <= Distance(a, b, x + 1, NewPosition(x, |previous|, slot))
  {
    hide Distance;
    var d := |previous|;
    if slot < d {
      var q := previous[slot];
      assert Furthest(a, b, d - 1, slot, q);
      DistanceAlong(a, b, q + 1, NewPosition(q, d - 1, slot) + 1, x - q);
    } else {
      DistanceBounds(a, b, x + 1, NewPosition(x, d, slot));
    }
  }

  /** Where the matches stop is the furthest point. */
  lemma StopIsFurthest(a: seq<Line>, b: seq<Line>, previous: seq<nat>, slot: nat, x: nat)
    requires Precedes(a, b, previous) && slot <= |previous|
    requires Entry(previous, slot) <= x && 2 * slot <= x + |previous|
    requires Distance(a, b, x, NewPosition(x, |previous|, slot)) <= |previous|
    requires !Matches(a, b, x, NewPosition(x, |previous|, slot))
    ensures Furthest(a, b, |previous|, slot, x)
  {
    InsertionIsFar(a, b, previous, slot, x);
    DeletionIsFar(a, b, previous, slot, x);
  }

  // The destination appears in the row of its distance.

  /** Beyond the end of an input there is nothing to match. */
  lemma {:induction false} DistanceOutside(a: seq<Line>, b: seq<Line>, x: nat)
    ensures Distance(a, b, x, |b| + 1) == Distance(a, b, x, |b|) + 1
  {
    if x > 0 {
      DistanceOutside(a, b, x - 1);
      DistanceStep(a, b, x - 1, |b|);
    }
  }

  lemma {:induction false} DistanceOutsideOld(a: seq<Line>, b: seq<Line>, y: nat)
    ensures Distance(a, b, |a| + 1, y) == Distance(a, b, |a|, y) + 1
  {
    if y > 0 {
      DistanceOutsideOld(a, b, y - 1);
      DistanceStep(a, b, |a|, y - 1);
    }
  }

  lemma DistancePastCorner(a: seq<Line>, b: seq<Line>)
    ensures Distance(a, b, |a| + 1, |b| + 1) == Distance(a, b, |a|, |b|) + 2
  {
    DistanceOutside(a, b, |a|);
    DistanceOutsideOld(a, b, |b|);
  }

  lemma DistanceFromEmpty(a: seq<Line>, b: seq<Line>)
    requires a == [] || b == []
    ensures Distance(a, b, |a|, |b|) == |a| + |b|
  {
  }

  lemma FurthestIsUnique(a: seq<Line>, b: seq<Line>, distance: nat, slot: nat, x: nat, x': nat)
    requires slot <= distance && Furthest(a, b, distance, slot, x) && Furthest(a, b, distance, slot, x')
    ensures x <= x'
  {
    hide Distance;
    if x' < x {
      DistanceAlong(a, b, x' + 1, NewPosition(x', distance, slot) + 1, x - x' - 1);
    }
  }

  /** A completed row without the destination lies short of it. */
  lemma DestinationInRow(a: seq<Line>, b: seq<Line>, distance: nat, row: seq<nat>)
    requires Row(a, b, distance, row) && distance <= Distance(a, b, |a|, |b|)
    requires forall i :: 0 <= i <= distance && row[i] == |a| ==> NewPosition(row[i], distance, i) != |b|
    ensures distance < Distance(a, b, |a|, |b|)
  {
    hide Distance;
    if distance == Distance(a, b, |a|, |b|) {
      var slot := DistanceParity(a, b, |a|, |b|);
      DistanceBounds(a, b, |a|, |b|);
      assert 0 <= slot <= distance;
      DistancePastCorner(a, b);
      assert Furthest(a, b, distance, slot, |a|);
      FurthestIsUnique(a, b, distance, slot, row[slot], |a|);
      FurthestIsUnique(a, b, distance, slot, |a|, row[slot]);
      assert false;
    }
  }

  method FillSlot(a: seq<Line>, b: seq<Line>, previous: seq<nat>, slot: nat) returns (x: nat)
    requires Precedes(a, b, previous) && slot <= |previous|
    ensures Furthest(a, b, |previous|, slot, x)
    ensures Enters(a, b, previous, slot, x)
  {
    var distance := |previous|;
    x := Entry(previous, slot);
    EntryWithin(a, b, previous, slot);
    var y := NewPosition(x, distance, slot);
    while x < |a| && y < |b| && a[x] == b[y]
      invariant 2 * slot <= x + distance && y == NewPosition(x, distance, slot)
      invariant Distance(a, b, x, y) <= distance
      invariant Enters(a, b, previous, slot, x)
    {
      DistanceDiagonal(a, b, x, y);
      x, y := x + 1, y + 1;
    }
    StopIsFurthest(a, b, previous, slot, x);
  }

  /** Fills slots in order and stops at the destination; a row without it is complete. */
  method FillRow(a: seq<Line>, b: seq<Line>, previous: seq<nat>) returns (row: seq<nat>, arrived: bool, last: nat)
    requires Precedes(a, b, previous) && |previous| <= Distance(a, b, |a|, |b|)
    ensures arrived ==>
      && last <= |previous| && Enters(a, b, previous, last, |a|)
      && 2 * last <= |a| + |previous| && NewPosition(|a|, |previous|, last) == |b|
      && Distance(a, b, |a|, |b|) == |previous|
    ensures !arrived ==> Row(a, b, |previous|, row) && |previous| < Distance(a, b, |a|, |b|)
    ensures !arrived ==> forall i :: 0 <= i <= |previous| ==> Enters(a, b, previous, i, row[i])
  {
    hide Distance, Enters;
    var distance := |previous|;
    row, last := [], 0;
    var slot: nat := 0;
    while slot <= distance
      invariant |row| == slot <= distance + 1
      invariant forall i :: 0 <= i < slot ==> Furthest(a, b, distance, i, row[i])
      invariant forall i :: 0 <= i < slot ==> Enters(a, b, previous, i, row[i])
      invariant forall i :: 0 <= i < slot && row[i] == |a| ==> NewPosition(row[i], distance, i) != |b|
    {
      var x := FillSlot(a, b, previous, slot);
      row := row + [x];
      if x == |a| && NewPosition(x, distance, slot) == |b| {
        return row, true, slot;
      }
      slot := slot + 1;
    }
    DestinationInRow(a, b, distance, row);
    arrived := false;
  }

  /**
  A shortest edit list: it leads from the old lines to the new ones, no other choice of deleted and
  inserted lines marks fewer, and of all such lists it is the one the furthest points select.
  */
  method ShortestEdits(a: seq<Line>, b: seq<Line>) returns (es: seq<Edit>)
    ensures Chain(a, b, es, 0, 0, |a|, |b|)
    ensures Cost(es) == Distance(a, b, |a|, |b|)
    ensures Coalesced(es)
    ensures Canonical(a, b, es)
  {
    hide Distance, Row, Enters, Unwinds;
    if |a| == 0 || |b| == 0 {
      DistanceFromEmpty(a, b);
      return [Edit(0, |a|, 0, |b|)];
    }
    var total := |a| + |b|;
    DistanceBounds(a, b, |a|, |b|);
    var trace: seq<seq<nat>> := [];
    var distance := 0;
    while distance <= total
      invariant |trace| == distance && Traced(a, b, trace)
      invariant |Previous(trace, distance)| == distance && Precedes(a, b, Previous(trace, distance))
      invariant distance <= Distance(a, b, |a|, |b|)
    {
      var previous := if distance == 0 then [] else trace[distance - 1];
      var row, arrived, slot := FillRow(a, b, previous);
      if arrived {
        es := Backtrack(a, b, trace, slot);
        return;
      }
      RowLength(a, b, distance, row);
      TracedExtend(a, b, trace, row);
      trace := trace + [row];
      distance := distance + 1;
    }
    assert false;
  }

  lemma RowLength(a: seq<Line>, b: seq<Line>, distance: nat, row: seq<nat>)
    requires Row(a, b, distance, row)
    ensures |row| == distance + 1
  {
  }

  lemma TracedExtend(a: seq<Line>, b: seq<Line>, trace: seq<seq<nat>>, row: seq<nat>)
    requires Traced(a, b, trace) && Row(a, b, |trace|, row) && |Previous(trace, |trace|)| == |trace|
    requires forall i :: 0 <= i <= |trace| ==> Enters(a, b, Previous(trace, |trace|), i, row[i])
    ensures Traced(a, b, trace + [row])
  {
    hide Enters, Furthest;
    var longer := trace + [row];
    assert forall d :: 0 <= d <= |trace| ==> Previous(longer, d) == Previous(trace, d);
  }

  function SlotBefore(previous: seq<nat>, slot: nat): (before: nat)
    requires slot <= |previous| && 0 < |previous|
    ensures before < |previous|
  {
    if Deletion(previous, slot) then slot - 1 else slot
  }

  /** The point after the single edit that leaves the previous row's frontier for `slot`. */
  function EditEnd(previous: seq<nat>, slot: nat): (end: (int, int))
    requires slot <= |previous| && 0 < |previous|
    ensures end.0 - end.1 == 2 * slot - |previous|
    ensures var x := previous[SlotBefore(previous, slot)];
      var y := x - (2 * SlotBefore(previous, slot) - (|previous| - 1));
      end == (x + 1, y) || end == (x, y + 1)
  {
    var x := previous[SlotBefore(previous, slot)];
    var y := x - (2 * SlotBefore(previous, slot) - (|previous| - 1));
    if Deletion(previous, slot) then (x + 1, y) else (x, y + 1)
  }

  lemma TracedPoint(a: seq<Line>, b: seq<Line>, trace: seq<seq<nat>>, distance: nat, slot: nat)
    requires Traced(a, b, trace) && distance < |trace| && slot <= distance
    ensures |trace[distance]| == distance + 1 && 2 * slot <= trace[distance][slot] + distance
    ensures |Previous(trace, distance)| == distance
    ensures Enters(a, b, Previous(trace, distance), slot, trace[distance][slot])
  {
    hide Distance, Enters;
    assert Row(a, b, distance, trace[distance]);
    assert Furthest(a, b, distance, slot, trace[distance][slot]);
  }

  lemma EntryFollowsEdit(previous: seq<nat>, slot: nat)
    requires slot <= |previous| && 0 < |previous|
    ensures Entry(previous, slot) == EditEnd(previous, slot).0
  {
  }

  /** The retained rows give the edit a path made to enter its diagonal, and the matches after it. */
  lemma TracedEntry(a: seq<Line>, b: seq<Line>, trace: seq<seq<nat>>, distance: nat, slot: nat, x: nat)
    requires Traced(a, b, trace) && 0 < distance <= |trace| && slot <= distance
    requires Enters(a, b, Previous(trace, distance), slot, x)
    requires x <= |a| && 2 * slot <= x + distance && NewPosition(x, distance, slot) <= |b|
    ensures Previous(trace, distance) == trace[distance - 1] && |trace[distance - 1]| == distance
    ensures |Previous(trace, distance - 1)| == distance - 1
    ensures var slot' := SlotBefore(trace[distance - 1], slot);
      && 2 * slot' <= trace[distance - 1][slot'] + distance - 1
      && Enters(a, b, Previous(trace, distance - 1), slot', trace[distance - 1][slot'])
    ensures var (endX, endY) := EditEnd(trace[distance - 1], slot); var y := NewPosition(x, distance, slot);
      0 <= x - endX == y - endY && 0 <= endX && 0 <= endY && a[endX..x] == b[endY..y]
  {
    hide Distance, Traced, Enters, EditEnd, Entry, SlotBefore, NewPosition;
    var previous := trace[distance - 1];
    TracedPoint(a, b, trace, distance - 1, 0);
    TracedPoint(a, b, trace, distance - 1, SlotBefore(previous, slot));
    EntryFollowsEdit(previous, slot);
    DiagonalIsEqual(a, b, previous, slot, x);
  }

  /** Puts an edit in front, as part of the first edit when the two touch. */
  function Joined(es: seq<Edit>, e: Edit): seq<Edit>
  {
    if es != [] && es[0].oldStart == e.oldEnd && es[0].newStart == e.newEnd then
      [es[0].(oldStart := e.oldStart, newStart := e.newStart)] + es[1..]
    else
      [e] + es
  }

  lemma JoinedIsChain(a: seq<Line>, b: seq<Line>, es: seq<Edit>, e: Edit)
    requires e.oldStart <= e.oldEnd && e.newStart <= e.newEnd
    requires Chain(a, b, es, e.oldEnd, e.newEnd, |a|, |b|)
    ensures Chain(a, b, Joined(es, e), e.oldStart, e.newStart, |a|, |b|)
    ensures Cost(Joined(es, e)) == Cost(es) + e.oldEnd - e.oldStart + e.newEnd - e.newStart
  {
    if es != [] && es[0].oldStart == e.oldEnd && es[0].newStart == e.newEnd {
      assert Joined(es, e)[1..] == es[1..];
    } else {
      assert Joined(es, e)[1..] == es;
      ChainInRange(a, b, es, e.oldEnd, e.newEnd);
    }
  }

  lemma JoinedIsCoalesced(a: seq<Line>, b: seq<Line>, es: seq<Edit>, e: Edit)
    requires Chain(a, b, es, e.oldEnd, e.newEnd, |a|, |b|) && Coalesced(es)
    ensures Coalesced(Joined(es, e))
  {
    hide Chain;
    FirstGap(a, b, es, e.oldEnd, e.newEnd);
    var joined := Joined(es, e);
    forall i | 0 <= i < |joined| - 1
      ensures joined[i].oldEnd < joined[i + 1].oldStart && joined[i].newEnd < joined[i + 1].newStart
    {
      if i > 0 { assert joined[i + 1] in es; }
    }
  }

  lemma FirstGap(a: seq<Line>, b: seq<Line>, es: seq<Edit>, x: nat, y: nat)
    requires Chain(a, b, es, x, y, |a|, |b|)
    ensures es != [] ==> 0 <= es[0].oldStart - x == es[0].newStart - y
  {
    if es != [] {
      assert |a[x..es[0].oldStart]| == |b[y..es[0].newStart]|;
    }
  }

  lemma {:induction false} ChainInRange(a: seq<Line>, b: seq<Line>, es: seq<Edit>, x: nat, y: nat)
    requires Chain(a, b, es, x, y, |a|, |b|)
    ensures x <= |a| && y <= |b|
    decreases |es|
  {
    if es != [] { ChainInRange(a, b, es[1..], es[0].oldEnd, es[0].newEnd); }
  }

  // Which of the shortest edit lists it is.

  /** Within `distance` edits the diagonal `left` is passed at least as far as `right`. */
  ghost predicate AsFar(a: seq<Line>, b: seq<Line>, distance: nat, left: nat, right: nat)
    requires left <= distance && right <= distance
  {
    exists p: nat, q: nat :: Furthest(a, b, distance, left, p) && Furthest(a, b, distance, right, q) && p >= q
  }

  /**
  Whether the last of `distance` edits that lead to a diagonal is a deletion: there is no
  neighbouring diagonal to insert from, or the one to delete from is passed at least as far.
  */
  ghost predicate Removes(a: seq<Line>, b: seq<Line>, distance: nat, slot: nat)
    requires slot <= distance
  {
    slot > 0 && (slot == distance || AsFar(a, b, distance - 1, slot - 1, slot))
  }

  /** The single deletion or insertion after the point `x` of a diagonal. */
  ghost function UnitEdit(x: nat, distance: nat, slot: nat, removed: bool): Edit
    requires slot <= distance && 2 * slot <= x + distance
  {
    var y := NewPosition(x, distance, slot);
    if removed then Edit(x, x + 1, y, y) else Edit(x, x, y, y + 1)
  }

  /** Unwinding `distance` edits in front of `rest`, each from the furthest point before it, gives `es`. */
  ghost predicate Unwinds(a: seq<Line>, b: seq<Line>, distance: nat, slot: nat, rest: seq<Edit>, es: seq<Edit>)
    requires slot <= distance
    decreases distance, 0
  {
    if distance == 0 then es == rest
    else if Removes(a, b, distance, slot) then UnwindsFrom(a, b, distance - 1, slot - 1, true, rest, es)
    else UnwindsFrom(a, b, distance - 1, slot, false, rest, es)
  }

  ghost predicate UnwindsFrom(a: seq<Line>, b: seq<Line>, distance: nat, slot: nat, removed: bool,
                              rest: seq<Edit>, es: seq<Edit>)
    requires slot <= distance
    decreases distance, 1
  {
    exists x: nat ::
      Furthest(a, b, distance, slot, x)
      && Unwinds(a, b, distance, slot, Joined(rest, UnitEdit(x, distance, slot, removed)), es)
  }

  /** Only one edit list can be unwound. */
  lemma {:induction false} UnwindsOnce(a: seq<Line>, b: seq<Line>, distance: nat, slot: nat, rest: seq<Edit>,
                                       es: seq<Edit>, others: seq<Edit>)
    requires slot <= distance && Unwinds(a, b, distance, slot, rest, es) && Unwinds(a, b, distance, slot, rest, others)
    ensures es == others
    decreases distance
  {
    hide Furthest, Joined, AsFar;
    if distance > 0 {
      var removed := Removes(a, b, distance, slot);
      var d, before := distance - 1, if removed then slot - 1 else slot;
      assert UnwindsFrom(a, b, d, before, removed, rest, es) && UnwindsFrom(a, b, d, before, removed, rest, others);
      var x: nat :| Furthest(a, b, d, before, x)
        && Unwinds(a, b, d, before, Joined(rest, UnitEdit(x, d, before, removed)), es);
      var x': nat :| Furthest(a, b, d, before, x')
        && Unwinds(a, b, d, before, Joined(rest, UnitEdit(x', d, before, removed)), others);
      FurthestIsUnique(a, b, d, before, x, x');
      FurthestIsUnique(a, b, d, before, x', x);
      UnwindsOnce(a, b, d, before, Joined(rest, UnitEdit(x, d, before, removed)), es, others);
    }
  }

  /** The edit list that the inputs alone determine. */
  ghost predicate Canonical(a: seq<Line>, b: seq<Line>, es: seq<Edit>)
  {
    if a == [] || b == [] then es == [Edit(0, |a|, 0, |b|)]
    else
      var distance := Distance(a, b, |a|, |b|);
      exists last: nat :: last <= distance && |a| - |b| == 2 * last - distance && Unwinds(a, b, distance, last, [], es)
  }

  lemma CanonicalIsUnique(a: seq<Line>, b: seq<Line>, es: seq<Edit>, others: seq<Edit>)
    requires Canonical(a, b, es) && Canonical(a, b, others)
    ensures es == others
  {
    hide Distance, Unwinds;
    if a != [] && b != [] {
      var distance := Distance(a, b, |a|, |b|);
      var last: nat :| last <= distance && |a| - |b| == 2 * last - distance && Unwinds(a, b, distance, last, [], es);
      UnwindsOnce(a, b, distance, last, [], es, others);
    }
  }

  /** The rule on the retained row is the rule on furthest points. */
  lemma DeletionIsRemoval(a: seq<Line>, b: seq<Line>, previous: seq<nat>, slot: nat)
    requires previous != [] && Row(a, b, |previous| - 1, previous) && slot <= |previous|
    ensures Deletion(previous, slot) <==> Removes(a, b, |previous|, slot)
  {
    hide Furthest;
    var d := |previous| - 1;
    if 0 < slot <= d {
      var p, q := previous[slot - 1], previous[slot];
      assert Furthest(a, b, d, slot - 1, p) && Furthest(a, b, d, slot, q);
      if AsFar(a, b, d, slot - 1, slot) {
        var p': nat, q': nat :| Furthest(a, b, d, slot - 1, p') && Furthest(a, b, d, slot, q') && p' >= q';
        FurthestIsUnique(a, b, d, slot - 1, p', p);
        FurthestIsUnique(a, b, d, slot, q, q');
      }
    }
  }

  /** Whatever is unwound from here on is what is unwound from the destination. */
  ghost predicate Leads(a: seq<Line>, b: seq<Line>, total: nat, last: nat, distance: nat, slot: nat, es: seq<Edit>)
    requires last <= total && slot <= distance
  {
    forall all :: Unwinds(a, b, distance, slot, es, all) ==> Unwinds(a, b, total, last, [], all)
  }

  lemma LeadsStep(a: seq<Line>, b: seq<Line>, total: nat, last: nat, previous: seq<nat>, slot: nat, es: seq<Edit>)
    requires previous != [] && Row(a, b, |previous| - 1, previous) && slot <= |previous| && last <= total
    requires Leads(a, b, total, last, |previous|, slot, es)
    ensures var before := SlotBefore(previous, slot); var d := |previous| - 1;
      var (endX, endY) := EditEnd(previous, slot);
      && 2 * before <= previous[before] + d && 0 <= endX && 0 <= endY
      && Leads(a, b, total, last, d, before,
               Joined(es, Edit(previous[before], endX, NewPosition(previous[before], d, before), endY)))
  {
    hide Joined, Unwinds, Removes, Distance;
    var before, d, removed := SlotBefore(previous, slot), |previous| - 1, Removes(a, b, |previous|, slot);
    DeletionIsRemoval(a, b, previous, slot);
    var x := previous[before];
    assert Furthest(a, b, d, before, x);
    var (endX, endY) := EditEnd(previous, slot);
    var more := Joined(es, Edit(x, endX, NewPosition(x, d, before), endY));
    assert more == Joined(es, UnitEdit(x, d, before, removed));
    forall all | Unwinds(a, b, d, before, more, all) ensures Unwinds(a, b, total, last, [], all) {
      assert UnwindsFrom(a, b, d, before, removed, es, all);
      UnwindsBack(a, b, |previous|, slot, es, all);
    }
  }

  lemma UnwindsBack(a: seq<Line>, b: seq<Line>, distance: nat, slot: nat, rest: seq<Edit>, es: seq<Edit>)
    requires 0 < distance && slot <= distance
    requires var removed := Removes(a, b, distance, slot);
      UnwindsFrom(a, b, distance - 1, if removed then slot - 1 else slot, removed, rest, es)
    ensures Unwinds(a, b, distance, slot, rest, es)
  {
    hide UnwindsFrom, Removes;
  }

  /** The traceback stands at (x, y) on its row, with a chain of `es` from there to the end. */
  ghost predicate Unwound(a: seq<Line>, b: seq<Line>, trace: seq<seq<nat>>, distance: nat, slot: nat,
                          x: nat, y: nat, es: seq<Edit>)
  {
    && distance <= |trace| && slot <= distance && 2 * slot <= x + distance
    && y == NewPosition(x, distance, slot) && x <= |a| && y <= |b|
    && |Previous(trace, distance)| == distance && Enters(a, b, Previous(trace, distance), slot, x)
    && Chain(a, b, es, x, y, |a|, |b|) && Coalesced(es) && Cost(es) == |trace| - distance
  }

  lemma UnwindStep(a: seq<Line>, b: seq<Line>, trace: seq<seq<nat>>, distance: nat, slot: nat,
                   x: nat, y: nat, es: seq<Edit>)
    requires Traced(a, b, trace) && 0 < distance && Unwound(a, b, trace, distance, slot, x, y, es)
    ensures |trace[distance - 1]| == distance
    ensures var slot' := SlotBefore(trace[distance - 1], slot);
      var x' := trace[distance - 1][slot'];
      var (endX, endY) := EditEnd(trace[distance - 1], slot);
      && 2 * slot' <= x' + distance - 1 && 0 <= endX && 0 <= endY
      && var y' := NewPosition(x', distance - 1, slot');
         Unwound(a, b, trace, distance - 1, slot', x', y', Joined(es, Edit(x', endX, y', endY)))
  {
    hide Chain, Coalesced, Cost, Joined, Traced, Enters, EditEnd, SlotBefore, NewPosition;
    TracedEntry(a, b, trace, distance, slot, x);
    var previous := trace[distance - 1];
    var slot' := SlotBefore(previous, slot);
    var x', y' := previous[slot'], NewPosition(previous[slot'], distance - 1, slot');
    var (endX, endY) := EditEnd(previous, slot);
    ChainExtend(a, b, es, x, y, x - endX, |a|, |b|);
    JoinedIsChain(a, b, es, Edit(x', endX, y', endY));
    JoinedIsCoalesced(a, b, es, Edit(x', endX, y', endY));
  }

  /** Follows the retained rows back from the destination, one edit per row. */
  method Backtrack(a: seq<Line>, b: seq<Line>, trace: seq<seq<nat>>, last: nat) returns (es: seq<Edit>)
    requires Traced(a, b, trace) && last <= |trace|
    requires |Previous(trace, |trace|)| == |trace| && Enters(a, b, Previous(trace, |trace|), last, |a|)
    requires 2 * last <= |a| + |trace| && NewPosition(|a|, |trace|, last) == |b|
    ensures Chain(a, b, es, 0, 0, |a|, |b|)
    ensures Cost(es) == |trace|
    ensures Coalesced(es)
    ensures Unwinds(a, b, |trace|, last, [], es)
  {
    hide *;
    var x: nat, y: nat, slot: nat, distance: nat := |a|, |b|, last, |trace|;
    es := [];
    Arrived(a, b, trace, last);
    LeadsStart(a, b, |trace|, last);
    while 0 < distance
      invariant distance <= |trace| && slot <= distance
      invariant Unwound(a, b, trace, distance, slot, x, y, es)
      invariant Leads(a, b, |trace|, last, distance, slot, es)
    {
      UnwindStep(a, b, trace, distance, slot, x, y, es);
      RetainedRow(a, b, trace, distance - 1);
      LeadsStep(a, b, |trace|, last, trace[distance - 1], slot, es);
      var previous := trace[distance - 1];
      var (endX, endY) := EditEnd(previous, slot);
      slot := SlotBefore(previous, slot);
      x := previous[slot];
      y := NewPosition(x, distance - 1, slot);
      es := Joined(es, Edit(x, endX, y, endY));
      distance := distance - 1;
    }
    Finished(a, b, trace, x, y, es);
    LeadsEnd(a, b, |trace|, last, es);
  }

  lemma LeadsStart(a: seq<Line>, b: seq<Line>, total: nat, last: nat)
    requires last <= total
    ensures Leads(a, b, total, last, total, last, [])
  {
  }

  lemma LeadsEnd(a: seq<Line>, b: seq<Line>, total: nat, last: nat, es: seq<Edit>)
    requires last <= total && Leads(a, b, total, last, 0, 0, es)
    ensures Unwinds(a, b, total, last, [], es)
  {
    assert Unwinds(a, b, 0, 0, es, es);
  }

  lemma RetainedRow(a: seq<Line>, b: seq<Line>, trace: seq<seq<nat>>, distance: nat)
    requires Traced(a, b, trace) && distance < |trace|
    ensures |trace[distance]| == distance + 1 && Row(a, b, distance, trace[distance])
  {
  }

  lemma Arrived(a: seq<Line>, b: seq<Line>, trace: seq<seq<nat>>, last: nat)
    requires last <= |trace|
    requires |Previous(trace, |trace|)| == |trace| && Enters(a, b, Previous(trace, |trace|), last, |a|)
    requires 2 * last <= |a| + |trace| && NewPosition(|a|, |trace|, last) == |b|
    ensures Unwound(a, b, trace, |trace|, last, |a|, |b|, [])
  {
  }

  lemma Finished(a: seq<Line>, b: seq<Line>, trace: seq<seq<nat>>, x: nat, y: nat, es: seq<Edit>)
    requires Unwound(a, b, trace, 0, 0, x, y, es)
    ensures Chain(a, b, es, 0, 0, |a|, |b|) && Cost(es) == |trace| && Coalesced(es)
  {
    DiagonalIsEqual(a, b, [], 0, x);
    ChainExtend(a, b, es, x, y, x, |a|, |b|);
  }

  lemma DiagonalIsEqual(a: seq<Line>, b: seq<Line>, previous: seq<nat>, slot: nat, x: nat)
    requires slot <= |previous| && Enters(a, b, previous, slot, x) && 2 * slot <= x + |previous|
    requires x <= |a| && NewPosition(x, |previous|, slot) <= |b|
    ensures var n := x - Entry(previous, slot); var y := NewPosition(x, |previous|, slot);
      0 <= n <= y && a[x - n..x] == b[y - n..y]
  {
    var entry, n, y := Entry(previous, slot), x - Entry(previous, slot), NewPosition(x, |previous|, slot);
    hide Entry;
    var left, right := a[entry..x], b[y - n..y];
    forall j | 0 <= j < n
      ensures left[j] == right[j]
    {
      assert NewPosition(entry + j, |previous|, slot) == y - n + j;
      assert Matches(a, b, entry + j, y - n + j);
      assert left[j] == a[entry + j] && right[j] == b[y - n + j];
    }
  }
}
