/** Scores the positions a changed group can take by the indentation and blank lines around them. */
module Indentation {

  import opened Bytes
  import opened EditGraph
  import opened Options

  /** The column of the first byte that is not white space; a line of nothing else is blank. */
  function IndentFrom(line: Line, column: nat): Option<nat>
  {
    if line == [] then None
    else if line[0] == 32 then IndentFrom(line[1..], column + 1)
    else if line[0] == 9 then IndentFrom(line[1..], column + (8 - column % 8))
    else if line[0] in {10, 11, 12, 13} then IndentFrom(line[1..], column)
    else Some(column)
  }

  function Indent(line: Line): Option<nat>
  {
    IndentFrom(line, 0)
  }

  method IndentOf(line: Line) returns (indent: Option<nat>)
    ensures indent == Indent(line)
  {
    var column: nat := 0;
    assert line[0..] == line;
    for i := 0 to |line|
      invariant IndentFrom(line[i..], column) == Indent(line)
    {
      assert line[i..][1..] == line[i + 1..];
      match line[i]
      case 32 => column := column + 1;
      case 9 => column := column + (8 - column % 8);
      case 10 | 11 | 12 | 13 =>
      case _ => return Some(column);
    }
    assert line[|line|..] == [];
    indent := None;
  }

  // What an indent is.

  predicate White(b: byte)
  {
    b == 32 || 9 <= b <= 13
  }

  /** The column after some white space, byte by byte from its end; tab stops are multiples of eight. */
  ghost function Column(space: Line): nat
  {
    if space == [] then 0
    else
      var last, column := space[|space| - 1], Column(space[..|space| - 1]);
      if last == 32 then column + 1 else if last == 9 then (column / 8 + 1) * 8 else column
  }

  ghost predicate AllWhite(line: Line)
  {
    forall i :: 0 <= i < |line| ==> White(line[i])
  }

  lemma {:induction false} IndentAfter(line: Line, k: nat)
    requires k <= |line| && AllWhite(line[..k])
    ensures Indent(line) == IndentFrom(line[k..], Column(line[..k]))
  {
    if k == 0 {
      assert line[0..] == line;
    } else {
      assert line[..k - 1] == line[..k][..k - 1];
      assert forall i :: 0 <= i < k - 1 ==> line[..k - 1][i] == line[..k][i];
      assert White(line[..k][k - 1]);
      IndentAfter(line, k - 1);
      assert line[k - 1..][1..] == line[k..];
    }
  }

  /** A line of white space has no indent; any other one has the column of its first other byte. */
  lemma IndentIsColumn(line: Line, k: nat)
    requires k <= |line| && AllWhite(line[..k]) && (k < |line| ==> !White(line[k]))
    ensures Indent(line) == if k == |line| then None else Some(Column(line[..k]))
  {
    IndentAfter(line, k);
    assert k < |line| ==> line[k..][0] == line[k];
  }

  /** A tab goes to the next multiple of eight, a space one column on. */
  lemma ColumnSteps(space: Line)
    ensures Column(space + [32]) == Column(space) + 1
    ensures var c := Column(space + [9]); Column(space) < c <= Column(space) + 8 && c % 8 == 0
    ensures forall b: byte :: 10 <= b <= 13 ==> Column(space + [b]) == Column(space)
  {
    forall b: byte ensures (space + [b])[..|space|] == space {}
  }

  /** So n spaces give column n. */
  lemma {:induction false} SpacesCount(n: nat)
    ensures Column(seq(n, _ => 32)) == n
  {
    if n > 0 {
      SpacesCount(n - 1);
      ColumnSteps(seq(n - 1, _ => 32));
      assert seq(n, _ => 32) == seq(n - 1, _ => 32) + [32];
    }
  }

  const CONTEXT: nat := 20

  /** The nearest line above or below that is not blank, and the blank lines passed on the way. */
  function NeighbourFrom(lines: seq<Line>, position: nat, backwards: bool, blanks: nat): (r: (Option<nat>, nat))
    requires position <= |lines| && blanks <= CONTEXT
    ensures r.1 <= CONTEXT
    decreases CONTEXT - blanks
  {
    if blanks == CONTEXT || position == (if backwards then 0 else |lines|) then (None, blanks)
    else
      var indent := Indent(lines[if backwards then position - 1 else position]);
      if indent.Some? then (indent, blanks)
      else NeighbourFrom(lines, if backwards then position - 1 else position + 1, backwards, blanks + 1)
  }

  /** The line `i` lines above or below a position, if there is one. */
  ghost function LineAway(lines: seq<Line>, position: nat, backwards: bool, i: nat): Option<Line>
  {
    var at := if backwards then position - 1 - i else position + i;
    if 0 <= at < |lines| then Some(lines[at]) else None
  }

  ghost predicate BlankAway(lines: seq<Line>, position: nat, backwards: bool, i: nat)
  {
    var line := LineAway(lines, position, backwards, i);
    line.Some? && Indent(line.value).None?
  }

  /** After `blanks` blank lines comes one of this indent; or there is no further line, or twenty were blank. */
  ghost predicate Near(lines: seq<Line>, position: nat, backwards: bool, indent: Option<nat>, blanks: nat)
  {
    && blanks <= 20
    && (forall i: nat :: i < blanks ==> BlankAway(lines, position, backwards, i))
    && var line := LineAway(lines, position, backwards, blanks);
       if blanks == 20 || line.None? then indent == None
       else indent.Some? && indent == Indent(line.value)
  }

  lemma {:induction false} NeighbourFromIsNear(lines: seq<Line>, position: nat, backwards: bool, blanks: nat)
    requires position <= |lines| && blanks <= 20
    requires if backwards then blanks <= position else position + blanks <= |lines|
    requires forall i: nat :: i < blanks ==> BlankAway(lines, position, backwards, i)
    ensures var at := if backwards then position - blanks else position + blanks;
      var r := NeighbourFrom(lines, at, backwards, blanks);
      Near(lines, position, backwards, r.0, r.1)
    decreases 20 - blanks
  {
    hide Indent;
    if blanks < 20 && BlankAway(lines, position, backwards, blanks) {
      NeighbourFromIsNear(lines, position, backwards, blanks + 1);
    }
  }

  lemma NearIsUnique(lines: seq<Line>, position: nat, backwards: bool, indent: Option<nat>, blanks: nat,
                     indent': Option<nat>, blanks': nat)
    requires Near(lines, position, backwards, indent, blanks) && Near(lines, position, backwards, indent', blanks')
    ensures indent == indent' && blanks == blanks'
  {
    hide Indent;
    assert blanks < blanks' ==> BlankAway(lines, position, backwards, blanks);
    assert blanks' < blanks ==> BlankAway(lines, position, backwards, blanks');
  }

  method NeighbourOf(lines: seq<Line>, position0: nat, backwards: bool) returns (indent: Option<nat>, blanks: nat)
    requires position0 <= |lines|
    ensures (indent, blanks) == NeighbourFrom(lines, position0, backwards, 0)
    ensures Near(lines, position0, backwards, indent, blanks)
  {
    hide Near, Indent;
    NeighbourFromIsNear(lines, position0, backwards, 0);
    var position: nat := position0;
    blanks := 0;
    while blanks < CONTEXT
      invariant position <= |lines| && blanks <= CONTEXT
      invariant NeighbourFrom(lines, position, backwards, blanks) == NeighbourFrom(lines, position0, backwards, 0)
    {
      var index: nat;
      if backwards {
        if position == 0 { return None, blanks; }
        position := position - 1;
        index := position;
      } else {
        if position == |lines| { return None, blanks; }
        index := position;
        position := position + 1;
      }
      indent := IndentOf(lines[index]);
      if indent.Some? { return indent, blanks; }
      blanks := blanks + 1;
    }
    indent := None;
  }

  /** Two tables of as many lines that agree within `n` lines of a position. */
  ghost predicate AgreeAround(lines: seq<Line>, others: seq<Line>, position: nat, n: nat)
  {
    && |lines| == |others|
    && forall k: nat :: position - n <= k < position + n && k < |lines| ==> lines[k] == others[k]
  }

  lemma {:induction false} NeighbourIsLocal(lines: seq<Line>, others: seq<Line>, position: nat, backwards: bool, blanks: nat)
    requires position <= |lines| && blanks <= CONTEXT && AgreeAround(lines, others, position, CONTEXT - blanks)
    ensures NeighbourFrom(lines, position, backwards, blanks) == NeighbourFrom(others, position, backwards, blanks)
    decreases CONTEXT - blanks
  {
    hide Indent;
    if blanks < CONTEXT && position != (if backwards then 0 else |lines|) {
      NeighbourIsLocal(lines, others, if backwards then position - 1 else position + 1, backwards, blanks + 1);
    }
  }

  datatype Score = Score(indent: int, penalty: int) {
    predicate PreferredTo(other: Score)
    {
      7 * Sign(indent - other.indent) + penalty - other.penalty <= 0
    }

    function Plus(other: Score): Score
    {
      Score(indent + other.indent, penalty + other.penalty)
    }
  }

  function Sign(x: int): int
  {
    if x < 0 then -1 else if x == 0 then 0 else 1
  }

  function AtMost(n: int, limit: int): int
  {
    if n < limit then n else limit
  }

  function Relation(before: Option<nat>, after: Option<nat>): int
  {
    if after.None? then 0
    else if before.None? then 1
    else if after.value > before.value then 0
    else if after.value == before.value then 1
    else 3
  }

  function SplitScore(lines: seq<Line>, position: nat): Score
    requires position <= |lines|
  {
    var (before, above) := NeighbourFrom(lines, position, true, 0);
    var (after, below) := NeighbourFrom(lines, position, false, 0);
    Score(if after.Some? then after.value else -1,
          Relation(before, after) - 3 * AtMost(above, 9) - 3 * AtMost(below, 2) + (if below > 0 then 1 else 0))
  }

  // What a score is.

  /** The score of a split, given what is near it. */
  lemma SplitScoreOfNear(lines: seq<Line>, position: nat, before: Option<nat>, above: nat, after: Option<nat>, below: nat)
    requires position <= |lines| && Near(lines, position, true, before, above) && Near(lines, position, false, after, below)
    ensures NeighbourFrom(lines, position, true, 0) == (before, above)
    ensures NeighbourFrom(lines, position, false, 0) == (after, below)
    ensures SplitScore(lines, position).indent == if after.Some? then after.value else -1
  {
    hide Near, NeighbourFrom;
    NeighbourFromIsNear(lines, position, true, 0);
    NeighbourFromIsNear(lines, position, false, 0);
    var (b, n) := NeighbourFrom(lines, position, true, 0);
    var (a, m) := NeighbourFrom(lines, position, false, 0);
    NearIsUnique(lines, position, true, b, n, before, above);
    NearIsUnique(lines, position, false, a, m, after, below);
  }

  /** Between two lines that are not blank, what follows deeper costs nothing, as deep 1 and less deep 3. */
  lemma SplitBetweenLines(lines: seq<Line>, position: nat, before: Option<nat>, after: Option<nat>)
    requires position <= |lines| && Near(lines, position, true, before, 0) && Near(lines, position, false, after, 0)
    ensures var penalty := SplitScore(lines, position).penalty;
      if after.None? || (before.Some? && after.value > before.value) then penalty == 0
      else if before.None? || after.value == before.value then penalty == 1
      else penalty == 3
  {
    hide Near, NeighbourFrom;
    SplitScoreOfNear(lines, position, before, 0, after, 0);
  }

  /** Everything else alike, one more blank line above lowers the penalty by 3, up to nine of them. */
  lemma BlankAboveCounts(lines: seq<Line>, position: nat, others: seq<Line>, position': nat,
                         before: Option<nat>, above: nat, after: Option<nat>, below: nat)
    requires position <= |lines| && Near(lines, position, true, before, above) && Near(lines, position, false, after, below)
    requires position' <= |others| && Near(others, position', true, before, above + 1) && Near(others, position', false, after, below)
    ensures var score, more := SplitScore(lines, position), SplitScore(others, position');
      more.indent == score.indent && more.penalty == score.penalty - if above < 9 then 3 else 0
  {
    hide Near, NeighbourFrom;
    SplitScoreOfNear(lines, position, before, above, after, below);
    SplitScoreOfNear(others, position', before, above + 1, after, below);
  }

  /** Everything else alike, the first blank line below lowers the penalty by 2, the second by 3, and no other does. */
  lemma BlankBelowCounts(lines: seq<Line>, position: nat, others: seq<Line>, position': nat,
                         before: Option<nat>, above: nat, after: Option<nat>, below: nat)
    requires position <= |lines| && Near(lines, position, true, before, above) && Near(lines, position, false, after, below)
    requires position' <= |others| && Near(others, position', true, before, above) && Near(others, position', false, after, below + 1)
    ensures var score, more := SplitScore(lines, position), SplitScore(others, position');
      more.indent == score.indent && more.penalty == score.penalty - if below == 0 then 2 else if below == 1 then 3 else 0
  {
    hide Near, NeighbourFrom;
    SplitScoreOfNear(lines, position, before, above, after, below);
    SplitScoreOfNear(others, position', before, above, after, below + 1);
  }

  /** Of two scores as deep, the smaller penalty is preferred; one that is less deep may cost 7 more. */
  lemma PreferenceIs(a: Score, b: Score)
    ensures a.indent == b.indent ==> (a.PreferredTo(b) <==> a.penalty <= b.penalty)
    ensures a.indent < b.indent ==> (a.PreferredTo(b) <==> a.penalty <= b.penalty + 7)
    ensures a.indent > b.indent ==> (a.PreferredTo(b) <==> a.penalty + 7 <= b.penalty)
  {
  }

  /** The score of a group of `length` lines at `start`: that of its two ends. */
  function GroupScore(lines: seq<Line>, start: nat, length: nat): Score
    requires start + length <= |lines|
  {
    SplitScore(lines, start).Plus(SplitScore(lines, start + length))
  }

  /** The score of a group reads only the lines close to its two ends. */
  lemma GroupScoreIsLocal(lines: seq<Line>, others: seq<Line>, start: nat, length: nat)
    requires start + length <= |lines|
    requires AgreeAround(lines, others, start, CONTEXT) && AgreeAround(lines, others, start + length, CONTEXT)
    ensures GroupScore(lines, start, length) == GroupScore(others, start, length)
  {
    hide NeighbourFrom;
    forall position: nat, backwards | position in [start, start + length]
      ensures NeighbourFrom(lines, position, backwards, 0) == NeighbourFrom(others, position, backwards, 0)
    {
      NeighbourIsLocal(lines, others, position, backwards, 0);
    }
  }

  method SplitOf(lines: seq<Line>, position: nat) returns (score: Score)
    requires position <= |lines|
    ensures score == SplitScore(lines, position)
  {
    var before, above := NeighbourOf(lines, position, true);
    var after, below := NeighbourOf(lines, position, false);
    score := Score(if after.Some? then after.value else -1,
                   Relation(before, after) - 3 * AtMost(above, 9) - 3 * AtMost(below, 2) + (if below > 0 then 1 else 0));
  }

  method GroupOf(lines: seq<Line>, start: nat, length: nat) returns (score: Score)
    requires start + length <= |lines|
    ensures score == GroupScore(lines, start, length)
    ensures score.indent == SplitScore(lines, start).indent + SplitScore(lines, start + length).indent
    ensures score.penalty == SplitScore(lines, start).penalty + SplitScore(lines, start + length).penalty
  {
    var before := SplitOf(lines, start);
    var after := SplitOf(lines, start + length);
    score := before.Plus(after);
  }

  /** The first candidate: the window grows with the group, up to a hundred positions back. */
  function WindowStart(earliest: nat, last: nat, length: nat): (first: nat)
    requires earliest <= last
    ensures earliest <= first <= last
  {
    var back := if length + 1 < 100 then length + 1 else 100;
    var first := if last < back then 0 else last - back;
    if first < earliest then earliest else first
  }

  /** The winner of the candidates met so far, each challenging the winner before it. */
  ghost function Winner(lines: seq<Line>, first: nat, last: nat, length: nat): (best: nat)
    requires first <= last && last + length <= |lines|
    ensures first <= best <= last
    decreases last
  {
    if first == last then first
    else
      var best := Winner(lines, first, last - 1, length);
      if GroupScore(lines, last, length).PreferredTo(GroupScore(lines, best, length)) then last else best
  }

  ghost function Chosen(lines: seq<Line>, earliest: nat, last: nat, length: nat): (best: nat)
    requires earliest <= last && last + length <= |lines|
    ensures earliest <= best <= last
  {
    Winner(lines, WindowStart(earliest, last, length), last, length)
  }

  method Choose(lines: seq<Line>, earliest: nat, last: nat, length: nat) returns (best: nat)
    requires earliest <= last && last + length <= |lines|
    ensures best == Chosen(lines, earliest, last, length)
  {
    hide GroupScore, SplitScore, Score.PreferredTo;
    if earliest == last {
      return last;
    }
    var first := WindowStart(earliest, last, length);
    best := first;
    var bestScore := GroupOf(lines, first, length);
    for position := first + 1 to last + 1
      invariant best == Winner(lines, first, position - 1, length)
      invariant bestScore == GroupScore(lines, best, length)
    {
      var score := GroupOf(lines, position, length);
      if score.PreferredTo(bestScore) {
        best, bestScore := position, score;
      }
    }
  }

  /** No position after the chosen one is preferred to it, and it beat the winner of all before it. */
  lemma {:induction false} WinnerStands(lines: seq<Line>, first: nat, last: nat, length: nat)
    requires first <= last && last + length <= |lines|
    ensures var best := Winner(lines, first, last, length);
      && (forall p: nat :: best < p <= last ==> !GroupScore(lines, p, length).PreferredTo(GroupScore(lines, best, length)))
      && (first < best ==>
            var before := Winner(lines, first, best - 1, length);
            GroupScore(lines, best, length).PreferredTo(GroupScore(lines, before, length)))
    decreases last
  {
    hide GroupScore, Score.PreferredTo;
    if first < last {
      WinnerStands(lines, first, last - 1, length);
    }
  }

  /** The choice is one of the last positions, and no later one is preferred to it or scores the same. */
  lemma ChosenStands(lines: seq<Line>, earliest: nat, last: nat, length: nat)
    requires earliest <= last && last + length <= |lines|
    ensures var best := Chosen(lines, earliest, last, length);
      var back := if length < 99 then length + 1 else 100;
      && earliest <= best <= last && last - back <= best
      && best == Winner(lines, if last - back < earliest then earliest else last - back, last, length)
      && forall p: nat :: best < p <= last ==>
           && !GroupScore(lines, p, length).PreferredTo(GroupScore(lines, best, length))
           && GroupScore(lines, p, length) != GroupScore(lines, best, length)
  {
    hide GroupScore;
    WinnerStands(lines, WindowStart(earliest, last, length), last, length);
  }

  /** The preference is not transitive, so the order in which positions are met matters. */
  lemma PreferenceIsNotTransitive()
    ensures exists a: Score, b: Score, c: Score :: a.PreferredTo(b) && b.PreferredTo(c) && !a.PreferredTo(c)
  {
    var x, y, z := Score(0, 14), Score(1, 7), Score(2, 0);
    assert x.PreferredTo(y) && y.PreferredTo(z) && !x.PreferredTo(z);
  }
}
