/** Line boundaries of a byte payload, found chunk by chunk under a line budget. */
module LineTable {

  import opened Bytes
  import opened EditGraph

  const CHUNK: nat := 4096

  /** The length of the first line, including its LF. */
  ghost function LineLength(bytes: Bytes): (n: nat)
    requires bytes != []
    ensures 0 < n <= |bytes|
    ensures forall i :: 0 <= i < n - 1 ==> bytes[i] != LF
    ensures n < |bytes| ==> bytes[n - 1] == LF
  {
    if bytes[0] == LF || |bytes| == 1 then 1 else 1 + LineLength(bytes[1..])
  }

  /** The lines of a payload, in one pass: split after every LF. */
  ghost function SplitLines(bytes: Bytes): (lines: seq<Line>)
  {
    if bytes == [] then []
    else [bytes[..LineLength(bytes)]] + SplitLines(bytes[LineLength(bytes)..])
  }

  ghost function Flatten(lines: seq<Line>): Bytes
  {
    if lines == [] then [] else lines[0] + Flatten(lines[1..])
  }

  /** No line is empty, none has an LF before its last byte, and all but the last end in one. */
  ghost predicate WholeLines(lines: seq<Line>)
  {
    forall i :: 0 <= i < |lines| ==>
      && lines[i] != []
      && LF !in lines[i][..|lines[i]| - 1]
      && (i < |lines| - 1 ==> lines[i][|lines[i]| - 1] == LF)
  }

  lemma {:induction false} SplitIsLossless(bytes: Bytes)
    ensures Flatten(SplitLines(bytes)) == bytes
    ensures WholeLines(SplitLines(bytes))
    decreases |bytes|
  {
    hide LineLength, WholeLines;
    if bytes == [] {
      NoLinesAreWhole();
    } else {
      var n := LineLength(bytes);
      SplitIsLossless(bytes[n..]);
      assert SplitLines(bytes)[1..] == SplitLines(bytes[n..]);
      assert bytes == bytes[..n] + bytes[n..];
      WholeFirst(bytes[..n], SplitLines(bytes[n..]));
    }
  }

  lemma NoLinesAreWhole()
    ensures WholeLines([])
  {
  }

  lemma WholeFirst(line: Line, rest: seq<Line>)
    requires line != [] && LF !in line[..|line| - 1] && (rest != [] ==> line[|line| - 1] == LF)
    requires WholeLines(rest)
    ensures WholeLines([line] + rest)
  {
    var lines := [line] + rest;
    assert forall i :: 0 < i < |lines| ==> lines[i] == rest[i - 1];
  }

  /** There is no other way to cut a payload into such lines. */
  lemma {:induction false} SplitIsUnique(lines: seq<Line>)
    requires WholeLines(lines)
    ensures SplitLines(Flatten(lines)) == lines
    decreases |lines|
  {
    hide LineLength, WholeLines;
    if lines != [] {
      var line, rest, bytes := lines[0], Flatten(lines[1..]), Flatten(lines);
      FirstOfWhole(lines);
      SplitIsUnique(lines[1..]);
      FirstLength(line, rest);
      assert bytes[..|line|] == line && bytes[|line|..] == rest;
    }
  }

  lemma FirstOfWhole(lines: seq<Line>)
    requires lines != [] && WholeLines(lines)
    ensures lines[0] != [] && LF !in lines[0][..|lines[0]| - 1] && WholeLines(lines[1..])
    ensures Flatten(lines[1..]) != [] ==> lines[0][|lines[0]| - 1] == LF
  {
    assert forall i :: 0 <= i < |lines| - 1 ==> lines[1..][i] == lines[i + 1];
  }

  lemma {:induction false} FirstLength(line: Line, rest: Bytes)
    requires line != [] && LF !in line[..|line| - 1] && (rest != [] ==> line[|line| - 1] == LF)
    ensures LineLength(line + rest) == |line|
  {
    var bytes := line + rest;
    if |line| > 1 {
      assert line[0] == line[..|line| - 1][0];
      assert line[1..][..|line| - 2] == line[..|line| - 1][1..];
      assert bytes[1..] == line[1..] + rest;
      FirstLength(line[1..], rest);
    }
  }

  /** One line per byte that starts the payload or follows an LF. */
  ghost function LineCount(bytes: Bytes): nat
  {
    if bytes == [] then 0
    else LineCount(bytes[..|bytes| - 1]) + if |bytes| == 1 || bytes[|bytes| - 2] == LF then 1 else 0
  }

  ghost predicate EndsLine(bytes: Bytes, q: nat)
  {
    0 < q <= |bytes| && bytes[q - 1] == LF
  }

  ghost predicate IsEnd(bytes: Bytes, p: nat)
  {
    EndsLine(bytes, p) || 0 < p == |bytes|
  }

  datatype Lines = Lines(bytes: Bytes, ends: seq<nat>) {

    /** `ends` lists, in order, every position after an LF and the end of the payload. */
    ghost predicate Valid()
    {
      && (forall i, j :: 0 <= i < j < |ends| ==> ends[i] < ends[j])
      && (forall p: nat :: p in ends <==> IsEnd(bytes, p))
    }

    function Offset(line: nat): (at: nat)
      requires line <= |ends|
    {
      if line == 0 then 0 else ends[line - 1]
    }

    function Line(index: nat): (line: Bytes)
      requires Valid() && index < |ends|
    {
      OffsetsAscend(index);
      bytes[Offset(index)..ends[index]]
    }

    lemma OffsetsAscend(index: nat)
      requires Valid() && index < |ends|
      ensures Offset(index) < ends[index] <= |bytes|
    {
      assert ends[index] in ends;
    }

    /** Line `index` is the first line of what is left at its offset. */
    lemma LineIsNext(index: nat)
      requires Valid() && index < |ends|
      ensures Offset(index) < |bytes| && ends[index] == Offset(index) + LineLength(bytes[Offset(index)..])
    {
      OffsetsAscend(index);
      var at, rest := Offset(index), bytes[Offset(index)..];
      var next := at + LineLength(rest);
      assert next < |bytes| ==> bytes[next - 1] == rest[next - at - 1];
      assert next in ends;
      var j :| 0 <= j < |ends| && ends[j] == next;
      assert ends[index] in ends;
    }

    function View(): (lines: seq<Line>)
      requires Valid()
      ensures |lines| == |ends|
    {
      seq(|ends|, i requires 0 <= i < |ends| => Line(i))
    }

    lemma ViewStep(index: nat)
      requires Valid() && index < |ends|
      ensures View()[index..] == [Line(index)] + View()[index + 1..]
    {
    }

    /** The last end is the end of the payload. */
    lemma LastOffset()
      requires Valid()
      ensures Offset(|ends|) == |bytes|
    {
      if bytes != [] {
        assert |bytes| in ends;
      }
      if ends != [] {
        assert ends[|ends| - 1] in ends;
      }
    }

    lemma {:induction false} ViewFrom(index: nat)
      requires Valid() && index <= |ends|
      ensures Offset(index) <= |bytes| && View()[index..] == SplitLines(bytes[Offset(index)..])
      decreases |ends| - index
    {
      hide Valid, View, LineLength, SplitLines, Offset, Line;
      if index < |ends| {
        LineIsNext(index);
        ViewStep(index);
        ViewFrom(index + 1);
        SplitStep(index);
      } else {
        LastOffset();
        SplitEmpty();
      }
    }

    lemma SplitEmpty()
      ensures bytes[|bytes|..] == [] && SplitLines([]) == []
    {
    }

    lemma SplitStep(index: nat)
      requires Valid() && index < |ends|
      ensures Offset(index) <= |bytes| && Offset(index + 1) <= |bytes|
      ensures SplitLines(bytes[Offset(index)..]) == [Line(index)] + SplitLines(bytes[Offset(index + 1)..])
    {
      hide Valid, LineLength;
      LineIsNext(index);
      OffsetsAscend(index);
      var rest, n := bytes[Offset(index)..], LineLength(bytes[Offset(index)..]);
      assert rest[..n] == Line(index) && rest[n..] == bytes[ends[index]..];
    }

    /** The table holds exactly the lines of a one-pass split. */
    lemma ViewIsSplit()
      requires Valid()
      ensures View() == SplitLines(bytes) && Flatten(View()) == bytes
      ensures WholeLines(View())
    {
      ViewFrom(0);
      SplitIsLossless(bytes);
      assert View()[0..] == View() && bytes[0..] == bytes;
    }

    /** A line's offset is the length of all lines before it. */
    lemma OffsetIsLength(line: nat)
      requires Valid() && line <= |ends|
      ensures Offset(line) == |Flatten(View()[..line])|
    {
      hide Valid, View, Flatten;
      RangeIsFlatten(0, line);
      assert View()[0..line] == View()[..line];
    }

    /** A range of lines is the concatenation of those lines. */
    lemma {:induction false} RangeIsFlatten(first: nat, last: nat)
      requires Valid() && first <= last <= |ends|
      ensures Offset(first) <= Offset(last) <= |bytes|
      ensures bytes[Offset(first)..Offset(last)] == Flatten(View()[first..last])
      decreases last - first
    {
      if first < last {
        RangeIsFlatten(first + 1, last);
        OffsetsAscend(first);
        assert View()[first..last][0] == Line(first) && View()[first..last][1..] == View()[first + 1..last];
        assert bytes[Offset(first)..Offset(last)] == Line(first) + bytes[ends[first]..Offset(last)];
      } else if first > 0 {
        assert ends[first - 1] in ends;
      }
    }
  }

  /** The line ends among the first `p` bytes, and how many lines they close. */
  ghost predicate Scanned(bytes: Bytes, p: nat, ends: seq<nat>)
  {
    && p <= |bytes|
    && (forall i, j :: 0 <= i < j < |ends| ==> ends[i] < ends[j])
    && (forall q: nat :: q in ends <==> q <= p && EndsLine(bytes, q))
    && |ends| + (if p > 0 && bytes[p - 1] != LF then 1 else 0) == LineCount(bytes[..p])
  }

  lemma ScanStart(bytes: Bytes)
    ensures Scanned(bytes, 0, [])
  {
  }

  lemma CountStep(bytes: Bytes, p: nat)
    requires p < |bytes|
    ensures LineCount(bytes[..p + 1]) == LineCount(bytes[..p])
      + if p == 0 || bytes[p - 1] == LF then 1 else 0
  {
    assert bytes[..p + 1][..p] == bytes[..p];
  }

  lemma ScanStep(bytes: Bytes, p: nat, ends: seq<nat>)
    requires Scanned(bytes, p, ends) && p < |bytes|
    ensures Scanned(bytes, p + 1, if bytes[p] == LF then ends + [p + 1] else ends)
  {
    hide LineCount;
    CountStep(bytes, p);
    var next := if bytes[p] == LF then ends + [p + 1] else ends;
    assert EndsLine(bytes, p + 1) == (bytes[p] == LF);
    hide EndsLine;
    assert forall i :: 0 <= i < |ends| ==> ends[i] in ends;
    forall q: nat
      ensures q in next <==> q <= p + 1 && EndsLine(bytes, q)
    {
      assert q in next <==> q in ends || (bytes[p] == LF && q == p + 1);
    }
  }

  lemma {:induction false} LineCountGrows(bytes: Bytes, p: nat)
    requires p <= |bytes|
    ensures LineCount(bytes[..p]) <= LineCount(bytes)
    decreases |bytes|
  {
    if p < |bytes| {
      LineCountGrows(bytes[..|bytes| - 1], p);
      assert bytes[..|bytes| - 1][..p] == bytes[..p];
    } else {
      assert bytes[..p] == bytes;
    }
  }

  datatype Scan = Table(lines: Lines) | LineLimit

  /**
  Builds the table chunk by chunk, charging one unit per line. It fails exactly when there are
  more lines than the budget allows, and otherwise leaves the unused budget.
  */
  method NewLines(bytes: Bytes, remaining0: nat) returns (scan: Scan, remaining: nat)
    ensures scan.Table? <==> LineCount(bytes) <= remaining0
    ensures scan.Table? ==> scan.lines.bytes == bytes && scan.lines.Valid() && |scan.lines.ends| == LineCount(bytes)
    ensures scan.Table? ==> remaining == remaining0 - LineCount(bytes)
  {
    hide Scanned, LineCount;
    remaining := remaining0;
    var ends: seq<nat> := [];
    ScanStart(bytes);
    var chunk: nat := 0;
    while chunk < |bytes|
      invariant chunk <= |bytes| && Scanned(bytes, chunk, ends) && remaining == remaining0 - |ends|
    {
      var end := if chunk + CHUNK <= |bytes| then chunk + CHUNK else |bytes|;
      for at := chunk to end
        invariant Scanned(bytes, at, ends) && remaining == remaining0 - |ends|
      {
        ScanStep(bytes, at, ends);
        if bytes[at] == LF {
          if remaining == 0 {
            ScanExceeds(bytes, at + 1, ends + [at + 1]);
            return LineLimit, remaining;
          }
          remaining := remaining - 1;
          ends := ends + [at + 1];
        }
      }
      chunk := end;
    }
    ScanEnd(bytes, ends);
    if bytes != [] && bytes[|bytes| - 1] != LF {
      if remaining == 0 {
        return LineLimit, remaining;
      }
      remaining := remaining - 1;
      ends := ends + [|bytes|];
    }
    scan := Table(Lines(bytes, ends));
  }

  lemma ScanExceeds(bytes: Bytes, p: nat, ends: seq<nat>)
    requires Scanned(bytes, p, ends)
    ensures |ends| <= LineCount(bytes)
  {
    LineCountGrows(bytes, p);
  }

  lemma ScanEnd(bytes: Bytes, ends: seq<nat>)
    requires Scanned(bytes, |bytes|, ends)
    ensures var all := if bytes != [] && bytes[|bytes| - 1] != LF then ends + [|bytes|] else ends;
      Lines(bytes, all).Valid() && |all| == LineCount(bytes)
  {
    var open := bytes != [] && bytes[|bytes| - 1] != LF;
    var all := if open then ends + [|bytes|] else ends;
    assert bytes[..|bytes|] == bytes;
    assert forall i :: 0 <= i < |ends| ==> ends[i] in ends;
    forall q: nat
      ensures q in all <==> IsEnd(bytes, q)
    {
      assert q in all <==> q in ends || (open && q == |bytes|);
    }
  }
}
