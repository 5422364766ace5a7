/** Splitting, joining and numerals over byte strings. */
module ByteStrings {

  import opened Bytes
  import opened Options

  /** The position of the first `x`, or the length if there is none. */
  function IndexOf(b: Bytes, x: byte): (i: nat)
    ensures i <= |b| && (i < |b| ==> b[i] == x) && x !in b[..i]
  {
    if b == [] || b[0] == x then 0
    else
      var i := 1 + IndexOf(b[1..], x);
      assert b[..i] == [b[0]] + b[1..][..i - 1];
      i
  }

  lemma {:induction false} IndexOfConcat(a: Bytes, x: byte, rest: Bytes)
    requires x !in a
    ensures IndexOf(a + [x] + rest, x) == |a|
  {
    var b := a + [x] + rest;
    if a != [] {
      IndexOfConcat(a[1..], x, rest);
      assert b[0] == a[0];
      assert b[1..] == a[1..] + [x] + rest;
    }
  }

  lemma {:induction false} IndexOfAbsent(b: Bytes, x: byte)
    requires x !in b
    ensures IndexOf(b, x) == |b|
  {
    if b != [] { IndexOfAbsent(b[1..], x); }
  }

  /** Splits at the first `x`, excluding it from both halves. */
  function SplitOnce(b: Bytes, x: byte): Option<(Bytes, Bytes)>
  {
    var i := IndexOf(b, x);
    if i == |b| then None else Some((b[..i], b[i + 1..]))
  }

  lemma SplitOnceConcat(a: Bytes, x: byte, rest: Bytes)
    requires x !in a
    ensures SplitOnce(a + [x] + rest, x) == Some((a, rest))
  {
    IndexOfConcat(a, x, rest);
    var b := a + [x] + rest;
    assert b[..|a|] == a && b[|a| + 1..] == rest;
  }

  lemma SplitOnceIs(b: Bytes, x: byte)
    ensures SplitOnce(b, x).None? ==> x !in b
    ensures SplitOnce(b, x).Some? ==> var (left, right) := SplitOnce(b, x).value; b == left + [x] + right && x !in left
  {
    hide IndexOf;
    assert b[..|b|] == b;
  }

  /** The parts between the occurrences of `x`, one more than there are occurrences. */
  function Split(b: Bytes, x: byte): (parts: seq<Bytes>)
    ensures parts != []
    decreases |b|
  {
    var i := IndexOf(b, x);
    if i == |b| then [b] else [b[..i]] + Split(b[i + 1..], x)
  }

  lemma SplitConcat(a: Bytes, x: byte, rest: Bytes)
    requires x !in a
    ensures Split(a + [x] + rest, x) == [a] + Split(rest, x)
  {
    SplitOnceConcat(a, x, rest);
  }

  function Join(parts: seq<Bytes>, x: byte): Bytes
    requires parts != []
  {
    if |parts| == 1 then parts[0] else parts[0] + [x] + Join(parts[1..], x)
  }

  ghost predicate Free(parts: seq<Bytes>, x: byte)
  {
    forall i :: 0 <= i < |parts| ==> x !in parts[i]
  }

  lemma {:induction false} SplitOfJoin(parts: seq<Bytes>, x: byte)
    requires parts != [] && Free(parts, x)
    ensures Split(Join(parts, x), x) == parts
    decreases |parts|
  {
    if |parts| == 1 {
      IndexOfAbsent(parts[0], x);
      assert [parts[0]] == parts;
    } else {
      SplitOfJoin(parts[1..], x);
      SplitConcat(parts[0], x, Join(parts[1..], x));
      assert parts == [parts[0]] + parts[1..];
    }
  }

  lemma {:induction false} JoinOfSplit(b: Bytes, x: byte)
    ensures Free(Split(b, x), x) && Join(Split(b, x), x) == b
    decreases |b|
  {
    hide IndexOf;
    var i := IndexOf(b, x);
    if i == |b| {
      assert b[..i] == b;
    } else {
      var head, parts := b[..i], Split(b[i + 1..], x);
      JoinOfSplit(b[i + 1..], x);
      JoinCons(head, parts, x);
      assert Split(b, x) == [head] + parts;
      assert b == head + [x] + b[i + 1..];
    }
  }

  lemma JoinCons(head: Bytes, parts: seq<Bytes>, x: byte)
    requires parts != [] && x !in head && Free(parts, x)
    ensures Free([head] + parts, x) && Join([head] + parts, x) == head + [x] + Join(parts, x)
  {
    assert ([head] + parts)[1..] == parts;
  }

  lemma Associate(a: Bytes, b: Bytes, c: Bytes)
    ensures a + b + c == a + (b + c)
  {
  }

  /** Nonempty and without a line feed. */
  ghost predicate Framed(lines: seq<Bytes>)
  {
    forall i :: 0 <= i < |lines| ==> lines[i] != [] && LF !in lines[i]
  }

  /** The lines, each followed by a line feed. */
  function Terminated(lines: seq<Bytes>): Bytes
  {
    if lines == [] then [] else lines[0] + [LF] + Terminated(lines[1..])
  }

  lemma {:induction false} TerminatedConcat(a: seq<Bytes>, b: seq<Bytes>)
    ensures Terminated(a + b) == Terminated(a) + Terminated(b)
  {
    if a == [] {
      assert a + b == b;
    } else {
      TerminatedConcat(a[1..], b);
      assert (a + b)[0] == a[0] && (a + b)[1..] == a[1..] + b;
      Associate(a[0] + [LF], Terminated(a[1..]), Terminated(b));
    }
  }

  lemma TerminatedOne(line: Bytes)
    ensures Terminated([line]) == line + [LF]
  {
    assert [line][1..] == [];
  }

  lemma {:induction false} TerminatedJoin(lines: seq<Bytes>)
    requires lines != []
    ensures Terminated(lines) == Join(lines, LF) + [LF]
  {
    if |lines| == 1 {
      assert lines[1..] == [];
    } else {
      TerminatedJoin(lines[1..]);
      assert lines[0] + [LF] + (Join(lines[1..], LF) + [LF]) == lines[0] + [LF] + Join(lines[1..], LF) + [LF];
    }
  }

  predicate StartsWith(b: Bytes, prefix: Bytes)
  {
    |prefix| <= |b| && b[..|prefix|] == prefix
  }

  function StripPrefix(b: Bytes, prefix: Bytes): Option<Bytes>
  {
    if StartsWith(b, prefix) then Some(b[|prefix|..]) else None
  }

  lemma StripPrefixConcat(prefix: Bytes, rest: Bytes)
    ensures StripPrefix(prefix + rest, prefix) == Some(rest)
  {
    assert (prefix + rest)[..|prefix|] == prefix && (prefix + rest)[|prefix|..] == rest;
  }

  /** Space, tab, line feed, form feed and carriage return. */
  predicate IsSpace(b: byte)
  {
    b == 32 || b == 9 || b == 10 || b == 12 || b == 13
  }

  function TrimEnd(b: Bytes): Bytes
  {
    if b != [] && IsSpace(b[|b| - 1]) then TrimEnd(b[..|b| - 1]) else b
  }

  function TrimStart(b: Bytes): Bytes
  {
    if b != [] && IsSpace(b[0]) then TrimStart(b[1..]) else b
  }

  ghost predicate AllSpace(b: Bytes)
  {
    forall i :: 0 <= i < |b| ==> IsSpace(b[i])
  }

  lemma SpacesAre(b: byte)
    ensures IsSpace(b) <==> b in {' ' as int, '\t' as int, '\n' as int, '\r' as int, 12}
  {
  }

  /** Trimming takes off all white space at its end and nothing else. */
  lemma {:induction false} TrimEndIs(text: Bytes, space: Bytes)
    requires AllSpace(space) && (text != [] ==> !IsSpace(text[|text| - 1]))
    ensures TrimEnd(text + space) == text
    decreases |space|
  {
    var b := text + space;
    if space == [] {
      assert b == text;
    } else {
      assert b[..|b| - 1] == text + space[..|space| - 1];
      TrimEndIs(text, space[..|space| - 1]);
    }
  }

  lemma {:induction false} TrimStartIs(space: Bytes, text: Bytes)
    requires AllSpace(space) && (text != [] ==> !IsSpace(text[0]))
    ensures TrimStart(space + text) == text
    decreases |space|
  {
    var b := space + text;
    if space == [] {
      assert b == text;
    } else {
      assert b[1..] == space[1..] + text;
      TrimStartIs(space[1..], text);
    }
  }

  lemma {:induction false} TrimStartSplits(b: Bytes) returns (space: Bytes)
    ensures AllSpace(space) && b == space + TrimStart(b)
    ensures TrimStart(b) != [] ==> !IsSpace(TrimStart(b)[0])
    decreases |b|
  {
    if b != [] && IsSpace(b[0]) {
      var rest := TrimStartSplits(b[1..]);
      space := [b[0]] + rest;
      assert b == [b[0]] + b[1..];
      assert [b[0]] + (rest + TrimStart(b)) == space + TrimStart(b);
    } else {
      space := [];
    }
  }

  /** The bytes of an ASCII text. */
  ghost predicate Ascii(b: Bytes, text: string)
  {
    |b| == |text| && forall i :: 0 <= i < |b| ==> b[i] == text[i] as int
  }

  // Decimal numerals.

  predicate IsDigit(b: byte)
  {
    48 <= b <= 57
  }

  ghost predicate AllDigits(b: Bytes)
  {
    forall i :: 0 <= i < |b| ==> IsDigit(b[i])
  }

  function Decimal(n: nat): (b: Bytes)
    ensures b != [] && AllDigits(b)
  {
    if n < 10 then [48 + n] else Decimal(n / 10) + [48 + n % 10]
  }

  function DecimalValue(b: Bytes): nat
    requires AllDigits(b)
  {
    if b == [] then 0 else 10 * DecimalValue(b[..|b| - 1]) + (b[|b| - 1] - 48)
  }

  lemma {:induction false} DecimalRoundTrip(n: nat)
    ensures DecimalValue(Decimal(n)) == n
  {
    if n >= 10 {
      DecimalRoundTrip(n / 10);
      assert Decimal(n)[..|Decimal(n)| - 1] == Decimal(n / 10);
    } else {
      assert Decimal(n)[..0] == [];
    }
  }

  function SignedDecimal(n: int): Bytes
  {
    if n < 0 then [45] + Decimal(-n) else Decimal(n)
  }

  /** How many leading digits there are. */
  function DigitCount(b: Bytes): (n: nat)
    ensures n <= |b| && AllDigits(b[..n]) && (n < |b| ==> !IsDigit(b[n]))
  {
    if b == [] || !IsDigit(b[0]) then 0
    else
      var n := 1 + DigitCount(b[1..]);
      assert forall i :: 0 < i < n ==> b[i] == b[1..][i - 1];
      n
  }

  lemma {:induction false} DigitCountConcat(a: Bytes, rest: Bytes)
    requires AllDigits(a) && (rest == [] || !IsDigit(rest[0]))
    ensures DigitCount(a + rest) == |a|
  {
    if a == [] {
      assert a + rest == rest;
    } else {
      DigitCountConcat(a[1..], rest);
      assert (a + rest)[1..] == a[1..] + rest;
    }
  }

  // Hexadecimal digests.

  function HexDigit(n: nat): byte
    requires n < 16
  {
    if n < 10 then 48 + n else 87 + n
  }

  function HexValue(b: byte): Option<nat>
  {
    if 48 <= b <= 57 then Some(b - 48)
    else if 97 <= b <= 102 then Some(b - 87)
    else if 65 <= b <= 70 then Some(b - 55)
    else None
  }

  function Hex(digest: Bytes): (h: Bytes)
    ensures |h| == 2 * |digest|
  {
    if digest == [] then []
    else [HexDigit(digest[0] / 16), HexDigit(digest[0] % 16)] + Hex(digest[1..])
  }

  function Unhex(h: Bytes): (r: Option<Bytes>)
    requires |h| % 2 == 0
    ensures r.Some? ==> 2 * |r.value| == |h|
  {
    if h == [] then Some([])
    else
      var high, low, rest := HexValue(h[0]), HexValue(h[1]), Unhex(h[2..]);
      if high.None? || low.None? || rest.None? then None
      else Some([16 * high.value + low.value] + rest.value)
  }

  lemma {:induction false} HexRoundTrip(digest: Bytes)
    ensures Unhex(Hex(digest)) == Some(digest)
  {
    if digest != [] {
      HexRoundTrip(digest[1..]);
      var h := Hex(digest);
      assert h[2..] == Hex(digest[1..]);
      assert digest == [digest[0]] + digest[1..];
    }
  }

  /** A digest's digits are never a separator. */
  lemma {:induction false} HexIsPlain(digest: Bytes, x: byte)
    requires x < 48
    ensures x !in Hex(digest)
  {
    if digest != [] { HexIsPlain(digest[1..], x); }
  }

  /** Digits and lower-case letters, the high half of each byte first. */
  lemma {:induction false} HexIsLower(digest: Bytes, i: nat)
    requires i < |digest|
    ensures var h := Hex(digest);
      && (forall k :: 2 * i <= k <= 2 * i + 1 ==> '0' as int <= h[k] <= '9' as int || 'a' as int <= h[k] <= 'f' as int)
      && HexValue(h[2 * i]) == Some(digest[i] / 16) && HexValue(h[2 * i + 1]) == Some(digest[i] % 16)
  {
    if i > 0 {
      HexIsLower(digest[1..], i - 1);
      assert Hex(digest)[2..] == Hex(digest[1..]);
      assert Hex(digest)[2 * i] == Hex(digest)[2..][2 * i - 2] && Hex(digest)[2 * i + 1] == Hex(digest)[2..][2 * i - 1];
    }
  }

  // Order.

  /** Byte strings in dictionary order. */
  predicate Before(a: Bytes, b: Bytes)
  {
    b != [] && (a == [] || a[0] < b[0] || (a[0] == b[0] && Before(a[1..], b[1..])))
  }

  /** After `n` equal bytes, `a` ends or goes on with the smaller byte. */
  ghost predicate SmallerFrom(a: Bytes, b: Bytes, n: nat)
  {
    n <= |a| && n < |b| && a[..n] == b[..n] && (n == |a| || a[n] < b[n])
  }

  lemma SameFirst(a: Bytes, b: Bytes, n: nat)
    requires SmallerFrom(a, b, n) && n > 0
    ensures a != [] && a[0] == b[0]
  {
    assert a[..n][0] == b[..n][0];
  }

  /** The order is decided at the first difference; a proper prefix comes first. */
  lemma {:induction false} BeforeIsFirstDifference(a: Bytes, b: Bytes)
    ensures Before(a, b) <==> exists n: nat :: SmallerFrom(a, b, n)
  {
    if a == [] || b == [] || a[0] != b[0] {
      assert SmallerFrom(a, b, 0) <==> Before(a, b);
      forall n: nat | SmallerFrom(a, b, n) ensures n == 0 {
        if n > 0 { SameFirst(a, b, n); }
      }
    } else {
      BeforeIsFirstDifference(a[1..], b[1..]);
      if Before(a, b) {
        var n: nat :| SmallerFrom(a[1..], b[1..], n);
        assert a[..n + 1] == [a[0]] + a[1..][..n] && b[..n + 1] == [b[0]] + b[1..][..n];
        assert SmallerFrom(a, b, n + 1);
      }
      forall n: nat | SmallerFrom(a, b, n) ensures Before(a, b) {
        assert a[1..][..n - 1] == a[..n][1..] && b[1..][..n - 1] == b[..n][1..];
        assert SmallerFrom(a[1..], b[1..], n - 1);
      }
    }
  }

  lemma {:induction false} BeforeIsTransitive(a: Bytes, b: Bytes, c: Bytes)
    requires Before(a, b) && Before(b, c)
    ensures Before(a, c)
  {
    if a != [] && a[0] == b[0] && b[0] == c[0] {
      BeforeIsTransitive(a[1..], b[1..], c[1..]);
    }
  }

  lemma {:induction false} BeforeIsTotal(a: Bytes, b: Bytes)
    ensures Before(a, b) || a == b || Before(b, a)
    ensures !(Before(a, b) && Before(b, a)) && (a == b ==> !Before(a, b))
  {
    if a != [] && b != [] {
      BeforeIsTotal(a[1..], b[1..]);
      if a[0] == b[0] && a[1..] == b[1..] {
        assert a == [a[0]] + a[1..] && b == [b[0]] + b[1..];
      }
    }
  }
}
