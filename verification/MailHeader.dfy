/**
Mail headers for patches: folding of plain text, and Q-encoded words for the rest. The readers
here follow RFC 5322 section 2.2.3 (unfolding) and RFC 2047 sections 4.2 and 6.2 (encoded words).
*/
module MailHeader {

  import opened Bytes
  import opened ByteStrings
  import opened Options

  /** The bytes of one UTF-8 encoded character. */
  type Char = b: Bytes | 1 <= |b| <= 4 witness [0]

  type Text = seq<Char>

  const QUESTION: byte := 63
  const EQUALS: byte := 61
  const UNDERSCORE: byte := 95
  // "=?UTF-8?q?" and "?=".
  const START: Bytes := [61, 63, 85, 84, 70, 45, 56, 63, 113, 63]
  const END: Bytes := [63, 61]
  const FOLD: Bytes := [LF, SPACE]

  function Flatten(text: Text): Bytes
  {
    if text == [] then [] else text[0] + Flatten(text[1..])
  }

  /** Bytes on the last line so far. */
  function Column(out: Bytes): nat
  {
    if out == [] || out[|out| - 1] == LF then 0 else 1 + Column(out[..|out| - 1])
  }

  // Encoding.

  predicate Literal(b: byte)
  {
    33 <= b <= 126 && b != EQUALS && b != QUESTION && b != UNDERSCORE
  }

  function UpperHex(n: nat): byte
    requires n < 16
  {
    if n < 10 then 48 + n else 55 + n
  }

  function EncodeByte(b: byte): Bytes
  {
    if Literal(b) then [b] else [EQUALS, UpperHex(b / 16), UpperHex(b % 16)]
  }

  /** Visible ASCII stands for itself, but not "=", "?" or "_"; every other byte is "=" and two upper-case digits. */
  lemma EncodedByteIs(b: byte)
    ensures '!' as int <= b <= '~' as int && b !in {'=' as int, '?' as int, '_' as int} ==> EncodeByte(b) == [b]
    ensures !('!' as int <= b <= '~' as int) || b in {'=' as int, '?' as int, '_' as int} ==>
      var e := EncodeByte(b);
      && |e| == 3 && e[0] == '=' as int
      && (forall i :: 1 <= i < 3 ==> '0' as int <= e[i] <= '9' as int || 'A' as int <= e[i] <= 'F' as int)
      && HexValue(e[1]) == Some(b / 16) && HexValue(e[2]) == Some(b % 16)
  {
  }

  lemma FramingIsSpelled()
    ensures Ascii(START, "=?UTF-8?q?") && Ascii(END, "?=") && Ascii(FOLD, "\n ")
  {
  }

  function EncodeBytes(b: Bytes): Bytes
  {
    if b == [] then [] else EncodeByte(b[0]) + EncodeBytes(b[1..])
  }

  /** One encoded word holding whole characters. */
  function EncodedWord(text: Text): Bytes
  {
    START + EncodeBytes(Flatten(text)) + END
  }

  function EncodedWords(words: seq<Text>): Bytes
    requires words != []
  {
    if |words| == 1 then EncodedWord(words[0]) else EncodedWord(words[0]) + FOLD + EncodedWords(words[1..])
  }

  function Concat(words: seq<Text>): Text
  {
    if words == [] then [] else words[0] + Concat(words[1..])
  }

  lemma {:induction false} EncodeConcat(a: Bytes, b: Bytes)
    ensures EncodeBytes(a + b) == EncodeBytes(a) + EncodeBytes(b)
  {
    hide EncodeByte;
    if a == [] {
      assert a + b == b;
    } else {
      EncodeConcat(a[1..], b);
      assert (a + b)[0] == a[0] && (a + b)[1..] == a[1..] + b;
      Associate(EncodeByte(a[0]), EncodeBytes(a[1..]), EncodeBytes(b));
    }
  }

  lemma {:induction false} FlattenConcat(a: Text, b: Text)
    ensures Flatten(a + b) == Flatten(a) + Flatten(b)
  {
    if a == [] {
      assert a + b == b;
    } else {
      FlattenConcat(a[1..], b);
      assert (a + b)[0] == a[0] && (a + b)[1..] == a[1..] + b;
      Associate(a[0], Flatten(a[1..]), Flatten(b));
    }
  }

  // Decoding.

  function DecodeBytes(b: Bytes): Option<Bytes>
  {
    if b == [] then Some([])
    else if b[0] == EQUALS then
      if |b| < 3 then None
      else
        var high, low, rest := HexValue(b[1]), HexValue(b[2]), DecodeBytes(b[3..]);
        if high.None? || low.None? || rest.None? then None
        else Some([16 * high.value + low.value] + rest.value)
    else
      var rest := DecodeBytes(b[1..]);
      if rest.None? then None else Some([if b[0] == UNDERSCORE then SPACE else b[0]] + rest.value)
  }

  /** Adjacent encoded words, joined without the fold between them. */
  function DecodeWords(b: Bytes): Option<Bytes>
    decreases |b|
  {
    if !StartsWith(b, START) then None
    else
      var body := b[|START|..];
      var end := IndexOf(body, QUESTION);
      if !StartsWith(body[end..], END) then None
      else
        var value, rest := DecodeBytes(body[..end]), body[end + |END|..];
        if value.None? then None
        else if rest == [] then value
        else if !StartsWith(rest, FOLD) then None
        else
          var others := DecodeWords(rest[|FOLD|..]);
          if others.None? then None else Some(value.value + others.value)
  }

  lemma ByteRoundTrip(b: byte, rest: Bytes)
    ensures DecodeBytes(EncodeByte(b) + rest)
      == if DecodeBytes(rest).None? then None else Some([b] + DecodeBytes(rest).value)
    ensures QUESTION !in EncodeByte(b) && LF !in EncodeByte(b)
  {
    hide DecodeBytes;
    if Literal(b) {
      ReadLiteral(b, rest);
    } else {
      var high, low := UpperHex(b / 16), UpperHex(b % 16);
      assert HexValue(high) == Some(b / 16) && HexValue(low) == Some(b % 16);
      var e := EncodeByte(b) + rest;
      assert e[0] == EQUALS && e[1] == high && e[2] == low && e[3..] == rest;
      ReadEscape(e);
    }
  }

  lemma ReadLiteral(b: byte, rest: Bytes)
    requires Literal(b)
    ensures DecodeBytes([b] + rest) == if DecodeBytes(rest).None? then None else Some([b] + DecodeBytes(rest).value)
  {
    assert ([b] + rest)[1..] == rest;
  }

  lemma ReadEscape(b: Bytes)
    requires |b| >= 3 && b[0] == EQUALS && HexValue(b[1]).Some? && HexValue(b[2]).Some?
    ensures DecodeBytes(b) ==
      if DecodeBytes(b[3..]).None? then None
      else Some([16 * HexValue(b[1]).value + HexValue(b[2]).value] + DecodeBytes(b[3..]).value)
  {
    hide HexValue;
  }

  lemma {:induction false} BytesRoundTrip(b: Bytes)
    ensures DecodeBytes(EncodeBytes(b)) == Some(b)
    ensures QUESTION !in EncodeBytes(b) && LF !in EncodeBytes(b)
  {
    hide EncodeByte, DecodeBytes;
    if b == [] {
      DecodeNothing();
    } else {
      BytesRoundTrip(b[1..]);
      ByteRoundTrip(b[0], EncodeBytes(b[1..]));
      assert b == [b[0]] + b[1..];
    }
  }

  lemma DecodeNothing()
    ensures DecodeBytes([]) == Some([])
  {
  }

  lemma WordThenRest(text: Text, rest: Bytes)
    ensures DecodeWords(EncodedWord(text) + rest) ==
      if rest == [] then Some(Flatten(text))
      else if !StartsWith(rest, FOLD) then None
      else if DecodeWords(rest[|FOLD|..]).None? then None
      else Some(Flatten(text) + DecodeWords(rest[|FOLD|..]).value)
  {
    hide EncodeBytes, DecodeBytes, IndexOf;
    var payload := EncodeBytes(Flatten(text));
    BytesRoundTrip(Flatten(text));
    var b := EncodedWord(text) + rest;
    var body := payload + END + rest;
    assert b[..|START|] == START && b[|START|..] == body;
    IndexOfConcat(payload, QUESTION, [EQUALS] + rest);
    assert body == payload + [QUESTION] + ([EQUALS] + rest);
    assert body[..|payload|] == payload;
    assert body[|payload|..] == END + rest;
    assert body[|payload|..][..|END|] == END && body[|payload| + |END|..] == rest;
  }

  /** Encoded words decode to the text they hold. */
  lemma {:induction false} WordsRoundTrip(words: seq<Text>)
    requires words != []
    ensures DecodeWords(EncodedWords(words)) == Some(Flatten(Concat(words)))
  {
    hide EncodedWord, DecodeWords;
    if |words| == 1 {
      WordThenRest(words[0], []);
      assert EncodedWord(words[0]) + [] == EncodedWord(words[0]);
      assert Concat(words) == words[0];
    } else {
      var others := words[1..];
      WordsRoundTrip(others);
      var rest := FOLD + EncodedWords(others);
      WordThenRest(words[0], rest);
      assert EncodedWords(words) == EncodedWord(words[0]) + rest;
      assert rest[..|FOLD|] == FOLD && rest[|FOLD|..] == EncodedWords(others);
      FlattenConcat(words[0], Concat(others));
    }
  }

  // Writing.

  /**
  Lines after the first stay within 76 columns, and so does a first word that holds text; a
  word starts only where its first character would not have fitted the line before.
  */
  ghost predicate Fits(column: nat, words: seq<Text>)
  {
    && (forall i: nat :: 0 < i < |words| ==>
          words[i] != [] && 1 + |EncodedWord(words[i])| <= 76 && Overfull(column, words, i))
    && (words != [] && words[0] != [] ==> column + |EncodedWord(words[0])| <= 76)
  }

  ghost predicate Overfull(column: nat, words: seq<Text>, i: nat)
    requires 0 < i < |words| && words[i] != []
  {
    (if i == 1 then column else 1) + |EncodedWord(words[i - 1])| + |EncodeBytes(words[i][0])| > 76
  }

  /** The words without the last one's ending, as the writer holds them. */
  function OpenWords(words: seq<Text>): Bytes
    requires words != []
  {
    if |words| == 1 then START + EncodeBytes(Flatten(words[0]))
    else EncodedWord(words[0]) + FOLD + OpenWords(words[1..])
  }

  lemma {:induction false} CloseWords(words: seq<Text>)
    requires words != []
    ensures OpenWords(words) + END == EncodedWords(words)
  {
    hide EncodeBytes;
    if |words| > 1 {
      CloseWords(words[1..]);
      Associate(EncodedWord(words[0]) + FOLD, OpenWords(words[1..]), END);
    }
  }

  /** Ends the last word and opens an empty one on the next line. */
  lemma {:induction false} OpenNext(words: seq<Text>)
    requires words != []
    ensures OpenWords(words + [[]]) == OpenWords(words) + END + FOLD + START
    ensures Concat(words + [[]]) == Concat(words)
    decreases |words|
  {
    hide EncodeBytes;
    var more := words + [[]];
    if |words| == 1 {
      assert more[1..] == [[]];
      OpenNothing();
      assert Concat(more) == words[0] + Concat([[]]);
    } else {
      OpenNext(words[1..]);
      assert more[1..] == words[1..] + [[]];
      var head, tail := EncodedWord(words[0]) + FOLD, OpenWords(words[1..]);
      Associate(head, tail, END);
      Associate(head, tail + END, FOLD);
      Associate(head, tail + END + FOLD, START);
    }
  }

  lemma OpenNothing()
    ensures OpenWords([[]]) == START && Concat([[]]) == []
  {
    assert Flatten([]) == [] && EncodeBytes([]) == [];
  }

  function WithLast(words: seq<Text>, c: Char): seq<Text>
    requires words != []
  {
    words[..|words| - 1] + [words[|words| - 1] + [c]]
  }

  lemma LongerText(text: Text, c: Char)
    ensures EncodeBytes(Flatten(text + [c])) == EncodeBytes(Flatten(text)) + EncodeBytes(c)
  {
    hide EncodeBytes;
    FlattenConcat(text, [c]);
    assert Flatten([c]) == c by { assert [c][1..] == []; assert c + [] == c; }
    EncodeConcat(Flatten(text), c);
  }

  lemma LongerWord(text: Text, c: Char)
    ensures |EncodedWord(text + [c])| == |EncodedWord(text)| + |EncodeBytes(c)|
  {
    hide EncodeBytes, Flatten;
    LongerText(text, c);
  }

  /** Adds a whole character to the last word. */
  lemma {:induction false} ExtendLast(words: seq<Text>, c: Char)
    requires words != []
    ensures OpenWords(WithLast(words, c)) == OpenWords(words) + EncodeBytes(c)
    ensures Concat(WithLast(words, c)) == Concat(words) + [c]
    decreases |words|
  {
    hide EncodeBytes, EncodedWord;
    var more := WithLast(words, c);
    if |words| == 1 {
      LongerText(words[0], c);
      assert more == [words[0] + [c]];
      Associate(START, EncodeBytes(Flatten(words[0])), EncodeBytes(c));
    } else {
      ExtendLast(words[1..], c);
      assert more[1..] == WithLast(words[1..], c);
      Associate(EncodedWord(words[0]) + FOLD, OpenWords(words[1..]), EncodeBytes(c));
      assert words[0] + (Concat(words[1..]) + [c]) == words[0] + Concat(words[1..]) + [c];
    }
  }

  ghost function LineStart(prefix: Bytes, words: seq<Text>): nat
  {
    if |words| == 1 then Column(prefix) else 1
  }

  /** The writer's state: its words hold the text so far and `column` is where the line stands. */
  ghost predicate Writing(prefix: Bytes, out: Bytes, column: nat, words: seq<Text>, text: Text)
  {
    && words != []
    && out == prefix + OpenWords(words)
    && Concat(words) == text
    && Fits(Column(prefix), words)
    && column + 2 == LineStart(prefix, words) + |EncodedWord(words[|words| - 1])|
    && (words[0] == [] ==> text == [] || TooWide(Column(prefix), text[0]))
    && (words[0] != [] ==> text != [] && !TooWide(Column(prefix), text[0]))
  }

  predicate TooWide(column: nat, c: Char)
  {
    column + 10 + |EncodeBytes(c)| + 2 > 76
  }

  lemma {:induction false} GroupIsShort(b: Bytes)
    ensures |EncodeBytes(b)| <= 3 * |b|
  {
    if b != [] { GroupIsShort(b[1..]); }
  }

  lemma WritingStarts(prefix: Bytes)
    ensures Writing(prefix, prefix + START, Column(prefix) + 10, [[]], [])
  {
    OpenNothing();
  }

  lemma FitsExtends(column: nat, words: seq<Text>, c: Char)
    requires words != [] && Fits(column, words)
    requires (if |words| == 1 then column else 1) + |EncodedWord(words[|words| - 1])| + |EncodeBytes(c)| <= 76
    ensures Fits(column, WithLast(words, c))
  {
    hide EncodeBytes, EncodedWord;
    var n := |words| - 1;
    var more := WithLast(words, c);
    LongerWord(words[n], c);
    forall i: nat | 0 < i < |more|
      ensures more[i] != [] && 1 + |EncodedWord(more[i])| <= 76 && Overfull(column, more, i)
    {
      assert words[i] != [] && Overfull(column, words, i);
      assert more[i - 1] == words[i - 1] && more[i][0] == words[i][0];
      if i == n { assert more[i] == words[n] + [c]; } else { assert more[i] == words[i]; }
    }
    if n == 0 { assert more[0] == words[0] + [c]; } else { assert more[0] == words[0]; }
  }

  lemma FitsFolds(column: nat, words: seq<Text>, c: Char)
    requires words != [] && Fits(column, words)
    requires (if |words| == 1 then column else 1) + |EncodedWord(words[|words| - 1])| + |EncodeBytes(c)| > 76
    ensures Fits(column, words + [[c]]) && |EncodedWord([c])| == 12 + |EncodeBytes(c)|
  {
    hide EncodeBytes, EncodedWord;
    var n := |words|;
    var more := words + [[c]];
    GroupIsShort(c);
    LongerWord([], c);
    assert [] + [c] == [c];
    EmptyWord();
    forall i: nat | 0 < i < |more|
      ensures more[i] != [] && 1 + |EncodedWord(more[i])| <= 76 && Overfull(column, more, i)
    {
      assert more[i - 1] == words[i - 1];
      if i < n {
        assert words[i] != [] && Overfull(column, words, i);
        assert more[i] == words[i];
      } else {
        assert more[i] == [c];
      }
    }
    assert more[0] == words[0];
  }

  lemma WritingExtends(prefix: Bytes, out: Bytes, column: nat, words: seq<Text>, text: Text, c: Char)
    requires Writing(prefix, out, column, words, text) && column + |EncodeBytes(c)| + 2 <= 76
    ensures Writing(prefix, out + EncodeBytes(c), column + |EncodeBytes(c)|, WithLast(words, c), text + [c])
  {
    hide EncodeBytes, OpenWords, Concat, Column, Flatten, EncodedWord, Fits;
    var n := |words| - 1;
    var more := WithLast(words, c);
    ExtendLast(words, c);
    LongerWord(words[n], c);
    FitsExtends(Column(prefix), words, c);
    assert n > 0 ==> more[0] == words[0];
    assert more[n] == words[n] + [c];
    Associate(prefix, OpenWords(words), EncodeBytes(c));
    NonEmptyWords(Column(prefix), words);
    FirstWordIsAll(words);
    if text == [] {
      EmptyWord();
      assert (text + [c])[0] == c;
    } else {
      assert (text + [c])[0] == text[0];
    }
  }

  lemma NonEmptyWords(column: nat, words: seq<Text>)
    requires Fits(column, words)
    ensures forall i :: 0 < i < |words| ==> words[i] != []
  {
  }

  lemma EmptyWord()
    ensures |EncodedWord([])| == 12
  {
    assert Flatten([]) == [] && EncodeBytes([]) == [];
  }

  lemma {:induction false} ConcatHolds(words: seq<Text>, i: nat)
    requires i < |words|
    ensures |Concat(words)| >= |words[i]|
    decreases i
  {
    if i > 0 { ConcatHolds(words[1..], i - 1); }
  }

  /** No text so far means that there is only an empty first word, and conversely. */
  lemma FirstWordIsAll(words: seq<Text>)
    requires words != [] && forall i :: 0 < i < |words| ==> words[i] != []
    ensures Concat(words) == [] <==> words == [[]]
  {
    ConcatHolds(words, |words| - 1);
    if |words| == 1 { assert words == [words[0]] && Concat(words) == words[0]; }
  }

  lemma WritingFolds(prefix: Bytes, out: Bytes, column: nat, words: seq<Text>, text: Text, c: Char)
    requires Writing(prefix, out, column, words, text) && column + |EncodeBytes(c)| + 2 > 76
    ensures Writing(prefix, out + END + FOLD + START + EncodeBytes(c), 11 + |EncodeBytes(c)|, words + [[c]], text + [c])
  {
    hide EncodeBytes, OpenWords, Concat, Column, Flatten, EncodedWord, Fits;
    var more := words + [[]];
    OpenNext(words);
    ExtendLast(more, c);
    assert more[..|words|] == words && more[|words|] + [c] == [c];
    assert WithLast(more, c) == words + [[c]];
    FitsFolds(Column(prefix), words, c);
    NonEmptyWords(Column(prefix), words);
    FirstWordIsAll(words);
    EmptyWord();
    assert (words + [[c]])[0] == words[0];
    if text == [] {
      assert (text + [c])[0] == c;
    } else {
      assert (text + [c])[0] == text[0];
    }
  }

  /**
  The output is these words after the prefix, holding whole characters of the text. Only the
  first can be empty, and it is so exactly when the text is or its first character does not fit.
  */
  ghost predicate LaidOut(prefix: Bytes, text: Text, out: Bytes, words: seq<Text>)
  {
    && words != []
    && out == prefix + EncodedWords(words)
    && Concat(words) == text
    && Fits(Column(prefix), words)
    && (words[0] == [] <==> text == [] || TooWide(Column(prefix), text[0]))
  }

  /**
  Writes encoded words after `prefix`. They decode to the text, hold whole characters, and lines
  after the first keep to 76 columns. Only the first word can be empty.
  */
  method Encoded(prefix: Bytes, text: Text) returns (out: Bytes)
    ensures prefix <= out && DecodeWords(out[|prefix|..]) == Some(Flatten(text))
    ensures exists words :: LaidOut(prefix, text, out, words)
  {
    hide EncodeBytes, OpenWords, Concat, Column, Flatten, Fits, DecodeWords, EncodedWord, TooWide;
    ghost var words: seq<Text>;
    var column: nat := Column(prefix);
    out := prefix + START;
    column := column + 10;
    words := [[]];
    WritingStarts(prefix);
    var i := 0;
    while i < |text|
      invariant i <= |text| && Writing(prefix, out, column, words, text[..i])
    {
      var group := EncodeBytes(text[i]);
      assert text[..i + 1] == text[..i] + [text[i]];
      if column + |group| + 2 > 76 {
        WritingFolds(prefix, out, column, words, text[..i], text[i]);
        words := words + [[text[i]]];
        out := out + END + FOLD + START;
        column := 11;
      } else {
        WritingExtends(prefix, out, column, words, text[..i], text[i]);
        words := WithLast(words, text[i]);
      }
      out := out + group;
      column := column + |group|;
      i := i + 1;
    }
    assert text[..i] == text;
    CloseWords(words);
    Associate(prefix, OpenWords(words), END);
    out := out + END;
    assert out[|prefix|..] == EncodedWords(words);
    WordsRoundTrip(words);
    assert LaidOut(prefix, text, out, words);
  }

  // Folding.

  /** Takes out every line feed that a space or tab follows. */
  function Unfold(b: Bytes): Bytes
  {
    if b == [] then []
    else if b[0] == LF && |b| > 1 && (b[1] == SPACE || b[1] == 9) then Unfold(b[1..])
    else [b[0]] + Unfold(b[1..])
  }

  function JoinBy(parts: seq<Bytes>, separator: Bytes): Bytes
    requires parts != []
  {
    if |parts| == 1 then parts[0] else parts[0] + separator + JoinBy(parts[1..], separator)
  }

  lemma {:induction false} JoinByByte(parts: seq<Bytes>, x: byte)
    requires parts != []
    ensures JoinBy(parts, [x]) == Join(parts, x)
  {
    if |parts| > 1 { JoinByByte(parts[1..], x); }
  }

  lemma {:induction false} AppendPart(parts: seq<Bytes>, part: Bytes, separator: Bytes)
    requires parts != []
    ensures JoinBy(parts + [part], separator) == JoinBy(parts, separator) + separator + part
    decreases |parts|
  {
    var more := parts + [part];
    if |parts| == 1 {
      assert more[1..] == [part];
    } else {
      AppendPart(parts[1..], part, separator);
      assert more[1..] == parts[1..] + [part];
      Associate(parts[0] + separator, JoinBy(parts[1..], separator), separator);
      Associate(parts[0] + separator, JoinBy(parts[1..], separator) + separator, part);
    }
  }

  function Lengthened(parts: seq<Bytes>, suffix: Bytes): seq<Bytes>
    requires parts != []
  {
    parts[..|parts| - 1] + [parts[|parts| - 1] + suffix]
  }

  lemma {:induction false} LengthenPart(parts: seq<Bytes>, suffix: Bytes, separator: Bytes)
    requires parts != []
    ensures JoinBy(Lengthened(parts, suffix), separator) == JoinBy(parts, separator) + suffix
    decreases |parts|
  {
    var more := Lengthened(parts, suffix);
    if |parts| > 1 {
      LengthenPart(parts[1..], suffix, separator);
      assert more[1..] == Lengthened(parts[1..], suffix);
      Associate(parts[0] + separator, JoinBy(parts[1..], separator), suffix);
    }
  }

  lemma {:induction false} UnfoldPlain(a: Bytes, b: Bytes)
    requires LF !in a
    ensures Unfold(a + b) == a + Unfold(b)
  {
    if a == [] {
      assert a + b == b;
    } else {
      UnfoldPlain(a[1..], b);
      assert (a + b)[1..] == a[1..] + b;
    }
  }

  /** Folding replaces spaces by folds; unfolding puts them back. */
  lemma {:induction false} UnfoldFolded(lines: seq<Bytes>)
    requires lines != [] && Free(lines, LF)
    ensures Unfold(JoinBy(lines, FOLD)) == JoinBy(lines, [SPACE])
    decreases |lines|
  {
    if |lines| == 1 {
      UnfoldPlain(lines[0], []);
      assert lines[0] + [] == lines[0];
    } else {
      var rest := JoinBy(lines[1..], FOLD);
      UnfoldFolded(lines[1..]);
      UnfoldPlain(lines[0], FOLD + rest);
      assert lines[0] + FOLD + rest == lines[0] + (FOLD + rest);
      assert (FOLD + rest)[1..] == [SPACE] + rest;
      assert ([SPACE] + rest)[1..] == rest;
    }
  }

  /**
  Each line keeps to 78 columns or is a single word that no fold can shorten, and folds come
  only where the next word would not have fitted.
  */
  ghost predicate Narrow(column: nat, lines: seq<Bytes>)
  {
    && (forall i :: 0 <= i < |lines| ==> (if i == 0 then column else 1) + |lines[i]| <= 78 || SPACE !in lines[i])
    && (forall i: nat :: 0 < i < |lines| ==> Forced(column, lines, i))
  }

  ghost predicate Forced(column: nat, lines: seq<Bytes>, i: nat)
    requires 0 < i < |lines|
  {
    (if i == 1 then column else 1) + |lines[i - 1]| + 1 + IndexOf(lines[i], SPACE) > 78
  }

  lemma {:induction false} FirstWordStays(line: Bytes, word: Bytes)
    ensures IndexOf(line + ([SPACE] + word), SPACE) == IndexOf(line, SPACE)
  {
    var longer := line + ([SPACE] + word);
    if line == [] {
      assert longer[0] == SPACE;
    } else {
      FirstWordStays(line[1..], word);
      assert longer[0] == line[0] && longer[1..] == line[1..] + ([SPACE] + word);
    }
  }

  ghost predicate Folding(prefix: Bytes, out: Bytes, column: nat, lines: seq<Bytes>, words: seq<Bytes>)
  {
    && lines != [] && words != []
    && out == prefix + JoinBy(lines, FOLD)
    && JoinBy(lines, [SPACE]) == JoinBy(words, [SPACE])
    && Narrow(Column(prefix), lines)
    && column == (if |lines| == 1 then Column(prefix) else 1) + |lines[|lines| - 1]|
  }

  lemma FoldingBreaks(prefix: Bytes, out: Bytes, column: nat, lines: seq<Bytes>, words: seq<Bytes>, word: Bytes)
    requires Folding(prefix, out, column, lines, words) && SPACE !in word && column + 1 + |word| > 78
    ensures Folding(prefix, out + FOLD + word, 1 + |word|, lines + [word], words + [word])
  {
    hide JoinBy, Column, IndexOf;
    IndexOfAbsent(word, SPACE);
    var more := lines + [word];
    forall i: nat | 0 < i < |more| ensures Forced(Column(prefix), more, i) {
      if i < |lines| { assert Forced(Column(prefix), lines, i); }
    }
    AppendPart(lines, word, FOLD);
    AppendPart(lines, word, [SPACE]);
    AppendPart(words, word, [SPACE]);
    Associate(prefix, JoinBy(lines, FOLD), FOLD);
    Associate(prefix, JoinBy(lines, FOLD) + FOLD, word);
  }

  lemma FoldingContinues(prefix: Bytes, out: Bytes, column: nat, lines: seq<Bytes>, words: seq<Bytes>, word: Bytes)
    requires Folding(prefix, out, column, lines, words) && column + 1 + |word| <= 78
    ensures Folding(prefix, out + [SPACE] + word, column + 1 + |word|, Lengthened(lines, [SPACE] + word), words + [word])
  {
    hide JoinBy, Column, IndexOf;
    FirstWordStays(lines[|lines| - 1], word);
    var more := Lengthened(lines, [SPACE] + word);
    forall i: nat | 0 < i < |more| ensures Forced(Column(prefix), more, i) {
      assert Forced(Column(prefix), lines, i);
    }
    LengthenPart(lines, [SPACE] + word, FOLD);
    LengthenPart(lines, [SPACE] + word, [SPACE]);
    AppendPart(words, word, [SPACE]);
    Associate(prefix, JoinBy(lines, FOLD), [SPACE] + word);
    Associate(JoinBy(lines, [SPACE]), [SPACE], word);
    Associate(out, [SPACE], word);
  }

  /** The text with its lines apart at some of its spaces, and the output with folds there. */
  ghost predicate FoldedInto(prefix: Bytes, text: Bytes, out: Bytes, lines: seq<Bytes>)
  {
    && lines != []
    && out == prefix + JoinBy(lines, FOLD)
    && text == JoinBy(lines, [SPACE])
    && Narrow(Column(prefix), lines)
  }

  /** Writes the text with folds for some of its spaces; a receiver unfolds it to the text. */
  method Folded(prefix: Bytes, text: Bytes) returns (out: Bytes)
    ensures exists lines :: FoldedInto(prefix, text, out, lines)
    ensures prefix <= out && (LF !in text ==> Unfold(out[|prefix|..]) == text)
  {
    hide JoinBy, Column, Split, Unfold, Narrow;
    ghost var lines: seq<Bytes>;
    var words := Split(text, SPACE);
    var column: nat := Column(prefix);
    JoinOfSplit(text, SPACE);
    JoinByByte(words, SPACE);
    out := prefix + words[0];
    column := column + |words[0]|;
    lines := [words[0]];
    FoldingStarts(prefix, words);
    var index := 1;
    while index < |words|
      invariant 1 <= index <= |words| && Folding(prefix, out, column, lines, words[..index])
    {
      var word := words[index];
      assert words[..index + 1] == words[..index] + [word];
      if column + 1 + |word| > 78 {
        FoldingBreaks(prefix, out, column, lines, words[..index], word);
        lines := lines + [word];
        out := out + FOLD;
        column := 1;
      } else {
        FoldingContinues(prefix, out, column, lines, words[..index], word);
        lines := Lengthened(lines, [SPACE] + word);
        out := out + [SPACE];
        column := column + 1;
      }
      out := out + word;
      column := column + |word|;
      index := index + 1;
    }
    assert words[..index] == words;
    assert out[|prefix|..] == JoinBy(lines, FOLD);
    assert FoldedInto(prefix, text, out, lines);
    if LF !in text {
      PartsAreFree(lines, [SPACE], LF);
      UnfoldFolded(lines);
    }
  }

  lemma FoldingStarts(prefix: Bytes, words: seq<Bytes>)
    requires words != [] && Free(words, SPACE)
    ensures Folding(prefix, prefix + words[0], Column(prefix) + |words[0]|, [words[0]], words[..1])
  {
    hide Column;
    assert words[..1] == [words[0]];
  }

  lemma {:induction false} PartsAreFree(parts: seq<Bytes>, separator: Bytes, x: byte)
    requires parts != [] && x !in JoinBy(parts, separator)
    ensures Free(parts, x)
    decreases |parts|
  {
    if |parts| > 1 {
      var rest := JoinBy(parts[1..], separator);
      assert forall b :: b in parts[0] || b in rest ==> b in parts[0] + separator + rest;
      PartsAreFree(parts[1..], separator, x);
    }
  }

  /** A subject that fits nothing on its prefix's line is written with an empty first word. */
  lemma EmptyFirstWordExample()
    ensures var prefix: Bytes := seq(64, _ => 91);
      forall out, words :: LaidOut(prefix, [[195, 169]], out, words) ==> words[0] == []
  {
    var prefix: Bytes := seq(64, _ => 91);
    LongColumn(prefix);
    assert EncodeBytes([195, 169]) == EncodeByte(195) + EncodeBytes([169]) by { assert [195, 169][1..] == [169]; }
    assert |EncodeBytes([195, 169])| >= 3;
  }

  lemma {:induction false} LongColumn(b: Bytes)
    requires LF !in b
    ensures Column(b) == |b|
  {
    if b != [] { LongColumn(b[..|b| - 1]); }
  }
}
