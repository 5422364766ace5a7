/** Paths as Git prints them: unchanged when plain, otherwise quoted with escapes. */
module QuotePath {

  import opened Bytes
  import opened Options

  const QUOTE: byte := 34
  const BACKSLASH: byte := 92

  predicate NeedsEscape(b: byte)
  {
    !(0x20 <= b < 0x7f) || b == QUOTE || b == BACKSLASH
  }

  /** The letter after the backslash, for the bytes that have one. */
  function EscapeLetter(b: byte): Option<byte>
  {
    if b == QUOTE || b == BACKSLASH then Some(b)
    else if b == 7 then Some(97)
    else if b == 8 then Some(98)
    else if b == 9 then Some(116)
    else if b == 10 then Some(110)
    else if b == 11 then Some(118)
    else if b == 12 then Some(102)
    else if b == 13 then Some(114)
    else None
  }

  function EscapeByte(b: byte): Bytes
  {
    if EscapeLetter(b).Some? then [BACKSLASH, EscapeLetter(b).value]
    else if NeedsEscape(b) then [BACKSLASH, 48 + b / 64, 48 + b / 8 % 8, 48 + b % 8]
    else [b]
  }

  function Escaped(path: Bytes): Bytes
  {
    if path == [] then [] else Escaped(path[..|path| - 1]) + EscapeByte(path[|path| - 1])
  }

  predicate Plain(path: Bytes)
  {
    forall i :: 0 <= i < |path| ==> !NeedsEscape(path[i])
  }

  // Reading.

  function LetterMeaning(b: byte): Option<byte>
  {
    if b == QUOTE || b == BACKSLASH then Some(b)
    else if b == 97 then Some(7)
    else if b == 98 then Some(8)
    else if b == 116 then Some(9)
    else if b == 110 then Some(10)
    else if b == 118 then Some(11)
    else if b == 102 then Some(12)
    else if b == 114 then Some(13)
    else None
  }

  predicate Octal(b: byte)
  {
    48 <= b < 56
  }

  /** The byte that an escape at the start stands for, and the escape's length. */
  function ReadByte(b: Bytes): Option<(byte, nat)>
    requires b != []
  {
    if b[0] != BACKSLASH then Some((b[0], 1))
    else if |b| > 1 && LetterMeaning(b[1]).Some? then Some((LetterMeaning(b[1]).value, 2))
    else if |b| > 3 && 48 <= b[1] < 52 && Octal(b[2]) && Octal(b[3]) then
      Some((64 * (b[1] - 48) + 8 * (b[2] - 48) + (b[3] - 48), 4))
    else None
  }

  /** What follows an opening quote, up to the closing quote that must end it. */
  function Unescape(b: Bytes): Option<Bytes>
    decreases |b|
  {
    if b == [] then None
    else if b[0] == QUOTE then (if |b| == 1 then Some([]) else None)
    else
      match ReadByte(b)
      case None => None
      case Some((byte, length)) =>
        var rest := Unescape(b[length..]);
        if rest.None? then None else Some([byte] + rest.value)
  }

  function Unquote(text: Bytes): Option<Bytes>
  {
    if text != [] && text[0] == QUOTE then Unescape(text[1..]) else Some(text)
  }

  lemma ByteIsRead(b: byte, rest: Bytes)
    ensures var e := EscapeByte(b);
      && 1 <= |e| && e[0] != QUOTE
      && ReadByte(e + rest) == Some((b, |e|))
      && forall i :: 0 <= i < |e| ==> 0x20 <= e[i] < 0x7f
  {
    var e := EscapeByte(b);
    assert (e + rest)[0] == e[0];
    if EscapeLetter(b).None? && NeedsEscape(b) {
      assert b == 64 * (b / 64) + 8 * (b / 8 % 8) + b % 8;
    }
  }

  /** Printable bytes stand for themselves; the others are a letter or three octal digits after a backslash. */
  lemma EscapeIs(b: byte)
    ensures 0x20 <= b < 0x7f && b != '\"' as int && b != '\\' as int ==> EscapeByte(b) == [b]
    ensures b == '\"' as int || b == '\\' as int ==> EscapeByte(b) == ['\\' as int, b]
    ensures 7 <= b <= 13 ==> EscapeByte(b) == ['\\' as int, "abtnvfr"[b - 7] as int]
    ensures b < 7 || 13 < b < 0x20 || 0x7f <= b ==>
      var e := EscapeByte(b);
      && |e| == 4 && e[0] == '\\' as int && (forall i :: 1 <= i < 4 ==> '0' as int <= e[i] <= '7' as int)
      && b == 64 * (e[1] - '0' as int) + 8 * (e[2] - '0' as int) + (e[3] - '0' as int)
  {
    assert b == 64 * (b / 64) + 8 * (b / 8 % 8) + b % 8;
  }

  lemma {:induction false} EscapedSplits(path: Bytes)
    requires path != []
    ensures Escaped(path) == EscapeByte(path[0]) + Escaped(path[1..])
    decreases |path|
  {
    hide EscapeByte;
    if |path| == 1 {
      assert path[..0] == [] && path[1..] == [];
    } else {
      var short := path[..|path| - 1];
      EscapedSplits(short);
      assert short[1..] == path[1..][..|path| - 2];
      assert EscapeByte(path[0]) + (Escaped(short[1..]) + EscapeByte(path[|path| - 1]))
        == EscapeByte(path[0]) + Escaped(short[1..]) + EscapeByte(path[|path| - 1]);
    }
  }

  lemma {:induction false} EscapedIsRead(path: Bytes)
    ensures Unescape(Escaped(path) + [QUOTE]) == Some(path)
    ensures forall i :: 0 <= i < |Escaped(path)| ==> 0x20 <= Escaped(path)[i] < 0x7f
    decreases |path|
  {
    hide EscapeByte, ReadByte;
    if path != [] {
      EscapedSplits(path);
      EscapedIsRead(path[1..]);
      var e, rest := EscapeByte(path[0]), Escaped(path[1..]) + [QUOTE];
      ByteIsRead(path[0], rest);
      var all := Escaped(path) + [QUOTE];
      assert all == e + rest && all[|e|..] == rest && all[0] == e[0];
      assert path == [path[0]] + path[1..];
    }
  }

  /** Prints a path; a reader recovers it whatever its bytes, and every character is printable. */
  method Quote(path: Bytes) returns (out: Bytes)
    ensures out == if Plain(path) then path else [QUOTE] + Escaped(path) + [QUOTE]
    ensures Unquote(out) == Some(path)
    ensures forall i :: 0 <= i < |out| ==> 0x20 <= out[i] < 0x7f
    ensures !Plain(path) <==> out != [] && out[0] == QUOTE
    ensures out == [] || out[0] != QUOTE <==> forall i :: 0 <= i < |path| ==> 0x20 <= path[i] < 0x7f && path[i] != 34 && path[i] != 92
  {
    hide Escaped, Unescape;
    var plain := true;
    var i := 0;
    while i < |path|
      invariant i <= |path| && (plain <==> Plain(path[..i]))
    {
      assert path[..i + 1] == path[..i] + [path[i]];
      if NeedsEscape(path[i]) {
        plain := false;
        assert !Plain(path[..i + 1]) by { assert NeedsEscape(path[..i + 1][i]); }
      } else {
        assert forall j :: 0 <= j < i ==> path[..i + 1][j] == path[..i][j];
      }
      i := i + 1;
    }
    assert path[..i] == path;
    if plain {
      return path;
    }
    out := [QUOTE];
    i := 0;
    assert Escaped(path[..0]) == [] by { NothingEscaped(); }
    while i < |path|
      invariant i <= |path| && out == [QUOTE] + Escaped(path[..i])
    {
      EscapedGrows(path, i);
      out := out + EscapeByte(path[i]);
      i := i + 1;
    }
    assert path[..i] == path;
    out := out + [QUOTE];
    EscapedIsRead(path);
    assert out[1..] == Escaped(path) + [QUOTE];
  }

  lemma NothingEscaped()
    ensures Escaped([]) == []
  {
  }

  lemma EscapedGrows(path: Bytes, i: nat)
    requires i < |path|
    ensures Escaped(path[..i + 1]) == Escaped(path[..i]) + EscapeByte(path[i])
  {
    assert path[..i + 1][..i] == path[..i];
  }
}
