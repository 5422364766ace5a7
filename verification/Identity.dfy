/** Author and committer records: their spelling, their framing and their dates. */
module Identity {

  import opened Bytes
  import opened ByteStrings
  import opened Options

  datatype CommitError =
    | FormatMismatch
    | RequiredHeader
    | InvalidObjectId
    | InvalidSignature
    | InvalidDate
    | InvalidHeader

  type Seconds = x: int | -0x8000_0000_0000_0000 <= x < 0x8000_0000_0000_0000

  type Minutes = x: int | -0x8000 <= x < 0x8000

  const LESS: byte := 60
  const GREATER: byte := 62
  const PLUS: byte := 43
  const MINUS: byte := 45

  datatype Signature = Signature(name: Bytes, email: Bytes, seconds: Seconds, offset: Minutes) {

    predicate ValidNames()
    {
      ValidComponent(name) && ValidComponent(email)
    }

    predicate ValidOffset()
    {
      -1439 <= offset <= 1439
    }

    predicate Valid()
    {
      ValidNames() && ValidOffset()
    }

    /** The bytes after the record's key and its space. */
    function Record(): Bytes
    {
      name + [SPACE, LESS] + email + [GREATER] + DateText(seconds, offset)
    }
  }

  predicate ValidComponent(b: Bytes)
  {
    && b != []
    && (forall i :: 0 <= i < |b| ==> b[i] !in {0, CR, LF, LESS, GREATER})
    && !IsSpace(b[0])
    && !IsSpace(b[|b| - 1])
  }

  /** Zero-padded to at least two digits. */
  function TwoDigits(n: nat): Bytes
  {
    if n < 10 then [48] + Decimal(n) else Decimal(n)
  }

  function Zone(offset: int): Bytes
  {
    var minutes := if offset < 0 then -offset else offset;
    [if offset < 0 then MINUS else PLUS] + TwoDigits(minutes / 60) + TwoDigits(minutes % 60)
  }

  function DateText(seconds: int, offset: int): Bytes
  {
    [SPACE] + SignedDecimal(seconds) + [SPACE] + Zone(offset)
  }

  // Reading.

  datatype IdentityRef = IdentityRef(name: Bytes, email: Bytes, dateBytes: Bytes)

  function ParseIdentity(b: Bytes): Result<IdentityRef, CommitError>
  {
    match SplitOnce(b, LESS)
    case None => Err(InvalidSignature)
    case Some((name, rest)) =>
      match SplitOnce(rest, GREATER)
      case None => Err(InvalidSignature)
      case Some((email, date)) => Ok(IdentityRef(TrimEnd(name), email, date))
  }

  predicate StartsWithSign(b: Bytes)
  {
    b != [] && (b[0] == PLUS || b[0] == MINUS)
  }

  ghost predicate IsNumeral(b: Bytes)
  {
    var digits := if StartsWithSign(b) then b[1..] else b;
    digits != [] && AllDigits(digits)
  }

  /** An optional sign and at least one digit, and what follows them. */
  function SignedPrefix(b: Bytes): (r: Option<(Bytes, Bytes)>)
    ensures r.Some? ==> r.value.0 + r.value.1 == b && IsNumeral(r.value.0)
  {
    var sign := if StartsWithSign(b) then 1 else 0;
    var digits := DigitCount(b[sign..]);
    if digits == 0 then None
    else
      assert b[..sign + digits][sign..] == b[sign..][..digits];
      Some((b[..sign + digits], b[sign + digits..]))
  }

  function NumeralValue(b: Bytes): int
    requires IsNumeral(b)
  {
    var size: int := DecimalValue(if StartsWithSign(b) then b[1..] else b);
    if b[0] == MINUS then -size else size
  }

  /** Division and remainder that truncate toward zero. */
  function Quotient(a: int, b: int): int
    requires b > 0
  {
    if a < 0 then -((-a) / b) else a / b
  }

  function Remainder(a: int, b: int): int
    requires b > 0
  {
    a - b * Quotient(a, b)
  }

  /** Signed decimal seconds, then a signed decimal HHMM offset; what follows is ignored. */
  function Date(dateBytes: Bytes): Result<(Seconds, Minutes), CommitError>
  {
    match SignedPrefix(TrimStart(dateBytes))
    case None => Err(InvalidDate)
    case Some((digits, after)) =>
      var seconds := NumeralValue(digits);
      var zone := TrimStart(after);
      if !(-0x8000_0000_0000_0000 <= seconds < 0x8000_0000_0000_0000) then Err(InvalidDate)
      else if !StartsWithSign(zone) then Err(InvalidDate)
      else
        match SignedPrefix(zone)
        case None => Err(InvalidDate)
        case Some((hhmm, _)) =>
          var value := NumeralValue(hhmm);
          var minutes := Quotient(value, 100) * 60 + Remainder(value, 100);
          if !(-0x8000_0000 <= value < 0x8000_0000) || !(-0x8000 <= minutes < 0x8000) then Err(InvalidDate)
          else Ok((seconds, minutes))
  }

  function ToSignature(identity: IdentityRef): Result<Signature, CommitError>
  {
    match Date(identity.dateBytes)
    case Err(e) => Err(e)
    case Ok((seconds, offset)) => Ok(Signature(identity.name, identity.email, seconds, offset))
  }

  // What is written is what is read back.

  lemma NumeralOfDecimal(n: int)
    ensures IsNumeral(SignedDecimal(n)) && NumeralValue(SignedDecimal(n)) == n
    ensures !IsSpace(SignedDecimal(n)[0])
  {
    if n < 0 {
      DecimalRoundTrip(-n);
      assert SignedDecimal(n)[1..] == Decimal(-n);
    } else {
      DecimalRoundTrip(n);
      assert IsDigit(Decimal(n)[0]);
    }
  }

  lemma PrefixOfNumeral(numeral: Bytes, rest: Bytes)
    requires IsNumeral(numeral) && (rest == [] || !IsDigit(rest[0]))
    ensures SignedPrefix(numeral + rest) == Some((numeral, rest))
  {
    var b := numeral + rest;
    var sign := if StartsWithSign(numeral) then 1 else 0;
    assert b[0] == numeral[0];
    assert b[sign..] == numeral[sign..] + rest;
    DigitCountConcat(numeral[sign..], rest);
    assert b[..|numeral|] == numeral && b[|numeral|..] == rest;
  }

  lemma TwoDigitsValue(n: nat)
    requires n < 100
    ensures TwoDigits(n) == [48 + n / 10, 48 + n % 10]
  {
    if n >= 10 {
      assert Decimal(n / 10) == [48 + n / 10];
    }
  }

  lemma ZoneIsNumeral(offset: int)
    requires -1439 <= offset <= 1439
    ensures IsNumeral(Zone(offset)) && StartsWithSign(Zone(offset))
    ensures
      var minutes := if offset < 0 then -offset else offset;
      var value := minutes / 60 * 100 + minutes % 60;
      NumeralValue(Zone(offset)) == if offset < 0 then -value else value
  {
    hide Decimal, DecimalValue;
    var minutes := if offset < 0 then -offset else offset;
    var h, m := minutes / 60, minutes % 60;
    TwoDigitsValue(h);
    TwoDigitsValue(m);
    FourDigits(48 + h / 10, 48 + h % 10, 48 + m / 10, 48 + m % 10);
    assert Zone(offset)[1..] == [48 + h / 10, 48 + h % 10, 48 + m / 10, 48 + m % 10];
  }

  lemma FourDigits(a: byte, b: byte, c: byte, d: byte)
    requires IsDigit(a) && IsDigit(b) && IsDigit(c) && IsDigit(d)
    ensures AllDigits([a, b, c, d])
    ensures DecimalValue([a, b, c, d]) == 1000 * (a - 48) + 100 * (b - 48) + 10 * (c - 48) + (d - 48)
  {
    assert [a, b, c, d][..3] == [a, b, c];
    assert [a, b, c][..2] == [a, b];
    assert [a, b][..1] == [a];
    assert [a][..0] == [];
    assert DecimalValue([a]) == a - 48;
    assert DecimalValue([a, b]) == 10 * (a - 48) + (b - 48);
    assert DecimalValue([a, b, c]) == 100 * (a - 48) + 10 * (b - 48) + (c - 48);
  }

  lemma DateRoundTrip(seconds: Seconds, offset: int)
    requires -1439 <= offset <= 1439
    ensures Date(DateText(seconds, offset)) == Ok((seconds, offset))
  {
    hide SignedPrefix, NumeralValue, SignedDecimal, Zone, IsNumeral, TrimStart, IsSpace, Decimal;
    SecondsAreRead(seconds, Zone(offset));
    ZoneIsRead(offset);
  }

  lemma SecondsAreRead(seconds: int, zone: Bytes)
    ensures SignedPrefix(TrimStart([SPACE] + SignedDecimal(seconds) + [SPACE] + zone))
      == Some((SignedDecimal(seconds), [SPACE] + zone))
    ensures IsNumeral(SignedDecimal(seconds)) && NumeralValue(SignedDecimal(seconds)) == seconds
  {
    hide SignedPrefix, NumeralValue, SignedDecimal;
    var digits := SignedDecimal(seconds);
    NumeralOfDecimal(seconds);
    TrimStartSpace(digits + [SPACE] + zone);
    assert [SPACE] + digits + [SPACE] + zone == [SPACE] + (digits + [SPACE] + zone);
    PrefixOfNumeral(digits, [SPACE] + zone);
    assert digits + ([SPACE] + zone) == digits + [SPACE] + zone;
  }

  lemma HundredsAndRest(h: int, m: int)
    requires 0 <= m < 100
    ensures (h * 100 + m) / 100 == h
  {
  }

  lemma ZoneIsRead(offset: int)
    requires -1439 <= offset <= 1439
    ensures TrimStart([SPACE] + Zone(offset)) == Zone(offset) && StartsWithSign(Zone(offset))
    ensures SignedPrefix(Zone(offset)) == Some((Zone(offset), [])) && IsNumeral(Zone(offset))
    ensures var value := NumeralValue(Zone(offset));
      -2400 < value < 2400 && Quotient(value, 100) * 60 + Remainder(value, 100) == offset
  {
    hide SignedPrefix, NumeralValue, Zone, IsNumeral;
    ZoneIsNumeral(offset);
    HundredsAndRest((if offset < 0 then -offset else offset) / 60, (if offset < 0 then -offset else offset) % 60);
    TrimStartSpace(Zone(offset));
    PrefixOfNumeral(Zone(offset), []);
    assert Zone(offset) + [] == Zone(offset);
  }

  lemma TrimStartSpace(b: Bytes)
    requires b != [] && !IsSpace(b[0])
    ensures TrimStart([SPACE] + b) == b
  {
    assert ([SPACE] + b)[1..] == b;
  }

  lemma TrimEndSpace(b: Bytes)
    requires b != [] && !IsSpace(b[|b| - 1])
    ensures TrimEnd(b + [SPACE]) == b
  {
    assert (b + [SPACE])[..|b|] == b;
  }

  /** A constructible identity survives being written and read, whatever bytes its names hold. */
  lemma SignatureRoundTrip(s: Signature)
    requires s.Valid()
    ensures ParseIdentity(s.Record()) == Ok(IdentityRef(s.name, s.email, DateText(s.seconds, s.offset)))
    ensures ToSignature(ParseIdentity(s.Record()).value) == Ok(s)
  {
    hide DateText, SplitOnce, TrimEnd, Date;
    var date := DateText(s.seconds, s.offset);
    assert LESS !in s.name + [SPACE];
    SplitOnceConcat(s.name + [SPACE], LESS, s.email + [GREATER] + date);
    assert s.Record() == s.name + [SPACE] + [LESS] + (s.email + [GREATER] + date);
    SplitOnceConcat(s.email, GREATER, date);
    TrimEndSpace(s.name);
    DateRoundTrip(s.seconds, s.offset);
  }

  // What is accepted at all.

  /** A name runs to the first "<" and loses the white space before it; an address to the first ">" after it. */
  lemma IdentityIsRead(name: Bytes, space: Bytes, email: Bytes, date: Bytes)
    requires LESS !in name && AllSpace(space) && GREATER !in email && (name != [] ==> !IsSpace(name[|name| - 1]))
    ensures ParseIdentity(name + space + [LESS] + email + [GREATER] + date) == Ok(IdentityRef(name, email, date))
  {
    hide SplitOnce, TrimEnd;
    var rest := email + [GREATER] + date;
    assert name + space + [LESS] + email + [GREATER] + date == name + space + [LESS] + rest;
    SplitOnceConcat(name + space, LESS, rest);
    SplitOnceConcat(email, GREATER, date);
    TrimEndIs(name, space);
  }

  /** Without both brackets in that order there is no identity. */
  lemma IdentityNeedsBrackets(b: Bytes)
    ensures ParseIdentity(b).Err? <==> !exists name, rest :: b == name + [LESS] + rest && LESS !in name && GREATER in rest
  {
    hide SplitOnce, TrimEnd;
    SplitOnceIs(b, LESS);
    forall name, rest | b == name + [LESS] + rest && LESS !in name && GREATER in rest
      ensures ParseIdentity(b).Ok?
    {
      SplitOnceConcat(name, LESS, rest);
      SplitOnceIs(rest, GREATER);
    }
    if ParseIdentity(b).Ok? {
      var (name, rest) := SplitOnce(b, LESS).value;
      SplitOnceIs(rest, GREATER);
      assert b == name + [LESS] + rest && GREATER in rest;
    }
  }

  /** The parts of a date: seconds and a zone that has a sign, each after white space, and whatever follows. */
  ghost predicate DateParts(before: Bytes, seconds: Bytes, between: Bytes, zone: Bytes, rest: Bytes)
  {
    && AllSpace(before) && IsNumeral(seconds) && AllSpace(between)
    && IsNumeral(zone) && StartsWithSign(zone) && (rest == [] || !IsDigit(rest[0]))
  }

  /** Hours and minutes, written as one number, in minutes and with its sign. */
  ghost function ZoneMinutes(value: int): int
  {
    if value < 0 then -(-value / 100 * 60 + -value % 100) else value / 100 * 60 + value % 100
  }

  lemma DateIsRead(before: Bytes, seconds: Bytes, between: Bytes, zone: Bytes, rest: Bytes)
    requires DateParts(before, seconds, between, zone, rest)
    ensures var s, z := NumeralValue(seconds), NumeralValue(zone);
      Date(before + seconds + between + zone + rest)
        == if -0x8000_0000_0000_0000 <= s < 0x8000_0000_0000_0000 && -0x8000_0000 <= z < 0x8000_0000
              && -0x8000 <= ZoneMinutes(z) < 0x8000
           then Ok((s, ZoneMinutes(z))) else Err(InvalidDate)
  {
    hide SignedPrefix, NumeralValue, TrimStart;
    var after := between + zone + rest;
    NumeralStarts(seconds);
    NumeralStarts(zone);
    assert after[0] == if between == [] then zone[0] else between[0];
    assert before + seconds + between + zone + rest == before + (seconds + after);
    TrimStartIs(before, seconds + after);
    PrefixOfNumeral(seconds, after);
    assert after == between + (zone + rest);
    TrimStartIs(between, zone + rest);
    PrefixOfNumeral(zone, rest);
    assert StartsWithSign(zone + rest);
  }

  lemma NumeralStarts(numeral: Bytes)
    requires IsNumeral(numeral)
    ensures numeral != [] && !IsSpace(numeral[0])
  {
    assert StartsWithSign(numeral) || IsDigit(numeral[0]);
  }

  /** Every accepted date has those parts. */
  lemma DateHasParts(b: Bytes) returns (before: Bytes, seconds: Bytes, between: Bytes, zone: Bytes, rest: Bytes)
    requires Date(b).Ok?
    ensures DateParts(before, seconds, between, zone, rest) && b == before + seconds + between + zone + rest
  {
    hide NumeralValue, TrimStart, SignedPrefix, IsNumeral, AllSpace;
    before := TrimStartSplits(b);
    var (s, after) := SignedPrefix(TrimStart(b)).value;
    between := TrimStartSplits(after);
    var (z, end) := SignedPrefix(TrimStart(after)).value;
    seconds, zone, rest := s, z, end;
    SignedPrefixEnds(TrimStart(after));
    NumeralStarts(zone);
    assert zone[0] == (zone + rest)[0];
    Associate(before, seconds, between + (zone + rest));
    Associate(before + seconds, between, zone + rest);
    Associate(before + seconds + between, zone, rest);
  }

  lemma SignedPrefixEnds(b: Bytes)
    requires SignedPrefix(b).Some?
    ensures var rest := SignedPrefix(b).value.1; rest == [] || !IsDigit(rest[0])
  {
    hide DigitCount;
    var sign := if StartsWithSign(b) then 1 else 0;
    var digits := DigitCount(b[sign..]);
    assert sign + digits < |b| ==> b[sign + digits] == b[sign..][digits];
  }

  /** A name or address is not empty, has no white space at either end, and no NUL, line end or angle bracket. */
  lemma ComponentsAre(b: Bytes)
    ensures ValidComponent(b) <==>
      && b != [] && TrimStart(b) == b && TrimEnd(b) == b
      && forall x :: x in b ==> x != 0 && x != '\r' as int && x != '\n' as int && x != '<' as int && x != '>' as int
  {
    hide IsSpace;
    if b != [] {
      TrimShortens(b);
      assert ValidComponent(b) ==> TrimStart(b) == b && TrimEnd(b) == b;
      assert forall i :: 0 <= i < |b| ==> b[i] in b;
    }
  }

  lemma TrimShortens(b: Bytes)
    requires b != []
    ensures IsSpace(b[0]) ==> |TrimStart(b)| < |b|
    ensures IsSpace(b[|b| - 1]) ==> |TrimEnd(b)| < |b|
  {
    TrimStartLength(b[1..]);
    TrimEndLength(b[..|b| - 1]);
  }

  lemma {:induction false} TrimStartLength(b: Bytes)
    ensures |TrimStart(b)| <= |b|
  {
    if b != [] { TrimStartLength(b[1..]); }
  }

  lemma {:induction false} TrimEndLength(b: Bytes)
    ensures |TrimEnd(b)| <= |b|
    decreases |b|
  {
    if b != [] { TrimEndLength(b[..|b| - 1]); }
  }

  lemma {:induction false} DecimalIsPlain(n: nat, x: byte)
    requires !IsDigit(x)
    ensures x !in Decimal(n)
  {
  }

  lemma ZoneHasNoLineFeed(offset: int)
    ensures LF !in Zone(offset)
  {
    hide Decimal;
    var minutes := if offset < 0 then -offset else offset;
    DecimalIsPlain(minutes / 60, LF);
    DecimalIsPlain(minutes % 60, LF);
  }

  lemma DateHasNoLineFeed(seconds: int, offset: int)
    ensures LF !in DateText(seconds, offset)
  {
    hide Decimal, Zone;
    DecimalIsPlain(if seconds < 0 then -seconds else seconds, LF);
    ZoneHasNoLineFeed(offset);
  }

  /** A record stays on its line. */
  lemma RecordHasNoLineFeed(s: Signature)
    requires s.Valid()
    ensures LF !in s.Record()
  {
    hide DateText;
    assert LF !in s.name && LF !in s.email;
    DateHasNoLineFeed(s.seconds, s.offset);
  }
}
