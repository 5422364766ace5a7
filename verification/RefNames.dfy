/** Which names a reference may have. */
module RefNames {

  import opened Bytes
  import opened ByteStrings

  // "HEAD", "refs/" and ".lock".
  const HEAD: Bytes := [72, 69, 65, 68]
  const REFS: Bytes := [114, 101, 102, 115, 47]
  const LOCK: Bytes := [46, 108, 111, 99, 107]
  const AT: byte := 64
  const DOT: byte := 46

  predicate EndsWith(b: Bytes, suffix: Bytes)
  {
    |suffix| <= |b| && b[|b| - |suffix|..] == suffix
  }

  predicate ValidPart(part: Bytes)
  {
    part != [] && part[0] != DOT && !EndsWith(part, LOCK)
  }

  /** Whether the byte may appear in a reference name: no controls, spaces or glob characters. */
  predicate NameByte(b: byte)
  {
    b > SPACE && b !in {127, 126, 94, 58, 63, 42, 91, 92}
  }

  predicate ValidRefName(name: Bytes)
  {
    || name == HEAD
    || (&& StartsWith(name, REFS)
        && !EndsWith(name, [DOT])
        && (forall i :: 0 < i < |name| ==>
              !(name[i] == DOT && name[i - 1] == DOT) && !(name[i] == 123 && name[i - 1] == AT))
        && (forall i :: 0 <= i < |name| ==> NameByte(name[i]))
        && (forall i :: 0 <= i < |Split(name, SLASH)| ==> ValidPart(Split(name, SLASH)[i])))
  }

  lemma NameIsPlain(name: Bytes)
    requires ValidRefName(name)
    ensures name != [] && LF !in name && SPACE !in name
  {
  }

  // Names by what may not occur in them.

  /** Where a component starts there is a byte, and it is no slash and no dot. */
  ghost predicate GoodStart(b: Bytes, i: nat)
    requires i <= |b|
  {
    i == 0 || b[i - 1] == SLASH ==> i < |b| && b[i] != SLASH && b[i] != '.' as int
  }

  /** Where a component ends, ".lock" does not. */
  ghost predicate GoodEnd(b: Bytes, j: nat)
    requires j <= |b|
  {
    j == |b| || b[j] == SLASH ==> !EndsWith(b[..j], LOCK)
  }

  ghost predicate GoodComponents(b: Bytes)
  {
    forall i: nat :: i <= |b| ==> GoodStart(b, i) && GoodEnd(b, i)
  }

  ghost predicate ValidParts(parts: seq<Bytes>)
  {
    forall i :: 0 <= i < |parts| ==> ValidPart(parts[i])
  }

  lemma ValidPartsFirst(head: Bytes, parts: seq<Bytes>)
    ensures ValidParts([head] + parts) <==> ValidPart(head) && ValidParts(parts)
  {
    hide ValidPart;
    var all := [head] + parts;
    assert all[0] == head && forall i :: 0 <= i < |parts| ==> all[i + 1] == parts[i];
    if ValidParts(all) {
      forall i | 0 <= i < |parts| ensures ValidPart(parts[i]) { assert ValidPart(all[i + 1]); }
    }
  }

  lemma {:induction false} PartsAreGood(b: Bytes)
    ensures ValidParts(Split(b, SLASH)) <==> GoodComponents(b)
    decreases |b|
  {
    hide IndexOf, ValidPart, ValidParts, GoodComponents;
    var n := IndexOf(b, SLASH);
    if n == |b| {
      assert b[..n] == b;
      LoneComponent(b);
    } else {
      var head, rest := b[..n], b[n + 1..];
      assert b == head + [SLASH] + rest;
      PartsAreGood(rest);
      FirstComponent(head, rest);
      ValidPartsFirst(head, Split(rest, SLASH));
    }
  }

  lemma LoneComponent(b: Bytes)
    requires SLASH !in b
    ensures ValidParts([b]) <==> GoodComponents(b)
  {
    hide EndsWith;
    assert [b][0] == b && b[..|b|] == b;
    if GoodComponents(b) {
      assert GoodStart(b, 0) && GoodEnd(b, |b|);
    }
  }

  lemma FirstComponent(head: Bytes, rest: Bytes)
    requires SLASH !in head
    ensures GoodComponents(head + [SLASH] + rest) <==> ValidPart(head) && GoodComponents(rest)
  {
    hide EndsWith, GoodStart, GoodEnd;
    var b, n := head + [SLASH] + rest, |head|;
    HeadComponent(head, rest);
    if GoodComponents(b) {
      assert GoodStart(b, 0) && GoodEnd(b, n);
      forall i: nat | i <= |rest| ensures GoodStart(rest, i) && GoodEnd(rest, i) {
        assert GoodStart(b, n + 1 + i) && GoodEnd(b, n + 1 + i);
        LaterComponent(head, rest, i);
      }
    }
    if ValidPart(head) && GoodComponents(rest) {
      forall i: nat | i <= |b| ensures GoodStart(b, i) && GoodEnd(b, i) {
        if i > n {
          LaterComponent(head, rest, i - n - 1);
        }
      }
    }
  }

  lemma HeadComponent(head: Bytes, rest: Bytes)
    requires SLASH !in head
    ensures var b := head + [SLASH] + rest;
      && (ValidPart(head) <==> GoodStart(b, 0) && GoodEnd(b, |head|))
      && (ValidPart(head) ==> forall i: nat :: i <= |head| ==> GoodStart(b, i) && GoodEnd(b, i))
  {
    hide EndsWith;
    assert (head + [SLASH] + rest)[..|head|] == head;
  }

  lemma LaterComponent(head: Bytes, rest: Bytes, i: nat)
    requires i <= |rest|
    ensures var b := head + [SLASH] + rest; var at := |head| + 1 + i;
      (GoodStart(b, at) <==> GoodStart(rest, i)) && (GoodEnd(b, at) <==> GoodEnd(rest, i))
  {
    hide EndsWith;
    LockStaysWithin(head, rest, i);
  }

  lemma LockStaysWithin(head: Bytes, rest: Bytes, j: nat)
    requires j <= |rest|
    ensures var b := head + [SLASH] + rest; EndsWith(b[..|head| + 1 + j], LOCK) <==> EndsWith(rest[..j], LOCK)
  {
    var b, m := head + [SLASH] + rest, |head| + 1 + j;
    assert SLASH !in LOCK;
    assert b[|head|] == SLASH;
    if j >= 5 {
      assert b[..m][m - 5..] == rest[..j][j - 5..];
    } else {
      assert m >= 5 ==> b[..m][m - 5..][4 - j] == SLASH;
    }
  }

  /** Names by the bytes and the pairs of bytes that may not occur in them. */
  lemma RefNamesAre(name: Bytes)
    ensures ValidRefName(name) <==>
      || Ascii(name, "HEAD")
      || (&& |name| >= 5 && Ascii(name[..5], "refs/") && GoodComponents(name) && name[|name| - 1] != '.' as int
          && (forall x :: x in name ==> AllowedByte(x))
          && forall i :: 0 < i < |name| ==> AllowedPair(name[i - 1], name[i]))
    ensures Ascii(LOCK, ".lock") && SLASH == '/' as int
  {
    hide Split, ValidPart, GoodComponents, NameByte, EndsWith;
    PartsAreGood(name);
    NamesSpelled(name);
    forall x: byte ensures NameByte(x) <==> AllowedByte(x) { NameBytesAre(x); }
    assert forall i :: 0 <= i < |name| ==> name[i] in name;
  }

  ghost predicate AllowedByte(x: byte)
  {
    x > ' ' as int && x != 127 && forall c :: c in "~^:?*[\\" ==> x != c as int
  }

  /** Neither ".." nor "@{". */
  ghost predicate AllowedPair(x: byte, y: byte)
  {
    !(x == '.' as int && y == '.' as int) && !(x == '@' as int && y == '{' as int)
  }

  lemma NamesSpelled(name: Bytes)
    ensures name == HEAD <==> Ascii(name, "HEAD")
    ensures StartsWith(name, REFS) <==> |name| >= 5 && Ascii(name[..5], "refs/")
    ensures name != [] ==> (EndsWith(name, [DOT]) <==> name[|name| - 1] == DOT)
  {
    assert Ascii(HEAD, "HEAD") && Ascii(REFS, "refs/");
  }

  lemma NameBytesAre(x: byte)
    ensures NameByte(x) <==> AllowedByte(x)
  {
    var text := "~^:?*[\\";
    assert text == ['~', '^', ':', '?', '*', '[', '\\'];
    assert forall i :: 0 <= i < 7 ==> text[i] in text;
    assert text[0] in text && text[1] in text && text[2] in text && text[3] in text && text[4] in text;
    assert text[5] in text && text[6] in text;
  }
}
