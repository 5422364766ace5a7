/** When the printed form of a rename determines the two paths, and when it does not. */
module PrintedRename {

  import opened Bytes
  import opened ByteStrings
  import opened RenamePath

  datatype Parts = Parts(prefix: Bytes, oldMiddle: Bytes, newMiddle: Bytes, suffix: Bytes)

  const OPENING: byte := 123
  const CLOSING: byte := 125

  function PartsOf(before: Bytes, after: Bytes): Parts
  {
    var prefix, suffix := PrefixLength(before, after), SuffixLength(before, after);
    Parts(before[..prefix], Middle(before, prefix, suffix), Middle(after, prefix, suffix), before[|before| - suffix..])
  }

  predicate ArrowAt(b: Bytes, i: nat)
  {
    i + 1 < |b| && b[i] == 61 && b[i + 1] == 62
  }

  predicate NoArrow(b: Bytes)
  {
    forall i: nat :: i < |b| ==> !ArrowAt(b, i)
  }

  /** Free of the bytes the printed form adds: braces and "=>". */
  predicate Plain(b: Bytes)
  {
    OPENING !in b && CLOSING !in b && NoArrow(b)
  }

  predicate EmptyComponentAt(b: Bytes, i: nat)
  {
    i + 1 < |b| && b[i] == SLASH && b[i + 1] == SLASH
  }

  /** Free of "//". */
  predicate NoEmptyComponent(b: Bytes)
  {
    forall i: nat :: i < |b| ==> !EmptyComponentAt(b, i)
  }

  // Reading the printed form.

  /** The index of the first "=>", or the length. */
  function ArrowIndex(b: Bytes): (n: nat)
    ensures n <= |b|
  {
    if b == [] || ArrowAt(b, 0) then 0 else 1 + ArrowIndex(b[1..])
  }

  /** The index of the last `x`, or zero. */
  function LastIndexOf(b: Bytes, x: byte): (n: nat)
    ensures n <= |b| && (b != [] ==> n < |b|)
  {
    if b == [] then 0 else if b[|b| - 1] == x then |b| - 1 else LastIndexOf(b[..|b| - 1], x)
  }

  /** Takes a printed rename apart at the first arrow, the first brace before it and the last one after it. */
  function ReadParts(text: Bytes): Parts
  {
    var at := ArrowIndex(text);
    if at == 0 || |text| < at + 3 then Parts([], text, [], [])
    else
      var left, right := text[..at - 1], text[at + 3..];
      var open, close := IndexOf(left, OPENING), LastIndexOf(right, CLOSING);
      if open < |left| && right != [] then
        Parts(left[..open], left[open + 1..], right[..close], right[close + 1..])
      else
        Parts([], left, right, [])
  }

  lemma {:induction false} ArrowIndexFound(x: Bytes, y: Bytes)
    requires NoArrow(x) && (x != [] ==> x[|x| - 1] != 61)
    ensures ArrowIndex(x + [61, 62] + y) == |x|
  {
    var b := x + [61, 62] + y;
    if x == [] {
      assert ArrowAt(b, 0);
    } else {
      assert b[1..] == x[1..] + [61, 62] + y;
      assert !ArrowAt(x, 0);
      assert forall i: nat :: i < |x[1..]| ==> (ArrowAt(x[1..], i) <==> ArrowAt(x, i + 1));
      ArrowIndexFound(x[1..], y);
    }
  }

  lemma {:induction false} LastIndexFound(m: Bytes, x: byte, s: Bytes)
    requires x !in s
    ensures LastIndexOf(m + [x] + s, x) == |m|
    decreases |s|
  {
    var b := m + [x] + s;
    if s == [] {
      assert b[|b| - 1] == x;
    } else {
      var rest := s[..|s| - 1];
      assert b[|b| - 1] == s[|s| - 1];
      assert b[..|b| - 1] == m + [x] + rest;
      LastIndexFound(m, x, rest);
    }
  }

  lemma {:induction false} AbsentIndex(b: Bytes, x: byte)
    requires x !in b
    ensures IndexOf(b, x) == |b|
  {
    if b != [] { AbsentIndex(b[1..], x); }
  }

  lemma PlainSlice(b: Bytes, i: nat, j: nat)
    requires Plain(b) && i <= j <= |b|
    ensures Plain(b[i..j])
  {
    forall k: nat | k < |b[i..j]| ensures !ArrowAt(b[i..j], k) {
      assert !ArrowAt(b, i + k);
    }
  }

  /** A byte that is in no arrow keeps two pieces apart. */
  lemma NoArrowAcross(x: Bytes, c: byte, y: Bytes)
    requires NoArrow(x) && NoArrow(y) && c != 61 && c != 62
    ensures NoArrow(x + [c] + y)
  {
    var b := x + [c] + y;
    forall i: nat | i < |b| ensures !ArrowAt(b, i) {
      if i + 1 < |x| {
        assert !ArrowAt(x, i);
      } else if i > |x| {
        assert !ArrowAt(y, i - |x| - 1);
      }
    }
  }

  /** What stands before the arrow holds none. */
  lemma ReadAtArrow(left: Bytes, right: Bytes)
    requires NoArrow(left)
    ensures var text := left + ARROW + right;
      && ArrowIndex(text) == |left| + 1 && |text| == |left| + 4 + |right|
      && text[..|left|] == left && text[|left| + 4..] == right
  {
    var text := left + ARROW + right;
    var x := left + [32];
    assert NoArrow([]);
    NoArrowAcross(left, 32, []);
    assert x == left + [32] + [];
    ArrowIndexFound(x, [32] + right);
    assert text == x + [61, 62] + ([32] + right);
  }

  lemma ReadWithBraces(p: Bytes, m: Bytes, n: Bytes, s: Bytes)
    requires Plain(p) && Plain(m) && Plain(s)
    ensures ReadParts(p + OPEN + m + ARROW + n + CLOSE + s) == Parts(p, m, n, s)
  {
    hide ArrowIndex, LastIndexOf, IndexOf;
    var left, right := p + OPEN + m, n + CLOSE + s;
    NoArrowAcross(p, OPENING, m);
    ReadAtArrow(left, right);
    IndexOfConcat(p, OPENING, m);
    LastIndexFound(n, CLOSING, s);
    assert p + OPEN + m + ARROW + n + CLOSE + s == left + ARROW + right;
    assert left[..|p|] == p && left[|p| + 1..] == m;
    assert right[..|n|] == n && right[|n| + 1..] == s;
  }

  lemma ReadWithoutBraces(m: Bytes, n: Bytes)
    requires Plain(m)
    ensures ReadParts(m + ARROW + n) == Parts([], m, n, [])
  {
    hide ArrowIndex, LastIndexOf, IndexOf;
    ReadAtArrow(m, n);
    AbsentIndex(m, OPENING);
  }

  /** With a plain old path, the printed form gives back all four parts, whatever the new path. */
  lemma PartsAreReadBack(before: Bytes, after: Bytes)
    requires Plain(before)
    ensures ReadParts(CompactPath(before, after)) == PartsOf(before, after)
  {
    hide ReadParts, PrefixLength, SuffixLength, Plain;
    var prefix: nat, suffix: nat := PrefixLength(before, after), SuffixLength(before, after);
    var m, n := Middle(before, prefix, suffix), Middle(after, prefix, suffix);
    var p, s := before[..prefix], before[|before| - suffix..];
    PlainSlice(before, 0, prefix);
    PlainSlice(before, prefix, if |before| - suffix < prefix then prefix else |before| - suffix);
    PlainSlice(before, |before| - suffix, |before|);
    assert p == before[0..prefix] && s == before[|before| - suffix..|before|];
    if prefix != 0 || suffix != 0 {
      ReadWithBraces(p, m, n, s);
    } else {
      ReadWithoutBraces(m, n);
      assert CompactPath(before, after) == m + ARROW + n;
    }
  }

  // When the printed form determines the paths.

  /** The prefix and the suffix meet in one slash. */
  ghost predicate Overlapped(prefix: Bytes, middle: Bytes, suffix: Bytes, path: Bytes)
  {
    && middle == [] && prefix != [] && prefix[|prefix| - 1] == SLASH
    && suffix != [] && suffix[0] == SLASH
    && path == prefix + suffix[1..]
  }

  /** A path is its parts put together, with the shared slash once or, if there is none, as it stands. */
  lemma PathFromParts(before: Bytes, after: Bytes, path: Bytes)
    requires path == before || path == after
    ensures var parts := PartsOf(before, after);
      var middle := Middle(path, PrefixLength(before, after), SuffixLength(before, after));
      path == parts.prefix + middle + parts.suffix || Overlapped(parts.prefix, middle, parts.suffix, path)
  {
    hide PrefixLength, SuffixLength;
    NothingIsLost(before, after, path);
    SuffixIsShared(before, after);
    var prefix, suffix := PrefixLength(before, after), SuffixLength(before, after);
    if prefix + suffix > |path| {
      assert before[..prefix] + [] == before[..prefix];
    }
  }

  /** The two ways of joining a prefix and a suffix differ only where one of them has "//". */
  lemma JoinsAgree(prefix: Bytes, middle: Bytes, suffix: Bytes, x: Bytes, y: Bytes)
    requires NoEmptyComponent(x) && NoEmptyComponent(y)
    requires x == prefix + middle + suffix || Overlapped(prefix, middle, suffix, x)
    requires y == prefix + middle + suffix || Overlapped(prefix, middle, suffix, y)
    ensures x == y
  {
    var joined := prefix + middle + suffix;
    if middle == [] && prefix != [] && prefix[|prefix| - 1] == SLASH && suffix != [] && suffix[0] == SLASH {
      assert EmptyComponentAt(joined, |prefix| - 1);
    }
  }

  /**
  Between paths without "//", and with old paths free of braces and "=>", the printed form
  determines both paths.
  */
  lemma PrintedFormIsFaithful(a: Bytes, b: Bytes, c: Bytes, d: Bytes)
    requires Plain(a) && Plain(c)
    requires NoEmptyComponent(a) && NoEmptyComponent(b) && NoEmptyComponent(c) && NoEmptyComponent(d)
    requires CompactPath(a, b) == CompactPath(c, d)
    ensures a == c && b == d
  {
    hide ReadParts, CompactPath, PrefixLength, SuffixLength, Plain, NoEmptyComponent, Middle;
    PartsAreReadBack(a, b);
    PartsAreReadBack(c, d);
    PathFromParts(a, b, a);
    PathFromParts(a, b, b);
    PathFromParts(c, d, c);
    PathFromParts(c, d, d);
    var parts := PartsOf(a, b);
    JoinsAgree(parts.prefix, parts.oldMiddle, parts.suffix, a, c);
    JoinsAgree(parts.prefix, parts.newMiddle, parts.suffix, b, d);
  }

  /**
  Two new paths for the old path `a` that differ only in one slash: `once` is the shared prefix
  and suffix with one slash between them, `twice` has two. Neither end of the differing part of
  `a` is a slash, so the second slash extends neither the prefix nor the suffix.
  */
  ghost predicate Twins(a: Bytes, once: Bytes, twice: Bytes)
  {
    var p, s := PrefixLength(a, once), SuffixLength(a, once);
    && p + s == |once| + 1
    && twice == once[..p] + [SLASH] + once[p..]
    && (p < |a| ==> a[p] != SLASH)
    && (p < |a| - s ==> a[|a| - s - 1] != SLASH)
  }

  lemma {:induction false} CommonPrefixEnds(a: Bytes, b: Bytes, p: nat)
    requires p <= |a| && p < |b| && a[..p] == b[..p] && (p < |a| ==> a[p] != b[p])
    ensures CommonPrefix(a, b) == p
  {
    if p > 0 {
      assert a[0] == a[..p][0] && b[0] == b[..p][0];
      assert a[1..][..p - 1] == a[..p][1..] && b[1..][..p - 1] == b[..p][1..];
      CommonPrefixEnds(a[1..], b[1..], p - 1);
    }
  }

  lemma TwinPrefix(a: Bytes, once: Bytes, twice: Bytes)
    requires Twins(a, once, twice)
    ensures PrefixLength(a, twice) == PrefixLength(a, once)
  {
    hide SuffixLength, CommonPrefix, DirectoryEnd;
    PrefixIsShared(a, once);
    var p := PrefixLength(a, once);
    assert twice[..p] == a[..p] && twice[p] == SLASH;
    CommonPrefixEnds(a, twice, p);
    WholeDirectory(a[..p]);
  }

  lemma WholeDirectory(b: Bytes)
    requires b != [] ==> b[|b| - 1] == SLASH
    ensures DirectoryEnd(b) == |b|
  {
  }

  lemma TwinSuffix(a: Bytes, once: Bytes, twice: Bytes)
    requires Twins(a, once, twice)
    ensures SuffixLength(a, twice) == SuffixLength(a, once)
  {
    hide PrefixLength, SuffixLength;
    TwinPrefix(a, once, twice);
    SuffixIsShared(a, once);
    SuffixIsShared(a, twice);
    NothingIsLost(a, once, once);
    var p, s, n := PrefixLength(a, once), SuffixLength(a, once), SuffixLength(a, twice);
    PrefixIsShared(a, once);
    TwinEnds(a, once, twice, p, s);
    assert s <= SuffixLimit(a, twice);
    assert a[|a| - s] == SLASH && n <= s + 1;
  }

  /** Both twins end in the suffix. */
  lemma TwinEnds(a: Bytes, once: Bytes, twice: Bytes, p: nat, s: nat)
    requires 0 < s <= |a| && s <= |once| && 0 < p <= |once| && p + s == |once| + 1 && once[p - 1] == SLASH
    requires twice == once[..p] + [SLASH] + once[p..] && a[|a| - s..] == once[|once| - s..]
    ensures s <= |twice| && SameEnd(a, twice, s)
  {
    forall i: nat | i < s ensures FromEnd(a, i) == FromEnd(twice, i) {
      assert a[|a| - 1 - i] == a[|a| - s..][s - 1 - i];
      assert once[|once| - 1 - i] == once[|once| - s..][s - 1 - i];
    }
  }

  lemma TwinsPrintAlike(a: Bytes, once: Bytes, twice: Bytes)
    requires Twins(a, once, twice)
    ensures once != twice && CompactPath(a, once) == CompactPath(a, twice)
  {
    hide PrefixLength, SuffixLength;
    TwinPrefix(a, once, twice);
    TwinSuffix(a, once, twice);
    var p, s := PrefixLength(a, once), SuffixLength(a, once);
    assert Middle(once, p, s) == [] == Middle(twice, p, s);
  }

  /** Of two joins of the same parts, the shorter one has the slash once. */
  lemma ShorterMeets(prefix: Bytes, middle: Bytes, suffix: Bytes, once: Bytes, twice: Bytes)
    requires once == prefix + middle + suffix || Overlapped(prefix, middle, suffix, once)
    requires twice == prefix + middle + suffix || Overlapped(prefix, middle, suffix, twice)
    requires |once| < |twice|
    ensures twice == prefix + suffix && |once| == |prefix| + |suffix| - 1
    ensures 0 < |prefix| <= |once| && prefix[|prefix| - 1] == SLASH && twice[|prefix|] == SLASH
    ensures twice == once[..|prefix|] + [SLASH] + once[|prefix|..]
  {
    assert twice == prefix + [] + suffix == prefix + suffix;
    assert suffix == [SLASH] + suffix[1..];
    assert once[..|prefix|] == prefix && once[|prefix|..] == suffix[1..];
  }

  lemma AlikeAreTwins(a: Bytes, once: Bytes, twice: Bytes)
    requires PartsOf(a, once) == PartsOf(a, twice) && |once| < |twice|
    ensures Twins(a, once, twice)
  {
    hide PrefixLength, SuffixLength, Middle, Overlapped, SuffixLimit;
    var parts := PartsOf(a, once);
    var p, s := PrefixLength(a, once), SuffixLength(a, once);
    SamePartLengths(a, once, twice);
    PathFromParts(a, once, once);
    PathFromParts(a, twice, twice);
    ShorterMeets(parts.prefix, parts.newMiddle, parts.suffix, once, twice);
    assert |parts.prefix| == p && |parts.suffix| == s && parts.prefix[p - 1] == a[p - 1];
    TwinKeepsPrefix(a, twice);
    TwinKeepsSuffix(a, twice);
  }

  lemma TwinKeepsPrefix(a: Bytes, twice: Bytes)
    requires PrefixLength(a, twice) < |twice| && twice[PrefixLength(a, twice)] == SLASH
    ensures PrefixLength(a, twice) < |a| ==> a[PrefixLength(a, twice)] != SLASH
  {
    hide PrefixLength;
    var p := PrefixLength(a, twice);
    if p < |a| && a[p] == SLASH {
      assert a[..p + 1] == a[..p] + [SLASH] && twice[..p + 1] == twice[..p] + [SLASH];
    }
    PrefixIsShared(a, twice);
  }

  lemma TwinKeepsSuffix(a: Bytes, twice: Bytes)
    requires var p, s := PrefixLength(a, twice), SuffixLength(a, twice);
      0 < p && twice == a[..p] + a[|a| - s..] && a[p - 1] == SLASH
    ensures var p, s := PrefixLength(a, twice), SuffixLength(a, twice);
      p < |a| - s ==> a[|a| - s - 1] != SLASH
  {
    hide PrefixLength, SuffixLength;
    var p, s := PrefixLength(a, twice), SuffixLength(a, twice);
    if p < |a| - s && a[|a| - s - 1] == SLASH {
      TwinExtends(a, twice, p, s);
    }
    SuffixIsShared(a, twice);
  }

  lemma TwinExtends(a: Bytes, twice: Bytes, p: nat, s: nat)
    requires 0 < p && s < |a| && a[|a| - s - 1] == SLASH && p + s <= |a|
    requires twice == a[..p] + a[|a| - s..] && a[p - 1] == SLASH
    ensures SameEnd(a, twice, s + 1)
  {
    forall i: nat | i < s + 1 ensures FromEnd(a, i) == FromEnd(twice, i) {
    }
  }

  lemma SamePartLengths(a: Bytes, b: Bytes, d: Bytes)
    requires PartsOf(a, b) == PartsOf(a, d)
    ensures PrefixLength(a, b) == PrefixLength(a, d) && SuffixLength(a, b) == SuffixLength(a, d)
  {
    hide PrefixLength, SuffixLength, Middle;
    assert |PartsOf(a, b).prefix| == PrefixLength(a, b) && |PartsOf(a, d).prefix| == PrefixLength(a, d);
    assert |PartsOf(a, b).suffix| == SuffixLength(a, b) && |PartsOf(a, d).suffix| == SuffixLength(a, d);
  }

  /**
  For one old path free of braces and "=>", two different new paths print alike exactly when one
  joins the shared prefix and suffix with one slash and the other with two.
  */
  lemma PrintAlikeExactly(a: Bytes, b: Bytes, d: Bytes)
    requires Plain(a)
    ensures b != d && CompactPath(a, b) == CompactPath(a, d) <==> Twins(a, b, d) || Twins(a, d, b)
  {
    hide ReadParts, CompactPath, PrefixLength, SuffixLength, Plain, Twins, Middle;
    if b != d && CompactPath(a, b) == CompactPath(a, d) {
      PartsAreReadBack(a, b);
      PartsAreReadBack(a, d);
      PathFromParts(a, b, b);
      PathFromParts(a, d, d);
      if |b| < |d| {
        AlikeAreTwins(a, b, d);
      } else if |d| < |b| {
        AlikeAreTwins(a, d, b);
      }
    }
    if Twins(a, b, d) { TwinsPrintAlike(a, b, d); }
    if Twins(a, d, b) { TwinsPrintAlike(a, d, b); }
  }

  // The causes of ambiguity, one by one.

  /** With no slash in the old path nothing is shared. */
  lemma PrintedFlat(before: Bytes, after: Bytes)
    requires SLASH !in before
    ensures CompactPath(before, after) == before + ARROW + after
  {
    hide CommonPrefix, CommonSuffix, DirectoryEnd;
    PrefixIsShared(before, after);
    SuffixIsShared(before, after);
    assert PrefixLength(before, after) == 0 && SuffixLength(before, after) == 0;
  }

  /** An arrow in a name can be taken for the one between the names. */
  lemma ArrowIsAmbiguous(x: Bytes, y: Bytes, z: Bytes)
    requires SLASH !in x && SLASH !in y
    ensures CompactPath(x, y + ARROW + z) == CompactPath(x + ARROW + y, z)
  {
    hide CompactPath;
    PrintedFlat(x, y + ARROW + z);
    PrintedFlat(x + ARROW + y, z);
    assert x + ARROW + (y + ARROW + z) == x + ARROW + y + ARROW + z;
  }

  /** So can one that only touches it: "x =>" to "y" prints like "x" to "=> y". */
  lemma TouchingArrowIsAmbiguous(x: Bytes, y: Bytes)
    requires SLASH !in x
    ensures CompactPath(x + [32, 61, 62], y) == CompactPath(x, [61, 62, 32] + y)
  {
    hide CompactPath;
    PrintedFlat(x + [32, 61, 62], y);
    PrintedFlat(x, [61, 62, 32] + y);
    assert x + [32, 61, 62] + ARROW + y == x + ARROW + ([61, 62, 32] + y);
  }

  /** Braces in names can be taken for the printed ones: "x/z" to "y/z" prints like "{x" to "y}/z". */
  lemma BracesAreAmbiguous()
    ensures CompactPath([120, 47, 122], [121, 47, 122]) == CompactPath([123, 120], [121, 125, 47, 122])
  {
    hide PrefixLength, SuffixLength;
    var a: Bytes, b: Bytes := [120, 47, 122], [121, 47, 122];
    PartsOfBraces(a, b);
    assert Middle(a, 0, 2) == [120] && Middle(b, 0, 2) == [121];
    calc {
      CompactPath(a, b);
      a[..0] + OPEN + [120] + ARROW + [121] + CLOSE + a[1..];
      { assert a[..0] == [] && a[1..] == [47, 122]; }
      [] + OPEN + [120] + ARROW + [121] + CLOSE + [47, 122];
      [123, 120] + ARROW + [121, 125, 47, 122];
      { PrintedFlat([123, 120], [121, 125, 47, 122]); }
      CompactPath([123, 120], [121, 125, 47, 122]);
    }
  }

  lemma PartsOfBraces(a: Bytes, b: Bytes)
    requires a == [120, 47, 122] && b == [121, 47, 122]
    ensures PrefixLength(a, b) == 0 && SuffixLength(a, b) == 2
  {
    assert CommonPrefix(a, b) == 0;
    assert FromEnd(a, 2) == 120 && FromEnd(b, 2) == 121;
    assert CommonSuffix(a, b, 3) == 2;
    assert a[1..] == [47, 122];
  }

  /** An empty component can be taken for a shared slash: from "a/x/b", "a/b" and "a//b" print alike. */
  lemma SlashIsAmbiguous()
    ensures CompactPath([97, 47, 120, 47, 98], [97, 47, 98]) == CompactPath([97, 47, 120, 47, 98], [97, 47, 47, 98])
  {
    hide PrefixLength, SuffixLength, CompactPath;
    var before: Bytes, one: Bytes := [97, 47, 120, 47, 98], [97, 47, 98];
    PartsOfSlash(before, one);
    assert one[..2] == [97, 47] && one[2..] == [98];
    TwinsPrintAlike(before, one, [97, 47, 47, 98]);
  }

  lemma PartsOfSlash(before: Bytes, one: Bytes)
    requires before == [97, 47, 120, 47, 98] && one == [97, 47, 98]
    ensures PrefixLength(before, one) == 2 && SuffixLength(before, one) == 2
  {
    var x, y := before[1..][1..], one[1..][1..];
    assert x[0] == 120 && y[0] != 120 && CommonPrefix(x, y) == 0;
    assert before[..2] == [97, 47];
    assert PrefixLength(before, one) == 2;
    assert FromEnd(before, 2) == 120 && FromEnd(one, 2) != 120;
    assert CommonSuffix(before, one, SuffixLimit(before, one)) == 2;
    assert before[3..] == [47, 98];
  }
}
