/** Renames written once: the directories two paths share around the part that differs. */
module RenamePath {

  import opened Bytes
  import opened ByteStrings

  function Min(a: nat, b: nat): nat
  {
    if a < b then a else b
  }

  function CommonPrefix(a: Bytes, b: Bytes): (n: nat)
    ensures n <= |a| && n <= |b| && a[..n] == b[..n]
    ensures n < |a| && n < |b| ==> a[n] != b[n]
  {
    if a == [] || b == [] || a[0] != b[0] then 0
    else
      var n := CommonPrefix(a[1..], b[1..]);
      assert a[..n + 1] == [a[0]] + a[1..][..n] && b[..n + 1] == [b[0]] + b[1..][..n];
      n + 1
  }

  /** The length up to and including the last slash. */
  function DirectoryEnd(b: Bytes): (n: nat)
    ensures n <= |b| && (n > 0 ==> b[n - 1] == SLASH) && SLASH !in b[n..]
  {
    if b == [] then 0
    else if b[|b| - 1] == SLASH then |b|
    else
      var n := DirectoryEnd(b[..|b| - 1]);
      assert b[n..] == b[..|b| - 1][n..] + [b[|b| - 1]];
      n
  }

  /** The byte `i` places from the end. */
  function FromEnd(b: Bytes, i: nat): byte
    requires i < |b|
  {
    b[|b| - 1 - i]
  }

  function CommonSuffix(a: Bytes, b: Bytes, limit: nat): (n: nat)
    ensures n <= limit && n <= |a| && n <= |b|
    ensures forall i: nat :: i < n ==> FromEnd(a, i) == FromEnd(b, i)
    ensures n < limit && n < |a| && n < |b| ==> FromEnd(a, n) != FromEnd(b, n)
    decreases limit
  {
    if limit == 0 || a == [] || b == [] || FromEnd(a, 0) != FromEnd(b, 0) then 0
    else
      var x, y := a[..|a| - 1], b[..|b| - 1];
      var n := CommonSuffix(x, y, limit - 1);
      assert forall i: nat :: 0 < i <= n ==> FromEnd(a, i) == FromEnd(x, i - 1) && FromEnd(b, i) == FromEnd(y, i - 1);
      n + 1
  }

  lemma SharedEnds(a: Bytes, b: Bytes, n: nat)
    requires n <= |a| && n <= |b| && forall i: nat :: i < n ==> FromEnd(a, i) == FromEnd(b, i)
    ensures a[|a| - n..] == b[|b| - n..]
  {
    var x, y := a[|a| - n..], b[|b| - n..];
    forall i | 0 <= i < n ensures x[i] == y[i] {
      assert FromEnd(a, n - 1 - i) == FromEnd(b, n - 1 - i);
    }
  }

  function PrefixLength(before: Bytes, after: Bytes): (n: nat)
    ensures n <= |before| && n <= |after|
  {
    DirectoryEnd(before[..CommonPrefix(before, after)])
  }

  /** The slash that ends the prefix may also start the suffix. */
  function SuffixLimit(before: Bytes, after: Bytes): nat
  {
    var prefix := PrefixLength(before, after);
    Min(|before|, |after|) - prefix + (if prefix != 0 && before[prefix - 1] == SLASH then 1 else 0)
  }

  function SuffixLength(before: Bytes, after: Bytes): (n: nat)
    ensures n <= |before| && n <= |after|
  {
    var common := CommonSuffix(before, after, SuffixLimit(before, after));
    var slash := IndexOf(before[|before| - common..], SLASH);
    common - slash
  }

  function Middle(path: Bytes, prefix: nat, suffix: nat): Bytes
    requires prefix <= |path| && suffix <= |path|
  {
    path[prefix..if |path| - suffix < prefix then prefix else |path| - suffix]
  }

  // "{", " => " and "}".
  const OPEN: Bytes := [123]
  const ARROW: Bytes := [32, 61, 62, 32]
  const CLOSE: Bytes := [125]

  function CompactPath(before: Bytes, after: Bytes): Bytes
  {
    var prefix, suffix := PrefixLength(before, after), SuffixLength(before, after);
    var braces := prefix != 0 || suffix != 0;
    before[..prefix]
    + (if braces then OPEN else [])
    + Middle(before, prefix, suffix) + ARROW + Middle(after, prefix, suffix)
    + (if braces then CLOSE else [])
    + before[|before| - suffix..]
  }

  /** Puts a path together from its parts, counting a slash that prefix and suffix share once. */
  function Rejoined(prefix: Bytes, middle: Bytes, suffix: Bytes, overlap: bool): Bytes
    requires overlap ==> suffix != []
  {
    prefix + middle + if overlap then suffix[1..] else suffix
  }

  lemma {:induction false} CommonPrefixIsLongest(a: Bytes, b: Bytes, k: nat)
    requires k <= |a| && k <= |b| && a[..k] == b[..k]
    ensures k <= CommonPrefix(a, b)
  {
    if k > 0 {
      assert a[0] == a[..k][0] && b[0] == b[..k][0];
      assert a[1..][..k - 1] == a[..k][1..] && b[1..][..k - 1] == b[..k][1..];
      CommonPrefixIsLongest(a[1..], b[1..], k - 1);
    }
  }

  /** The prefix is the longest shared run of whole directories. */
  lemma PrefixIsShared(before: Bytes, after: Bytes)
    ensures var n := PrefixLength(before, after);
      && before[..n] == after[..n]
      && (n > 0 ==> before[n - 1] == SLASH)
      && forall k :: n < k <= |before| && k <= |after| && before[..k] == after[..k] ==> before[k - 1] != SLASH
  {
    hide CommonPrefix, DirectoryEnd;
    var common := CommonPrefix(before, after);
    var n := PrefixLength(before, after);
    assert before[..n] == before[..common][..n] && after[..n] == after[..common][..n];
    forall k | n < k <= |before| && k <= |after| && before[..k] == after[..k] ensures before[k - 1] != SLASH {
      CommonPrefixIsLongest(before, after, k);
      assert before[k - 1] == before[..common][n..][k - 1 - n];
    }
  }

  /** The suffix is the longest shared run of whole components that may follow the prefix. */
  lemma SuffixIsShared(before: Bytes, after: Bytes)
    ensures var n := SuffixLength(before, after);
      && n <= SuffixLimit(before, after)
      && before[|before| - n..] == after[|after| - n..]
      && (n > 0 ==> before[|before| - n] == SLASH)
      && forall s :: n < s <= SuffixLimit(before, after) && s <= |before| && s <= |after| && SameEnd(before, after, s)
           ==> before[|before| - s] != SLASH
  {
    hide CommonSuffix, SuffixLimit, IndexOf;
    var limit := SuffixLimit(before, after);
    var common := CommonSuffix(before, after, limit);
    var n := SuffixLength(before, after);
    SharedEnds(before, after, n);
    forall s | n < s <= limit && s <= |before| && s <= |after| && SameEnd(before, after, s)
      ensures before[|before| - s] != SLASH
    {
      assert s <= common;
      var shared := before[|before| - common..];
      assert before[|before| - s] == shared[..common - n][common - s];
    }
  }

  ghost predicate SameEnd(a: Bytes, b: Bytes, s: nat)
    requires s <= |a| && s <= |b|
  {
    forall i: nat :: i < s ==> FromEnd(a, i) == FromEnd(b, i)
  }

  lemma RejoinedIsPath(path: Bytes, prefix: nat, suffix: nat)
    requires prefix <= |path| && suffix <= |path| && prefix + suffix <= |path| + 1
    ensures var overlap := prefix + suffix > |path|;
      path == Rejoined(path[..prefix], Middle(path, prefix, suffix), path[|path| - suffix..], overlap)
  {
    if prefix + suffix > |path| {
      assert Middle(path, prefix, suffix) == [];
      assert path[|path| - suffix..][1..] == path[prefix..];
      assert path == path[..prefix] + path[prefix..];
    } else {
      assert path == path[..prefix] + path[prefix..|path| - suffix] + path[|path| - suffix..];
    }
  }

  /** Both paths can be read back off the parts; at most one slash is in both prefix and suffix. */
  lemma NothingIsLost(before: Bytes, after: Bytes, path: Bytes)
    requires path == before || path == after
    ensures var prefix, suffix := PrefixLength(before, after), SuffixLength(before, after);
      var overlap := prefix + suffix > |path|;
      && prefix + suffix <= Min(|before|, |after|) + 1
      && (overlap ==> suffix > 0 && prefix > 0 && before[prefix - 1] == SLASH)
      && path == Rejoined(before[..prefix], Middle(path, prefix, suffix), before[|before| - suffix..], overlap)
  {
    hide PrefixLength, SuffixLength, Rejoined, Middle;
    PrefixIsShared(before, after);
    SuffixIsShared(before, after);
    RejoinedIsPath(path, PrefixLength(before, after), SuffixLength(before, after));
  }
}
