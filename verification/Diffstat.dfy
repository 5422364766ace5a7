/** Diffstat bars: how many pluses and minuses stand for a file's added and removed lines. */
module Diffstat {

  import opened Arithmetic

  type u64 = x: int | 0 <= x < 0x1_0000_0000_0000_0000

  const MAX: u64 := 0xFFFF_FFFF_FFFF_FFFF

  function SaturatingAdd(a: u64, b: u64): u64
  {
    if a + b > MAX then MAX else a + b
  }

  function SaturatingSub(a: u64, b: u64): u64
  {
    if a < b then 0 else a - b
  }

  datatype Counts = Text(added: u64, removed: u64) | Binary(oldBytes: u64, newBytes: u64) {

    function Changes(): u64
    {
      match this
      case Text(added, removed) => SaturatingAdd(added, removed)
      case Binary(_, _) => 0
    }
  }

  /** `q` is `n / d` rounded to a nearest integer. */
  ghost predicate Nearest(q: int, n: int, d: int)
  {
    2 * d * q - d <= 2 * n <= 2 * d * q + d
  }

  function Rounded(n: nat, d: nat): (q: nat)
    requires d > 0
    ensures Nearest(q, n, d)
  {
    var half := d / 2;
    var q := (n + half) / d;
    assert d * q <= n + half < d * q + d;
    q
  }

  lemma WholeShare(whole: nat, width: nat)
    requires whole > 0
    ensures Rounded(whole * width, whole) == width
  {
    QuotientIs(whole * width + whole / 2, whole, width);
  }

  lemma NoShare(whole: nat)
    requires whole > 0
    ensures Rounded(0, whole) == 0
  {
  }

  lemma RoundedGrows(m: nat, n: nat, d: nat)
    requires m <= n && d > 0
    ensures Rounded(m, d) <= Rounded(n, d)
  {
    QuotientGrows(m + d / 2, n + d / 2, d);
  }

  /** A rounded share never exceeds the whole it is a share of. */
  lemma ShareIsSmaller(part: nat, whole: nat, width: nat)
    requires part <= whole && whole > 0
    ensures Rounded(part * width, whole) <= width
  {
    hide Rounded;
    ProductGrows(part, whole, width);
    RoundedGrows(part * width, whole * width, whole);
    WholeShare(whole, width);
  }

  function Share(count: nat, maxChanges: nat, width: nat): nat
    requires maxChanges > 0
  {
    Rounded(count * width, maxChanges)
  }

  /** A bar longer than two columns is the nearest share; a shorter one is at least that; the largest fills the width. */
  ghost predicate ScaledTo(length: nat, count: nat, maxChanges: nat, width: nat)
    requires maxChanges > 0
  {
    && (length > 2 ==> Nearest(length, count * width, maxChanges))
    && (length <= 2 ==> Rounded(count * width, maxChanges) <= length)
    && (count == maxChanges ==> length == width)
  }

  /** The share fits the width and the count, and scales the bar even if raised to one or two columns. */
  lemma ShareIsScaled(count: nat, maxChanges: nat, width: nat, length: nat)
    requires 6 <= width < maxChanges && count <= maxChanges
    requires Share(count, maxChanges, width) == length || Share(count, maxChanges, width) < length <= 2
    ensures Share(count, maxChanges, width) <= width && Share(count, maxChanges, width) <= count
    ensures ScaledTo(length, count, maxChanges, width)
  {
    hide Rounded, Nearest;
    ShareIsSmaller(count, maxChanges, width);
    ScaledIsSmaller(count, maxChanges, width);
    WholeShare(maxChanges, width);
  }

  /** How many columns a file's bar takes. */
  method GraphLength(added: u64, removed: u64, maxChanges: u64, width: u64) returns (length: nat)
    requires 6 <= width < MAX && 0 < SaturatingAdd(added, removed) <= maxChanges
    ensures 1 <= length <= width && length <= SaturatingAdd(added, removed)
    ensures added > 0 && removed > 0 ==> length >= 2
    ensures maxChanges <= width ==> length == SaturatingAdd(added, removed)
    ensures maxChanges > width ==> ScaledTo(length, SaturatingAdd(added, removed), maxChanges, width)
  {
    hide ScaledTo, Share;
    var count := SaturatingAdd(added, removed);
    if maxChanges <= width {
      length := if count < width then count else width;
    } else {
      var scaled := Share(count, maxChanges, width);
      length := if scaled < 1 then 1 else scaled;
      if added > 0 && removed > 0 && length < 2 {
        length := 2;
      }
      ShareIsScaled(count, maxChanges, width, length);
    }
  }

  /** Scaling down never lengthens. */
  lemma ScaledIsSmaller(count: nat, maxChanges: nat, width: nat)
    requires width < maxChanges && 0 < maxChanges
    ensures Rounded(count * width, maxChanges) <= count
  {
    hide Rounded;
    ProductGrows(width, maxChanges, count);
    RoundedGrows(count * width, maxChanges * count, maxChanges);
    WholeShare(maxChanges, count);
  }

  /** The pluses are the nearest share of the added lines, but neither kind of change is rounded away. */
  ghost predicate Divided(plus: nat, added: nat, count: nat, length: nat)
    requires count > 0
  {
    || Nearest(plus, added * length, count)
    || (plus == 1 && Rounded(added * length, count) == 0)
    || (plus == length - 1 && Rounded(added * length, count) == length)
  }

  /** How many of the bar's columns are pluses. */
  method GraphAdded(added: u64, removed: u64, width: nat) returns (plus: nat)
    requires 1 <= width <= SaturatingAdd(added, removed) && width < MAX
    requires added > 0 && removed > 0 ==> width >= 2
    ensures plus <= width
    ensures plus > 0 <==> added > 0
    ensures plus < width <==> removed > 0
    ensures added + removed == width ==> plus == added
    ensures Divided(plus, added, SaturatingAdd(added, removed), width)
  {
    hide Rounded, Nearest;
    var count := SaturatingAdd(added, removed);
    if count <= width {
      ExactShare(added, width);
      return if added < width then added else width;
    }
    plus := Rounded(added * width, count);
    ShareIsSmaller(added, count, width);
    if added == 0 { NoShare(count); }
    if removed == 0 { WholeShare(count, width); }
    if added > 0 && plus == 0 {
      plus := 1;
    }
    if removed > 0 && plus == width {
      plus := width - 1;
    }
  }

  lemma ExactShare(part: nat, whole: nat)
    ensures Nearest(part, part * whole, whole)
  {
  }

  datatype Bar = Bar(plus: nat, minus: nat)

  /** What a bar says: which kinds of change there are, and their size, exact or scaled. */
  ghost predicate Drawn(c: Counts, bar: Bar, maxChanges: u64, width: u64)
  {
    match c
    case Binary(_, _) => bar == Bar(0, 0)
    case Text(added, removed) =>
      && bar.plus + bar.minus <= width
      && (bar.plus > 0 <==> added > 0)
      && (bar.minus > 0 <==> removed > 0)
      && (maxChanges <= width ==> bar == Bar(added, removed))
      && (maxChanges > width && c.Changes() == maxChanges ==> bar.plus + bar.minus == width)
      && (maxChanges > width && bar.plus + bar.minus > 2 ==> Nearest(bar.plus + bar.minus, c.Changes() * width, maxChanges))
      && (c.Changes() > 0 ==> Divided(bar.plus, added, c.Changes(), bar.plus + bar.minus))
  }

  method Draw(c: Counts, maxChanges: u64, width: u64) returns (bar: Bar)
    requires 6 <= width < MAX && c.Changes() <= maxChanges
    ensures Drawn(c, bar, maxChanges, width)
  {
    hide Nearest, Rounded, Divided;
    match c
    case Binary(_, _) => bar := Bar(0, 0);
    case Text(added, removed) =>
      if SaturatingAdd(added, removed) == 0 {
        bar := Bar(0, 0);
      } else {
        var length := GraphLength(added, removed, maxChanges, width);
        var plus := GraphAdded(added, removed, length);
        bar := Bar(plus, if plus < length then length - plus else 0);
      }
  }

  /** Scales every file's bar to the largest change that the listing shows. */
  method Bars(files: seq<Counts>, layoutWidth: u64, nameWidth: u64) returns (bars: seq<Bar>, maxChanges: u64, width: u64)
    requires nameWidth + 7 <= MAX
    ensures |bars| == |files|
    ensures forall i :: 0 <= i < |files| ==> files[i].Changes() <= maxChanges && Drawn(files[i], bars[i], maxChanges, width)
    ensures maxChanges == 0 || exists i :: 0 <= i < |files| && files[i].Changes() == maxChanges
    ensures 6 <= width && (layoutWidth >= nameWidth + 13 ==> 1 + nameWidth + 6 + width == layoutWidth)
  {
    hide Drawn, Nearest;
    maxChanges := 0;
    var i := 0;
    while i < |files|
      invariant i <= |files|
      invariant forall j :: 0 <= j < i ==> files[j].Changes() <= maxChanges
      invariant maxChanges == 0 || exists j :: 0 <= j < i && files[j].Changes() == maxChanges
    {
      if files[i].Changes() > maxChanges {
        maxChanges := files[i].Changes();
      }
      i := i + 1;
    }
    width := SaturatingSub(layoutWidth, 1 + nameWidth + 6);
    if width < 6 {
      width := 6;
    }
    bars := [];
    i := 0;
    while i < |files|
      invariant i <= |files| && |bars| == i
      invariant forall j :: 0 <= j < i ==> Drawn(files[j], bars[j], maxChanges, width)
    {
      var bar := Draw(files[i], maxChanges, width);
      bars := bars + [bar];
      i := i + 1;
    }
  }
}
