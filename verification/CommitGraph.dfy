/**
Commit-graph chains: fanout tables and binary search inside a layer, positions across layers,
and the sorted list of every record. Each agrees with the layers' identities written in a row.
*/
module CommitGraph {

  import opened Bytes
  import opened ByteStrings
  import opened Options
  import opened Sets

  type Digest = Bytes

  ghost predicate Ascending(ids: seq<Digest>)
  {
    forall i, j :: 0 <= i < j < |ids| ==> Before(ids[i], ids[j])
  }

  /** `n` identities start with a byte of at most `bucket`, and they come first. */
  ghost predicate Boundary(ids: seq<Digest>, bucket: int, n: nat)
    requires forall i :: 0 <= i < |ids| ==> ids[i] != []
  {
    && n <= |ids|
    && (forall i :: 0 <= i < n ==> ids[i][0] <= bucket)
    && (forall i :: n <= i < |ids| ==> ids[i][0] > bucket)
  }

  datatype Layer = Layer(start: nat, fanout: seq<nat>, ids: seq<Digest>, width: nat) {

    /** Full-width identities, as the table's length guarantees. */
    ghost predicate WellTyped()
    {
      |fanout| == 256 && width > 0 && forall i :: 0 <= i < |ids| ==> |ids[i]| == width
    }

    ghost predicate Valid()
    {
      && WellTyped()
      && Ascending(ids)
      && forall bucket :: 0 <= bucket < 256 ==> Boundary(ids, bucket, fanout[bucket])
    }

    function End(): nat
    {
      start + |ids|
    }
  }

  lemma AscendingFirstBytes(ids: seq<Digest>, i: nat, j: nat)
    requires Ascending(ids) && i <= j < |ids| && forall k :: 0 <= k < |ids| ==> ids[k] != []
    ensures ids[i][0] <= ids[j][0]
  {
    if i < j { assert Before(ids[i], ids[j]); }
  }

  lemma {:induction false} NeighboursAscend(ids: seq<Digest>, i: nat, j: nat)
    requires forall k :: 0 < k < |ids| ==> Before(ids[k - 1], ids[k])
    requires i < j < |ids|
    ensures Before(ids[i], ids[j])
    decreases j
  {
    hide Before;
    assert Before(ids[j - 1], ids[j]);
    if i < j - 1 {
      NeighboursAscend(ids, i, j - 1);
      BeforeIsTransitive(ids[i], ids[j - 1], ids[j]);
    }
  }

  lemma BoundariesGrow(ids: seq<Digest>, a: int, m: nat, b: int, n: nat)
    requires forall i :: 0 <= i < |ids| ==> ids[i] != []
    requires a <= b && Boundary(ids, a, m) && Boundary(ids, b, n)
    ensures m <= n && (a == b ==> m == n)
  {
    var first := if m < n then m else n;
    if first < |ids| {
      var start := ids[first][0];
    }
  }

  /** Accepts a layer exactly when its identities ascend and its fanout counts them. */
  method ValidateFanout(layer: Layer) returns (ok: bool)
    requires layer.WellTyped()
    ensures ok <==> layer.Valid()
  {
    hide Before;
    var position, bucket := 0, 0;
    while bucket < 256
      invariant bucket <= 256 && position <= |layer.ids|
      invariant forall i :: 0 <= i < position ==> layer.ids[i][0] < bucket
      invariant forall b :: 0 <= b < bucket ==> Counted(layer, b)
    {
      while position < |layer.ids| && layer.ids[position][0] <= bucket
        invariant position <= |layer.ids|
        invariant forall i :: 0 <= i < position ==> layer.ids[i][0] <= bucket
      {
        position := position + 1;
      }
      CountedAt(layer, bucket, position);
      if layer.fanout[bucket] != position {
        return false;
      }
      bucket := bucket + 1;
    }
    var k := 1;
    while k < |layer.ids|
      invariant 1 <= k && forall i :: 0 < i < k && i < |layer.ids| ==> Before(layer.ids[i - 1], layer.ids[i])
    {
      if !Before(layer.ids[k - 1], layer.ids[k]) {
        return false;
      }
      k := k + 1;
    }
    forall i, j | 0 <= i < j < |layer.ids| ensures Before(layer.ids[i], layer.ids[j]) { NeighboursAscend(layer.ids, i, j); }
    forall b | 0 <= b < 256 ensures Boundary(layer.ids, b, layer.fanout[b]) { assert Counted(layer, b); }
    return true;
  }

  /** The fanout entry is right if the identities ascend. */
  ghost predicate Counted(layer: Layer, bucket: nat)
    requires layer.WellTyped() && bucket < 256
  {
    Ascending(layer.ids) ==> Boundary(layer.ids, bucket, layer.fanout[bucket])
  }

  lemma CountedAt(layer: Layer, bucket: nat, position: nat)
    requires layer.WellTyped() && bucket < 256 && position <= |layer.ids|
    requires forall i :: 0 <= i < position ==> layer.ids[i][0] <= bucket
    requires position < |layer.ids| ==> layer.ids[position][0] > bucket
    ensures layer.fanout[bucket] == position ==> Counted(layer, bucket)
    ensures layer.fanout[bucket] != position ==> !layer.Valid()
  {
    hide Before;
    if Ascending(layer.ids) {
      forall i | position <= i < |layer.ids| ensures layer.ids[i][0] > bucket {
        AscendingFirstBytes(layer.ids, position, i);
      }
      assert Boundary(layer.ids, bucket, position);
      if layer.Valid() { BoundariesGrow(layer.ids, bucket, position, bucket, layer.fanout[bucket]); }
    }
  }

  /** Searches the bucket of the identity's first byte. */
  method Find(layer: Layer, id: Digest) returns (r: Option<nat>)
    requires layer.Valid()
    ensures r.Some? ==> r.value < |layer.ids| && layer.ids[r.value] == id
    ensures r.None? ==> id !in layer.ids
  {
    hide Before;
    if |id| != layer.width {
      return None;
    }
    var bucket: nat := id[0];
    var low := if bucket == 0 then 0 else layer.fanout[bucket - 1];
    var high := layer.fanout[bucket];
    BucketHolds(layer, id);
    while low < high
      invariant 0 <= low <= high <= |layer.ids|
      invariant forall i :: 0 <= i < low ==> layer.ids[i] != id
      invariant forall i :: high <= i < |layer.ids| ==> layer.ids[i] != id
    {
      var middle := low + (high - low) / 2;
      BeforeIsTotal(layer.ids[middle], id);
      if Before(layer.ids[middle], id) {
        LowerDiffer(layer.ids, middle, id);
        low := middle + 1;
      } else if layer.ids[middle] == id {
        return Some(middle);
      } else {
        HigherDiffer(layer.ids, middle, id);
        high := middle;
      }
    }
    return None;
  }

  lemma BucketHolds(layer: Layer, id: Digest)
    requires layer.Valid() && |id| == layer.width
    ensures forall i :: layer.fanout[id[0]] <= i < |layer.ids| ==> layer.ids[i] != id
    ensures id[0] > 0 ==> forall i :: 0 <= i < layer.fanout[id[0] - 1] && i < |layer.ids| ==> layer.ids[i] != id
    ensures (if id[0] == 0 then 0 else layer.fanout[id[0] - 1]) <= layer.fanout[id[0]] <= |layer.ids|
  {
    hide Before, Ascending;
    assert Boundary(layer.ids, id[0], layer.fanout[id[0]]);
    if id[0] > 0 {
      assert Boundary(layer.ids, id[0] - 1, layer.fanout[id[0] - 1]);
      BoundariesGrow(layer.ids, id[0] - 1, layer.fanout[id[0] - 1], id[0], layer.fanout[id[0]]);
    }
  }

  lemma LowerDiffer(ids: seq<Digest>, middle: nat, id: Digest)
    requires Ascending(ids) && middle < |ids| && Before(ids[middle], id)
    ensures forall i :: 0 <= i <= middle ==> ids[i] != id
  {
    hide Before;
    forall i | 0 <= i <= middle ensures ids[i] != id {
      if i < middle { BeforeIsTransitive(ids[i], ids[middle], id); }
      BeforeIsTotal(ids[i], id);
    }
  }

  lemma HigherDiffer(ids: seq<Digest>, middle: nat, id: Digest)
    requires Ascending(ids) && middle < |ids| && Before(id, ids[middle])
    ensures forall i :: middle <= i < |ids| ==> ids[i] != id
  {
    hide Before;
    forall i | middle <= i < |ids| ensures ids[i] != id {
      if i > middle { BeforeIsTransitive(id, ids[middle], ids[i]); }
      BeforeIsTotal(ids[i], id);
    }
  }

  // Chains.

  ghost predicate Follows(layers: seq<Layer>, k: nat)
    requires k < |layers|
  {
    layers[k].start == (if k == 0 then 0 else layers[k - 1].End())
  }

  /** Layers follow each other without gaps, and no identity is in two of them. */
  ghost predicate Stacked(layers: seq<Layer>)
  {
    && (forall k :: 0 <= k < |layers| ==> layers[k].Valid())
    && (forall k: nat :: k < |layers| ==> Follows(layers, k))
    && (forall j, k, id {:trigger id in layers[j].ids, id in layers[k].ids} ::
          0 <= j < k < |layers| && id in layers[j].ids ==> id !in layers[k].ids)
  }

  /** The identities of all layers in a row. */
  ghost function Flat(layers: seq<Layer>): seq<Digest>
  {
    if layers == [] then [] else Flat(layers[..|layers| - 1]) + layers[|layers| - 1].ids
  }

  function Length(layers: seq<Layer>): nat
  {
    if layers == [] then 0 else layers[|layers| - 1].End()
  }

  lemma StackedPrefix(layers: seq<Layer>, n: nat)
    requires Stacked(layers) && n <= |layers|
    ensures Stacked(layers[..n])
  {
    hide Layer.Valid;
    var some := layers[..n];
    forall k: nat | k < n ensures Follows(some, k) { assert Follows(layers, k); }
  }

  lemma {:induction false} FlatHolds(layers: seq<Layer>, k: nat)
    requires Stacked(layers) && k < |layers|
    ensures |Flat(layers)| == Length(layers) && layers[k].End() <= Length(layers)
    ensures Flat(layers)[layers[k].start..layers[k].End()] == layers[k].ids
    decreases |layers|
  {
    hide Layer.Valid;
    var n := |layers| - 1;
    var below := layers[..n];
    StackedPrefix(layers, n);
    if n > 0 {
      FlatHolds(below, if k < n then k else 0);
      assert Follows(layers, n);
    } else {
      assert Follows(layers, 0);
    }
    var flat := Flat(below);
    assert |flat| == layers[n].start;
    if k < n {
      assert (flat + layers[n].ids)[layers[k].start..layers[k].End()] == flat[layers[k].start..layers[k].End()];
    }
  }

  /** The layer that holds a position: the last one that starts at or before it. */
  method LayerAt(layers: seq<Layer>, position: nat) returns (k: nat)
    requires Stacked(layers) && position < Length(layers)
    ensures k < |layers| && layers[k].start <= position < layers[k].End()
    ensures position < |Flat(layers)| && layers[k].ids[position - layers[k].start] == Flat(layers)[position]
    ensures forall j :: 0 <= j < |layers| && layers[j].start <= position < layers[j].End() ==> j == k
  {
    hide Layer.Valid, Flat, Stacked;
    var low, high := 0, |layers|;
    assert layers[0].start == 0 by { FirstStartsAtZero(layers); }
    while low < high
      invariant 0 <= low <= high <= |layers|
      invariant forall j :: 0 <= j < low ==> layers[j].start <= position
      invariant forall j :: high <= j < |layers| ==> layers[j].start > position
    {
      var middle := (low + high) / 2;
      if layers[middle].start <= position {
        forall j | 0 <= j <= middle ensures layers[j].start <= position { StartsGrow(layers, j, middle); }
        low := middle + 1;
      } else {
        forall j | middle <= j < |layers| ensures layers[j].start > position { StartsGrow(layers, middle, j); }
        high := middle;
      }
    }
    k := low - 1;
    PositionIsHeld(layers, position, k);
  }

  lemma FirstStartsAtZero(layers: seq<Layer>)
    requires Stacked(layers) && layers != []
    ensures layers[0].start == 0
  {
    assert Follows(layers, 0);
  }

  lemma {:induction false} StartsGrow(layers: seq<Layer>, j: nat, k: nat)
    requires Stacked(layers) && j <= k < |layers|
    ensures layers[j].start <= layers[k].start && (j < k ==> layers[j].End() <= layers[k].start)
    decreases k
  {
    hide Layer.Valid;
    if j < k {
      StartsGrow(layers, j, k - 1);
      assert Follows(layers, k);
    }
  }

  lemma PositionIsHeld(layers: seq<Layer>, position: nat, k: nat)
    requires Stacked(layers) && position < Length(layers) && k < |layers|
    requires layers[k].start <= position && (k + 1 < |layers| ==> layers[k + 1].start > position)
    ensures position < layers[k].End()
    ensures position < |Flat(layers)| && layers[k].ids[position - layers[k].start] == Flat(layers)[position]
    ensures forall j :: 0 <= j < |layers| && layers[j].start <= position < layers[j].End() ==> j == k
  {
    hide Layer.Valid, Flat;
    if k + 1 < |layers| { assert Follows(layers, k + 1); }
    FlatHolds(layers, k);
    var slice := Flat(layers)[layers[k].start..layers[k].End()];
    assert slice[position - layers[k].start] == Flat(layers)[position];
    forall j | 0 <= j < |layers| && layers[j].start <= position < layers[j].End() ensures j == k {
      if j < k { StartsGrow(layers, j, k); }
      if k < j { StartsGrow(layers, k, j); }
    }
  }

  /** The position of an identity in the row, or nothing if no layer has it. */
  method Locate(layers: seq<Layer>, id: Digest) returns (r: Option<nat>)
    requires Stacked(layers)
    ensures r.Some? ==> r.value < |Flat(layers)| && Flat(layers)[r.value] == id
    ensures r.None? ==> id !in Flat(layers)
  {
    hide Layer.Valid, Flat;
    var k := 0;
    while k < |layers|
      invariant k <= |layers| && forall j :: 0 <= j < k ==> id !in layers[j].ids
    {
      var index := Find(layers[k], id);
      if index.Some? {
        FlatHolds(layers, k);
        assert Flat(layers)[layers[k].start..layers[k].End()][index.value] == Flat(layers)[layers[k].start + index.value];
        return Some(layers[k].start + index.value);
      }
      k := k + 1;
    }
    NowhereInFlat(layers, id);
    return None;
  }

  lemma {:induction false} NowhereInFlat(layers: seq<Layer>, id: Digest)
    requires forall j :: 0 <= j < |layers| ==> id !in layers[j].ids
    ensures id !in Flat(layers)
    decreases |layers|
  {
    if layers != [] { NowhereInFlat(layers[..|layers| - 1], id); }
  }

  // Acceptance.

  datatype File = File(fanout: seq<nat>, ids: seq<Digest>)

  function LayersOf(files: seq<File>, width: nat): seq<Layer>
  {
    if files == [] then []
    else
      var below, last := LayersOf(files[..|files| - 1], width), files[|files| - 1];
      below + [Layer(Length(below), last.fanout, last.ids, width)]
  }

  ghost predicate ElsewhereIn(layers: seq<Layer>, id: Digest)
  {
    exists j :: 0 <= j < |layers| && id in layers[j].ids
  }

  method FindBelow(layers: seq<Layer>, ids: seq<Digest>) returns (found: bool)
    requires Stacked(layers)
    ensures found <==> exists i :: 0 <= i < |ids| && ElsewhereIn(layers, ids[i])
  {
    hide Layer.Valid;
    var i := 0;
    while i < |ids|
      invariant i <= |ids| && forall a :: 0 <= a < i ==> !ElsewhereIn(layers, ids[a])
    {
      var k := 0;
      while k < |layers|
        invariant k <= |layers| && forall j :: 0 <= j < k ==> ids[i] !in layers[j].ids
      {
        var index := Find(layers[k], ids[i]);
        if index.Some? {
          assert ids[i] in layers[k].ids;
          assert ElsewhereIn(layers, ids[i]);
          return true;
        }
        k := k + 1;
      }
      i := i + 1;
    }
    return false;
  }

  lemma StackedGrows(layers: seq<Layer>, layer: Layer)
    requires Stacked(layers) && layer.start == Length(layers)
    ensures Stacked(layers + [layer]) <==>
      layer.Valid() && !exists i :: 0 <= i < |layer.ids| && ElsewhereIn(layers, layer.ids[i])
  {
    hide Layer.Valid;
    var more := layers + [layer];
    var n := |layers|;
    assert more[n] == layer;
    if layer.Valid() && !exists i :: 0 <= i < |layer.ids| && ElsewhereIn(layers, layer.ids[i]) {
      forall k: nat | k < |more| ensures Follows(more, k) { if k < n { assert Follows(layers, k); } }
      forall j, k, id | 0 <= j < k < |more| && id in more[j].ids ensures id !in more[k].ids {
        assert k == n ==> ElsewhereIn(layers, id);
      }
    }
    if Stacked(more) {
      assert more[n].Valid();
      forall i | 0 <= i < |layer.ids| ensures !ElsewhereIn(layers, layer.ids[i]) {
        if j :| 0 <= j < n && layer.ids[i] in layers[j].ids {
          assert layer.ids[i] in more[j].ids && layer.ids[i] in more[n].ids;
        }
      }
    }
  }

  /** Accepts exactly the files that make a chain within the commit limit. */
  method CheckStructure(files: seq<File>, width: nat, maxCommits: nat) returns (r: Option<seq<Layer>>)
    requires width > 0
    requires forall k :: 0 <= k < |files| ==>
      |files[k].fanout| == 256 && forall i :: 0 <= i < |files[k].ids| ==> |files[k].ids[i]| == width
    ensures r.Some? <==> Stacked(LayersOf(files, width)) && Length(LayersOf(files, width)) <= maxCommits
    ensures r.Some? ==> r.value == LayersOf(files, width)
  {
    hide Layer.Valid, Stacked, ElsewhereIn;
    var layers: seq<Layer> := [];
    var k := 0;
    assert Stacked([]) by { NothingStacked(); }
    while k < |files|
      invariant k <= |files| && layers == LayersOf(files[..k], width)
      invariant Stacked(layers) && Length(layers) <= maxCommits
    {
      var layer := Layer(Length(layers), files[k].fanout, files[k].ids, width);
      assert files[..k + 1][..k] == files[..k];
      LayersGrow(files, width, k + 1);
      StackedGrows(layers, layer);
      if |layer.ids| > maxCommits - Length(layers) {
        return None;
      }
      var valid := ValidateFanout(layer);
      if !valid {
        return None;
      }
      var repeated := FindBelow(layers, layer.ids);
      if repeated {
        return None;
      }
      layers := layers + [layer];
      k := k + 1;
    }
    assert files[..k] == files;
    r := Some(layers);
  }

  lemma NothingStacked()
    ensures Stacked([])
  {
  }

  /** What is wrong with the first layers stays wrong with more of them. */
  lemma {:induction false} LayersGrow(files: seq<File>, width: nat, n: nat)
    requires n <= |files|
    ensures LayersOf(files[..n], width) <= LayersOf(files, width)
    ensures Length(LayersOf(files[..n], width)) <= Length(LayersOf(files, width))
    ensures Stacked(LayersOf(files, width)) ==> Stacked(LayersOf(files[..n], width))
    decreases |files|
  {
    hide Stacked;
    var all := LayersOf(files, width);
    if n == |files| {
      assert files[..n] == files;
    } else {
      var fewer := files[..|files| - 1];
      assert fewer[..n] == files[..n];
      LayersGrow(fewer, width, n);
      if Stacked(all) {
        StackedPrefix(all, |LayersOf(fewer, width)|);
        assert all[..|LayersOf(fewer, width)|] == LayersOf(fewer, width);
      }
    }
  }

  // The sorted list.

  lemma AscendingIsDistinct(ids: seq<Digest>)
    requires Ascending(ids)
    ensures Distinct(ids)
  {
    hide Before;
    forall i, j | 0 <= i < j < |ids| ensures ids[i] != ids[j] { BeforeIsTotal(ids[i], ids[j]); }
  }

  lemma {:induction false} FlatIsDistinct(layers: seq<Layer>)
    requires Stacked(layers)
    ensures Distinct(Flat(layers))
    decreases |layers|
  {
    hide Before;
    if layers != [] {
      var n := |layers| - 1;
      StackedPrefix(layers, n);
      FlatIsDistinct(layers[..n]);
      AscendingIsDistinct(layers[n].ids);
      forall id | id in Flat(layers[..n]) ensures id !in layers[n].ids { FlatIsBelow(layers, n, id); }
      JoinIsDistinct(Flat(layers[..n]), layers[n].ids);
    }
  }

  lemma JoinIsDistinct(a: seq<Digest>, b: seq<Digest>)
    requires Distinct(a) && Distinct(b) && forall id :: id in a ==> id !in b
    ensures Distinct(a + b)
  {
    var c := a + b;
    forall i, j | 0 <= i < j < |c| ensures c[i] != c[j] {
      if i < |a| <= j { assert a[i] in a && b[j - |a|] in b; }
    }
  }

  lemma {:induction false} FlatIsBelow(layers: seq<Layer>, n: nat, id: Digest)
    requires Stacked(layers) && n < |layers| && id in Flat(layers[..n])
    ensures id !in layers[n].ids
  {
    hide Layer.Valid;
    if forall j :: 0 <= j < n ==> id !in layers[..n][j].ids {
      NowhereInFlat(layers[..n], id);
    } else {
      var j :| 0 <= j < n && id in layers[..n][j].ids;
      assert id in layers[j].ids;
    }
  }

  lemma InsertKeepsAscending(sorted: seq<Digest>, id: Digest, k: nat)
    requires Ascending(sorted) && k <= |sorted|
    requires forall i :: 0 <= i < k ==> Before(sorted[i], id)
    requires forall i :: k <= i < |sorted| ==> Before(id, sorted[i])
    ensures Ascending(sorted[..k] + [id] + sorted[k..])
    ensures forall x :: x in sorted[..k] + [id] + sorted[k..] <==> x in sorted || x == id
  {
    hide Before;
    assert sorted == sorted[..k] + sorted[k..];
  }

  method SortIds(ids: seq<Digest>) returns (sorted: seq<Digest>)
    requires Distinct(ids)
    ensures Ascending(sorted) && |sorted| == |ids| && forall id :: id in sorted <==> id in ids
  {
    hide Before;
    sorted := [];
    var n := 0;
    while n < |ids|
      invariant n <= |ids| && Ascending(sorted) && |sorted| == n
      invariant forall id :: id in sorted <==> id in ids[..n]
    {
      var id := ids[n];
      assert id !in ids[..n];
      var k := n;
      while k > 0 && Before(id, sorted[k - 1])
        invariant 0 <= k <= n && forall i :: k <= i < n ==> Before(id, sorted[i])
      {
        k := k - 1;
      }
      assert forall i :: 0 <= i < k ==> Before(sorted[i], id) by { LowerComeFirst(sorted, id, k); }
      InsertKeepsAscending(sorted, id, k);
      sorted := sorted[..k] + [id] + sorted[k..];
      assert ids[..n + 1] == ids[..n] + [id];
      n := n + 1;
    }
    assert ids[..n] == ids;
  }

  lemma LowerComeFirst(sorted: seq<Digest>, id: Digest, k: nat)
    requires Ascending(sorted) && k <= |sorted| && id !in sorted && (k > 0 ==> !Before(id, sorted[k - 1]))
    ensures forall i :: 0 <= i < k ==> Before(sorted[i], id)
  {
    hide Before;
    forall i | 0 <= i < k ensures Before(sorted[i], id) {
      BeforeIsTotal(sorted[k - 1], id);
      if i < k - 1 { BeforeIsTransitive(sorted[i], sorted[k - 1], id); }
    }
  }

  /** Every identity the chain can find, once each, in ascending order. */
  method Commits(layers: seq<Layer>) returns (ids: seq<Digest>)
    requires Stacked(layers)
    ensures Ascending(ids) && |ids| == Length(layers) && forall id :: id in ids <==> id in Flat(layers)
  {
    hide Layer.Valid, Flat, Before, Stacked, Ascending, Distinct;
    ids := [];
    FlatLength(layers);
    var position := 0;
    while position < Length(layers)
      invariant position <= Length(layers) && ids == Flat(layers)[..position]
    {
      var k := LayerAt(layers, position);
      ids := ids + [layers[k].ids[position - layers[k].start]];
      position := position + 1;
    }
    assert ids == Flat(layers);
    if |layers| > 1 {
      FlatIsDistinct(layers);
      ids := SortIds(ids);
    } else {
      OneLayerAscends(layers);
    }
  }

  lemma FlatLength(layers: seq<Layer>)
    requires Stacked(layers)
    ensures |Flat(layers)| == Length(layers)
  {
    if layers != [] { FlatHolds(layers, 0); }
  }

  lemma OneLayerAscends(layers: seq<Layer>)
    requires Stacked(layers) && |layers| <= 1
    ensures Ascending(Flat(layers))
  {
    if |layers| == 1 { assert Flat(layers) == layers[0].ids; }
  }
}
