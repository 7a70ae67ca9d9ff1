/**
 * The texture layers of one terrain chunk (src/TextureSet.cpp, state in
 * src/TextureSet.h:53-62): up to four layers, bottom (base) layer first,
 * each with a texture and its header fields, and one 64x64 alpha grid per
 * non-base layer.
 *
 * The source keeps five parallel arrays of per-layer fields; here one
 * array of Slot records holds them. A texture pointer is modelled by its
 * handle, the lower-case file name under which the texture cache stores
 * it, and the cache is passed to the operations that take or drop
 * references. An alpha grid pointer is an Option: None is a null pointer.
 */
module TextureSets {
  import opened Wrappers
  import opened Compositing
  import opened Brushes
  import opened TextureManagement
  import opened LayerLists
  import opened Texels

  /** The most layers a chunk holds. */
  const MaxLayers: nat := 4

  /**
   * One layer: its texture and the per-layer fields of the chunk header
   * (textures[], tex[], animated[], texFlags[], effectID[]).
   */
  datatype Slot = Slot(texture: string, tex: int, animated: int, flags: nat, effect: nat)

  /** A chunk with n layers has an alpha grid for each of its n - 1 non-base layers. */
  function GridCount(n: nat): nat
  {
    if n == 0 then 0 else n - 1
  }

  function Names(layers: seq<Slot>): (names: seq<string>)
    ensures |names| == |layers|
    ensures forall k :: 0 <= k < |layers| ==> names[k] == layers[k].texture
  {
    seq(|layers|, k requires 0 <= k < |layers| => layers[k].texture)
  }

  predicate AllPresent(maps: seq<Option<Alphamap>>)
  {
    forall k :: 0 <= k < |maps| ==> maps[k].Some?
  }

  /**
   * The layer state as the source keeps it: four slots, three grid
   * pointers, at most four layers, a grid for every non-base layer, and
   * every layer's texture a cache key (a lower-case name).
   */
  predicate WellFormed(s: seq<Slot>, m: seq<Option<Alphamap>>, n: nat)
  {
    |s| == MaxLayers && |m| == MaxLayers - 1 && n <= MaxLayers &&
    (forall k :: 0 <= k < GridCount(n) ==> m[k].Some?) &&
    (forall k :: 0 <= k < n ==> IsLower(s[k].texture))
  }

  /** Grid pointers beyond the n layers in use are null, as addTexture expects. */
  predicate PackedMaps(m: seq<Option<Alphamap>>, n: nat)
  {
    forall k :: GridCount(n) <= k < |m| ==> m[k].None?
  }

  function Present(maps: seq<Option<Alphamap>>): (grids: seq<Alphamap>)
    requires AllPresent(maps)
    ensures |grids| == |maps|
    ensures forall k :: 0 <= k < |maps| ==> maps[k] == Some(grids[k])
  {
    seq(|maps|, k requires 0 <= k < |maps| => maps[k].value)
  }

  /**
   * The slot array after eraseTexture(id) on n layers (TextureSet.cpp:190,
   * 199-214): the layers above id move down one place, in order, and the
   * vacated top slot keeps its old contents with tex cleared.
   */
  function ErasedSlots(s: seq<Slot>, id: nat, n: nat): (r: seq<Slot>)
    requires id < n <= |s|
    ensures |r| == |s|
    ensures forall k :: 0 <= k < |s| ==>
      r[k] == if k < id then s[k] else if k < n - 1 then s[k + 1] else if k == n - 1 then s[n - 1].(tex := 0) else s[k]
    ensures r[..n - 1] == RemoveAt(s[..n], id)
  {
    var r := s[..id] + s[id + 1..n] + [s[n - 1].(tex := 0)] + s[n..];
    assert r[..n - 1] == s[..id] + s[id + 1..n];
    r
  }

  /** The grid below layer id's: the one eraseTexture(id) discards (layer 1's when the base is erased). */
  function Discarded(id: nat): nat
  {
    if id == 0 then 0 else id - 1
  }

  /**
   * The alpha grid array after eraseTexture(id) on n >= 2 layers
   * (TextureSet.cpp:192-213): the grid of layer id is discarded (layer 1's
   * when the base is erased), the grids above it move down one place, and
   * the vacated top grid pointer is cleared. With a single layer the source
   * writes before the start of the array; here nothing changes.
   */
  function ErasedAlphamaps(m: seq<Option<Alphamap>>, id: nat, n: nat): (r: seq<Option<Alphamap>>)
    requires id < n <= |m| + 1
    ensures |r| == |m|
    ensures n < 2 ==> r == m
    ensures n >= 2 ==> forall k :: 0 <= k < |m| ==>
      r[k] == if k < Discarded(id) then m[k] else if k < n - 2 then m[k + 1] else if k == n - 2 then None else m[k]
  {
    if n < 2 then m
    else
      var lo := Discarded(id);
      m[..lo] + m[lo + 1..n - 1] + [None] + m[n - 1..]
  }

  /**
   * The index that eraseTexture writes to clear the top grid pointer
   * (TextureSet.cpp:213), as computed: nTextures - 2 in 64-bit size_t
   * arithmetic.
   */
  function ClearedIndexAsWritten(n: nat): nat
    requires n < 0x1_0000_0000_0000_0000
  {
    (n + 0x1_0000_0000_0000_0000 - 2) % 0x1_0000_0000_0000_0000
  }

  /**
   * With two or more layers the index is the last grid slot in use; with a
   * single layer it wraps around to the largest size_t, far outside the
   * three grid pointers.
   */
  lemma ClearedIndexOutOfRange()
    ensures forall n :: 2 <= n <= MaxLayers ==> ClearedIndexAsWritten(n) == n - 2 < MaxLayers - 1
    ensures ClearedIndexAsWritten(1) == 0xFFFF_FFFF_FFFF_FFFF
  {
  }

  /** Names commute with removing a layer. */
  lemma NamesRemoveAt(layers: seq<Slot>, id: nat)
    requires id < |layers|
    ensures Names(RemoveAt(layers, id)) == RemoveAt(Names(layers), id)
  {
  }

  /** Erasing a layer keeps the state well formed and packed. */
  lemma ErasedWellFormed(s: seq<Slot>, m: seq<Option<Alphamap>>, id: nat, n: nat)
    requires WellFormed(s, m, n) && id < n
    ensures WellFormed(ErasedSlots(s, id, n), ErasedAlphamaps(m, id, n), n - 1)
    ensures PackedMaps(m, n) ==> PackedMaps(ErasedAlphamaps(m, id, n), n - 1)
  {
  }

  /** Erasing a layer removes its grid (layer 1's when the base goes) from the grids. */
  lemma ErasedGrids(m: seq<Option<Alphamap>>, id: nat, n: nat)
    requires id < n && 2 <= n <= |m| + 1
    requires forall k :: 0 <= k < n - 1 ==> m[k].Some?
    ensures AllPresent(m[..n - 1]) && AllPresent(ErasedAlphamaps(m, id, n)[..n - 2])
    ensures Present(ErasedAlphamaps(m, id, n)[..n - 2]) == RemoveAt(Present(m[..n - 1]), Discarded(id))
  {
    var live := m[..n - 1];
    forall k | 0 <= k < n - 1 ensures live[k].Some? {
      assert live[k] == m[k];
    }
    var g := Present(live);
    var lo := Discarded(id);
    var e := ErasedAlphamaps(m, id, n)[..n - 2];
    forall k | 0 <= k < n - 2 ensures e[k] == Some(if k < lo then g[k] else g[k + 1]) {
      assert e[k] == ErasedAlphamaps(m, id, n)[k];
      assert live[k] == m[k] && live[k + 1] == m[k + 1];
    }
    var r := RemoveAt(g, lo);
    forall k | 0 <= k < n - 2 ensures Present(e)[k] == r[k] {
    }
    assert Present(e) == r;
  }

  /**
   * The slot array while eraseTexture's shift loop (TextureSet.cpp:199-211)
   * stands at index i: the slots from id up to i have taken their upper
   * neighbour's contents.
   */
  function ShiftedSlots(s: seq<Slot>, id: nat, i: nat): (r: seq<Slot>)
    requires id <= i < |s|
    ensures |r| == |s|
    ensures forall k :: 0 <= k < |s| ==>
      r[k] == if k < id then s[k] else if k < i then s[k + 1] else if k == id then s[id].(tex := 0) else s[k]
  {
    seq(|s|, k requires 0 <= k < |s| =>
      if k < id then s[k] else if k < i then s[k + 1] else if k == id then s[id].(tex := 0) else s[k])
  }

  /** The grid pointer array while the shift loop stands at index i. */
  function ShiftedMaps(m: seq<Option<Alphamap>>, id: nat, i: nat): (r: seq<Option<Alphamap>>)
    requires id <= i <= |m|
    ensures |r| == |m|
    ensures forall k :: 0 <= k < |m| ==>
      r[k] == if k < Discarded(id) then m[k] else if k + 1 < i then m[k + 1] else if id > 0 && k == id - 1 && i == id then None else m[k]
  {
    seq(|m|, k requires 0 <= k < |m| =>
      if k < Discarded(id) then m[k] else if k + 1 < i then m[k + 1] else if id > 0 && k == id - 1 && i == id then None else m[k])
  }

  lemma ShiftStart(s: seq<Slot>, m: seq<Option<Alphamap>>, id: nat)
    requires id < |s| && id <= |m|
    ensures ShiftedSlots(s, id, id) == s[id := s[id].(tex := 0)]
    ensures id > 0 ==> ShiftedMaps(m, id, id) == m[id - 1 := None]
    ensures id == 0 ==> ShiftedMaps(m, id, id) == m
  {
    if id > 0 {
      var r := ShiftedMaps(m, id, id);
      var u := m[id - 1 := None];
      forall k | 0 <= k < |m| ensures r[k] == u[k] {
        if k == id - 1 {
          assert Discarded(id) == k;
        } else {
          assert u[k] == m[k];
        }
      }
      assert r == u;
    }
  }

  lemma ShiftStep(s: seq<Slot>, m: seq<Option<Alphamap>>, id: nat, i: nat)
    requires id <= i && i + 1 < |s| && i + 1 <= |m|
    ensures ShiftedSlots(s, id, i)[i := ShiftedSlots(s, id, i)[i + 1]] == ShiftedSlots(s, id, i + 1)
    ensures i > 0 ==> ShiftedMaps(m, id, i)[i - 1 := ShiftedMaps(m, id, i)[i]] == ShiftedMaps(m, id, i + 1)
    ensures i == 0 ==> ShiftedMaps(m, id, i) == ShiftedMaps(m, id, i + 1)
  {
    if i > 0 {
      var r := ShiftedMaps(m, id, i);
      var t := ShiftedMaps(m, id, i + 1);
      assert forall k :: 0 <= k < |m| ==> r[i - 1 := r[i]][k] == t[k];
    }
  }

  lemma ShiftEndSlots(s: seq<Slot>, id: nat, n: nat)
    requires id < n <= |s|
    ensures ShiftedSlots(s, id, n - 1)[n - 1 := ShiftedSlots(s, id, n - 1)[n - 1].(tex := 0)] == ErasedSlots(s, id, n)
  {
    var r := ShiftedSlots(s, id, n - 1);
    var e := ErasedSlots(s, id, n);
    assert forall k :: 0 <= k < |s| ==> r[n - 1 := r[n - 1].(tex := 0)][k] == e[k];
  }

  lemma ShiftEndMaps(m: seq<Option<Alphamap>>, id: nat, n: nat)
    requires id < n <= |m| + 1
    ensures n >= 2 ==> ShiftedMaps(m, id, n - 1)[n - 2 := None] == ErasedAlphamaps(m, id, n)
    ensures n < 2 ==> ShiftedMaps(m, id, n - 1) == ErasedAlphamaps(m, id, n)
  {
    var r := ShiftedMaps(m, id, n - 1);
    var e := ErasedAlphamaps(m, id, n);
    if n >= 2 {
      var u := r[n - 2 := None];
      forall k | 0 <= k < |m| ensures u[k] == e[k] {
        if k != n - 2 {
          assert u[k] == r[k];
        }
      }
      assert u == e;
    } else {
      assert forall k :: 0 <= k < |m| ==> r[k] == e[k];
    }
  }

  /** Every texel of the grid is fully opaque. */
  predicate AllOpaque(g: Alphamap)
  {
    forall i :: 0 <= i < |g| ==> g[i] == 255
  }

  /** Some texel of the grid is not fully transparent. */
  predicate Painted(g: Alphamap)
  {
    exists i :: 0 <= i < |g| && g[i] > 0
  }

  /** No grid from index k up is fully opaque: the layers up to k + 1 may still show. */
  predicate Uncovered(grids: seq<Alphamap>, k: nat)
  {
    forall j :: k <= j < |grids| ==> !AllOpaque(grids[j])
  }

  /**
   * The layers eraseUnusedTextures keeps (TextureSet.cpp:321-359), bottom
   * first: a non-base layer k is kept when no grid above it is fully opaque
   * and its own grid is painted somewhere; the base stays at the bottom
   * when no grid at all is fully opaque.
   */
  function InUse(grids: seq<Alphamap>): (mask: seq<bool>)
    ensures |mask| == |grids| + 1
  {
    seq(|grids| + 1, k requires 0 <= k <= |grids| => Uncovered(grids, k) && (k == 0 || Painted(grids[k - 1])))
  }

  /** The mask entry of layer k, spelled out. */
  lemma InUseAt(grids: seq<Alphamap>, k: nat)
    requires k <= |grids|
    ensures InUse(grids)[k] == (Uncovered(grids, k) && (k == 0 || Painted(grids[k - 1])))
  {
  }

  /**
   * One step of the top-down scan: layer k's grid is examined only while
   * no grid above it is fully opaque, and it is kept exactly when InUse
   * says so.
   */
  lemma ScanOutcome(grids: seq<Alphamap>, k: nat, scanned: bool, above: bool, texVisible: bool, baseVisible: bool)
    requires 1 <= k <= |grids|
    requires scanned == (k >= |grids| || above)
    requires k < |grids| ==> above == Uncovered(grids, k)
    requires scanned ==> texVisible == Painted(grids[k - 1]) && baseVisible == !AllOpaque(grids[k - 1])
    requires !scanned ==> !texVisible && baseVisible == above
    ensures texVisible == InUse(grids)[k] && baseVisible == Uncovered(grids, k - 1)
  {
    InUseAt(grids, k);
  }

  /**
   * The clean-up only drops what cannot be seen: a layer it does not keep
   * has visibility 0 at every texel.
   */
  lemma UnusedLayerHidden(grids: seq<Alphamap>, k: nat, x: nat)
    requires k <= |grids| && x < TexelCount && !InUse(grids)[k]
    ensures Decode(Column(grids, x))[k] == 0.0
  {
    var col := Column(grids, x);
    InUseAt(grids, k);
    if !Uncovered(grids, k) {
      var j :| k <= j < |grids| && AllOpaque(grids[j]);
      assert col[j] == Full;
    } else {
      assert grids[k - 1][x] == 0;
    }
    DecodeHidden(col, k);
  }

  /** Below a fully opaque grid, some higher layer is kept. */
  lemma {:induction false} OpaqueKeepsLayerAbove(grids: seq<Alphamap>, j: nat)
    requires j < |grids| && AllOpaque(grids[j])
    ensures exists k :: j < k <= |grids| && InUse(grids)[k]
    decreases |grids| - j
  {
    if Uncovered(grids, j + 1) {
      assert grids[j][0] > 0;
      InUseAt(grids, j + 1);
    } else {
      var i :| j + 1 <= i < |grids| && AllOpaque(grids[i]);
      OpaqueKeepsLayerAbove(grids, i);
    }
  }

  /** When the base is dropped, at least one layer above it stays to take its place. */
  lemma CoveredBaseKeepsTwo(layers: seq<Slot>, grids: seq<Alphamap>)
    requires |layers| == |grids| + 1 && !InUse(grids)[0]
    ensures |layers[..1] + Kept(layers[1..], InUse(grids)[1..])| >= 2
  {
    InUseAt(grids, 0);
    var j :| 0 <= j < |grids| && AllOpaque(grids[j]);
    OpaqueKeepsLayerAbove(grids, j);
    var k :| j < k <= |grids| && InUse(grids)[k];
    KeptNonEmpty(layers[1..], InUse(grids)[1..], k - 1);
  }

  /**
   * The cache releases of a top-down pass that erases the layers whose mask
   * entry is clear, from index k up: the highest first.
   */
  function Released(layers: seq<Slot>, mask: seq<bool>, k: nat): (names: seq<string>)
    requires |mask| == |layers| && k <= |layers|
  {
    Reverse(Names(Kept(layers[k..], Negate(mask)[k..])))
  }

  /** Every name the pass releases is the name of one of the layers. */
  lemma {:induction false} ReleasedFrom(layers: seq<Slot>, mask: seq<bool>, k: nat, name: string)
    requires |mask| == |layers| && k <= |layers| && name in Released(layers, mask, k)
    ensures name in Names(layers)
    decreases |layers| - k
  {
    if k < |layers| {
      ReleasedStep(layers, mask, k);
      if name != layers[k].texture || mask[k] {
        ReleasedFrom(layers, mask, k + 1, name);
      } else {
        assert Names(layers)[k] == name;
      }
    }
  }

  lemma ReleasedStep(layers: seq<Slot>, mask: seq<bool>, k: nat)
    requires |mask| == |layers| && k < |layers|
    ensures Released(layers, mask, k) ==
      if mask[k] then Released(layers, mask, k + 1) else Released(layers, mask, k + 1) + [layers[k].texture]
  {
    var neg := Negate(mask);
    KeptFrom(layers, neg, k);
    var rest := Kept(layers[k + 1..], neg[k + 1..]);
    assert neg[k] == !mask[k];
    if mask[k] {
      assert [] + rest == rest;
    } else {
      var names := Names([layers[k]] + rest);
      assert names == [layers[k].texture] + Names(rest);
      ReverseCons(layers[k].texture, Names(rest));
    }
  }


  /** The pass keeps layer k and its grid: nothing changes and nothing is released. */
  lemma KeepStep(layers: seq<Slot>, grids: seq<Alphamap>, mask: seq<bool>, k: nat)
    requires |layers| == |grids| + 1 && |mask| == |layers| && 1 <= k < |layers| && mask[k]
    ensures Pass(layers, mask, k + 1) == Pass(layers, mask, k)
    ensures Pass(grids, mask[1..], k) == Pass(grids, mask[1..], k - 1)
    ensures Released(layers, mask, k) == Released(layers, mask, k + 1)
  {
    assert mask[1..][k - 1] == mask[k];
    PassKeep(layers, mask, k);
    PassKeep(grids, mask[1..], k - 1);
    ReleasedStep(layers, mask, k);
  }

  /** The pass drops layer k and its grid, the one just below it in the grid list. */
  lemma DropStep(layers: seq<Slot>, grids: seq<Alphamap>, mask: seq<bool>, k: nat)
    requires |layers| == |grids| + 1 && |mask| == |layers| && 1 <= k < |layers| && !mask[k]
    ensures RemoveAt(Pass(layers, mask, k + 1), k) == Pass(layers, mask, k)
    ensures RemoveAt(Pass(grids, mask[1..], k), k - 1) == Pass(grids, mask[1..], k - 1)
  {
    assert mask[1..][k - 1] == mask[k];
    PassDrop(layers, mask, k);
    PassDrop(grids, mask[1..], k - 1);
  }

  /** Whether the pass has removed something, one layer further down. */
  lemma RemovedStep(mask: seq<bool>, k: nat)
    requires k < |mask|
    ensures (false in mask[k..]) == (false in mask[k + 1..] || !mask[k])
  {
    assert mask[k..] == [mask[k]] + mask[k + 1..];
  }


  /** The cache after one more layer of the top-down pass is erased. */
  lemma ReleaseDropped(items: map<string, nat>, before: map<string, nat>, after: map<string, nat>, layers: seq<Slot>, mask: seq<bool>, k: nat)
    requires |mask| == |layers| && k < |layers| && !mask[k]
    requires before == ReleaseAll(items, Released(layers, mask, k + 1))
    requires after == Release(before, ToLower(layers[k].texture))
    ensures after == ReleaseAll(items, Released(layers, mask, k))
  {
    ReleasedStep(layers, mask, k);
    ReleaseAllAppend(items, Released(layers, mask, k + 1), layers[k].texture);
  }

  /** Erasing the top layer of the first m: the prefix shrinks and its name is released last. */
  lemma ReleaseTop(items: map<string, nat>, names: seq<string>, m: nat)
    requires 0 < m <= |names|
    ensures RemoveAt(names[..m], m - 1) == names[..m - 1]
    ensures ReleaseAll(items, Reverse(names[m - 1..])) == Release(ReleaseAll(items, Reverse(names[m..])), ToLower(names[m - 1]))
  {
    assert names[m - 1..][1..] == names[m..];
    assert Reverse(names[m - 1..]) == Reverse(names[m..]) + [names[m - 1]];
    ReleaseAllAppend(items, Reverse(names[m..]), names[m - 1]);
  }

  lemma {:induction false} NamesKept(layers: seq<Slot>, mask: seq<bool>)
    requires |mask| == |layers|
    ensures Names(Kept(layers, mask)) == Kept(Names(layers), mask)
    decreases |layers|
  {
    if layers != [] {
      NamesKept(layers[1..], mask[1..]);
      assert Names(layers)[1..] == Names(layers[1..]);
    }
  }

  /** The names a whole pass releases: the textures of the dropped layers, highest first. */
  lemma ReleasedNames(layers: seq<Slot>, mask: seq<bool>)
    requires |mask| == |layers|
    ensures Released(layers, mask, 0) == Reverse(Kept(Names(layers), Negate(mask)))
  {
    assert layers[0..] == layers && Negate(mask)[0..] == Negate(mask);
    NamesKept(layers, Negate(mask));
  }

  /**
   * Swapping the textures of the two lowest layers and erasing layer 1
   * leaves the base slot with the texture of the layer above it.
   */
  lemma HandOverBase(k: seq<Slot>)
    requires |k| >= 2
    ensures RemoveAt(k[0 := k[0].(texture := k[1].texture)][1 := k[1].(texture := k[0].texture)], 1) ==
      [k[0].(texture := k[1].texture)] + k[2..]
    ensures Names([k[0].(texture := k[1].texture)] + k[2..]) == Names(k[1..])
  {
  }

  /** With the base kept, the pass keeps exactly the masked layers. */
  lemma BaseKeptNames(layers: seq<Slot>, mask: seq<bool>)
    requires |mask| == |layers| >= 1 && mask[0]
    ensures Pass(layers, mask, 1) == Kept(layers, mask)
    ensures Names(Pass(layers, mask, 1)) == Kept(Names(layers), mask)
  {
    PassKeep(layers, mask, 0);
    PassDone(layers, mask);
    NamesKept(layers, mask);
  }

  /** With the base dropped, the layer above it takes its slot and its texture. */
  lemma BaseDroppedNames(layers: seq<Slot>, mask: seq<bool>)
    requires |mask| == |layers| >= 1 && !mask[0] && |Pass(layers, mask, 1)| >= 2
    ensures var kept := Pass(layers, mask, 1);
      Names([kept[0].(texture := kept[1].texture)] + kept[2..]) == Kept(Names(layers), mask)
  {
    var kept := Pass(layers, mask, 1);
    HandOverBase(kept);
    PassDrop(layers, mask, 0);
    PassDone(layers, mask);
    NamesKept(layers, mask);
    assert RemoveAt(kept, 0) == kept[1..];
  }

  /** When every layer is in use, the pass of eraseUnusedTextures keeps everything and releases nothing. */
  lemma AllInUseKeepsAll(layers: seq<Slot>, grids: seq<Alphamap>)
    requires |layers| == |grids| + 1 && false !in InUse(grids)
    ensures var mask := InUse(grids);
      Pass(layers, mask, 1) == layers && Kept(grids, mask[1..]) == grids && Released(layers, mask, 0) == []
  {
    var mask := InUse(grids);
    assert mask == [mask[0]] + mask[1..];
    KeptAll(layers[1..], mask[1..]);
    assert layers[..1] + layers[1..] == layers;
    KeptAll(grids, mask[1..]);
    var neg := Negate(mask);
    KeptNone(layers, neg);
    assert layers[0..] == layers && neg[0..] == neg;
  }

  /** Whether the grid has a painted texel and whether it has a texel that is not fully opaque (TextureSet.cpp:331-348). */
  method ScanAlphamap(g: Alphamap) returns (texVisible: bool, baseVisible: bool)
    ensures texVisible == Painted(g)
    ensures baseVisible == !AllOpaque(g)
  {
    texVisible := false;
    baseVisible := false;
    var i := 0;
    while i < TexelCount
      invariant 0 <= i <= TexelCount
      invariant texVisible == exists j :: 0 <= j < i && g[j] > 0
      invariant baseVisible == exists j :: 0 <= j < i && g[j] < 255
    {
      var a := g[i];
      if a > 0 {
        texVisible := true;
        if a < 255 {
          baseVisible := true;
          break;
        }
      } else {
        baseVisible := true;
      }
      i := i + 1;
    }
  }

  /**
   * The grids left when mergeAlpha(i, j) with i < j merges layer j away:
   * for the base (i == 0) the upper layer is erased and its grid goes;
   * otherwise the merged grids, corrected or as written.
   */
  function MergeStep(grids: seq<Alphamap>, i: nat, j: nat, asWritten: bool): (r: seq<Alphamap>)
    requires i < j <= |grids|
    ensures |r| == |grids| - 1
  {
    if i == 0 then RemoveAt(grids, j - 1)
    else if asWritten then MergedGridsAsWritten(grids, i, j)
    else MergedGrids(grids, i, j)
  }

  /**
   * The grids removeDuplicate leaves (TextureSet.cpp:793-810), continuing
   * from outer index i and inner index j over the textures names: every
   * pair of equal textures is merged. With asWritten the inner index moves
   * on after a merge and mergeAlpha stores its grids as written, the scan
   * of DedupScan; otherwise the inner index stays and the merge is the
   * corrected one, the scan of Dedup.
   */
  function DedupGrids(names: seq<string>, grids: seq<Alphamap>, i: nat, j: nat, asWritten: bool): seq<Alphamap>
    requires |grids| == GridCount(|names|) && i < j
    decreases |names| - i, |names| - j
  {
    if i >= |names| then grids
    else if j >= |names| then DedupGrids(names, grids, i + 1, i + 2, asWritten)
    else if names[i] == names[j] then
      var next := if asWritten then j + 1 else j;
      DedupGrids(RemoveAt(names, j), MergeStep(grids, i, j, asWritten), i, next, asWritten)
    else DedupGrids(names, grids, i, j + 1, asWritten)
  }

  /** A chunk without two equal textures keeps its grids under both scans. */
  lemma {:induction false} DedupGridsDistinct(names: seq<string>, grids: seq<Alphamap>, i: nat, j: nat, asWritten: bool)
    requires |grids| == GridCount(|names|) && i < j && !HasDuplicates(names)
    ensures DedupGrids(names, grids, i, j, asWritten) == grids
    decreases |names| - i, |names| - j
  {
    if i >= |names| {
    } else if j >= |names| {
      DedupGridsDistinct(names, grids, i + 1, i + 2, asWritten);
    } else {
      assert names[i] != names[j];
      DedupGridsDistinct(names, grids, i, j + 1, asWritten);
    }
  }

  class TextureSet {
    /** textures[], tex[], animated[], texFlags[] and effectID[], one record per layer. */
    const slots: array<Slot>
    /** alphamaps[]: the grid of layer k + 1 at index k. */
    const alphamaps: array<Option<Alphamap>>
    var nTextures: nat

    /**
     * The arrays have their fixed sizes, every non-base layer has a grid,
     * and every layer's texture is a cache key (a lower-case name).
     */
    predicate Valid()
      reads this, slots, alphamaps
    {
      WellFormed(slots[..], alphamaps[..], nTextures)
    }

    /** Grid pointers beyond the layers in use are null, as addTexture expects. */
    predicate Packed()
      reads this, slots, alphamaps
      requires Valid()
    {
      PackedMaps(alphamaps[..], nTextures)
    }

    /** The layers in use, bottom first. */
    function Layers(): (layers: seq<Slot>)
      reads this, slots, alphamaps
      requires Valid()
      ensures |layers| == nTextures
    {
      slots[..nTextures]
    }

    /** The textures of the layers in use, bottom first. */
    function Textures(): (names: seq<string>)
      reads this, slots, alphamaps
      requires Valid()
      ensures |names| == nTextures
    {
      Names(Layers())
    }

    /** The alpha grids of the non-base layers, bottom first. */
    function Grids(): (grids: seq<Alphamap>)
      reads this, slots, alphamaps
      requires Valid()
      ensures |grids| == GridCount(nTextures)
    {
      Present(alphamaps[..GridCount(nTextures)])
    }

    /** An empty chunk; the layers are read in by code not modelled here. */
    constructor ()
      ensures Valid() && Packed() && nTextures == 0
      ensures fresh(slots) && fresh(alphamaps)
    {
      slots := new Slot[MaxLayers](_ => Slot("", 0, 0, 0, 0));
      alphamaps := new Option<Alphamap>[MaxLayers - 1](_ => None);
      nTextures := 0;
    }

    /** num(): the number of layers in use (TextureSet.cpp:585-588). */
    function Num(): (n: nat)
      reads this, slots, alphamaps
      requires Valid()
      ensures n == |Layers()| && n <= MaxLayers
    {
      nTextures
    }

    /** flag(id): the header flags of slot id, the layer's when id is in use (TextureSet.cpp:590-593). */
    function Flag(id: nat): (f: nat)
      reads this, slots, alphamaps
      requires Valid() && id < MaxLayers
      ensures id < nTextures ==> f == Layers()[id].flags
    {
      slots[id].flags
    }

    /** effect(id): the ground effect id of slot id (TextureSet.cpp:595-598). */
    function Effect(id: nat): (e: nat)
      reads this, slots, alphamaps
      requires Valid() && id < MaxLayers
      ensures id < nTextures ==> e == Layers()[id].effect
    {
      slots[id].effect
    }

    /** texture(id): the texture of slot id (TextureSet.cpp:620-623). */
    function Texture(id: nat): (t: string)
      reads this, slots, alphamaps
      requires Valid() && id < MaxLayers
      ensures id < nTextures ==> t == Textures()[id]
    {
      slots[id].texture
    }

    /**
     * getAlpha(id, offset): one stored alpha of grid id, which must exist
     * (TextureSet.cpp:610-613).
     */
    function GetAlpha(id: nat, offset: nat): (a: byte)
      reads this, slots, alphamaps
      requires Valid() && id < MaxLayers - 1 && alphamaps[id].Some? && offset < TexelCount
      ensures id < GridCount(nTextures) ==> a == Grids()[id][offset]
    {
      alphamaps[id].value[offset]
    }

    /** getAlpha(id): the whole grid id, which must exist (TextureSet.cpp:615-618). */
    function GetAlphamap(id: nat): (g: Alphamap)
      reads this, slots, alphamaps
      requires Valid() && id < MaxLayers - 1 && alphamaps[id].Some?
      ensures id < GridCount(nTextures) ==> g == Grids()[id]
    {
      alphamaps[id].value
    }

    /**
     * setAlpha(id, offset, value): overwrites one stored alpha of grid id,
     * which must exist (TextureSet.cpp:600-603); nothing else changes.
     */
    method SetAlpha(id: nat, offset: nat, value: byte)
      requires Valid() && id < MaxLayers - 1 && alphamaps[id].Some? && offset < TexelCount
      modifies alphamaps
      ensures Valid() && Layers() == old(Layers()) && (old(Packed()) ==> Packed())
      ensures alphamaps[..] == old(alphamaps[..])[id := Some(old(alphamaps[id].value)[offset := value])]
      ensures GetAlpha(id, offset) == value
      ensures id < GridCount(nTextures) ==> Grids() == old(Grids())[id := old(Grids())[id][offset := value]]
      ensures id >= GridCount(nTextures) ==> Grids() == old(Grids())
    {
      alphamaps[id] := Some(alphamaps[id].value[offset := value]);
    }

    /** setAlpha(id, amap): replaces the whole grid id, which must exist (TextureSet.cpp:605-608). */
    method SetAlphamap(id: nat, amap: Alphamap)
      requires Valid() && id < MaxLayers - 1 && alphamaps[id].Some?
      modifies alphamaps
      ensures Valid() && Layers() == old(Layers()) && (old(Packed()) ==> Packed())
      ensures alphamaps[..] == old(alphamaps[..])[id := Some(amap)]
      ensures GetAlphamap(id) == amap
      ensures id < GridCount(nTextures) ==> Grids() == old(Grids())[id := amap]
      ensures id >= GridCount(nTextures) ==> Grids() == old(Grids())
    {
      alphamaps[id] := Some(amap);
    }

    /** Stores grids as the grids of the lowest |grids| non-base layers. */
    method StoreGrids(grids: seq<Alphamap>)
      requires Valid() && |grids| == GridCount(nTextures)
      modifies alphamaps
      ensures Valid() && Grids() == grids
      ensures Layers() == old(Layers()) && Textures() == old(Textures())
      ensures old(Packed()) ==> Packed()
      ensures forall k :: |grids| <= k < MaxLayers - 1 ==> alphamaps[k] == old(alphamaps[k])
    {
      for k := 0 to |grids|
        invariant Valid()
        invariant forall j :: 0 <= j < k ==> alphamaps[j] == Some(grids[j])
        invariant forall j :: k <= j < MaxLayers - 1 ==> alphamaps[j] == old(alphamaps[j])
      {
        alphamaps[k] := Some(grids[k]);
      }
    }

    /**
     * Adds a layer with the given texture on top (TextureSet.cpp:72-101).
     * With four layers it returns -1 and changes nothing. Otherwise it takes
     * a reference to the texture and fills the next slot; a non-base layer
     * gets a fresh, fully transparent grid, unless a grid is already there,
     * in which case the count is restored and -1 returned (the reference and
     * the slot's texture stay as written).
     */
    method AddTexture(texture: string, registry: TextureManager) returns (level: int)
      requires Valid() && registry.Valid() && texture in registry.items
      modifies this, slots, alphamaps, registry
      ensures Valid() && registry.Valid()
      ensures old(nTextures) == MaxLayers ==>
        level == -1 && nTextures == old(nTextures) && slots[..] == old(slots[..]) &&
        alphamaps[..] == old(alphamaps[..]) && registry.items == old(registry.items)
      ensures old(nTextures) < MaxLayers ==>
        registry.items == Acquire(old(registry.items), texture) &&
        slots[..] == old(slots[..])[old(nTextures) := Slot(texture, old(slots[nTextures].tex), 0, 0, 0)]
      ensures old(nTextures) == 0 ==>
        level == 0 && nTextures == 1 && alphamaps[..] == old(alphamaps[..])
      ensures 0 < old(nTextures) < MaxLayers && old(alphamaps[nTextures - 1]).None? ==>
        level == old(nTextures) && nTextures == old(nTextures) + 1 &&
        alphamaps[..] == old(alphamaps[..])[old(nTextures) - 1 := Some(Blank())]
      ensures 0 < old(nTextures) < MaxLayers && old(alphamaps[nTextures - 1]).Some? ==>
        level == -1 && nTextures == old(nTextures) && alphamaps[..] == old(alphamaps[..])
      ensures old(Packed()) ==> Packed() && (level >= 0 <==> old(nTextures) < MaxLayers)
      ensures level >= 0 ==> Textures() == old(Textures()) + [texture] && Grids() == old(Grids()) + (if level == 0 then [] else [Blank()])
      ensures level < 0 ==> Textures() == old(Textures()) && Grids() == old(Grids())
    {
      level := -1;
      if nTextures < MaxLayers {
        level := nTextures;
        nTextures := nTextures + 1;
        registry.AddReference(texture);
        slots[level] := Slot(texture, slots[level].tex, 0, 0, 0);
        if level > 0 {
          if alphamaps[level - 1].Some? {
            nTextures := nTextures - 1;
            level := -1;
            return;
          }
          alphamaps[level - 1] := Some(Blank());
        }
      }
    }

    /**
     * Replaces the texture of the topmost layer holding oldTexture by
     * newTexture, unless newTexture is already used by some layer
     * (TextureSet.cpp:103-119). No reference counts change.
     */
    method SwitchTexture(oldTexture: string, newTexture: string)
      requires Valid() && IsLower(newTexture)
      modifies slots
      ensures Valid()
      ensures newTexture in old(Textures()) || oldTexture !in old(Textures()) ==> slots[..] == old(slots[..])
      ensures newTexture !in old(Textures()) && oldTexture in old(Textures()) ==>
        var at := LastIndex(old(Textures()), oldTexture);
        slots[..] == old(slots[..])[at := old(slots[at]).(texture := newTexture)] &&
        Textures() == old(Textures())[at := newTexture]
    {
      var level := -1;
      var i := 0;
      while i < nTextures
        invariant 0 <= i <= nTextures
        invariant newTexture !in Textures()[..i]
        invariant level == -1 ==> oldTexture !in Textures()[..i]
        invariant level != -1 ==>
          0 <= level < i && Textures()[level] == oldTexture && forall j :: level < j < i ==> Textures()[j] != oldTexture
      {
        if slots[i].texture == oldTexture {
          level := i;
        }
        if slots[i].texture == newTexture {
          assert newTexture in old(Textures());
          return;
        }
        i := i + 1;
      }
      assert Textures()[..i] == Textures();
      if level != -1 {
        slots[level] := slots[level].(texture := newTexture);
        assert Textures() == old(Textures())[level := newTexture];
      }
    }

    /**
     * Exchanges two layers: their textures swap places (the other slot
     * fields stay), and at every texel the two layers' visibilities are
     * exchanged and the grids re-encoded with truncation
     * (TextureSet.cpp:122-174). Indices out of range change nothing.
     */
    method SwapTexture(id1: int, id2: int)
      requires Valid()
      modifies slots, alphamaps
      ensures Valid()
      ensures !(0 <= id1 < old(nTextures) && 0 <= id2 < old(nTextures)) ==>
        slots[..] == old(slots[..]) && alphamaps[..] == old(alphamaps[..])
      ensures 0 <= id1 < old(nTextures) && 0 <= id2 < old(nTextures) ==>
        slots[..] == old(slots[..])[id1 := old(slots[id1]).(texture := old(slots[id2]).texture)]
                                   [id2 := old(slots[id2]).(texture := old(slots[id1]).texture)] &&
        Layers() == old(Layers())[id1 := old(slots[id1]).(texture := old(slots[id2]).texture)]
                                 [id2 := old(slots[id2]).(texture := old(slots[id1]).texture)] &&
        Textures() == SwapAt(old(Textures()), id1, id2) &&
        Grids() == Transformed(old(Grids()), SwapLayers(id1, id2))
      ensures forall k :: GridCount(nTextures) <= k < MaxLayers - 1 ==> alphamaps[k] == old(alphamaps[k])
    {
      if 0 <= id1 < nTextures && 0 <= id2 < nTextures {
        var t1 := slots[id1].texture;
        var t2 := slots[id2].texture;
        slots[id1] := slots[id1].(texture := t2);
        slots[id2] := slots[id2].(texture := t1);
        assert Textures() == SwapAt(old(Textures()), id1, id2);
        var grids := ApplyTexels(Grids(), SwapLayers(id1, id2));
        StoreGrids(grids);
      }
    }

    /**
     * Rewrites every grid with absolute alphas (TextureSet.cpp:626-662):
     * each non-base layer then stores, rounded, its own visibility at every
     * texel. A chunk with fewer than two layers has no grid to rewrite.
     */
    method ConvertToBigAlpha()
      requires Valid()
      modifies alphamaps
      ensures Valid() && Layers() == old(Layers())
      ensures old(Packed()) ==> Packed()
      ensures Grids() == Transformed(old(Grids()), ToBigAlpha)
      ensures forall k, idx :: 0 <= k < |Grids()| && 0 <= idx < TexelCount ==>
        -0.5 <= Grids()[k][idx] as real - Decode(Column(old(Grids()), idx))[k + 1] <= 0.5
    {
      BigAlphaGrids(Grids());
      if nTextures < 2 {
        return;
      }
      var grids := ApplyTexels(Grids(), ToBigAlpha);
      StoreGrids(grids);
    }

    /**
     * Rewrites every grid with relative alphas again (TextureSet.cpp:664-712):
     * wherever the absolute alphas leave room for the base, the new alphas
     * are, within rounding, the ones that decode to them.
     */
    method ConvertToOldAlpha()
      requires Valid()
      modifies alphamaps
      ensures Valid() && Layers() == old(Layers())
      ensures old(Packed()) ==> Packed()
      ensures Grids() == Transformed(old(Grids()), ToOldAlpha)
      ensures forall idx :: 0 <= idx < TexelCount && Sum(Column(old(Grids()), idx)) <= Full ==>
        var col := Column(old(Grids()), idx);
        Decode(Encode(col)) == [Full - Sum(col)] + col &&
        forall k :: 0 <= k < |Grids()| ==> -0.5 <= Grids()[k][idx] as real - Encode(col)[k] <= 0.5
    {
      ghost var before := Grids();
      forall idx | 0 <= idx < TexelCount && Sum(Column(before, idx)) <= Full
        ensures var col := Column(before, idx);
          Decode(Encode(col)) == [Full - Sum(col)] + col &&
          forall k :: 0 <= k < |before| ==> -0.5 <= Transformed(before, ToOldAlpha)[k][idx] as real - Encode(col)[k] <= 0.5
      {
        OldAlphaGrids(before, idx);
      }
      if nTextures < 2 {
        return;
      }
      var grids := ApplyTexels(Grids(), ToOldAlpha);
      StoreGrids(grids);
    }

    /**
     * Merges layer id2 into layer id1 (TextureSet.cpp:714-791), corrected at
     * lines 784-790. Ids out of range or equal change nothing. When either
     * id is the base, the other layer is simply erased (id2 when id1 is the
     * base, id1 when id2 is). Otherwise, at every texel layer id2's
     * visibility is added to layer id1's, layer id2 is erased, and every
     * remaining layer keeps the alphas computed for it.
     */
    method MergeAlpha(id1: nat, id2: nat, registry: TextureManager)
      requires Valid() && registry.Valid()
      modifies this, slots, alphamaps, registry
      ensures Valid() && registry.Valid()
      ensures old(Packed()) ==> Packed()
      ensures id1 >= old(nTextures) || id2 >= old(nTextures) || id1 == id2 ==>
        nTextures == old(nTextures) && slots[..] == old(slots[..]) && alphamaps[..] == old(alphamaps[..]) &&
        registry.items == old(registry.items)
      ensures id1 < old(nTextures) && id2 < old(nTextures) && id1 != id2 ==>
        var gone := if id2 == 0 then id1 else id2;
        Layers() == RemoveAt(old(Layers()), gone) &&
        registry.items == Release(old(registry.items), ToLower(old(Layers())[gone].texture)) &&
        (id1 == 0 || id2 == 0 ==> Grids() == RemoveAt(old(Grids()), gone - 1)) &&
        (id1 != 0 && id2 != 0 ==> Grids() == MergedGrids(old(Grids()), id1, id2))
    {
      if id1 >= nTextures || id2 >= nTextures || id1 == id2 {
        return;
      }
      if id1 == 0 {
        EraseTexture(id2, registry);
        return;
      }
      if id2 == 0 {
        EraseTexture(id1, registry);
        return;
      }
      MergeUpper(id1, id2, registry);
    }

    /** The texel pass and the erasure of mergeAlpha for two non-base layers (TextureSet.cpp:733-790, corrected). */
    method MergeUpper(id1: nat, id2: nat, registry: TextureManager)
      requires Valid() && registry.Valid()
      requires 1 <= id1 < nTextures && 1 <= id2 < nTextures && id1 != id2
      modifies this, slots, alphamaps, registry
      ensures Valid() && registry.Valid()
      ensures old(Packed()) ==> Packed()
      ensures Layers() == RemoveAt(old(Layers()), id2)
      ensures registry.items == Release(old(registry.items), ToLower(old(Layers())[id2].texture))
      ensures Grids() == MergedGrids(old(Grids()), id1, id2)
    {
      var tab := ApplyTexels(Grids(), MergeLayers(id1, id2));
      EraseTexture(id2, registry);
      StoreGrids(RemoveAt(tab, id2 - 1));
    }

    /**
     * mergeAlpha as written (TextureSet.cpp:714-791): the same cases as
     * MergeAlpha, except that for two non-base layers grid k of the
     * remaining layers receives the alphas computed for old grid k
     * (lines 784-790), so from id2 up every layer gets the alphas of the
     * layer below it.
     */
    method MergeAlphaAsWritten(id1: nat, id2: nat, registry: TextureManager)
      requires Valid() && registry.Valid()
      modifies this, slots, alphamaps, registry
      ensures Valid() && registry.Valid()
      ensures old(Packed()) ==> Packed()
      ensures id1 >= old(nTextures) || id2 >= old(nTextures) || id1 == id2 ==>
        nTextures == old(nTextures) && slots[..] == old(slots[..]) && alphamaps[..] == old(alphamaps[..]) &&
        registry.items == old(registry.items)
      ensures id1 < old(nTextures) && id2 < old(nTextures) && id1 != id2 ==>
        var gone := if id2 == 0 then id1 else id2;
        Layers() == RemoveAt(old(Layers()), gone) &&
        registry.items == Release(old(registry.items), ToLower(old(Layers())[gone].texture)) &&
        (id1 == 0 || id2 == 0 ==> Grids() == RemoveAt(old(Grids()), gone - 1)) &&
        (id1 != 0 && id2 != 0 ==> Grids() == MergedGridsAsWritten(old(Grids()), id1, id2))
    {
      if id1 >= nTextures || id2 >= nTextures || id1 == id2 {
        return;
      }
      if id1 == 0 {
        EraseTexture(id2, registry);
        return;
      }
      if id2 == 0 {
        EraseTexture(id1, registry);
        return;
      }
      MergeUpperAsWritten(id1, id2, registry);
    }

    /** The texel pass, the erasure and the store of mergeAlpha for two non-base layers, as written (TextureSet.cpp:733-790). */
    method MergeUpperAsWritten(id1: nat, id2: nat, registry: TextureManager)
      requires Valid() && registry.Valid()
      requires 1 <= id1 < nTextures && 1 <= id2 < nTextures && id1 != id2
      modifies this, slots, alphamaps, registry
      ensures Valid() && registry.Valid()
      ensures old(Packed()) ==> Packed()
      ensures Layers() == RemoveAt(old(Layers()), id2)
      ensures registry.items == Release(old(registry.items), ToLower(old(Layers())[id2].texture))
      ensures Grids() == MergedGridsAsWritten(old(Grids()), id1, id2)
    {
      var tab := ApplyTexels(Grids(), MergeLayers(id1, id2));
      EraseTexture(id2, registry);
      StoreGrids(tab[..|tab| - 1]);
    }

    /**
     * Merges away every layer whose texture a lower layer already has
     * (TextureSet.cpp:793-810), corrected at line 801: after a merge the
     * inner scan stays on the same index, where the next layer has moved.
     * The chunk is left without two layers of the same texture.
     */
    method RemoveDuplicate(registry: TextureManager) returns (changed: bool)
      requires Valid() && registry.Valid()
      modifies this, slots, alphamaps, registry
      ensures Valid() && registry.Valid()
      ensures old(Packed()) ==> Packed()
      ensures Textures() == Dedup(old(Textures()), 0, 1)
      ensures forall x :: x in Textures() <==> x in old(Textures())
      ensures Grids() == DedupGrids(old(Textures()), old(Grids()), 0, 1, false)
      ensures !HasDuplicates(Textures())
      ensures changed <==> nTextures < old(nTextures)
      ensures !HasDuplicates(old(Textures())) ==>
        !changed && slots[..] == old(slots[..]) && alphamaps[..] == old(alphamaps[..]) &&
        registry.items == old(registry.items)
    {
      if !HasDuplicates(Textures()) {
        DedupKeepsDistinct(Textures(), 0, 1);
      }
      DedupDistinct(Textures(), 0, 1);
      DedupSameTextures(Textures());
      changed := false;
      var i := 0;
      while i < nTextures
        invariant Valid() && registry.Valid()
        invariant old(Packed()) ==> Packed()
        invariant Dedup(Textures(), i, i + 1) == Dedup(old(Textures()), 0, 1)
        invariant DedupGrids(Textures(), Grids(), i, i + 1, false) == DedupGrids(old(Textures()), old(Grids()), 0, 1, false)
        invariant nTextures <= old(nTextures) && (changed <==> nTextures < old(nTextures))
        invariant !changed ==> (slots[..] == old(slots[..]) && alphamaps[..] == old(alphamaps[..]) &&
          registry.items == old(registry.items))
        decreases nTextures - i
      {
        var merged := MergeCopiesOf(i, registry);
        changed := changed || merged;
        i := i + 1;
      }
    }

    /** The inner scan of removeDuplicate for layer i, corrected: a merge keeps the inner index. */
    method MergeCopiesOf(i: nat, registry: TextureManager) returns (merged: bool)
      requires Valid() && registry.Valid() && i < nTextures
      modifies this, slots, alphamaps, registry
      ensures Valid() && registry.Valid()
      ensures old(Packed()) ==> Packed()
      ensures i < nTextures <= old(nTextures)
      ensures Dedup(Textures(), i + 1, i + 2) == Dedup(old(Textures()), i, i + 1)
      ensures DedupGrids(Textures(), Grids(), i + 1, i + 2, false) == DedupGrids(old(Textures()), old(Grids()), i, i + 1, false)
      ensures merged <==> nTextures < old(nTextures)
      ensures !merged ==> (slots[..] == old(slots[..]) && alphamaps[..] == old(alphamaps[..]) &&
        registry.items == old(registry.items))
    {
      merged := false;
      var j := i + 1;
      while j < nTextures
        invariant Valid() && registry.Valid() && i < nTextures <= old(nTextures) && i < j
        invariant old(Packed()) ==> Packed()
        invariant Dedup(Textures(), i, j) == Dedup(old(Textures()), i, i + 1)
        invariant DedupGrids(Textures(), Grids(), i, j, false) == DedupGrids(old(Textures()), old(Grids()), i, i + 1, false)
        invariant merged <==> nTextures < old(nTextures)
        invariant !merged ==> (slots[..] == old(slots[..]) && alphamaps[..] == old(alphamaps[..]) &&
          registry.items == old(registry.items))
        decreases nTextures - j
      {
        if slots[i].texture == slots[j].texture {
          ghost var before := Layers();
          MergeAlpha(i, j, registry);
          NamesRemoveAt(before, j);
          merged := true;
        } else {
          j := j + 1;
        }
      }
    }

    /**
     * removeDuplicate as written (TextureSet.cpp:793-810): the inner index
     * moves on after a merge too, so the layer that has just moved into its
     * place is never compared.
     */
    method RemoveDuplicateAsWritten(registry: TextureManager) returns (changed: bool)
      requires Valid() && registry.Valid()
      modifies this, slots, alphamaps, registry
      ensures Valid() && registry.Valid()
      ensures old(Packed()) ==> Packed()
      ensures Textures() == DedupScan(old(Textures()), 0, 1)
      ensures forall x :: x in Textures() <==> x in old(Textures())
      ensures Grids() == DedupGrids(old(Textures()), old(Grids()), 0, 1, true)
      ensures changed <==> nTextures < old(nTextures)
      ensures !HasDuplicates(old(Textures())) ==>
        !changed && slots[..] == old(slots[..]) && alphamaps[..] == old(alphamaps[..]) &&
        registry.items == old(registry.items)
    {
      if !HasDuplicates(Textures()) {
        DedupKeepsDistinct(Textures(), 0, 1);
      }
      DedupSameTextures(Textures());
      changed := false;
      var i := 0;
      while i < nTextures
        invariant Valid() && registry.Valid()
        invariant old(Packed()) ==> Packed()
        invariant DedupScan(Textures(), i, i + 1) == DedupScan(old(Textures()), 0, 1)
        invariant DedupGrids(Textures(), Grids(), i, i + 1, true) == DedupGrids(old(Textures()), old(Grids()), 0, 1, true)
        invariant nTextures <= old(nTextures) && (changed <==> nTextures < old(nTextures))
        invariant !changed ==> (slots[..] == old(slots[..]) && alphamaps[..] == old(alphamaps[..]) &&
          registry.items == old(registry.items))
        decreases nTextures - i
      {
        var merged := MergeCopiesOfAsWritten(i, registry);
        changed := changed || merged;
        i := i + 1;
      }
    }

    /** The inner scan of removeDuplicate for layer i as written: the index moves on after a merge. */
    method MergeCopiesOfAsWritten(i: nat, registry: TextureManager) returns (merged: bool)
      requires Valid() && registry.Valid() && i < nTextures
      modifies this, slots, alphamaps, registry
      ensures Valid() && registry.Valid()
      ensures old(Packed()) ==> Packed()
      ensures i < nTextures <= old(nTextures)
      ensures DedupScan(Textures(), i + 1, i + 2) == DedupScan(old(Textures()), i, i + 1)
      ensures DedupGrids(Textures(), Grids(), i + 1, i + 2, true) == DedupGrids(old(Textures()), old(Grids()), i, i + 1, true)
      ensures merged <==> nTextures < old(nTextures)
      ensures !merged ==> (slots[..] == old(slots[..]) && alphamaps[..] == old(alphamaps[..]) &&
        registry.items == old(registry.items))
    {
      merged := false;
      var j := i + 1;
      while j < nTextures
        invariant Valid() && registry.Valid() && i < nTextures <= old(nTextures) && i < j
        invariant old(Packed()) ==> Packed()
        invariant DedupScan(Textures(), i, j) == DedupScan(old(Textures()), i, i + 1)
        invariant DedupGrids(Textures(), Grids(), i, j, true) == DedupGrids(old(Textures()), old(Grids()), i, i + 1, true)
        invariant merged <==> nTextures < old(nTextures)
        invariant !merged ==> (slots[..] == old(slots[..]) && alphamaps[..] == old(alphamaps[..]) &&
          registry.items == old(registry.items))
        decreases nTextures - j
      {
        if slots[i].texture == slots[j].texture {
          ghost var before := Layers();
          MergeAlphaAsWritten(i, j, registry);
          NamesRemoveAt(before, j);
          merged := true;
        }
        j := j + 1;
      }
    }

    /**
     * Removes layer id (TextureSet.cpp:184-217): ids above 3 are ignored;
     * otherwise one reference to the layer's texture is dropped, the layers
     * above move down one place, the grid of layer id (layer 1's when the
     * base goes) is discarded, and the count drops by one. This is the
     * corrected form: the top grid pointer is cleared only when at least
     * two layers were present.
     */
    method EraseTexture(id: nat, registry: TextureManager)
      requires Valid() && registry.Valid()
      requires id >= MaxLayers || id < nTextures
      modifies this, slots, alphamaps, registry
      ensures Valid() && registry.Valid()
      ensures id >= MaxLayers ==>
        nTextures == old(nTextures) && slots[..] == old(slots[..]) &&
        alphamaps[..] == old(alphamaps[..]) && registry.items == old(registry.items)
      ensures id < MaxLayers ==>
        nTextures == old(nTextures) - 1 &&
        slots[..] == ErasedSlots(old(slots[..]), id, old(nTextures)) &&
        alphamaps[..] == ErasedAlphamaps(old(alphamaps[..]), id, old(nTextures)) &&
        registry.items == Release(old(registry.items), ToLower(old(slots[id]).texture))
      ensures id < MaxLayers ==> Layers() == RemoveAt(old(Layers()), id) && Textures() == RemoveAt(old(Textures()), id)
      ensures id < MaxLayers && old(nTextures) >= 2 ==> Grids() == RemoveAt(old(Grids()), Discarded(id))
      ensures old(Packed()) ==> Packed()
    {
      if id >= MaxLayers {
        return;
      }
      ghost var n := nTextures;
      ghost var s0 := slots[..];
      ghost var m0 := alphamaps[..];
      ghost var layers := Layers();
      registry.DelByName(slots[id].texture);
      ShiftDown(id);
      ErasedWellFormed(s0, m0, id, n);
      assert Layers() == ErasedSlots(s0, id, n)[..n - 1] == RemoveAt(layers, id);
      NamesRemoveAt(layers, id);
      if n >= 2 {
        ErasedGrids(m0, id, n);
      }
    }

    /** The array edits of eraseTexture (TextureSet.cpp:190-216), corrected at line 213. */
    method ShiftDown(id: nat)
      requires slots.Length == MaxLayers && alphamaps.Length == MaxLayers - 1 && id < nTextures <= MaxLayers
      modifies this, slots, alphamaps
      ensures nTextures == old(nTextures) - 1
      ensures slots[..] == ErasedSlots(old(slots[..]), id, old(nTextures))
      ensures alphamaps[..] == ErasedAlphamaps(old(alphamaps[..]), id, old(nTextures))
    {
      ghost var s0 := slots[..];
      ghost var m0 := alphamaps[..];
      ghost var n := nTextures;
      ShiftStart(s0, m0, id);
      slots[id] := slots[id].(tex := 0);
      if id > 0 {
        alphamaps[id - 1] := None;
      }
      var i := id;
      while i < nTextures - 1
        modifies slots, alphamaps
        invariant id <= i <= n - 1 && nTextures == n
        invariant slots[..] == ShiftedSlots(s0, id, i)
        invariant alphamaps[..] == ShiftedMaps(m0, id, i)
      {
        ShiftStep(s0, m0, id, i);
        if i > 0 {
          alphamaps[i - 1] := alphamaps[i];
        }
        slots[i] := slots[i + 1];
        i := i + 1;
      }
      assert i == n - 1;
      ShiftEndSlots(s0, id, n);
      ShiftEndMaps(m0, id, n);
      ghost var ss := ShiftedSlots(s0, id, n - 1);
      ghost var ms := ShiftedMaps(m0, id, n - 1);
      if nTextures >= 2 {
        alphamaps[nTextures - 2] := None;
        assert alphamaps[..] == ms[n - 2 := None];
      }
      slots[nTextures - 1] := slots[nTextures - 1].(tex := 0);
      assert slots[..] == ss[n - 1 := ss[n - 1].(tex := 0)];
      nTextures := nTextures - 1;
    }

    /** Erases the layers from the top down until none is left (TextureSet.cpp:176-182). */
    method EraseTextures(registry: TextureManager)
      requires Valid() && registry.Valid()
      modifies this, slots, alphamaps, registry
      ensures Valid() && registry.Valid() && nTextures == 0
      ensures registry.items == ReleaseAll(old(registry.items), Reverse(old(Textures())))
      ensures old(Packed()) ==> Packed()
    {
      ghost var names := Textures();
      var i: int := nTextures - 1;
      while nTextures > 0
        invariant Valid() && registry.Valid()
        invariant i == nTextures - 1
        invariant Textures() == names[..nTextures]
        invariant registry.items == ReleaseAll(old(registry.items), Reverse(names[nTextures..]))
        invariant old(Packed()) ==> Packed()
        decreases nTextures
      {
        ghost var m := nTextures;
        assert slots[i].texture == names[i];
        ReleaseTop(old(registry.items), names, m);
        EraseTexture(i, registry);
        i := i - 1;
      }
    }

    /**
     * Drops the layers that cannot be seen (TextureSet.cpp:311-369): from
     * the top down, a layer whose grid is fully transparent, or that lies
     * under a fully opaque grid, is erased; when the base itself is covered,
     * the lowest remaining layer takes over the base slot. Returns whether
     * anything was removed.
     */
    method EraseUnusedTextures(registry: TextureManager) returns (removed: bool)
      requires Valid() && registry.Valid()
      modifies this, slots, alphamaps, registry
      ensures Valid() && registry.Valid()
      ensures old(nTextures) < 2 ==>
        !removed && nTextures == old(nTextures) && slots[..] == old(slots[..]) &&
        alphamaps[..] == old(alphamaps[..]) && registry.items == old(registry.items)
      ensures old(nTextures) >= 2 ==>
        var mask := InUse(old(Grids()));
        var kept := Pass(old(Layers()), mask, 1);
        var grids := Kept(old(Grids()), mask[1..]);
        (mask[0] ==> Layers() == kept && Grids() == grids) &&
        (!mask[0] ==>
          |kept| >= 2 && Layers() == [kept[0].(texture := kept[1].texture)] + kept[2..] &&
          |grids| >= 1 && Grids() == RemoveAt(Transformed(grids, SwapLayers(0, 1)), 0)) &&
        Textures() == Kept(old(Textures()), mask) &&
        registry.items == ReleaseAll(old(registry.items), Released(old(Layers()), mask, 0)) &&
        (removed <==> false in mask)
      ensures old(Packed()) ==> Packed()
    {
      removed := false;
      if nTextures < 2 {
        return;
      }
      ghost var layers, grids := Layers(), Grids();
      ghost var mask := InUse(grids);
      var baseVisible;
      removed, baseVisible := EraseHiddenLayers(registry);
      removed := SettleBase(removed, baseVisible, registry, layers, grids, mask, old(registry.items));
    }

    /** The end of eraseUnusedTextures (TextureSet.cpp:361-368): a covered base is handed over. */
    method SettleBase(removedAbove: bool, baseVisible: bool, registry: TextureManager, ghost layers: seq<Slot>,
                      ghost grids: seq<Alphamap>, ghost mask: seq<bool>, ghost items: map<string, nat>)
      returns (removed: bool)
      requires Valid() && registry.Valid()
      requires |layers| == |grids| + 1 >= 2 && mask == InUse(grids)
      requires Layers() == Pass(layers, mask, 1) && Grids() == Kept(grids, mask[1..]) && baseVisible == mask[0]
      requires registry.items == ReleaseAll(items, Released(layers, mask, 1))
      requires removedAbove <==> false in mask[1..]
      modifies this, slots, alphamaps, registry
      ensures Valid() && registry.Valid()
      ensures var kept := Pass(layers, mask, 1);
        var left := Kept(grids, mask[1..]);
        (mask[0] ==> Layers() == kept && Grids() == left) &&
        (!mask[0] ==>
          |kept| >= 2 && Layers() == [kept[0].(texture := kept[1].texture)] + kept[2..] &&
          |left| >= 1 && Grids() == RemoveAt(Transformed(left, SwapLayers(0, 1)), 0))
      ensures Textures() == Kept(Names(layers), mask)
      ensures registry.items == ReleaseAll(items, Released(layers, mask, 0))
      ensures removed <==> false in mask
      ensures old(Packed()) ==> Packed()
    {
      removed := removedAbove;
      if !baseVisible {
        CoveredBaseKeepsTwo(layers, grids);
        ReplaceBase(registry, layers, mask, items);
        removed := true;
      } else {
        BaseKeptNames(layers, mask);
        ReleasedStep(layers, mask, 0);
      }
      RemovedStep(mask, 0);
    }

    /**
     * The base is hidden under an opaque grid: the lowest kept layer above
     * it swaps textures with it and is then erased (TextureSet.cpp:361-366).
     */
    method ReplaceBase(registry: TextureManager, ghost layers: seq<Slot>, ghost mask: seq<bool>, ghost items: map<string, nat>)
      requires Valid() && registry.Valid()
      requires |mask| == |layers| >= 1 && !mask[0] && Layers() == Pass(layers, mask, 1) && nTextures >= 2
      requires registry.items == ReleaseAll(items, Released(layers, mask, 1))
      modifies this, slots, alphamaps, registry
      ensures Valid() && registry.Valid()
      ensures var kept := old(Layers());
        Layers() == [kept[0].(texture := kept[1].texture)] + kept[2..] &&
        Grids() == RemoveAt(Transformed(old(Grids()), SwapLayers(0, 1)), 0)
      ensures Textures() == Kept(Names(layers), mask)
      ensures registry.items == ReleaseAll(items, Released(layers, mask, 0))
      ensures old(Packed()) ==> Packed()
    {
      ghost var kept := Layers();
      ghost var grids := Grids();
      ghost var before := registry.items;
      assert kept[0] == layers[0];
      SwapTexture(0, 1);
      ghost var swapped := Layers();
      ghost var swappedGrids := Grids();
      assert swapped == kept[0 := kept[0].(texture := kept[1].texture)][1 := kept[1].(texture := kept[0].texture)];
      assert swappedGrids == Transformed(grids, SwapLayers(0, 1));
      assert slots[1].texture == layers[0].texture;
      EraseTexture(1, registry);
      assert registry.items == Release(before, ToLower(layers[0].texture));
      HandOverBase(kept);
      assert Layers() == RemoveAt(swapped, 1) == [kept[0].(texture := kept[1].texture)] + kept[2..];
      assert Grids() == RemoveAt(swappedGrids, 0);
      BaseDroppedNames(layers, mask);
      ReleaseDropped(items, before, registry.items, layers, mask, 0);
    }

    /**
     * The top-down loop of eraseUnusedTextures (TextureSet.cpp:321-359):
     * erases every non-base layer that InUse does not keep, and reports
     * whether the base still shows.
     */
    method EraseHiddenLayers(registry: TextureManager) returns (removed: bool, baseVisible: bool)
      requires Valid() && registry.Valid() && nTextures >= 2
      modifies this, slots, alphamaps, registry
      ensures Valid() && registry.Valid()
      ensures var mask := InUse(old(Grids()));
        Layers() == Pass(old(Layers()), mask, 1) &&
        Grids() == Kept(old(Grids()), mask[1..]) &&
        baseVisible == mask[0] &&
        registry.items == ReleaseAll(old(registry.items), Released(old(Layers()), mask, 1)) &&
        (removed <==> false in mask[1..])
      ensures old(Packed()) ==> Packed()
    {
      removed := false;
      ghost var layers := Layers();
      ghost var grids := Grids();
      ghost var mask := InUse(grids);
      ghost var gmask := mask[1..];
      baseVisible := false;
      var texCount := nTextures;
      var k := nTextures - 1;
      while k > 0
        invariant 0 <= k < texCount && texCount == |layers|
        invariant Valid() && registry.Valid()
        invariant Layers() == Pass(layers, mask, k + 1)
        invariant Grids() == Pass(grids, gmask, k)
        invariant k < texCount - 1 ==> baseVisible == Uncovered(grids, k)
        invariant registry.items == ReleaseAll(old(registry.items), Released(layers, mask, k + 1))
        invariant removed <==> false in mask[k + 1..]
        invariant old(Packed()) ==> Packed()
      {
        var texVisible;
        texVisible, baseVisible := VisitLayer(k, texCount, baseVisible, registry, layers, grids, mask, gmask, old(registry.items));
        RemovedStep(mask, k);
        if !texVisible {
          removed := true;
        }
        k := k - 1;
      }
      PassDone(grids, gmask);
    }

    /**
     * One step of the top-down pass (TextureSet.cpp:325-358): layer k's grid
     * is scanned unless an opaque grid above has already hidden it, and the
     * layer is erased when it is not in use.
     */
    method VisitLayer(k: nat, texCount: nat, above: bool, registry: TextureManager, ghost layers: seq<Slot>, ghost grids: seq<Alphamap>,
                      ghost mask: seq<bool>, ghost gmask: seq<bool>, ghost items: map<string, nat>)
      returns (texVisible: bool, baseVisible: bool)
      requires Valid() && registry.Valid()
      requires |layers| == |grids| + 1 == texCount && mask == InUse(grids) && gmask == mask[1..] && 1 <= k < |layers|
      requires Layers() == Pass(layers, mask, k + 1) && Grids() == Pass(grids, gmask, k)
      requires k < |grids| ==> above == Uncovered(grids, k)
      requires registry.items == ReleaseAll(items, Released(layers, mask, k + 1))
      modifies this, slots, alphamaps, registry
      ensures Valid() && registry.Valid()
      ensures texVisible == mask[k] && baseVisible == Uncovered(grids, k - 1)
      ensures Layers() == Pass(layers, mask, k) && Grids() == Pass(grids, gmask, k - 1)
      ensures registry.items == ReleaseAll(items, Released(layers, mask, k))
      ensures old(Packed()) ==> Packed()
    {
      texVisible, baseVisible := false, above;
      var scanned := k >= texCount - 1 || above;
      if scanned {
        assert Grids()[k - 1] == grids[k - 1];
        texVisible, baseVisible := ScanAlphamap(alphamaps[k - 1].value);
      }
      ScanOutcome(grids, k, scanned, above, texVisible, baseVisible);
      if !texVisible {
        DropLayer(k, registry, layers, grids, mask, items);
      } else {
        KeepStep(layers, grids, mask, k);
      }
    }

    /** Erases layer k, which the pass does not keep (TextureSet.cpp:355-357). */
    method DropLayer(k: nat, registry: TextureManager, ghost layers: seq<Slot>, ghost grids: seq<Alphamap>,
                     ghost mask: seq<bool>, ghost items: map<string, nat>)
      requires Valid() && registry.Valid()
      requires |layers| == |grids| + 1 && |mask| == |layers| && 1 <= k < |layers| && !mask[k]
      requires Layers() == Pass(layers, mask, k + 1) && Grids() == Pass(grids, mask[1..], k)
      requires registry.items == ReleaseAll(items, Released(layers, mask, k + 1))
      modifies this, slots, alphamaps, registry
      ensures Valid() && registry.Valid()
      ensures Layers() == Pass(layers, mask, k) && Grids() == Pass(grids, mask[1..], k - 1)
      ensures registry.items == ReleaseAll(items, Released(layers, mask, k))
      ensures old(Packed()) ==> Packed()
    {
      assert slots[k] == layers[k];
      ghost var before := registry.items;
      DropStep(layers, grids, mask, k);
      EraseTexture(k, registry);
      ReleaseDropped(items, before, registry.items, layers, mask, k);
    }
    /**
     * The search loop of paintTexture (TextureSet.cpp:393-395): the index of
     * the topmost layer holding texture, or -1 when no layer does.
     */
    method FindTexture(texture: string) returns (level: int)
      requires Valid()
      ensures level == -1 <==> texture !in Textures()
      ensures level != -1 ==> level == LastIndex(Textures(), texture)
    {
      level := -1;
      for i := 0 to nTextures
        invariant level == -1 ==> texture !in Textures()[..i]
        invariant level != -1 ==>
          0 <= level < i && Textures()[level] == texture && forall j :: level < j < i ==> Textures()[j] != texture
      {
        if slots[i].texture == texture {
          level := i;
        }
      }
      assert Textures()[..nTextures] == Textures();
    }

    /**
     * paintTexture (TextureSet.cpp:371-584): paints texture onto the chunk
     * with a brush stroke. Nothing happens outside paint mode, when the
     * brush cannot reach the chunk, or when an absent texture is painted
     * with strength 0. An absent texture is added as a new top layer, after
     * dropping unused layers when all four slots are taken; a chunk whose
     * only layer is the texture, or that gets it as its first layer, reports
     * a change without painting. Otherwise the stroke repaints the texels
     * and, when any was written, the layers that no texel shows are erased.
     * centreDist is the distance from the chunk centre to the cursor,
     * texelDist[i + 64 * j] that from texel (i, j), and chunkRadius the
     * chunk's radius.
     */
    method PaintTexture(paintMode: bool, centreDist: real, chunkRadius: real, brush: Brush, strength: real,
                        pressure: real, texelDist: seq<real>, texture: string, registry: TextureManager)
      returns (changed: bool)
      requires Valid() && registry.Valid() && texture in registry.items
      requires |texelDist| == TexelCount
      requires forall idx :: 0 <= idx < TexelCount ==>
        texelDist[idx] > brush.radius || texelDist[idx] < brush.iradius || brush.oradius != 0.0
      modifies this, slots, alphamaps, registry
      ensures Valid() && registry.Valid()
      ensures old(Packed()) ==> Packed()
      ensures SubSeq(Textures(), old(Textures()) + [texture])
      ensures !paintMode || centreDist > brush.radius + chunkRadius || (texture !in old(Textures()) && strength == 0.0) ==>
        !changed && nTextures == old(nTextures) && slots[..] == old(slots[..]) && alphamaps[..] == old(alphamaps[..]) &&
        registry.items == old(registry.items)
      ensures paintMode && centreDist <= brush.radius + chunkRadius && texture in old(Textures()) && old(nTextures) == 1 ==>
        changed && nTextures == old(nTextures) && slots[..] == old(slots[..]) && alphamaps[..] == old(alphamaps[..]) &&
        registry.items == old(registry.items)
      ensures paintMode && centreDist <= brush.radius + chunkRadius && texture in old(Textures()) && old(nTextures) >= 2 ==>
        var s := Stroke(LastIndex(old(Textures()), texture), strength, pressure, brush.radius, brush.iradius, brush.oradius, texelDist);
        (changed <==> Wrote(old(Grids()), s)) &&
        (!changed ==> Layers() == old(Layers()) && Grids() == old(Grids()) && registry.items == old(registry.items)) &&
        (changed ==>
          var shown := Shown(old(Grids()), s);
          var painted := Kept(PaintedGrids(old(Grids()), s), shown[1..]);
          Textures() == Kept(old(Textures()), shown) &&
          (shown[0] ==> Grids() == painted) && (!shown[0] ==> |painted| >= 1 && Grids() == painted[1..]) &&
          registry.items == ReleaseAll(old(registry.items), Reverse(Kept(old(Textures()), Negate(shown)))))
      ensures (paintMode && centreDist <= brush.radius + chunkRadius && texture !in old(Textures()) && strength != 0.0 &&
        old(nTextures) == MaxLayers && false !in InUse(old(Grids()))) ==>
        !changed && Layers() == old(Layers()) && Grids() == old(Grids()) && registry.items == old(registry.items)
      ensures (paintMode && centreDist <= brush.radius + chunkRadius && texture !in old(Textures()) && strength != 0.0 &&
        old(nTextures) == 0) ==>
        changed && Textures() == [texture] && registry.items == Acquire(old(registry.items), texture)
      ensures (paintMode && centreDist <= brush.radius + chunkRadius && texture !in old(Textures()) && strength != 0.0 &&
        1 <= old(nTextures) < MaxLayers && old(Packed())) ==>
        var grids := old(Grids()) + [Blank()];
        var names := old(Textures()) + [texture];
        var s := Stroke(old(nTextures), strength, pressure, brush.radius, brush.iradius, brush.oradius, texelDist);
        (changed <==> Wrote(grids, s)) &&
        (!changed ==> Textures() == names && Grids() == grids && registry.items == Acquire(old(registry.items), texture)) &&
        (changed ==>
          var shown := Shown(grids, s);
          var painted := Kept(PaintedGrids(grids, s), shown[1..]);
          Textures() == Kept(names, shown) &&
          (shown[0] ==> Grids() == painted) && (!shown[0] ==> |painted| >= 1 && Grids() == painted[1..]) &&
          registry.items == ReleaseAll(Acquire(old(registry.items), texture), Reverse(Kept(names, Negate(shown)))))
    {
      changed := false;
      if !paintMode || centreDist > brush.radius + chunkRadius {
        SubSeqReflexive(Textures());
        SubSeqExtend(Textures(), Textures(), texture);
        return;
      }
      var stroke := Stroke(0, strength, pressure, brush.radius, brush.iradius, brush.oradius, texelDist);
      var level := FindTexture(texture);
      if level == -1 {
        changed := PaintAbsent(texture, stroke, registry);
      } else {
        changed := PaintPresent(level, stroke, registry);
        SubSeqExtend(Textures(), old(Textures()), texture);
      }
    }

    /**
     * paintTexture with the texture already on layer level
     * (TextureSet.cpp:408-410, 423-583): a chunk with that single layer
     * reports a change and stays as it is; otherwise the stroke is painted.
     */
    method PaintPresent(level: nat, stroke: Stroke, registry: TextureManager) returns (changed: bool)
      requires Valid() && registry.Valid() && level < nTextures && StrokeFits(stroke.(target := level), nTextures)
      modifies this, slots, alphamaps, registry
      ensures Valid() && registry.Valid()
      ensures old(Packed()) ==> Packed()
      ensures SubSeq(Textures(), old(Textures()))
      ensures old(nTextures) == 1 ==>
        changed && nTextures == old(nTextures) && slots[..] == old(slots[..]) && alphamaps[..] == old(alphamaps[..]) &&
        registry.items == old(registry.items)
      ensures old(nTextures) >= 2 ==>
        var s := stroke.(target := level);
        (changed <==> Wrote(old(Grids()), s)) &&
        (!changed ==> Layers() == old(Layers()) && Grids() == old(Grids()) && registry.items == old(registry.items)) &&
        (changed ==>
          var shown := Shown(old(Grids()), s);
          var painted := Kept(PaintedGrids(old(Grids()), s), shown[1..]);
          Textures() == Kept(old(Textures()), shown) &&
          (shown[0] ==> Grids() == painted) && (!shown[0] ==> |painted| >= 1 && Grids() == painted[1..]) &&
          registry.items == ReleaseAll(old(registry.items), Reverse(Kept(old(Textures()), Negate(shown)))))
    {
      if nTextures == 1 {
        SubSeqReflexive(Textures());
        return true;
      }
      ghost var layers, grids := Layers(), Grids();
      changed := PaintLayer(stroke.(target := level), registry);
      if changed {
        ReleasedNames(layers, Shown(grids, stroke.(target := level)));
      }
    }

    /**
     * paintTexture with a texture no layer holds (TextureSet.cpp:397-421,
     * 423-583): with strength 0 nothing happens; a chunk with four layers
     * first drops its unused layers and gives up when none goes; then the
     * texture is added on top and, unless it became the only layer, the
     * stroke is painted on it.
     */
    method PaintAbsent(texture: string, stroke: Stroke, registry: TextureManager) returns (changed: bool)
      requires Valid() && registry.Valid() && texture in registry.items && texture !in Textures()
      requires |stroke.dist| == TexelCount
      requires forall idx :: 0 <= idx < TexelCount ==>
        stroke.dist[idx] > stroke.radius || stroke.dist[idx] < stroke.iradius || stroke.oradius != 0.0
      modifies this, slots, alphamaps, registry
      ensures Valid() && registry.Valid()
      ensures old(Packed()) ==> Packed()
      ensures SubSeq(Textures(), old(Textures()) + [texture])
      ensures stroke.strength == 0.0 ==>
        !changed && nTextures == old(nTextures) && slots[..] == old(slots[..]) && alphamaps[..] == old(alphamaps[..]) &&
        registry.items == old(registry.items)
      ensures stroke.strength != 0.0 && old(nTextures) == MaxLayers && false !in InUse(old(Grids())) ==>
        !changed && Layers() == old(Layers()) && Grids() == old(Grids()) && registry.items == old(registry.items)
      ensures stroke.strength != 0.0 && old(nTextures) == 0 ==>
        changed && Textures() == [texture] && registry.items == Acquire(old(registry.items), texture)
      ensures stroke.strength != 0.0 && 1 <= old(nTextures) < MaxLayers && old(Packed()) ==>
        var grids := old(Grids()) + [Blank()];
        var names := old(Textures()) + [texture];
        var s := stroke.(target := old(nTextures));
        (changed <==> Wrote(grids, s)) &&
        (!changed ==> Textures() == names && Grids() == grids && registry.items == Acquire(old(registry.items), texture)) &&
        (changed ==>
          var shown := Shown(grids, s);
          var painted := Kept(PaintedGrids(grids, s), shown[1..]);
          Textures() == Kept(names, shown) &&
          (shown[0] ==> Grids() == painted) && (!shown[0] ==> |painted| >= 1 && Grids() == painted[1..]) &&
          registry.items == ReleaseAll(Acquire(old(registry.items), texture), Reverse(Kept(names, Negate(shown)))))
    {
      changed := false;
      SubSeqReflexive(Textures());
      if stroke.strength == 0.0 {
        SubSeqExtend(Textures(), Textures(), texture);
        return;
      }
      if nTextures == MaxLayers {
        var room := MakeRoom(texture, registry);
        if !room {
          SubSeqExtend(Textures(), old(Textures()), texture);
          return;
        }
      }
      ghost var before := Textures();
      var level := AddTexture(texture, registry);
      if level == -1 {
        SubSeqExtend(before, old(Textures()), texture);
        return false;
      }
      SubSeqAppend(before, old(Textures()), texture);
      if level == 0 {
        return true;
      }
      ghost var layers, grids, painted := Layers(), Grids(), Textures();
      changed := PaintLayer(stroke.(target := level), registry);
      SubSeqTransitive(Textures(), painted, old(Textures()) + [texture]);
      if changed {
        ReleasedNames(layers, Shown(grids, stroke.(target := level)));
      }
    }

    /**
     * The room-making step of paintTexture (TextureSet.cpp:402-406): a full
     * chunk drops its unused layers; without any to drop, painting a new
     * texture gives up and the chunk stays as it was.
     */
    method MakeRoom(texture: string, registry: TextureManager) returns (room: bool)
      requires Valid() && registry.Valid() && nTextures == MaxLayers
      requires texture !in Textures()
      modifies this, slots, alphamaps, registry
      ensures Valid() && registry.Valid()
      ensures old(Packed()) ==> Packed()
      ensures SubSeq(Textures(), old(Textures()))
      ensures room <==> false in InUse(old(Grids()))
      ensures room ==> nTextures < MaxLayers
      ensures texture in old(registry.items) ==> texture in registry.items
      ensures !room ==> Layers() == old(Layers()) && Grids() == old(Grids()) && registry.items == old(registry.items)
    {
      ghost var layers, grids, names := Layers(), Grids(), Textures();
      room := EraseUnusedTextures(registry);
      ghost var mask := InUse(grids);
      KeptSubSeq(names, mask);
      if room {
        ghost var k :| 0 <= k < |mask| && !mask[k];
        KeptShorter(names, mask, k);
      } else {
        AllInUseKeepsAll(layers, grids);
      }
      if texture in old(registry.items) {
        ghost var released := Released(layers, mask, 0);
        forall i | 0 <= i < |released|
          ensures ToLower(released[i]) != texture
        {
          ReleasedFrom(layers, mask, 0, released[i]);
          ToLowerIdempotent(released[i]);
        }
        ReleaseAllKeeps(old(registry.items), released, texture);
      }
    }

    /**
     * The stroke and what follows it in paintTexture (TextureSet.cpp:423-583):
     * every texel is repainted; when none was written nothing changes and no
     * change is reported, otherwise the new grids are kept and the layers
     * that no texel shows are erased from the top down.
     */
    method PaintLayer(s: Stroke, registry: TextureManager) returns (changed: bool)
      requires Valid() && registry.Valid() && nTextures >= 2 && StrokeFits(s, nTextures)
      modifies this, slots, alphamaps, registry
      ensures Valid() && registry.Valid()
      ensures old(Packed()) ==> Packed()
      ensures SubSeq(Textures(), old(Textures()))
      ensures changed == Wrote(old(Grids()), s)
      ensures !changed ==>
        nTextures == old(nTextures) && slots[..] == old(slots[..]) && alphamaps[..] == old(alphamaps[..]) &&
        registry.items == old(registry.items)
      ensures changed ==>
        var shown := Shown(old(Grids()), s);
        var grids := Kept(PaintedGrids(old(Grids()), s), shown[1..]);
        Layers() == Kept(old(Layers()), shown) && Textures() == Kept(old(Textures()), shown) &&
        (shown[0] ==> Grids() == grids) && (!shown[0] ==> |grids| >= 1 && Grids() == grids[1..]) &&
        registry.items == ReleaseAll(old(registry.items), Released(old(Layers()), shown, 0))
    {
      var grids, seen;
      grids, changed, seen := PaintTexels(Grids(), s);
      if !changed {
        SubSeqReflexive(Textures());
        return;
      }
      StoreGrids(grids);
      SomeLayerShown(old(Grids()), s);
      PruneHidden(seen, registry);
    }

    /**
     * The pruning loop at the end of paintTexture (TextureSet.cpp:557-563):
     * from the top layer down, every layer that shows at no texel is
     * erased. When the base goes, the lowest layer left above it becomes
     * the base and its grid is dropped.
     */
    method PruneHidden(seen: seq<bool>, registry: TextureManager)
      requires Valid() && registry.Valid()
      requires |seen| == nTextures >= 2 && true in seen
      modifies this, slots, alphamaps, registry
      ensures Valid() && registry.Valid()
      ensures old(Packed()) ==> Packed()
      ensures SubSeq(Textures(), old(Textures()))
      ensures Layers() == Kept(old(Layers()), seen) && Textures() == Kept(old(Textures()), seen)
      ensures var grids := Kept(old(Grids()), seen[1..]);
        (seen[0] ==> Grids() == grids) && (!seen[0] ==> |grids| >= 1 && Grids() == grids[1..])
      ensures registry.items == ReleaseAll(old(registry.items), Released(old(Layers()), seen, 0))
    {
      ghost var layers, grids := Layers(), Grids();
      ghost var gmask := seen[1..];
      var k := nTextures - 1;
      while k > 0
        invariant 0 <= k < |layers|
        invariant Valid() && registry.Valid()
        invariant Layers() == Pass(layers, seen, k + 1)
        invariant Grids() == Pass(grids, gmask, k)
        invariant registry.items == ReleaseAll(old(registry.items), Released(layers, seen, k + 1))
        invariant old(Packed()) ==> Packed()
      {
        if !seen[k] {
          DropLayer(k, registry, layers, grids, seen, old(registry.items));
        } else {
          KeepStep(layers, grids, seen, k);
        }
        k := k - 1;
      }
      PassDone(grids, gmask);
      if !seen[0] {
        DropBase(registry, layers, grids, seen, old(registry.items));
      } else {
        BaseKeptNames(layers, seen);
        ReleasedStep(layers, seen, 0);
      }
      NamesKept(layers, seen);
      KeptSubSeq(Names(layers), seen);
    }

    /** The last step of the pruning loop: the base is erased and the layer above takes its place (TextureSet.cpp:561-562). */
    method DropBase(registry: TextureManager, ghost layers: seq<Slot>, ghost grids: seq<Alphamap>,
                    ghost mask: seq<bool>, ghost items: map<string, nat>)
      requires Valid() && registry.Valid()
      requires |layers| == |grids| + 1 && |mask| == |layers| && !mask[0] && true in mask
      requires Layers() == Pass(layers, mask, 1) && Grids() == Kept(grids, mask[1..])
      requires registry.items == ReleaseAll(items, Released(layers, mask, 1))
      modifies this, slots, alphamaps, registry
      ensures Valid() && registry.Valid()
      ensures Layers() == Kept(layers, mask)
      ensures |Kept(grids, mask[1..])| >= 1 && Grids() == Kept(grids, mask[1..])[1..]
      ensures registry.items == ReleaseAll(items, Released(layers, mask, 0))
      ensures old(Packed()) ==> Packed()
    {
      ghost var j :| 0 <= j < |mask| && mask[j];
      KeptNonEmpty(layers[1..], mask[1..], j - 1);
      assert nTextures >= 2;
      ghost var base := slots[0];
      assert base == layers[0];
      ghost var before := registry.items;
      ghost var g := Grids();
      PassDrop(layers, mask, 0);
      PassDone(layers, mask);
      EraseTexture(0, registry);
      assert registry.items == Release(before, ToLower(base.texture));
      assert Grids() == RemoveAt(g, 0) == g[1..];
      ghost var above := Released(layers, mask, 1);
      ReleasedStep(layers, mask, 0);
      assert Released(layers, mask, 0) == above + [base.texture];
      ReleaseAllAppend(items, above, base.texture);
    }
  }
}
