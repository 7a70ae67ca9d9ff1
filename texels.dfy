/**
 * The 64x64 alpha grids of a chunk and the whole-grid passes of
 * src/TextureSet.cpp: every pass visits each texel, decodes the stored
 * alphas of all layers at that texel, edits them, and writes the encoded
 * result back as bytes.
 *
 * A texel is addressed by one index idx = i + 64 * j, as the source does.
 * The grids of a chunk are given bottom layer first: grids[k] belongs to
 * layer k + 1. The alphas of all layers at one texel form its column.
 */
module Texels {
  import opened Wrappers
  import opened Compositing
  import opened Brushes
  import opened LayerLists

  /** 64 x 64 texels per grid. */
  const TexelCount: nat := 4096

  /** A grid with every alpha at 0 (a freshly created Alphamap). */
  function Blank(): (g: seq<byte>)
    ensures |g| == TexelCount
    ensures forall idx :: 0 <= idx < |g| ==> g[idx] == 0
  {
    seq(TexelCount, _ => 0)
  }

  /** The alpha grid of one non-base layer. */
  type Alphamap = g: seq<byte> | |g| == TexelCount witness Blank()

  /** The stored alphas of every layer at texel idx, as the source reads them into a float array. */
  function Column(grids: seq<Alphamap>, idx: nat): (col: seq<real>)
    requires idx < TexelCount
    ensures |col| == |grids| && InByteRange(col)
    ensures forall k :: 0 <= k < |grids| ==> col[k] == grids[k][idx] as real
  {
    seq(|grids|, k requires 0 <= k < |grids| => grids[k][idx] as real)
  }

  /** Storing computed alphas with round-then-clamp. */
  function RoundAll(x: seq<real>): (r: seq<byte>)
    ensures |r| == |x|
    ensures forall k :: 0 <= k < |x| ==> r[k] == StoreRounded(x[k])
  {
    seq(|x|, k requires 0 <= k < |x| => StoreRounded(x[k]))
  }

  /** Storing computed alphas with clamp-then-truncate. */
  function TruncateAll(x: seq<real>): (r: seq<byte>)
    ensures |r| == |x|
    ensures forall k :: 0 <= k < |x| ==> r[k] == StoreTruncated(x[k])
  {
    seq(|x|, k requires 0 <= k < |x| => StoreTruncated(x[k]))
  }

  /** The per-texel edits that the whole-grid passes apply. */
  datatype TexelOp =
    | SwapLayers(i: nat, j: nat)          // swapTexture
    | ToBigAlpha                          // convertToBigAlpha
    | ToOldAlpha                          // convertToOldAlpha
    | MergeLayers(into: nat, from: nat)   // mergeAlpha

  /** The layer indices of op name layers of a chunk with the given number of layers. */
  predicate Fits(op: TexelOp, layers: nat)
  {
    match op
    case SwapLayers(i, j) => i < layers && j < layers
    case MergeLayers(i, j) => i < layers && j < layers && i != j
    case _ => true
  }

  /**
   * The stored alphas that op leaves at one texel, from the stored alphas
   * col found there (TextureSet.cpp:137-168, 643-653, 681-703, 742-779).
   */
  function ApplyOp(op: TexelOp, col: seq<real>): (r: seq<byte>)
    requires Fits(op, |col| + 1)
    ensures |r| == |col|
  {
    match op
    case SwapLayers(i, j) => TruncateAll(Encode(SwapVisibility(Decode(col), i, j)[1..]))
    case ToBigAlpha => RoundAll(Decode(col)[1..])
    case ToOldAlpha => RoundAll(Encode(col))
    case MergeLayers(i, j) => RoundAll(Encode(MergeVisibility(Decode(col), i, j)[1..]))
  }

  /** The grids after op has been applied at every texel. */
  function Transformed(grids: seq<Alphamap>, op: TexelOp): (out: seq<Alphamap>)
    requires Fits(op, |grids| + 1)
    ensures |out| == |grids|
    ensures forall k, idx :: 0 <= k < |grids| && 0 <= idx < TexelCount ==>
      out[k][idx] == ApplyOp(op, Column(grids, idx))[k]
  {
    seq(|grids|, k requires 0 <= k < |grids| =>
      seq(TexelCount, idx requires 0 <= idx < TexelCount => ApplyOp(op, Column(grids, idx))[k]))
  }

  /** The grids with the alphas at texel idx replaced by r. */
  function SetColumn(grids: seq<Alphamap>, idx: nat, r: seq<byte>): (out: seq<Alphamap>)
    requires idx < TexelCount && |r| == |grids|
    ensures |out| == |grids|
    ensures forall k, x :: 0 <= k < |grids| && 0 <= x < TexelCount ==>
      out[k][x] == if x == idx then r[k] else grids[k][x]
  {
    seq(|grids|, k requires 0 <= k < |grids| => grids[k][idx := r[k]])
  }

  /** Two families of grids that agree texel by texel are equal. */
  lemma GridsEqual(a: seq<Alphamap>, b: seq<Alphamap>)
    requires |a| == |b|
    requires forall k, x :: 0 <= k < |a| && 0 <= x < TexelCount ==> a[k][x] == b[k][x]
    ensures a == b
  {
    forall k | 0 <= k < |a| ensures a[k] == b[k] {
      assert forall x :: 0 <= x < TexelCount ==> a[k][x] == b[k][x];
    }
  }

  /**
   * Applies op to every texel in turn, reading each texel's column before
   * it is overwritten (the texel loops of swapTexture, convertToBigAlpha,
   * convertToOldAlpha and mergeAlpha).
   */
  method ApplyTexels(grids: seq<Alphamap>, op: TexelOp) returns (out: seq<Alphamap>)
    requires Fits(op, |grids| + 1)
    ensures out == Transformed(grids, op)
  {
    ghost var target := Transformed(grids, op);
    out := grids;
    for idx := 0 to TexelCount
      invariant |out| == |grids|
      invariant forall k, x :: 0 <= k < |grids| && 0 <= x < TexelCount ==>
        out[k][x] == if x < idx then target[k][x] else grids[k][x]
    {
      var r := ApplyOp(op, Column(grids, idx));
      assert forall k :: 0 <= k < |grids| ==> r[k] == target[k][idx];
      out := SetColumn(out, idx, r);
    }
    GridsEqual(out, target);
  }

  // ---------------------------------------------------------------------
  // What each pass stores at one texel

  /**
   * swapTexture stores at each texel the truncations of alphas that, in
   * exact arithmetic, decode to the old visibilities with layers i and j
   * exchanged.
   */
  lemma SwapTexel(col: seq<real>, i: nat, j: nat)
    requires InByteRange(col) && i <= |col| && j <= |col|
    ensures var exact := Encode(SwapVisibility(Decode(col), i, j)[1..]);
      Decode(exact) == SwapVisibility(Decode(col), i, j)
      && forall k :: 0 <= k < |col| ==>
        0.0 <= exact[k] - ApplyOp(SwapLayers(i, j), col)[k] as real < 1.0
  {
    var v := Decode(col);
    var r := SwapVisibility(v, i, j);
    SwapRoundTrip(col, i, j);
    DecodeSum(col);
    DecodeInByteRange(col);
    SwapVisibilityValid(v, i, j);
    ValidUpperInByteRange(r);
    TruncateAllClose(Encode(r[1..]));
  }

  /**
   * mergeAlpha stores at each texel the roundings of alphas that, in exact
   * arithmetic, decode to the old visibilities with layer j's added to
   * layer i's and layer j's set to 0.
   */
  lemma MergeTexel(col: seq<real>, i: nat, j: nat)
    requires InByteRange(col) && i <= |col| && j <= |col| && i != j
    ensures var exact := Encode(MergeVisibility(Decode(col), i, j)[1..]);
      Decode(exact) == MergeVisibility(Decode(col), i, j)
      && forall k :: 0 <= k < |col| ==>
        -0.5 <= ApplyOp(MergeLayers(i, j), col)[k] as real - exact[k] <= 0.5
  {
    var v := Decode(col);
    var r := MergeVisibility(v, i, j);
    MergeRoundTrip(col, i, j);
    MergeValid(col, i, j);
    ValidUpperInByteRange(r);
    RoundAllClose(Encode(r[1..]));
  }

  /** Merging the decoded visibilities of stored alphas gives valid visibilities. */
  lemma MergeValid(col: seq<real>, i: nat, j: nat)
    requires InByteRange(col) && i <= |col| && j <= |col| && i != j
    ensures NonNegative(MergeVisibility(Decode(col), i, j))
    ensures Sum(MergeVisibility(Decode(col), i, j)) == Full
  {
    DecodeSum(col);
    DecodeInByteRange(col);
    MergeVisibilityValid(Decode(col), i, j, MergeVisibility(Decode(col), i, j));
  }

  /**
   * The grids mergeAlpha(i, j) is meant to leave on the layers that remain
   * (TextureSet.cpp:742-790): at every texel the merged alphas, with the
   * entry of the emptied layer j left out, so that each remaining layer gets
   * the alpha computed for it.
   */
  function MergedGrids(grids: seq<Alphamap>, i: nat, j: nat): (out: seq<Alphamap>)
    requires 1 <= i <= |grids| && 1 <= j <= |grids| && i != j
    ensures |out| == |grids| - 1
  {
    RemoveAt(Transformed(grids, MergeLayers(i, j)), j - 1)
  }

  /**
   * The grids mergeAlpha stores as written (TextureSet.cpp:784-790): after
   * layer j is erased, grid k of the remaining layers receives the alphas
   * computed for old grid k, whichever layer j was, so the top grid's
   * alphas are the ones lost.
   */
  function MergedGridsAsWritten(grids: seq<Alphamap>, i: nat, j: nat): (out: seq<Alphamap>)
    requires 1 <= i <= |grids| && 1 <= j <= |grids| && i != j
    ensures |out| == |grids| - 1
    ensures j == |grids| ==> out == MergedGrids(grids, i, j)
  {
    Transformed(grids, MergeLayers(i, j))[..|grids| - 1]
  }

  /**
   * After the intended merge every remaining layer holds, within rounding,
   * alphas that in exact arithmetic decode to the merged visibilities of
   * the remaining layers: layer j's visibility has gone to layer i and
   * nothing else has moved.
   */
  lemma MergedGridsShow(grids: seq<Alphamap>, i: nat, j: nat, idx: nat)
    requires 1 <= i <= |grids| && 1 <= j <= |grids| && i != j && idx < TexelCount
    ensures var r := MergeVisibility(Decode(Column(grids, idx)), i, j);
      var exact := RemoveAt(Encode(r[1..]), j - 1);
      Decode(exact) == RemoveAt(r, j) &&
      forall k :: 0 <= k < |grids| - 1 ==> -0.5 <= MergedGrids(grids, i, j)[k][idx] as real - exact[k] <= 0.5
  {
    MergeDropRoundTrip(Column(grids, idx), i, j);
    MergedGridsRounded(grids, i, j, idx);
  }

  /** The merged grids round the alphas computed for the layers that remain. */
  lemma MergedGridsRounded(grids: seq<Alphamap>, i: nat, j: nat, idx: nat)
    requires 1 <= i <= |grids| && 1 <= j <= |grids| && i != j && idx < TexelCount
    ensures var r := MergeVisibility(Decode(Column(grids, idx)), i, j);
      var exact := RemoveAt(Encode(r[1..]), j - 1);
      forall k :: 0 <= k < |grids| - 1 ==> -0.5 <= MergedGrids(grids, i, j)[k][idx] as real - exact[k] <= 0.5
  {
    var col := Column(grids, idx);
    var r := MergeVisibility(Decode(col), i, j);
    var e := Encode(r[1..]);
    var t := ApplyOp(MergeLayers(i, j), col);
    MergeValid(col, i, j);
    ValidUpperInByteRange(r);
    assert t == RoundAll(e);
    RoundAllClose(e);
    MergedGridsColumn(grids, i, j, idx, t);
    RoundedRemoveAt(t, e, j - 1);
  }

  /** Leaving out the same entry of stored alphas and of the values they round. */
  lemma RoundedRemoveAt(t: seq<byte>, e: seq<real>, m: nat)
    requires |t| == |e| && m < |t|
    requires forall k :: 0 <= k < |t| ==> -0.5 <= t[k] as real - e[k] <= 0.5
    ensures forall k :: 0 <= k < |t| - 1 ==> -0.5 <= RemoveAt(t, m)[k] as real - RemoveAt(e, m)[k] <= 0.5
  {
  }

  /** Texel idx of the merged grids, from the merged alphas t of its column. */
  lemma MergedGridsColumn(grids: seq<Alphamap>, i: nat, j: nat, idx: nat, t: seq<byte>)
    requires 1 <= i <= |grids| && 1 <= j <= |grids| && i != j && idx < TexelCount
    requires t == ApplyOp(MergeLayers(i, j), Column(grids, idx))
    ensures forall k :: 0 <= k < |grids| - 1 ==> MergedGrids(grids, i, j)[k][idx] == RemoveAt(t, j - 1)[k]
  {
    var all := Transformed(grids, MergeLayers(i, j));
    forall k | 0 <= k < |grids| - 1
      ensures MergedGrids(grids, i, j)[k][idx] == RemoveAt(t, j - 1)[k]
    {
      if k < j - 1 {
        assert MergedGrids(grids, i, j)[k] == all[k];
      } else {
        assert MergedGrids(grids, i, j)[k] == all[k + 1];
      }
    }
  }

  /**
   * mergeAlpha as written on a three-layer chunk where layer 1 (alpha 128)
   * is merged into layer 2 (alpha 0): the merged layer should show with
   * visibility 128, but it receives the alpha computed for the erased layer
   * and disappears.
   */
  lemma MergeAsWrittenLosesLayer()
    ensures var grids: seq<Alphamap> := [Blank()[0 := 128], Blank()];
      var r := MergeVisibility(Decode(Column(grids, 0)), 2, 1);
      RemoveAt(r, 1) == [127.0, 128.0] &&
      MergedGrids(grids, 2, 1)[0][0] == 128 &&
      MergedGridsAsWritten(grids, 2, 1)[0][0] == 0 &&
      Decode([MergedGridsAsWritten(grids, 2, 1)[0][0] as real]) == [Full, 0.0]
  {
    var grids: seq<Alphamap> := [Blank()[0 := 128], Blank()];
    var col := Column(grids, 0);
    assert col == [128.0, 0.0];
    assert Decode([128.0]) == [127.0, 128.0];
    assert Decode(col) == [127.0, 128.0, 0.0];
    var r := MergeVisibility(Decode(col), 2, 1);
    assert r == [127.0, 0.0, 128.0];
    assert Encode([0.0]) == [0.0];
    assert Encode(r[1..]) == [0.0, 128.0];
    assert ApplyOp(MergeLayers(2, 1), col) == [0, 128];
  }

  /** Rounding alphas in byte range moves each by at most one half. */
  lemma RoundAllClose(x: seq<real>)
    requires InByteRange(x)
    ensures forall k :: 0 <= k < |x| ==> -0.5 <= RoundAll(x)[k] as real - x[k] <= 0.5
  {
  }

  /** Truncating alphas in byte range lowers each by less than one. */
  lemma TruncateAllClose(x: seq<real>)
    requires InByteRange(x)
    ensures forall k :: 0 <= k < |x| ==> 0.0 <= x[k] - TruncateAll(x)[k] as real < 1.0
  {
  }

  /** convertToBigAlpha stores each layer's absolute visibility, rounded. */
  lemma BigAlphaTexel(col: seq<real>)
    requires InByteRange(col)
    ensures forall k :: 0 <= k < |col| ==>
      -0.5 <= ApplyOp(ToBigAlpha, col)[k] as real - Decode(col)[k + 1] <= 0.5
  {
    DecodeInByteRange(col);
  }

  /**
   * convertToOldAlpha stores relative alphas, rounded, that in exact
   * arithmetic decode back to the absolute visibilities it was given,
   * provided these leave room for the base.
   */
  lemma OldAlphaTexel(col: seq<real>)
    requires InByteRange(col) && Sum(col) <= Full
    ensures Decode(Encode(col)) == [Full - Sum(col)] + col
    ensures forall k :: 0 <= k < |col| ==>
      -0.5 <= ApplyOp(ToOldAlpha, col)[k] as real - Encode(col)[k] <= 0.5
  {
    DecodeEncode(col);
    EncodeInByteRange(col);
  }

  /**
   * Converting to absolute alphas and back restores the stored alphas in
   * exact arithmetic, except that an alpha beneath a fully opaque layer
   * reads 0: convertToOldAlpha undoes convertToBigAlpha.
   */
  lemma BigOldRoundTrip(col: seq<real>)
    requires InByteRange(col)
    ensures forall k :: 0 <= k < |col| ==>
      Encode(Decode(col)[1..])[k] == if Shadowed(col, k) then 0.0 else col[k]
  {
    EncodeDecode(col);
  }

  /**
   * After convertToBigAlpha every grid holds, within rounding, the absolute
   * visibility of its layer at each texel.
   */
  lemma BigAlphaGrids(grids: seq<Alphamap>)
    ensures forall k, idx :: 0 <= k < |grids| && 0 <= idx < TexelCount ==>
      -0.5 <= Transformed(grids, ToBigAlpha)[k][idx] as real - Decode(Column(grids, idx))[k + 1] <= 0.5
  {
    forall idx | 0 <= idx < TexelCount
      ensures forall k :: 0 <= k < |grids| ==>
        -0.5 <= Transformed(grids, ToBigAlpha)[k][idx] as real - Decode(Column(grids, idx))[k + 1] <= 0.5
    {
      BigAlphaTexel(Column(grids, idx));
    }
  }

  /**
   * After convertToOldAlpha, at every texel whose absolute alphas leave room
   * for the base, each grid holds within rounding a relative alpha, and
   * these relative alphas decode in exact arithmetic to the absolute alphas
   * the grids held, with the base taking what is left.
   */
  lemma OldAlphaGrids(grids: seq<Alphamap>, idx: nat)
    requires idx < TexelCount && Sum(Column(grids, idx)) <= Full
    ensures var col := Column(grids, idx);
      Decode(Encode(col)) == [Full - Sum(col)] + col &&
      forall k :: 0 <= k < |grids| ==> -0.5 <= Transformed(grids, ToOldAlpha)[k][idx] as real - Encode(col)[k] <= 0.5
  {
    OldAlphaTexel(Column(grids, idx));
  }

  /** Valid visibilities encode to alphas in byte range. */
  lemma ValidUpperInByteRange(r: seq<real>)
    requires |r| >= 1 && NonNegative(r) && Sum(r) == Full
    ensures InByteRange(Encode(r[1..]))
  {
    assert r == [r[0]] + r[1..];
    SumCons(r[0], r[1..]);
    assert NonNegative(r[1..]) by {
      forall k | 0 <= k < |r| - 1 ensures r[1..][k] >= 0.0 {
        assert r[1..][k] == r[k + 1];
      }
    }
    EncodeInByteRange(r[1..]);
  }

  // ---------------------------------------------------------------------
  // The brush stroke

  /**
   * One stroke of paintTexture over a chunk: the target layer, the wanted
   * visibility, the pressure, the brush's radii, and the distance from the
   * brush centre to the centre of every texel (computed by the caller from
   * the chunk and cursor positions).
   */
  datatype Stroke = Stroke(
    target: nat,
    strength: real,
    pressure: real,
    radius: real,
    iradius: real,
    oradius: real,
    dist: seq<real>)

  /** The stroke targets an existing layer and the brush is defined at every texel it reaches. */
  predicate StrokeFits(s: Stroke, layers: nat)
  {
    s.target < layers && |s.dist| == TexelCount &&
    forall idx :: 0 <= idx < TexelCount ==>
      s.dist[idx] > s.radius || s.dist[idx] < s.iradius || s.oradius != 0.0
  }

  /** What a stroke does at one texel: the alphas it writes, if any, and which layers show there. */
  datatype TexelPaint = TexelPaint(written: Option<seq<byte>>, visible: seq<bool>)

  /** The layers with a positive visibility. */
  function Positive(v: seq<real>): (shown: seq<bool>)
    ensures |shown| == |v|
    ensures forall k :: 0 <= k < |v| ==> (shown[k] <==> v[k] > 0.0)
  {
    seq(|v|, k requires 0 <= k < |v| => v[k] > 0.0)
  }

  /**
   * Which layers a texel beyond the brush shows, read off the stored alphas
   * (TextureSet.cpp:439-454): a non-base layer when its alpha is positive,
   * the base unless some layer is fully opaque.
   */
  function StoredVisible(col: seq<real>): (shown: seq<bool>)
    ensures |shown| == |col| + 1
    ensures shown[0] <==> forall j :: 0 <= j < |col| ==> col[j] != Full
    ensures forall k :: 1 <= k <= |col| ==> (shown[k] <==> col[k - 1] > 0.0)
  {
    [forall j :: 0 <= j < |col| ==> col[j] != Full] + seq(|col|, k requires 0 <= k < |col| => col[k] > 0.0)
  }

  /**
   * The stroke at one texel at distance d from the brush centre
   * (TextureSet.cpp:437-546): beyond the radius, or where the target
   * already shows at the wanted strength, nothing is written; otherwise the
   * visibilities are repainted with the pressure scaled by the brush's
   * falloff and the encoded alphas are stored rounded.
   */
  function PaintTexel(col: seq<real>, s: Stroke, d: real): (p: TexelPaint)
    requires 1 <= |col| && s.target <= |col|
    requires d > s.radius || d < s.iradius || s.oradius != 0.0
    ensures |p.visible| == |col| + 1
    ensures p.written.Some? ==> |p.written.value| == |col|
    ensures p.written.Some? <==> d <= s.radius && Decode(col)[s.target] != s.strength
  {
    if d > s.radius then TexelPaint(None, StoredVisible(col))
    else
      var v := Decode(col);
      if v[s.target] == s.strength then TexelPaint(None, Positive(v))
      else
        var r := PaintVisibility(v, s.target, s.strength, LocalPressure(s, d));
        TexelPaint(Some(RoundAll(Encode(r[1..]))), Positive(r))
  }

  /** The pressure at distance d: the stroke's pressure scaled by the brush's falloff (TextureSet.cpp:460). */
  function LocalPressure(s: Stroke, d: real): real
    requires d > s.radius || d < s.iradius || s.oradius != 0.0
  {
    s.pressure * Falloff(s.radius, s.iradius, s.oradius, d)
  }

  /** The stroke's effect at texel idx of the grids. */
  function Outcome(grids: seq<Alphamap>, s: Stroke, idx: nat): (p: TexelPaint)
    requires 1 <= |grids| && StrokeFits(s, |grids| + 1) && idx < TexelCount
    ensures |p.visible| == |grids| + 1
    ensures p.written.Some? ==> |p.written.value| == |grids|
  {
    PaintTexel(Column(grids, idx), s, s.dist[idx])
  }

  /** The edit's outcome is defined at every texel and sized for the grids. */
  ghost predicate EditFits(grids: seq<Alphamap>, edit: nat --> TexelPaint)
  {
    forall x :: 0 <= x < TexelCount ==>
      edit.requires(x) && |edit(x).visible| == |grids| + 1 &&
      (edit(x).written.Some? ==> |edit(x).written.value| == |grids|)
  }

  /** The grids after an edit: each texel keeps its alphas or takes the ones the edit writes there. */
  function Edited(grids: seq<Alphamap>, edit: nat --> TexelPaint): (out: seq<Alphamap>)
    requires EditFits(grids, edit)
    ensures |out| == |grids|
    ensures forall k, x :: 0 <= k < |grids| && 0 <= x < TexelCount ==>
      out[k][x] == if edit(x).written.Some? then edit(x).written.value[k] else grids[k][x]
  {
    seq(|grids|, k requires 0 <= k < |grids| =>
      seq(TexelCount, x requires 0 <= x < TexelCount =>
        if edit(x).written.Some? then edit(x).written.value[k] else grids[k][x]))
  }

  /** Two flag lists or-ed together. */
  function OrFlags(a: seq<bool>, b: seq<bool>): (r: seq<bool>)
    requires |a| == |b|
    ensures |r| == |a|
    ensures forall k :: 0 <= k < |a| ==> (r[k] <==> a[k] || b[k])
  {
    seq(|a|, k requires 0 <= k < |a| => a[k] || b[k])
  }

  /**
   * The texel loop of paintTexture (TextureSet.cpp:428-551): visits every
   * texel, stores what the edit writes there, and records whether anything
   * was written and which layers show at some texel.
   */
  method EditTexels(grids: seq<Alphamap>, edit: nat --> TexelPaint) returns (out: seq<Alphamap>, changed: bool, seen: seq<bool>)
    requires EditFits(grids, edit)
    ensures out == Edited(grids, edit)
    ensures changed <==> exists x :: 0 <= x < TexelCount && edit(x).written.Some?
    ensures |seen| == |grids| + 1
    ensures forall k :: 0 <= k < |seen| ==> (seen[k] <==> exists x :: 0 <= x < TexelCount && edit(x).visible[k])
  {
    ghost var target := Edited(grids, edit);
    out := grids;
    changed := false;
    seen := seq(|grids| + 1, _ => false);
    for idx := 0 to TexelCount
      invariant |out| == |grids| && |seen| == |grids| + 1
      invariant forall k, x :: 0 <= k < |grids| && 0 <= x < TexelCount ==>
        out[k][x] == if x < idx then target[k][x] else grids[k][x]
      invariant changed <==> exists x :: 0 <= x < idx && edit(x).written.Some?
      invariant forall k :: 0 <= k < |seen| ==> (seen[k] <==> exists x :: 0 <= x < idx && edit(x).visible[k])
    {
      var p := edit(idx);
      if p.written.Some? {
        changed := true;
        out := SetColumn(out, idx, p.written.value);
      }
      seen := OrFlags(seen, p.visible);
    }
    GridsEqual(out, target);
  }

  /** The stroke's outcome at every texel. */
  function Outcomes(grids: seq<Alphamap>, s: Stroke): (edit: nat --> TexelPaint)
    requires 1 <= |grids| && StrokeFits(s, |grids| + 1)
    ensures EditFits(grids, edit)
    ensures forall x :: 0 <= x < TexelCount ==> edit(x) == Outcome(grids, s, x)
  {
    (x: nat) requires x < TexelCount => Outcome(grids, s, x)
  }

  /** The grids after the stroke. */
  function PaintedGrids(grids: seq<Alphamap>, s: Stroke): (out: seq<Alphamap>)
    requires 1 <= |grids| && StrokeFits(s, |grids| + 1)
    ensures |out| == |grids|
  {
    Edited(grids, Outcomes(grids, s))
  }

  /** Whether the stroke writes some texel. */
  ghost predicate Wrote(grids: seq<Alphamap>, s: Stroke)
    requires 1 <= |grids| && StrokeFits(s, |grids| + 1)
  {
    exists idx :: 0 <= idx < TexelCount && Outcome(grids, s, idx).written.Some?
  }

  /** For each layer, whether it shows at some texel once the stroke is done. */
  ghost function Shown(grids: seq<Alphamap>, s: Stroke): (shown: seq<bool>)
    requires 1 <= |grids| && StrokeFits(s, |grids| + 1)
    ensures |shown| == |grids| + 1
  {
    seq(|grids| + 1, k requires 0 <= k < |grids| + 1 =>
      exists idx :: 0 <= idx < TexelCount && Outcome(grids, s, idx).visible[k])
  }

  /**
   * The texel loop of paintTexture applied to a stroke: the grids it leaves,
   * whether it wrote any texel, and which layers show at some texel
   * afterwards (TextureSet.cpp:426-551).
   */
  method PaintTexels(grids: seq<Alphamap>, s: Stroke) returns (out: seq<Alphamap>, changed: bool, seen: seq<bool>)
    requires 1 <= |grids| && StrokeFits(s, |grids| + 1)
    ensures out == PaintedGrids(grids, s)
    ensures changed == Wrote(grids, s)
    ensures seen == Shown(grids, s)
  {
    out, changed, seen := EditTexels(grids, Outcomes(grids, s));
    ghost var shown := Shown(grids, s);
    forall k | 0 <= k < |seen| ensures seen[k] == shown[k] {
    }
  }

  /** A stroke that writes no texel leaves the grids as they were. */
  lemma UnwrittenUnchanged(grids: seq<Alphamap>, s: Stroke)
    requires 1 <= |grids| && StrokeFits(s, |grids| + 1) && !Wrote(grids, s)
    ensures PaintedGrids(grids, s) == grids
  {
    var out := PaintedGrids(grids, s);
    var edit := Outcomes(grids, s);
    forall k, x | 0 <= k < |grids| && 0 <= x < TexelCount ensures out[k][x] == grids[k][x] {
      assert edit(x).written.None?;
    }
    GridsEqual(out, grids);
  }

  /** Some layer shows after the stroke, so the pruning that follows never empties the chunk. */
  lemma SomeLayerShown(grids: seq<Alphamap>, s: Stroke)
    requires 1 <= |grids| && StrokeFits(s, |grids| + 1)
    ensures true in Shown(grids, s)
  {
    OutcomeShowsSomeLayer(grids, s, 0);
    var k :| 0 <= k < |grids| + 1 && Outcome(grids, s, 0).visible[k];
    assert Shown(grids, s)[k];
  }

  /** Every texel shows at least one layer after the stroke, so pruning never empties the chunk. */
  lemma OutcomeShowsSomeLayer(grids: seq<Alphamap>, s: Stroke, idx: nat)
    requires 1 <= |grids| && StrokeFits(s, |grids| + 1) && idx < TexelCount
    ensures exists k :: 0 <= k < |grids| + 1 && Outcome(grids, s, idx).visible[k]
  {
    PaintTexelShowsSomeLayer(Column(grids, idx), s, s.dist[idx]);
    var k :| 0 <= k < |grids| + 1 && PaintTexel(Column(grids, idx), s, s.dist[idx]).visible[k];
    assert Outcome(grids, s, idx).visible[k];
  }

  lemma PaintTexelShowsSomeLayer(col: seq<real>, s: Stroke, d: real)
    requires 1 <= |col| && s.target <= |col| && InByteRange(col)
    requires d > s.radius || d < s.iradius || s.oradius != 0.0
    ensures exists k :: 0 <= k < |col| + 1 && PaintTexel(col, s, d).visible[k]
  {
    var p := PaintTexel(col, s, d);
    if d > s.radius {
      assert p.visible == StoredVisible(col);
      StoredShowsSomeLayer(col);
    } else {
      var v := Decode(col);
      DecodeSum(col);
      if v[s.target] == s.strength {
        assert p.visible == Positive(v);
        PositiveShowsSomeLayer(v);
      } else {
        var tp := LocalPressure(s, d);
        var r := PaintVisibility(v, s.target, s.strength, tp);
        assert p.visible == Positive(r);
        PaintVisibilitySum(v, s.target, s.strength, tp);
        PositiveShowsSomeLayer(r);
      }
    }
  }

  /** Beyond the brush, the base shows unless some layer is fully opaque, and that layer then shows. */
  lemma StoredShowsSomeLayer(col: seq<real>)
    ensures exists k :: 0 <= k < |col| + 1 && StoredVisible(col)[k]
  {
    var shown := StoredVisible(col);
    if !shown[0] {
      var j :| 0 <= j < |col| && col[j] == Full;
      assert shown[j + 1];
    }
  }

  /** Visibilities that add up to full coverage show some layer. */
  lemma PositiveShowsSomeLayer(v: seq<real>)
    requires Sum(v) == Full
    ensures exists k :: 0 <= k < |v| && Positive(v)[k]
  {
    SomeLayerVisible(v);
    var k :| 0 <= k < |v| && v[k] > 0.0;
    assert Positive(v)[k];
  }

  /**
   * At a texel the stroke writes, the stored bytes are the roundings of
   * alphas that decode exactly to the repainted visibilities, which keep
   * full coverage and move the target as the painting rule says.
   */
  lemma PaintedTexel(grids: seq<Alphamap>, s: Stroke, idx: nat)
    requires 1 <= |grids| && StrokeFits(s, |grids| + 1) && idx < TexelCount
    requires 0.0 <= s.strength <= Full && 0.0 <= s.pressure <= 1.0
    requires Consistent(s.radius, s.iradius, s.oradius)
    requires Outcome(grids, s, idx).written.Some?
    ensures var v := Decode(Column(grids, idx));
      var tp := LocalPressure(s, s.dist[idx]);
      var d := PaintDelta(v, s.target, s.strength, tp);
      var r := PaintVisibility(v, s.target, s.strength, tp);
      var exact := Encode(r[1..]);
      Sum(r) == Full
      && r[s.target] == (if v[s.target] + d >= Full then Full else v[s.target] + d)
      && Decode(exact) == r
      && forall k :: 0 <= k < |grids| ==>
        -0.5 <= Outcome(grids, s, idx).written.value[k] as real - exact[k] <= 0.5
  {
    var col := Column(grids, idx);
    var d := s.dist[idx];
    var tp := LocalPressure(s, d);
    LocalPressureInUnit(s, d);
    var v := Decode(col);
    var r := PaintVisibility(v, s.target, s.strength, tp);
    assert Outcome(grids, s, idx).written.value == RoundAll(Encode(r[1..]));
    DecodeSum(col);
    DecodeInByteRange(col);
    PaintVisibilityTarget(v, s.target, s.strength, tp);
    RepaintExact(v, s.target, s.strength, tp);
  }

  /** The local pressure is a fraction of the stroke's pressure. */
  lemma LocalPressureInUnit(s: Stroke, d: real)
    requires d > s.radius || d < s.iradius || s.oradius != 0.0
    requires Consistent(s.radius, s.iradius, s.oradius) && 0.0 <= s.pressure <= 1.0
    ensures 0.0 <= LocalPressure(s, d) <= 1.0
  {
    var f := Falloff(s.radius, s.iradius, s.oradius, d);
    FalloffInUnit(s.radius, s.iradius, s.oradius, d);
    MulNonNegative(s.pressure, f);
    assert s.pressure * f <= s.pressure * 1.0;
  }

  /** Repainted valid visibilities stay valid and survive encoding and rounding. */
  lemma RepaintExact(v: seq<real>, t: nat, strength: real, tp: real)
    requires 2 <= |v| && t < |v| && Sum(v) == Full && NonNegative(v)
    requires 0.0 <= strength <= Full && 0.0 <= tp <= 1.0
    ensures var r := PaintVisibility(v, t, strength, tp);
      var exact := Encode(r[1..]);
      Sum(r) == Full
      && Decode(exact) == r
      && forall k :: 0 <= k < |v| - 1 ==> -0.5 <= RoundAll(exact)[k] as real - exact[k] <= 0.5
  {
    RepaintValid(v, t, strength, tp);
    ValidRoundTrip(PaintVisibility(v, t, strength, tp));
  }

  lemma RepaintValid(v: seq<real>, t: nat, strength: real, tp: real)
    requires 2 <= |v| && t < |v| && Sum(v) == Full && NonNegative(v)
    requires 0.0 <= strength <= Full && 0.0 <= tp <= 1.0
    ensures NonNegative(PaintVisibility(v, t, strength, tp)) && Sum(PaintVisibility(v, t, strength, tp)) == Full
  {
    PaintVisibilitySum(v, t, strength, tp);
    PaintVisibilityNonNegative(v, t, strength, tp);
  }

  /** Valid visibilities come back exactly from their encoding, and rounding that encoding moves each alpha by at most one half. */
  lemma ValidRoundTrip(r: seq<real>)
    requires |r| >= 1 && NonNegative(r) && Sum(r) == Full
    ensures Decode(Encode(r[1..])) == r
    ensures forall k :: 0 <= k < |r| - 1 ==> -0.5 <= RoundAll(Encode(r[1..]))[k] as real - Encode(r[1..])[k] <= 0.5
  {
    ExactRoundTrip(r);
    ValidUpperInByteRange(r);
    RoundAllClose(Encode(r[1..]));
  }
}
