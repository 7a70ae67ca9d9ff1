/**
 * Per-texel alpha compositing of a terrain chunk's texture layers
 * (src/TextureSet.cpp).
 *
 * A chunk has up to four layers. Layer 0 is the base and has no alphamap;
 * layer k >= 1 stores, per texel, a RELATIVE alpha: how opaque it is when it
 * is drawn over everything beneath it. Every edit first decodes the stored
 * alphas of a texel into the ABSOLUTE visibility of every layer (these add
 * up to 255), edits the visibilities, and encodes them back.
 *
 * The source computes in single-precision floats; here the values are exact
 * reals, and only the final store into a byte (round or truncate, then clamp
 * to [0,255]) is modelled.
 */
module Compositing {
  import opened Wrappers
  import opened LayerLists

  /** Full coverage: the visibilities of one texel add up to this. */
  const Full: real := 255.0

  function Sum(s: seq<real>): real
  {
    if s == [] then 0.0 else Sum(s[..|s| - 1]) + s[|s| - 1]
  }

  predicate NonNegative(s: seq<real>)
  {
    forall j :: 0 <= j < |s| ==> s[j] >= 0.0
  }

  predicate InByteRange(s: seq<real>)
  {
    forall j :: 0 <= j < |s| ==> 0.0 <= s[j] <= Full
  }

  function Zeros(n: nat): seq<real>
  {
    seq(n, _ => 0.0)
  }

  /** Drawing a layer of relative alpha f over v: everything beneath keeps the share (255 - f) / 255. */
  function Cover(v: seq<real>, f: real): seq<real>
  {
    seq(|v|, j requires 0 <= j < |v| => v[j] * (Full - f) / Full)
  }

  /** Undoes Cover for a layer that is not fully opaque. */
  function Uncover(v: seq<real>, f: real): seq<real>
    requires f != Full
  {
    seq(|v|, j requires 0 <= j < |v| => v[j] / (Full - f) * Full)
  }

  /**
   * Absolute visibility of every layer of a texel (index 0 is the base) from
   * the relative alphas of the non-base layers (alphas[k] belongs to layer
   * k + 1): the base starts at 255, and each layer in turn takes its alpha
   * as its visibility and covers all the layers beneath it
   * (TextureSet.cpp:462-471).
   */
  function Decode(alphas: seq<real>): (v: seq<real>)
    ensures |v| == |alphas| + 1
  {
    if alphas == [] then [Full]
    else
      var f := alphas[|alphas| - 1];
      Cover(Decode(alphas[..|alphas| - 1]), f) + [f]
  }

  /**
   * Relative alphas of the non-base layers from their absolute visibilities
   * (upper[k] belongs to layer k + 1; the base's visibility is not used)
   * (TextureSet.cpp:523-537). The top layer's alpha is its visibility; each
   * layer below is divided by (255 - alpha) of every layer above it, top
   * layer first, and multiplied by 255; it becomes 0 as soon as one of those
   * alphas is 255. The recursion divides by the top layer first and then
   * encodes the rest, which is the order of the source's inner loop.
   */
  function Encode(upper: seq<real>): (alphas: seq<real>)
    ensures |alphas| == |upper|
    decreases |upper|
  {
    if upper == [] then []
    else
      var f := upper[|upper| - 1];
      var below := upper[..|upper| - 1];
      (if f == Full then Zeros(|below|) else Encode(Uncover(below, f))) + [f]
  }

  /** A layer below k is hidden when some layer above it is fully opaque. */
  predicate Shadowed(alphas: seq<real>, k: nat)
  {
    exists j :: k < j < |alphas| && alphas[j] == Full
  }

  /**
   * A layer is invisible at a texel when its own alpha is 0 or some layer
   * above it is fully opaque.
   */
  lemma {:induction false} DecodeHidden(alphas: seq<real>, k: nat)
    requires k <= |alphas|
    requires (0 < k && alphas[k - 1] == 0.0) || exists j :: k <= j < |alphas| && alphas[j] == Full
    ensures Decode(alphas)[k] == 0.0
    decreases |alphas|
  {
    var n := |alphas| - 1;
    var f := alphas[n];
    var below := alphas[..n];
    assert Decode(alphas) == Cover(Decode(below), f) + [f];
    if k < |alphas| {
      if f != Full {
        assert (0 < k && below[k - 1] == 0.0) || exists j :: k <= j < |below| && below[j] == Full by {
          if !(0 < k && alphas[k - 1] == 0.0) {
            var j :| k <= j < |alphas| && alphas[j] == Full;
            assert j < n && below[j] == Full;
          }
        }
        DecodeHidden(below, k);
      }
    }
  }

  /**
   * The converse of DecodeHidden for alphas in byte range: a layer is
   * invisible at a texel only when its own alpha is 0 or some layer above it
   * is fully opaque.
   */
  lemma {:induction false} HiddenDecode(alphas: seq<real>, k: nat)
    requires k <= |alphas| && InByteRange(alphas)
    requires Decode(alphas)[k] == 0.0
    ensures (0 < k && alphas[k - 1] == 0.0) || exists j :: k <= j < |alphas| && alphas[j] == Full
    decreases |alphas|
  {
    if alphas != [] {
      var n := |alphas| - 1;
      var f := alphas[n];
      var below := alphas[..n];
      assert Decode(alphas) == Cover(Decode(below), f) + [f];
      if k < |alphas| && f != Full {
        ShareZero(Decode(below)[k], Full - f);
        assert InByteRange(below) by {
          forall j | 0 <= j < |below| ensures 0.0 <= below[j] <= Full {
            assert below[j] == alphas[j];
          }
        }
        HiddenDecode(below, k);
        if !(0 < k && below[k - 1] == 0.0) {
          var j :| k <= j < |below| && below[j] == Full;
          assert alphas[j] == Full;
        }
      } else if k < |alphas| {
        assert alphas[n] == Full;
      }
    }
  }

  /** A positive share of x is 0 only when x is. */
  lemma ShareZero(x: real, c: real)
    requires c > 0.0 && x * c / Full == 0.0
    ensures x == 0.0
  {
  }

  /** C's round(): to the nearest integer, halves away from zero. */
  function Round(x: real): int
  {
    if x >= 0.0 then (x + 0.5).Floor else -((0.5 - x).Floor)
  }

  /**
   * Storing a computed alpha into a byte: round, then clamp to [0,255]
   * (TextureSet.cpp:543, 653, 703, 779).
   */
  function StoreRounded(x: real): (b: byte)
    ensures 0.0 <= x <= Full ==> -0.5 <= b as real - x <= 0.5
    ensures x <= 0.0 ==> b == 0
    ensures x >= Full ==> b == 255
  {
    var r := Round(x);
    if r < 0 then 0 else if r > 255 then 255 else r
  }

  /** Storing in swapTexture: clamp to [0,255], then truncate (TextureSet.cpp:168). */
  function StoreTruncated(x: real): (b: byte)
    ensures 0.0 <= x <= Full ==> 0.0 <= x - b as real < 1.0
    ensures x <= 0.0 ==> b == 0
  {
    if x <= 0.0 then 0 else if x >= Full then 255 else x.Floor
  }

  /** Exchanging the visibilities of layers i and j (TextureSet.cpp:146-148). */
  function SwapVisibility(v: seq<real>, i: nat, j: nat): seq<real>
    requires i < |v| && j < |v|
  {
    v[i := v[j]][j := v[i]]
  }

  /** Moving layer j's visibility onto layer i (TextureSet.cpp:758-759). */
  function MergeVisibility(v: seq<real>, i: nat, j: nat): seq<real>
    requires i < |v| && j < |v| && i != j
  {
    v[i := v[i] + v[j]][j := 0.0]
  }

  /** The change a brush stroke asks of the target layer at one texel (TextureSet.cpp:489). */
  function PaintDelta(v: seq<real>, t: nat, strength: real, pressure: real): real
    requires t < |v|
  {
    (strength - v[t]) * pressure
  }

  /**
   * The new visibilities of one texel under a brush stroke on layer t with
   * the given local pressure (TextureSet.cpp:488-521): if the target reaches
   * 255 it covers everything; a fully visible target that recedes hands the
   * whole change to one neighbour (the layer below, or layer 1 for the base);
   * otherwise every other visible layer gives up or takes its proportional
   * share of the change.
   */
  function PaintVisibility(v: seq<real>, t: nat, strength: real, pressure: real): seq<real>
    requires 2 <= |v| && t < |v|
  {
    var diff := PaintDelta(v, t, strength, pressure);
    if v[t] + diff >= Full then Solo(|v|, t)
    else if v[t] == Full && diff < 0.0 then HandOff(v, t, diff)
    else ShareOut(v, t, diff)
  }

  /** Layer t alone is visible (TextureSet.cpp:491-497). */
  function Solo(n: nat, t: nat): seq<real>
  {
    seq(n, k => if k == t then Full else 0.0)
  }

  /** The layer next to t that takes a fully visible target's loss (TextureSet.cpp:503-505). */
  function Neighbour(t: nat): nat
  {
    if t == 0 then 1 else t - 1
  }

  /** A fully visible target recedes by -diff and its neighbour gains it (TextureSet.cpp:501-507). */
  function HandOff(v: seq<real>, t: nat, diff: real): seq<real>
    requires 2 <= |v| && t < |v|
  {
    v[t := v[t] + diff][Neighbour(t) := v[Neighbour(t)] - diff]
  }

  /**
   * The target moves by diff and every other visible layer k gives up
   * diff * v[k] / (255 - v[t]) of its own visibility (TextureSet.cpp:509-519).
   */
  function ShareOut(v: seq<real>, t: nat, diff: real): seq<real>
    requires t < |v| && v[t] != Full
  {
    var other := Full - v[t];
    seq(|v|, k requires 0 <= k < |v| =>
      if k == t then v[t] + diff
      else if v[k] == 0.0 then v[k]
      else v[k] - diff * (v[k] / other))
  }

  // ---------------------------------------------------------------------
  // Sums

  lemma SumAppend(s: seq<real>, x: real)
    ensures Sum(s + [x]) == Sum(s) + x
  {
    assert (s + [x])[..|s|] == s;
  }

  lemma {:induction false} SumCons(x: real, s: seq<real>)
    ensures Sum([x] + s) == x + Sum(s)
  {
    if s != [] {
      var w := s[..|s| - 1];
      assert [x] + s == ([x] + w) + [s[|s| - 1]];
      SumAppend([x] + w, s[|s| - 1]);
      SumCons(x, w);
      assert s == w + [s[|s| - 1]];
      SumAppend(w, s[|s| - 1]);
    } else {
      assert [x] + s == [] + [x];
      SumAppend([], x);
    }
  }

  lemma {:induction false} SumNonNegative(s: seq<real>)
    requires NonNegative(s)
    ensures Sum(s) >= 0.0
  {
    if s != [] {
      SumNonNegative(s[..|s| - 1]);
    }
  }

  /** A non-negative sequence adding up to at most 0 is all zeros. */
  lemma {:induction false} SumZeroIsZeros(s: seq<real>)
    requires NonNegative(s) && Sum(s) <= 0.0
    ensures s == Zeros(|s|)
  {
    if s != [] {
      var w := s[..|s| - 1];
      SumNonNegative(w);
      SumZeroIsZeros(w);
      assert s == w + [s[|s| - 1]];
    }
  }

  lemma {:induction false} SumUpdate(s: seq<real>, i: nat, x: real)
    requires i < |s|
    ensures Sum(s[i := x]) == Sum(s) - s[i] + x
  {
    var n := |s| - 1;
    if i == n {
      assert s[i := x][..n] == s[..n];
    } else {
      assert s[i := x][..n] == s[..n][i := x];
      SumUpdate(s[..n], i, x);
    }
  }

  lemma CoverPrefix(v: seq<real>, f: real)
    requires v != []
    ensures Cover(v, f)[..|v| - 1] == Cover(v[..|v| - 1], f)
  {
    var n := |v| - 1;
    forall j | 0 <= j < n ensures Cover(v, f)[..n][j] == Cover(v[..n], f)[j] {
    }
  }

  lemma UncoverPrefix(v: seq<real>, f: real)
    requires v != [] && f != Full
    ensures Uncover(v, f)[..|v| - 1] == Uncover(v[..|v| - 1], f)
  {
    var n := |v| - 1;
    forall j | 0 <= j < n ensures Uncover(v, f)[..n][j] == Uncover(v[..n], f)[j] {
    }
  }

  lemma CoverSuffix(v: seq<real>, f: real)
    requires v != []
    ensures Cover(v, f)[1..] == Cover(v[1..], f)
  {
    forall j | 0 <= j < |v| - 1 ensures Cover(v, f)[1..][j] == Cover(v[1..], f)[j] {
    }
  }

  lemma {:induction false} SumCover(v: seq<real>, f: real)
    ensures Sum(Cover(v, f)) == Sum(v) * (Full - f) / Full
  {
    if v != [] {
      var w := v[..|v| - 1];
      CoverPrefix(v, f);
      SumCover(w, f);
      var c := (Full - f) / Full;
      assert Sum(Cover(v, f)) == Sum(w) * (Full - f) / Full + v[|v| - 1] * (Full - f) / Full;
      assert Sum(w) * (Full - f) / Full == Sum(w) * c;
      assert v[|v| - 1] * (Full - f) / Full == v[|v| - 1] * c;
      assert Sum(v) * c == (Sum(w) + v[|v| - 1]) * c;
    }
  }

  lemma {:induction false} SumUncover(v: seq<real>, f: real)
    requires f != Full
    ensures Sum(Uncover(v, f)) == Sum(v) / (Full - f) * Full
  {
    if v != [] {
      var w := v[..|v| - 1];
      UncoverPrefix(v, f);
      SumUncover(w, f);
      var c := Full / (Full - f);
      assert Sum(w) / (Full - f) * Full == Sum(w) * c;
      assert v[|v| - 1] / (Full - f) * Full == v[|v| - 1] * c;
      assert Sum(v) / (Full - f) * Full == (Sum(w) + v[|v| - 1]) * c;
    }
  }

  // ---------------------------------------------------------------------
  // Decoding

  /** Decoded visibilities always add up to full coverage, whatever the stored alphas. */
  lemma {:induction false} DecodeSum(alphas: seq<real>)
    ensures Sum(Decode(alphas)) == Full
  {
    if alphas != [] {
      var f := alphas[|alphas| - 1];
      var rest := alphas[..|alphas| - 1];
      DecodeSum(rest);
      SumCover(Decode(rest), f);
      SumAppend(Cover(Decode(rest), f), f);
    }
  }

  lemma CoverValue(x: real, f: real)
    requires 0.0 <= x <= Full && 0.0 <= f <= Full
    ensures 0.0 <= x * (Full - f) / Full <= x
  {
    var c := (Full - f) / Full;
    assert 0.0 <= c <= 1.0;
    assert x * (Full - f) / Full == x * c;
    assert x * c <= x * 1.0;
  }

  /** Stored alphas within [0,255] decode to visibilities within [0,255]. */
  lemma {:induction false} DecodeInByteRange(alphas: seq<real>)
    requires InByteRange(alphas)
    ensures InByteRange(Decode(alphas))
  {
    if alphas != [] {
      var f := alphas[|alphas| - 1];
      var rest := alphas[..|alphas| - 1];
      DecodeInByteRange(rest);
      var d := Decode(rest);
      forall j | 0 <= j < |d|
        ensures 0.0 <= Cover(d, f)[j] <= Full
      {
        CoverValue(d[j], f);
      }
    }
  }

  // ---------------------------------------------------------------------
  // Encoding and the round trips

  lemma UncoverCoverValue(x: real, f: real)
    requires f != Full
    ensures x * (Full - f) / Full / (Full - f) * Full == x
    ensures x / (Full - f) * Full * (Full - f) / Full == x
  {
  }

  lemma UncoverCover(v: seq<real>, f: real)
    requires f != Full
    ensures Uncover(Cover(v, f), f) == v
    ensures Cover(Uncover(v, f), f) == v
  {
    forall j | 0 <= j < |v|
      ensures Uncover(Cover(v, f), f)[j] == v[j] && Cover(Uncover(v, f), f)[j] == v[j]
    {
      UncoverCoverValue(v[j], f);
    }
  }

  lemma CoverOpaque(v: seq<real>)
    ensures Cover(v, Full) == Zeros(|v|)
  {
  }

  lemma DecodeZeros(n: nat)
    ensures Decode(Zeros(n)) == [Full] + Zeros(n)
  {
    if n > 0 {
      assert Zeros(n)[..n - 1] == Zeros(n - 1);
      DecodeZeros(n - 1);
      var d := Decode(Zeros(n - 1));
      assert Cover(d, 0.0) == d;
      assert [Full] + Zeros(n - 1) + [0.0] == [Full] + Zeros(n);
    }
  }

  /**
   * Encoding never lets a layer show through a fully opaque layer above it:
   * once some encoded alpha is 255, every alpha below it is 0.
   */
  lemma {:induction false} EncodeShadow(upper: seq<real>, j: nat, k: nat)
    requires k < j < |upper| && Encode(upper)[j] == Full
    ensures Encode(upper)[k] == 0.0
    decreases |upper|
  {
    var f := upper[|upper| - 1];
    var below := upper[..|upper| - 1];
    if f != Full {
      var w := Uncover(below, f);
      assert j < |upper| - 1;
      assert Encode(upper)[j] == Encode(w)[j];
      EncodeShadow(w, j, k);
    }
  }

  /**
   * Encoding the non-base part of decoded visibilities gives the stored
   * alphas back, except that an alpha beneath a fully opaque layer reads 0.
   */
  lemma {:induction false} EncodeDecode(alphas: seq<real>)
    ensures |Encode(Decode(alphas)[1..])| == |alphas|
    ensures forall k :: 0 <= k < |alphas| ==>
      Encode(Decode(alphas)[1..])[k] == if Shadowed(alphas, k) then 0.0 else alphas[k]
  {
    if alphas != [] {
      var n := |alphas| - 1;
      var f := alphas[n];
      var rest := alphas[..n];
      var d := Decode(rest);
      var x := Cover(d[1..], f);
      CoverSuffix(d, f);
      assert Decode(alphas)[1..] == x + [f];
      assert (x + [f])[..n] == x;
      EncodeDecode(rest);
      var e := Encode(Decode(alphas)[1..]);
      if f == Full {
        assert e == Zeros(n) + [f];
        forall k | 0 <= k < |alphas|
          ensures e[k] == if Shadowed(alphas, k) then 0.0 else alphas[k]
        {
          if k < n {
            assert Shadowed(alphas, k);
          } else {
            assert !Shadowed(alphas, k);
          }
        }
      } else {
        UncoverCover(d[1..], f);
        assert e == Encode(d[1..]) + [f];
        forall k | 0 <= k < |alphas|
          ensures e[k] == if Shadowed(alphas, k) then 0.0 else alphas[k]
        {
          if k < n {
            assert rest[k] == alphas[k];
            ShadowedBelowTop(alphas, k);
          } else {
            assert !Shadowed(alphas, k);
          }
        }
      }
    }
  }

  /** Below a top layer that is not fully opaque, shadowing is decided by the layers beneath it. */
  lemma ShadowedBelowTop(alphas: seq<real>, k: nat)
    requires k < |alphas| - 1 && alphas[|alphas| - 1] != Full
    ensures Shadowed(alphas, k) <==> Shadowed(alphas[..|alphas| - 1], k)
  {
    var rest := alphas[..|alphas| - 1];
    if Shadowed(alphas, k) {
      var j :| k < j < |alphas| && alphas[j] == Full;
      assert j < |rest| && rest[j] == Full;
    }
    if Shadowed(rest, k) {
      var j :| k < j < |rest| && rest[j] == Full;
      assert alphas[j] == Full;
    }
  }

  /** With no fully opaque layer above the base, decoding then encoding is the identity. */
  lemma EncodeDecodeIdentity(alphas: seq<real>)
    requires forall j :: 1 <= j < |alphas| ==> alphas[j] != Full
    ensures Encode(Decode(alphas)[1..]) == alphas
  {
    var e := Encode(Decode(alphas)[1..]);
    EncodeDecode(alphas);
    assert |e| == |alphas|;
    forall k | 0 <= k < |alphas| ensures e[k] == alphas[k] {
      assert !Shadowed(alphas, k);
    }
  }

  lemma CoverCons(a: real, w: seq<real>, f: real)
    ensures Cover([a] + w, f) == [a * (Full - f) / Full] + Cover(w, f)
  {
    var l := Cover([a] + w, f);
    var r := [a * (Full - f) / Full] + Cover(w, f);
    forall j | 0 <= j < |l| ensures l[j] == r[j] {
      if j > 0 {
        assert ([a] + w)[j] == w[j - 1];
      }
    }
  }

  /**
   * Encoding then decoding the visibilities of the non-base layers, when
   * they are non-negative and leave room for the base, restores them and
   * gives the base the remainder of full coverage.
   */
  lemma DecodeEncode(upper: seq<real>)
    requires NonNegative(upper) && Sum(upper) <= Full
    ensures Decode(Encode(upper)) == [Full - Sum(upper)] + upper
  {
    DecodeEncodeUpper(upper);
    DecodeSum(Encode(upper));
    BaseIsRemainder(Decode(Encode(upper)), upper);
  }

  /** In a full-coverage texel, the base holds whatever the other layers leave. */
  lemma BaseIsRemainder(v: seq<real>, upper: seq<real>)
    requires |v| >= 1 && v[1..] == upper && Sum(v) == Full
    ensures v == [Full - Sum(upper)] + upper
  {
    assert v == [v[0]] + upper;
    SumCons(v[0], upper);
  }

  /** The part of the round trip above the base: the non-base layers come back unchanged. */
  lemma {:induction false} DecodeEncodeUpper(upper: seq<real>)
    requires NonNegative(upper) && Sum(upper) <= Full
    ensures Decode(Encode(upper))[1..] == upper
    decreases |upper|
  {
    if upper != [] {
      var n := |upper| - 1;
      var f := upper[n];
      var below := upper[..n];
      assert upper == below + [f];
      SumAppend(below, f);
      if f == Full {
        assert NonNegative(below) by {
          forall j | 0 <= j < n ensures below[j] >= 0.0 {
            assert upper[j] == below[j];
          }
        }
        SumNonNegative(below);
        SumZeroIsZeros(below);
        DecodeEncodeOpaque(n);
      } else {
        var w := Uncover(below, f);
        UncoverBounds(below, f);
        DecodeEncodeUpper(w);
        DecodeEncodeStep(below, f);
      }
    }
  }

  /** Visibilities that leave room for the base encode to alphas within [0,255]. */
  lemma {:induction false} EncodeInByteRange(upper: seq<real>)
    requires NonNegative(upper) && Sum(upper) <= Full
    ensures InByteRange(Encode(upper))
    decreases |upper|
  {
    if upper != [] {
      var n := |upper| - 1;
      var f := upper[n];
      var below := upper[..n];
      assert upper == below + [f];
      SumAppend(below, f);
      ElementAtMostSum(upper, n);
      if f != Full {
        UncoverBounds(below, f);
        EncodeInByteRange(Uncover(below, f));
      }
    }
  }

  /** A texel whose visibilities add up to something positive shows at least one layer. */
  lemma {:induction false} SomeLayerVisible(v: seq<real>)
    requires Sum(v) > 0.0
    ensures exists k :: 0 <= k < |v| && v[k] > 0.0
  {
    var n := |v| - 1;
    if v[n] <= 0.0 {
      SomeLayerVisible(v[..n]);
      var k :| 0 <= k < n && v[..n][k] > 0.0;
      assert v[k] > 0.0;
    }
  }

  /** The round trip when the top layer is fully opaque and everything beneath it is invisible. */
  lemma DecodeEncodeOpaque(n: nat)
    ensures Decode(Encode(Zeros(n) + [Full]))[1..] == Zeros(n) + [Full]
  {
    var u := Zeros(n) + [Full];
    assert u[..n] == Zeros(n);
    var e := Encode(u);
    assert e == Zeros(n) + [Full];
    assert e[..n] == Zeros(n);
    DecodeZeros(n);
    CoverOpaque([Full] + Zeros(n));
  }

  /** Dividing out a non-opaque top layer keeps the layers beneath valid. */
  lemma UncoverBounds(below: seq<real>, f: real)
    requires NonNegative(below + [f]) && Sum(below) + f <= Full && f != Full
    ensures NonNegative(Uncover(below, f)) && Sum(Uncover(below, f)) <= Full
  {
    var w := Uncover(below, f);
    assert f >= 0.0 by { assert (below + [f])[|below|] == f; }
    assert NonNegative(below) by {
      forall j | 0 <= j < |below| ensures below[j] >= 0.0 {
        assert (below + [f])[j] == below[j];
      }
    }
    SumNonNegative(below);
    assert f < Full;
    forall j | 0 <= j < |w| ensures w[j] >= 0.0 {
      assert (below + [f])[j] == below[j];
      DivNonNegative(below[j], Full - f);
    }
    SumUncover(below, f);
    DivAtMostOne(Sum(below), Full - f);
  }

  lemma DivNonNegative(a: real, c: real)
    requires a >= 0.0 && c > 0.0
    ensures a / c * Full >= 0.0
  {
  }

  lemma DivAtMostOne(a: real, c: real)
    requires 0.0 <= a <= c && c > 0.0
    ensures a / c * Full <= Full
  {
    assert a / c <= 1.0;
  }

  /** One step of the round trip: a non-opaque top layer over a correctly round-tripped rest. */
  lemma DecodeEncodeStep(below: seq<real>, f: real)
    requires f != Full
    requires Decode(Encode(Uncover(below, f)))[1..] == Uncover(below, f)
    ensures Decode(Encode(below + [f]))[1..] == below + [f]
  {
    var w := Uncover(below, f);
    var d := Decode(Encode(w));
    DecodeEncodeUnfold(below, f);
    CoverSuffix(d, f);
    UncoverCover(below, f);
    assert Decode(Encode(below + [f]))[1..] == Cover(d[1..], f) + [f];
  }

  /** Encoding peels the top layer off, and decoding puts it back on. */
  lemma DecodeEncodeUnfold(below: seq<real>, f: real)
    requires f != Full
    ensures Decode(Encode(below + [f])) == Cover(Decode(Encode(Uncover(below, f))), f) + [f]
  {
    var n := |below|;
    var u := below + [f];
    assert u[..n] == below;
    var e := Encode(u);
    assert e == Encode(Uncover(below, f)) + [f];
    assert e[..n] == Encode(Uncover(below, f));
  }

  /**
   * Any full-coverage assignment of non-negative visibilities survives an
   * encode/decode round trip exactly (before the byte store).
   */
  lemma ExactRoundTrip(v: seq<real>)
    requires |v| >= 1 && NonNegative(v) && Sum(v) == Full
    ensures Decode(Encode(v[1..])) == v
  {
    var upper := v[1..];
    assert v == [v[0]] + upper;
    SumCons(v[0], upper);
    DecodeEncode(upper);
    calc {
      Decode(Encode(upper));
      [Full - Sum(upper)] + upper;
      { assert Full - Sum(upper) == v[0]; }
      [v[0]] + upper;
    }
  }

  // ---------------------------------------------------------------------
  // The per-texel edits keep full coverage

  /** Swapping two layers' visibilities keeps the decoded texel a valid full-coverage assignment. */
  lemma SwapVisibilityValid(v: seq<real>, i: nat, j: nat)
    requires i < |v| && j < |v|
    ensures Sum(SwapVisibility(v, i, j)) == Sum(v)
    ensures NonNegative(v) ==> NonNegative(SwapVisibility(v, i, j))
  {
    SumUpdate(v, i, v[j]);
    SumUpdate(v[i := v[j]], j, v[i]);
  }

  /** Merging layer j into layer i keeps the total and non-negativity; `r` names the result. */
  lemma MergeVisibilityValid(v: seq<real>, i: nat, j: nat, r: seq<real>)
    requires i < |v| && j < |v| && i != j && r == MergeVisibility(v, i, j)
    ensures Sum(r) == Sum(v)
    ensures NonNegative(v) ==> NonNegative(r)
  {
    var m := v[i := v[i] + v[j]];
    SumUpdate(v, i, v[i] + v[j]);
    assert m[j] == v[j];
    SumUpdate(m, j, 0.0);
    assert r == m[j := 0.0];
    if NonNegative(v) {
      forall k | 0 <= k < |r| ensures r[k] >= 0.0 {
        if k != i && k != j {
          assert r[k] == v[k];
        }
      }
    }
  }

  lemma {:induction false} SumScaledExcept(v: seq<real>, t: nat, x: real, c: real)
    requires t < |v|
    ensures Sum(seq(|v|, k requires 0 <= k < |v| => if k == t then x else v[k] * c))
         == x + (Sum(v) - v[t]) * c
  {
    var s := seq(|v|, k requires 0 <= k < |v| => if k == t then x else v[k] * c);
    var n := |v| - 1;
    var w := v[..n];
    if t == n {
      var z := seq(|w|, k requires 0 <= k < |w| => w[k] * c);
      forall k | 0 <= k < n ensures s[..n][k] == z[k] {
      }
      assert s[..n] == z;
      SumScaledAll(w, c);
      SumLast(s);
      assert s[n] == x;
    } else {
      SumScaledExcept(w, t, x, c);
      var z := seq(|w|, k requires 0 <= k < |w| => if k == t then x else w[k] * c);
      forall k | 0 <= k < n ensures s[..n][k] == z[k] {
      }
      assert s[..n] == z;
      SumLast(s);
      assert s[n] == v[n] * c;
      var a := Sum(w) - v[t];
      assert Sum(v) - v[t] == a + v[n];
      MulAdd(a, v[n], c);
    }
  }

  lemma SumLast(s: seq<real>)
    requires s != []
    ensures Sum(s) == Sum(s[..|s| - 1]) + s[|s| - 1]
  {
  }

  lemma MulAdd(a: real, b: real, c: real)
    ensures a * c + b * c == (a + b) * c
  {
  }

  lemma {:induction false} SumScaledAll(v: seq<real>, c: real)
    ensures Sum(seq(|v|, k requires 0 <= k < |v| => v[k] * c)) == Sum(v) * c
  {
    if v != [] {
      var n := |v| - 1;
      var s := seq(|v|, k requires 0 <= k < |v| => v[k] * c);
      var z := seq(n, k requires 0 <= k < n => v[..n][k] * c);
      forall k | 0 <= k < n ensures s[..n][k] == z[k] {
      }
      assert s[..n] == z;
      SumScaledAll(v[..n], c);
    }
  }

  lemma MulNonNegative(a: real, b: real)
    requires a >= 0.0 && b >= 0.0
    ensures a * b >= 0.0
  {
  }

  lemma ProportionalShare(x: real, diff: real, other: real)
    requires other != 0.0
    ensures x - diff * (x / other) == x * (1.0 - diff / other)
  {
  }

  /** The target's new visibility: moved by the stroke's delta, capped at full coverage. */
  lemma PaintVisibilityTarget(v: seq<real>, t: nat, strength: real, pressure: real)
    requires 2 <= |v| && t < |v|
    ensures var d := PaintDelta(v, t, strength, pressure);
      PaintVisibility(v, t, strength, pressure)[t] == if v[t] + d >= Full then Full else v[t] + d
  {
  }

  /** When the stroke leaves a layer other than the target, its visibility follows one of the three rules. */
  lemma PaintVisibilityOthers(v: seq<real>, t: nat, strength: real, pressure: real, k: nat)
    requires 2 <= |v| && t < |v| && k < |v| && k != t
    ensures var d := PaintDelta(v, t, strength, pressure);
      var r := PaintVisibility(v, t, strength, pressure);
      if v[t] + d >= Full then r[k] == 0.0
      else if v[t] == Full && d < 0.0 then
        r[k] == (if k == Neighbour(t) then v[k] - d else v[k])
      else r[k] == v[k] * (1.0 - d / (Full - v[t]))
  {
    var d := PaintDelta(v, t, strength, pressure);
    if v[t] + d < Full && !(v[t] == Full && d < 0.0) {
      ProportionalShare(v[k], d, Full - v[t]);
    }
  }

  /** A brush stroke keeps full coverage at every texel. */
  lemma PaintVisibilitySum(v: seq<real>, t: nat, strength: real, pressure: real)
    requires 2 <= |v| && t < |v| && Sum(v) == Full
    ensures Sum(PaintVisibility(v, t, strength, pressure)) == Full
  {
    var d := PaintDelta(v, t, strength, pressure);
    if v[t] + d >= Full {
      SoloSum(|v|, t);
    } else if v[t] == Full && d < 0.0 {
      HandOffSum(v, t, d, PaintVisibility(v, t, strength, pressure));
    } else {
      ShareOutSum(v, t, d, PaintVisibility(v, t, strength, pressure));
    }
  }

  lemma SoloSum(n: nat, t: nat)
    requires t < n
    ensures Sum(Solo(n, t)) == Full
  {
    assert Solo(n, t) == Zeros(n)[t := Full];
    SumUpdate(Zeros(n), t, Full);
    SumZeroOfZeros(n);
  }

  /** Handing coverage to the neighbour keeps the total; `u` names the result. */
  lemma HandOffSum(v: seq<real>, t: nat, diff: real, u: seq<real>)
    requires 2 <= |v| && t < |v| && u == HandOff(v, t, diff)
    ensures Sum(u) == Sum(v)
  {
    SumUpdateTwice(v, t, Neighbour(t), v[t] + diff, v[Neighbour(t)] - diff);
  }

  lemma SumUpdateTwice(s: seq<real>, i: nat, j: nat, x: real, y: real)
    requires i < |s| && j < |s| && i != j
    ensures Sum(s[i := x][j := y]) == Sum(s) - s[i] - s[j] + x + y
  {
    SumUpdate(s, i, x);
    SumUpdate(s[i := x], j, y);
  }

  /** Sharing out the stroke's delta keeps full coverage; `r` names the result. */
  lemma ShareOutSum(v: seq<real>, t: nat, diff: real, r: seq<real>)
    requires t < |v| && v[t] != Full && Sum(v) == Full && r == ShareOut(v, t, diff)
    ensures Sum(r) == Full
  {
    var other := Full - v[t];
    var c := 1.0 - diff / other;
    ShareOutScaled(v, t, diff, r);
    SumScaledExcept(v, t, v[t] + diff, c);
    ShareOutRest(other, diff);
  }

  /** Every layer other than the target keeps the same fraction of its visibility. */
  lemma ShareOutScaled(v: seq<real>, t: nat, diff: real, r: seq<real>)
    requires t < |v| && v[t] != Full && r == ShareOut(v, t, diff)
    ensures r == seq(|v|, k requires 0 <= k < |v| =>
      if k == t then v[t] + diff else v[k] * (1.0 - diff / (Full - v[t])))
  {
    var other := Full - v[t];
    var s := seq(|v|, k requires 0 <= k < |v| =>
      if k == t then v[t] + diff else v[k] * (1.0 - diff / other));
    forall k | 0 <= k < |v| ensures r[k] == s[k] {
      if k != t { ProportionalShare(v[k], diff, other); }
    }
  }

  lemma ShareOutRest(other: real, diff: real)
    requires other != 0.0
    ensures other * (1.0 - diff / other) == other - diff
  {
  }

  lemma {:induction false} SumZeroOfZeros(n: nat)
    ensures Sum(Zeros(n)) == 0.0
  {
    if n > 0 {
      assert Zeros(n)[..n - 1] == Zeros(n - 1);
      SumZeroOfZeros(n - 1);
    }
  }

  /**
   * A stroke with strength in [0,255] and local pressure in [0,1] keeps every
   * visibility non-negative.
   */
  lemma PaintVisibilityNonNegative(v: seq<real>, t: nat, strength: real, pressure: real)
    requires 2 <= |v| && t < |v| && Sum(v) == Full && NonNegative(v)
    requires 0.0 <= strength <= Full && 0.0 <= pressure <= 1.0
    ensures NonNegative(PaintVisibility(v, t, strength, pressure))
  {
    var d := PaintDelta(v, t, strength, pressure);
    TargetStaysNonNegative(v[t], strength, pressure);
    if v[t] + d >= Full {
    } else if v[t] == Full && d < 0.0 {
      var r := HandOff(v, t, d);
      forall k | 0 <= k < |v| ensures r[k] >= 0.0 {
        if k != t && k != Neighbour(t) {
          assert r[k] == v[k];
        }
      }
    } else {
      ElementAtMostSum(v, t);
      ShareOutNonNegative(v, t, d);
    }
  }

  lemma TargetStaysNonNegative(x: real, strength: real, pressure: real)
    requires x >= 0.0 && 0.0 <= strength && 0.0 <= pressure <= 1.0
    ensures x + (strength - x) * pressure >= 0.0
  {
    assert x + (strength - x) * pressure == x * (1.0 - pressure) + strength * pressure;
    MulNonNegative(x, 1.0 - pressure);
    MulNonNegative(strength, pressure);
  }

  lemma ElementAtMostSum(v: seq<real>, t: nat)
    requires t < |v| && NonNegative(v)
    ensures v[t] <= Sum(v)
  {
    SumUpdate(v, t, 0.0);
    assert NonNegative(v[t := 0.0]);
    SumNonNegative(v[t := 0.0]);
  }

  lemma ShareOutNonNegative(v: seq<real>, t: nat, diff: real)
    requires t < |v| && NonNegative(v) && v[t] < Full && v[t] + diff >= 0.0 && v[t] + diff < Full
    ensures NonNegative(ShareOut(v, t, diff))
  {
    var other := Full - v[t];
    var r := ShareOut(v, t, diff);
    forall k | 0 <= k < |v| && k != t ensures r[k] >= 0.0 {
      ProportionalShare(v[k], diff, other);
      ShareFactorPositive(other, diff);
      MulNonNegative(v[k], 1.0 - diff / other);
    }
  }

  lemma ShareFactorPositive(other: real, diff: real)
    requires other > 0.0 && diff < other
    ensures 1.0 - diff / other > 0.0
  {
  }

  /**
   * In exact arithmetic, the alphas a stroke writes at a texel decode to
   * exactly the visibilities the stroke asked for.
   */
  lemma PaintRoundTrip(alphas: seq<real>, t: nat, strength: real, pressure: real)
    requires 1 <= |alphas| && t <= |alphas| && InByteRange(alphas)
    requires 0.0 <= strength <= Full && 0.0 <= pressure <= 1.0
    ensures var r := PaintVisibility(Decode(alphas), t, strength, pressure);
      Decode(Encode(r[1..])) == r
  {
    var v := Decode(alphas);
    DecodeSum(alphas);
    DecodeInByteRange(alphas);
    PaintVisibilitySum(v, t, strength, pressure);
    PaintVisibilityNonNegative(v, t, strength, pressure);
    ExactRoundTrip(PaintVisibility(v, t, strength, pressure));
  }

  /**
   * In exact arithmetic, the alphas swapTexture writes at a texel decode to
   * the old visibilities with layers i and j exchanged.
   */
  lemma SwapRoundTrip(alphas: seq<real>, i: nat, j: nat)
    requires i <= |alphas| && j <= |alphas| && InByteRange(alphas)
    ensures var r := SwapVisibility(Decode(alphas), i, j);
      Decode(Encode(r[1..])) == r
  {
    var v := Decode(alphas);
    DecodeSum(alphas);
    DecodeInByteRange(alphas);
    SwapVisibilityValid(v, i, j);
    ExactRoundTrip(SwapVisibility(v, i, j));
  }

  /**
   * In exact arithmetic, the alphas mergeAlpha computes at a texel decode to
   * the old visibilities with layer j's moved onto layer i.
   */
  lemma MergeRoundTrip(alphas: seq<real>, i: nat, j: nat)
    requires i <= |alphas| && j <= |alphas| && i != j && InByteRange(alphas)
    ensures var r := MergeVisibility(Decode(alphas), i, j);
      Decode(Encode(r[1..])) == r
  {
    var v := Decode(alphas);
    DecodeSum(alphas);
    DecodeInByteRange(alphas);
    MergeVisibilityValid(v, i, j, MergeVisibility(v, i, j));
    ExactRoundTrip(MergeVisibility(v, i, j));
  }

  /** Leaving an entry out lowers the sum by that entry. */
  lemma {:induction false} SumRemoveAt(s: seq<real>, m: nat)
    requires m < |s|
    ensures Sum(RemoveAt(s, m)) == Sum(s) - s[m]
    decreases |s|
  {
    var n := |s| - 1;
    var r := RemoveAt(s, m);
    if m < n {
      assert r[..|r| - 1] == RemoveAt(s[..n], m);
      assert r[|r| - 1] == s[n];
      SumRemoveAt(s[..n], m);
    } else {
      assert r == s[..n];
    }
  }

  /**
   * A layer with no visibility can be left out before encoding: the other
   * layers' alphas are the ones they get with it present.
   */
  lemma {:induction false} EncodeDropZero(upper: seq<real>, m: nat)
    requires m < |upper| && upper[m] == 0.0
    ensures Encode(RemoveAt(upper, m)) == RemoveAt(Encode(upper), m)
    decreases |upper|
  {
    var n := |upper| - 1;
    var f := upper[n];
    var below := upper[..n];
    var r := RemoveAt(upper, m);
    if m == n {
      UncoverZero(below);
      assert r == below;
      calc {
        RemoveAt(Encode(upper), m);
        RemoveAt(Encode(Uncover(below, f)) + [f], m);
        RemoveAt(Encode(below) + [f], m);
        Encode(below);
      }
    } else {
      var rest := RemoveAt(below, m);
      assert r == rest + [f];
      RemoveAtAppend(below, f, m);
      if f == Full {
        calc {
          Encode(r);
          Zeros(|rest|) + [f];
          { assert Zeros(|rest|) == RemoveAt(Zeros(|below|), m); }
          RemoveAt(Zeros(|below|), m) + [f];
          { RemoveAtAppend(Zeros(|below|), f, m); }
          RemoveAt(Zeros(|below|) + [f], m);
        }
      } else {
        var u := Uncover(below, f);
        UncoverRemoveAt(below, f, m);
        EncodeDropZero(u, m);
        calc {
          Encode(r);
          Encode(Uncover(rest, f)) + [f];
          Encode(RemoveAt(u, m)) + [f];
          RemoveAt(Encode(u), m) + [f];
          { RemoveAtAppend(Encode(u), f, m); }
          RemoveAt(Encode(u) + [f], m);
        }
      }
    }
  }

  lemma UncoverZero(v: seq<real>)
    ensures Uncover(v, 0.0) == v
  {
  }

  /** Uncovering commutes with leaving out an entry, and an empty entry stays empty. */
  lemma UncoverRemoveAt(v: seq<real>, f: real, m: nat)
    requires f != Full && m < |v| && v[m] == 0.0
    ensures Uncover(RemoveAt(v, m), f) == RemoveAt(Uncover(v, f), m)
    ensures Uncover(v, f)[m] == 0.0
  {
  }

  /**
   * Once layer j has been merged into layer i and its emptied layer is left
   * out, the alphas of the remaining layers are those mergeAlpha computed for
   * them, and in exact arithmetic they decode to the merged visibilities of
   * exactly the layers that remain.
   */
  lemma MergeDropRoundTrip(alphas: seq<real>, i: nat, j: nat)
    requires InByteRange(alphas) && i <= |alphas| && 1 <= j <= |alphas| && i != j
    ensures var r := MergeVisibility(Decode(alphas), i, j);
      Encode(RemoveAt(r, j)[1..]) == RemoveAt(Encode(r[1..]), j - 1) &&
      Decode(Encode(RemoveAt(r, j)[1..])) == RemoveAt(r, j)
  {
    var v := Decode(alphas);
    var r := MergeVisibility(v, i, j);
    DecodeSum(alphas);
    DecodeInByteRange(alphas);
    MergeVisibilityValid(v, i, j, r);
    DropEmptyRoundTrip(r, j, RemoveAt(r, j));
  }

  /** Leaving out a layer without visibility from a valid texel, before encoding; `d` names what is left. */
  lemma DropEmptyRoundTrip(r: seq<real>, j: nat, d: seq<real>)
    requires 1 <= j < |r| && r[j] == 0.0 && NonNegative(r) && Sum(r) == Full && d == RemoveAt(r, j)
    ensures Encode(d[1..]) == RemoveAt(Encode(r[1..]), j - 1)
    ensures Decode(Encode(d[1..])) == d
  {
    assert d[1..] == RemoveAt(r[1..], j - 1);
    EncodeDropZero(r[1..], j - 1);
    SumRemoveAt(r, j);
    RemoveAtNonNegative(r, j);
    ExactRoundTrip(d);
  }

  lemma RemoveAtNonNegative(r: seq<real>, j: nat)
    requires j < |r| && NonNegative(r)
    ensures NonNegative(RemoveAt(r, j))
  {
  }
}
