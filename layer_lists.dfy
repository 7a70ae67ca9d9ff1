/**
 * Operations on the ordered list of a chunk's texture layers, bottom layer
 * first, as the layer-editing code of src/TextureSet.cpp reorders it:
 * removing one layer, keeping a chosen subset, locating the last layer
 * with a given texture, and the duplicate scan of removeDuplicate.
 */
module LayerLists {

  /** The list without its element at index i; the elements above i move down by one. */
  function RemoveAt<T>(s: seq<T>, i: nat): (r: seq<T>)
    requires i < |s|
    ensures |r| == |s| - 1
    ensures forall k :: 0 <= k < |r| ==> r[k] == if k < i then s[k] else s[k + 1]
  {
    s[..i] + s[i + 1..]
  }

  /** Leaving out an element below a new last one. */
  lemma RemoveAtAppend<T>(s: seq<T>, x: T, i: nat)
    requires i < |s|
    ensures RemoveAt(s + [x], i) == RemoveAt(s, i) + [x]
  {
  }

  /** The list with the elements at i and j exchanged. */
  function SwapAt<T>(s: seq<T>, i: nat, j: nat): (r: seq<T>)
    requires i < |s| && j < |s|
    ensures |r| == |s| && r[i] == s[j] && r[j] == s[i]
    ensures forall k :: 0 <= k < |s| && k != i && k != j ==> r[k] == s[k]
  {
    s[i := s[j]][j := s[i]]
  }

  /** a is obtained from b by deleting some elements, keeping the order of the rest. */
  predicate SubSeq<T(==)>(a: seq<T>, b: seq<T>)
    decreases |b|
  {
    if b == [] then a == []
    else SubSeq(a, b[1..]) || (a != [] && a[0] == b[0] && SubSeq(a[1..], b[1..]))
  }

  lemma {:induction false} SubSeqReflexive<T>(s: seq<T>)
    ensures SubSeq(s, s)
    decreases |s|
  {
    if s != [] {
      SubSeqReflexive(s[1..]);
    }
  }

  lemma {:induction false} SubSeqTransitive<T>(a: seq<T>, b: seq<T>, c: seq<T>)
    requires SubSeq(a, b) && SubSeq(b, c)
    ensures SubSeq(a, c)
    decreases |c|
  {
    if c != [] {
      if SubSeq(b, c[1..]) {
        SubSeqTransitive(a, b, c[1..]);
      } else {
        assert b != [] && b[0] == c[0] && SubSeq(b[1..], c[1..]);
        if SubSeq(a, b[1..]) {
          SubSeqTransitive(a, b[1..], c[1..]);
        } else {
          assert a != [] && a[0] == b[0] && SubSeq(a[1..], b[1..]);
          SubSeqTransitive(a[1..], b[1..], c[1..]);
        }
      }
    }
  }

  /** A sub-sequence of b is one of b + [x] as well. */
  lemma {:induction false} SubSeqExtend<T>(a: seq<T>, b: seq<T>, x: T)
    requires SubSeq(a, b)
    ensures SubSeq(a, b + [x])
    decreases |b|
  {
    if b == [] {
      assert a == [];
      assert (b + [x])[1..] == [];
    } else {
      assert (b + [x])[1..] == b[1..] + [x];
      if SubSeq(a, b[1..]) {
        SubSeqExtend(a, b[1..], x);
      } else {
        SubSeqExtend(a[1..], b[1..], x);
      }
    }
  }

  /** Appending the same element to both sides keeps a sub-sequence. */
  lemma {:induction false} SubSeqAppend<T>(a: seq<T>, b: seq<T>, x: T)
    requires SubSeq(a, b)
    ensures SubSeq(a + [x], b + [x])
    decreases |b|
  {
    if b == [] {
      assert a + [x] == [x] && [x][1..] == [];
    } else {
      assert (b + [x])[1..] == b[1..] + [x];
      if SubSeq(a, b[1..]) {
        SubSeqAppend(a, b[1..], x);
      } else {
        assert (a + [x])[1..] == a[1..] + [x];
        SubSeqAppend(a[1..], b[1..], x);
      }
    }
  }

  /** Removing one element leaves a sub-sequence. */
  lemma {:induction false} RemoveAtSubSeq<T>(s: seq<T>, i: nat)
    requires i < |s|
    ensures SubSeq(RemoveAt(s, i), s)
    decreases i
  {
    if i == 0 {
      assert RemoveAt(s, 0) == s[1..];
      SubSeqReflexive(s[1..]);
    } else {
      assert RemoveAt(s, i)[1..] == RemoveAt(s[1..], i - 1);
      RemoveAtSubSeq(s[1..], i - 1);
    }
  }

  /** The elements whose mask entry is set, in order. */
  function Kept<T>(s: seq<T>, mask: seq<bool>): (r: seq<T>)
    requires |mask| == |s|
    ensures |r| <= |s|
  {
    if s == [] then [] else (if mask[0] then [s[0]] else []) + Kept(s[1..], mask[1..])
  }

  lemma {:induction false} KeptSubSeq<T>(s: seq<T>, mask: seq<bool>)
    requires |mask| == |s|
    ensures SubSeq(Kept(s, mask), s)
    decreases |s|
  {
    if s != [] {
      var rest := Kept(s[1..], mask[1..]);
      KeptSubSeq(s[1..], mask[1..]);
      if mask[0] {
        assert Kept(s, mask) == [s[0]] + rest;
        assert Kept(s, mask)[1..] == rest;
      } else {
        assert Kept(s, mask) == rest;
      }
    }
  }

  /** Every element of a sub-sequence occurs in the whole. */
  lemma {:induction false} SubSeqIn<T>(a: seq<T>, b: seq<T>, x: T)
    requires SubSeq(a, b) && x in a
    ensures x in b
    decreases |b|
  {
    if SubSeq(a, b[1..]) {
      SubSeqIn(a, b[1..], x);
    } else if x != a[0] {
      assert x in a[1..];
      SubSeqIn(a[1..], b[1..], x);
    }
  }

  /** Kept unfolds from any starting index: the element there, if kept, then the rest. */
  lemma KeptFrom<T>(s: seq<T>, mask: seq<bool>, k: nat)
    requires |mask| == |s| && k < |s|
    ensures Kept(s[k..], mask[k..]) == (if mask[k] then [s[k]] else []) + Kept(s[k + 1..], mask[k + 1..])
  {
    assert s[k..][1..] == s[k + 1..];
    assert mask[k..][1..] == mask[k + 1..];
  }

  /**
   * A top-down filtering pass that has dealt with the elements from k up:
   * the first k are untouched, the rest filtered by the mask.
   */
  function Pass<T>(s: seq<T>, mask: seq<bool>, k: nat): (r: seq<T>)
    requires |mask| == |s| && k <= |s|
    ensures k <= |r| <= |s|
    ensures forall j :: 0 <= j < k ==> r[j] == s[j]
  {
    s[..k] + Kept(s[k..], mask[k..])
  }

  /** The pass is the filter once it reaches the bottom. */
  lemma PassDone<T>(s: seq<T>, mask: seq<bool>)
    requires |mask| == |s|
    ensures Pass(s, mask, 0) == Kept(s, mask)
  {
    assert s[0..] == s && mask[0..] == mask;
  }

  /** One step of the pass that keeps element k. */
  lemma PassKeep<T>(s: seq<T>, mask: seq<bool>, k: nat)
    requires |mask| == |s| && k < |s| && mask[k]
    ensures Pass(s, mask, k + 1) == Pass(s, mask, k)
  {
    KeptFrom(s, mask, k);
    assert s[..k + 1] == s[..k] + [s[k]];
  }

  /** One step of the pass that removes element k. */
  lemma PassDrop<T>(s: seq<T>, mask: seq<bool>, k: nat)
    requires |mask| == |s| && k < |s| && !mask[k]
    ensures RemoveAt(Pass(s, mask, k + 1), k) == Pass(s, mask, k)
  {
    KeptFrom(s, mask, k);
    var t := Pass(s, mask, k + 1);
    assert t[..k] == s[..k];
    assert t[k + 1..] == Kept(s[k + 1..], mask[k + 1..]);
  }

  /** A mask that keeps everything keeps the list as it is. */
  lemma {:induction false} KeptAll<T>(s: seq<T>, mask: seq<bool>)
    requires |mask| == |s| && false !in mask
    ensures Kept(s, mask) == s
    decreases |s|
  {
    if s != [] {
      assert mask == [mask[0]] + mask[1..];
      KeptAll(s[1..], mask[1..]);
      assert [s[0]] + s[1..] == s;
    }
  }

  /** A mask that keeps nothing leaves nothing. */
  lemma {:induction false} KeptNone<T>(s: seq<T>, mask: seq<bool>)
    requires |mask| == |s| && true !in mask
    ensures Kept(s, mask) == []
    decreases |s|
  {
    if s != [] {
      assert mask == [mask[0]] + mask[1..];
      KeptNone(s[1..], mask[1..]);
    }
  }

  /** Filtering a mask by itself keeps only set entries. */
  lemma {:induction false} KeptMaskAllSet(mask: seq<bool>)
    ensures false !in Kept(mask, mask)
    decreases |mask|
  {
    if mask != [] {
      KeptMaskAllSet(mask[1..]);
    }
  }

  /** The elements whose mask entry is clear. */
  function Negate(mask: seq<bool>): (r: seq<bool>)
    ensures |r| == |mask|
    ensures forall k :: 0 <= k < |mask| ==> r[k] == !mask[k]
  {
    seq(|mask|, k requires 0 <= k < |mask| => !mask[k])
  }

  /** Keeping at least one element leaves a non-empty list. */
  lemma {:induction false} KeptNonEmpty<T>(s: seq<T>, mask: seq<bool>, k: nat)
    requires |mask| == |s| && k < |s| && mask[k]
    ensures |Kept(s, mask)| >= 1
    decreases k
  {
    if k > 0 && !mask[0] {
      KeptNonEmpty(s[1..], mask[1..], k - 1);
    }
  }

  /** Dropping at least one element leaves a shorter list. */
  lemma {:induction false} KeptShorter<T>(s: seq<T>, mask: seq<bool>, k: nat)
    requires |mask| == |s| && k < |s| && !mask[k]
    ensures |Kept(s, mask)| < |s|
    decreases k
  {
    if k > 0 {
      KeptShorter(s[1..], mask[1..], k - 1);
    }
  }

  /** The index of the last occurrence of x (the search loops of TextureSet.cpp:106-113 and 393-395). */
  function LastIndex<T(==)>(s: seq<T>, x: T): (i: nat)
    requires x in s
    ensures i < |s| && s[i] == x
    ensures forall j :: i < j < |s| ==> s[j] != x
  {
    if s[|s| - 1] == x then |s| - 1
    else
      assert x in s[..|s| - 1] by {
        var j :| 0 <= j < |s| && s[j] == x;
        assert s[..|s| - 1][j] == x;
      }
      LastIndex(s[..|s| - 1], x)
  }

  predicate HasDuplicates<T(==)>(s: seq<T>)
  {
    exists a, b :: 0 <= a < b < |s| && s[a] == s[b]
  }

  /**
   * The texture list left by the duplicate scan of removeDuplicate
   * (TextureSet.cpp:793-810), continued from outer index i and inner index j:
   * each pair found equal is merged, which removes the upper one; the inner
   * index moves on after a merge all the same, and the list length is read
   * again at every test.
   */
  function DedupScan<T(==)>(s: seq<T>, i: nat, j: nat): (r: seq<T>)
    ensures SubSeq(r, s)
    decreases |s| - i, |s| - j
  {
    if i >= |s| then
      SubSeqReflexive(s);
      s
    else if j >= |s| then DedupScan(s, i + 1, i + 2)
    else if s[i] == s[j] then
      var r := DedupScan(RemoveAt(s, j), i, j + 1);
      RemoveAtSubSeq(s, j);
      SubSeqTransitive(r, RemoveAt(s, j), s);
      r
    else DedupScan(s, i, j + 1)
  }

  /** Three equal textures in a row: the scan merges one pair and steps over the copy that slid into place. */
  lemma DedupScanKeepsDuplicate()
    ensures DedupScan([0, 1, 1, 1], 0, 1) == [0, 1, 1]
    ensures HasDuplicates(DedupScan([0, 1, 1, 1], 0, 1))
  {
    var s := [0, 1, 1, 1];
    assert DedupScan(s, 0, 1) == DedupScan(s, 1, 2);
    assert RemoveAt(s, 2) == [0, 1, 1];
    assert DedupScan(s, 1, 2) == DedupScan([0, 1, 1], 1, 3);
    assert DedupScan([0, 1, 1], 1, 3) == DedupScan([0, 1, 1], 2, 3);
    assert DedupScan([0, 1, 1], 2, 3) == DedupScan([0, 1, 1], 3, 4);
    var r := DedupScan(s, 0, 1);
    assert r[1] == r[2];
  }

  /**
   * The scan with the intended step: after a merge the inner index stays,
   * because the next candidate has moved into its place.
   */
  function Dedup<T(==)>(s: seq<T>, i: nat, j: nat): (r: seq<T>)
    ensures SubSeq(r, s)
    decreases |s| - i, |s| - j
  {
    if i >= |s| then
      SubSeqReflexive(s);
      s
    else if j >= |s| then Dedup(s, i + 1, i + 2)
    else if s[i] == s[j] then
      var r := Dedup(RemoveAt(s, j), i, j);
      RemoveAtSubSeq(s, j);
      SubSeqTransitive(r, RemoveAt(s, j), s);
      r
    else Dedup(s, i, j + 1)
  }

  /** The intended scan leaves no two equal textures. */
  lemma {:induction false} DedupDistinct<T>(s: seq<T>, i: nat, j: nat)
    requires i < j
    requires forall a, b :: 0 <= a < b < |s| && a < i ==> s[a] != s[b]
    requires forall b :: i < b < j && b < |s| ==> s[i] != s[b]
    ensures !HasDuplicates(Dedup(s, i, j))
    decreases |s| - i, |s| - j
  {
    if i >= |s| {
    } else if j >= |s| {
      DedupDistinct(s, i + 1, i + 2);
    } else if s[i] == s[j] {
      var t := RemoveAt(s, j);
      forall a, b | 0 <= a < b < |t| && a < i ensures t[a] != t[b] {
        assert t[a] == s[a];
        if b < j { assert t[b] == s[b]; } else { assert t[b] == s[b + 1]; }
      }
      forall b | i < b < j && b < |t| ensures t[i] != t[b] {
        assert t[b] == s[b];
      }
      DedupDistinct(t, i, j);
    } else {
      DedupDistinct(s, i, j + 1);
    }
  }

  /** Without two equal elements both scans return the list as it is. */
  lemma {:induction false} DedupKeepsDistinct<T>(s: seq<T>, i: nat, j: nat)
    requires !HasDuplicates(s) && i < j
    ensures Dedup(s, i, j) == s && DedupScan(s, i, j) == s
    decreases |s| - i, |s| - j
  {
    if i >= |s| {
    } else if j >= |s| {
      DedupKeepsDistinct(s, i + 1, i + 2);
    } else {
      assert s[i] != s[j];
      DedupKeepsDistinct(s, i, j + 1);
    }
  }

  /** Removing the upper one of two equal elements keeps every value of the list. */
  lemma MergeKeeps<T>(s: seq<T>, i: nat, j: nat, x: T)
    requires i < j < |s| && s[i] == s[j] && x in s
    ensures x in RemoveAt(s, j)
  {
    var t := RemoveAt(s, j);
    var k :| 0 <= k < |s| && s[k] == x;
    if k < j {
      assert t[k] == x;
    } else if k == j {
      assert t[i] == x;
    } else {
      assert t[k - 1] == x;
    }
  }

  /** The intended scan keeps every texture: each duplicate goes only while an equal copy stays below it. */
  lemma {:induction false} DedupKeepsAll<T>(s: seq<T>, i: nat, j: nat, x: T)
    requires i < j && x in s
    ensures x in Dedup(s, i, j)
    decreases |s| - i, |s| - j
  {
    if i >= |s| {
    } else if j >= |s| {
      DedupKeepsAll(s, i + 1, i + 2, x);
    } else if s[i] == s[j] {
      MergeKeeps(s, i, j, x);
      DedupKeepsAll(RemoveAt(s, j), i, j, x);
    } else {
      DedupKeepsAll(s, i, j + 1, x);
    }
  }

  /** The scan as written keeps every texture too. */
  lemma {:induction false} DedupScanKeepsAll<T>(s: seq<T>, i: nat, j: nat, x: T)
    requires i < j && x in s
    ensures x in DedupScan(s, i, j)
    decreases |s| - i, |s| - j
  {
    if i >= |s| {
    } else if j >= |s| {
      DedupScanKeepsAll(s, i + 1, i + 2, x);
    } else if s[i] == s[j] {
      MergeKeeps(s, i, j, x);
      DedupScanKeepsAll(RemoveAt(s, j), i, j + 1, x);
    } else {
      DedupScanKeepsAll(s, i, j + 1, x);
    }
  }

  /** Both whole scans leave exactly the textures the list had. */
  lemma DedupSameTextures<T>(s: seq<T>)
    ensures forall x :: x in Dedup(s, 0, 1) <==> x in s
    ensures forall x :: x in DedupScan(s, 0, 1) <==> x in s
  {
    forall x
      ensures (x in Dedup(s, 0, 1) <==> x in s) && (x in DedupScan(s, 0, 1) <==> x in s)
    {
      if x in s {
        DedupKeepsAll(s, 0, 1, x);
        DedupScanKeepsAll(s, 0, 1, x);
      }
      if x in Dedup(s, 0, 1) {
        SubSeqIn(Dedup(s, 0, 1), s, x);
      }
      if x in DedupScan(s, 0, 1) {
        SubSeqIn(DedupScan(s, 0, 1), s, x);
      }
    }
  }

  /** The list in reverse order: the order in which eraseTextures releases the layers. */
  function Reverse<T>(s: seq<T>): (r: seq<T>)
    ensures |r| == |s|
    ensures forall k :: 0 <= k < |s| ==> r[k] == s[|s| - 1 - k]
  {
    if s == [] then [] else Reverse(s[1..]) + [s[0]]
  }

  /** Reversing a list with x in front puts x at the back. */
  lemma ReverseCons<T>(x: T, s: seq<T>)
    ensures Reverse([x] + s) == Reverse(s) + [x]
  {
    assert ([x] + s)[1..] == s;
  }
}
