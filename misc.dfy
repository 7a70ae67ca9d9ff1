/**
 * String and rounding helpers (src/misc.cpp).
 *
 * A std::string is a sequence of bytes; the source files are UTF-8, so a
 * literal such as "ä" is the two bytes C3 A4. The rounding helpers work on
 * exact reals here instead of single-precision floats.
 */
module Misc {
  import opened Wrappers

  /** `f` occurs in `s` starting at index `k`. */
  predicate OccursAt<T(==)>(s: seq<T>, f: seq<T>, k: nat)
  {
    k + |f| <= |s| && s[k..k + |f|] == f
  }

  /** std::string::rfind, scanning down from start position `k`. */
  function RFindFrom<T(==)>(s: seq<T>, f: seq<T>, k: nat): (r: Option<nat>)
    requires k + |f| <= |s|
    ensures r.Some? ==> r.value <= k && OccursAt(s, f, r.value)
    ensures r.Some? ==> forall j :: r.value < j <= k ==> !OccursAt(s, f, j)
    ensures r.None? ==> forall j :: 0 <= j <= k ==> !OccursAt(s, f, j)
    decreases k
  {
    if s[k..k + |f|] == f then Some(k)
    else if k == 0 then None
    else RFindFrom(s, f, k - 1)
  }

  /**
   * std::string::rfind: the start of the last occurrence of `f` in `s`, or
   * None for npos. An empty `f` is found at the end of `s`.
   */
  function RFind<T(==)>(s: seq<T>, f: seq<T>): (r: Option<nat>)
    ensures r.Some? ==> OccursAt(s, f, r.value)
    ensures r.Some? ==> forall j :: r.value < j ==> !OccursAt(s, f, j)
    ensures r.None? <==> forall j :: 0 <= j ==> !OccursAt(s, f, j)
  {
    if |f| > |s| then None else RFindFrom(s, f, |s| - |f|)
  }

  /**
   * find_and_replace: when `find` occurs in `source`, its last occurrence is
   * replaced by `replace`; otherwise `source` is returned unchanged.
   */
  function FindAndReplace<T(==)>(source: seq<T>, find: seq<T>, replace: seq<T>): (r: seq<T>)
    ensures RFind(source, find).None? ==> r == source
    ensures RFind(source, find).Some? ==>
      var k := RFind(source, find).value;
      |r| == |source| - |find| + |replace| &&
      r[..k] == source[..k] &&
      r[k..k + |replace|] == replace &&
      r[k + |replace|..] == source[k + |find|..]
  {
    match RFind(source, find)
    case None => source
    case Some(k) => source[..k] + replace + source[k + |find|..]
  }

  /**
   * Only the last occurrence is replaced: every occurrence of `find` that
   * ends before it is still an occurrence of `find` in the result.
   */
  lemma EarlierOccurrencesKept<T>(source: seq<T>, find: seq<T>, replace: seq<T>, j: nat)
    requires RFind(source, find).Some? && OccursAt(source, find, j)
    requires j + |find| <= RFind(source, find).value
    ensures OccursAt(FindAndReplace(source, find, replace), find, j)
  {
    var k := RFind(source, find).value;
    var r := FindAndReplace(source, find, replace);
    assert r[j..j + |find|] == r[..k][j..j + |find|];
  }

  /** A text without the first element of `find` is left unchanged. */
  lemma AbsentUnchanged<T>(source: seq<T>, find: seq<T>, replace: seq<T>)
    requires |find| > 0 && find[0] !in source
    ensures FindAndReplace(source, find, replace) == source
  {
  }

  /** The bytes of an ASCII text. */
  function Ascii(s: string): (b: seq<byte>)
    requires forall i :: 0 <= i < |s| ==> s[i] as int < 128
    ensures |b| == |s| && forall i :: 0 <= i < |s| ==> b[i] == s[i] as int && b[i] < 128
  {
    seq(|s|, i requires 0 <= i < |s| => s[i] as int)
  }

  /** A pair of texts: what to look for, and what to put in its place. */
  datatype Substitution = Substitution(find: seq<byte>, replace: seq<byte>)

  /** Applies the substitutions in order, each to the last occurrence only. */
  function Substitute(text: seq<byte>, subs: seq<Substitution>): seq<byte>
    decreases |subs|
  {
    if subs == [] then text
    else Substitute(FindAndReplace(text, subs[0].find, subs[0].replace), subs[1..])
  }

  /** UTF-8 of ä, ö, ü, ß, Ä, Ö, Ü. */
  const LowerA: seq<byte> := [0xC3, 0xA4]
  const LowerO: seq<byte> := [0xC3, 0xB6]
  const LowerU: seq<byte> := [0xC3, 0xBC]
  const SharpS: seq<byte> := [0xC3, 0x9F]
  const UpperA: seq<byte> := [0xC3, 0x84]
  const UpperO: seq<byte> := [0xC3, 0x96]
  const UpperU: seq<byte> := [0xC3, 0x9C]

  /** The ASCII spellings "ae", "oe", "ue", "ss", "Ae", "Oe", "Ue". */
  const TextAe: seq<byte> := [0x61, 0x65]
  const TextOe: seq<byte> := [0x6F, 0x65]
  const TextUe: seq<byte> := [0x75, 0x65]
  const TextSs: seq<byte> := [0x73, 0x73]
  const TextCapAe: seq<byte> := [0x41, 0x65]
  const TextCapOe: seq<byte> := [0x4F, 0x65]
  const TextCapUe: seq<byte> := [0x55, 0x65]

  /**
   * The seventh pattern as it stands in src/misc.cpp:55 and src/dbc.cpp:73:
   * the UTF-8 replacement character U+FFFD followed by "oe", where Ü was
   * evidently meant.
   */
  const GarbledUpperU: seq<byte> := [0xEF, 0xBF, 0xBD, 0x6F, 0x65]

  /** The substitutions of replaceSpezialChars as written. */
  const SpecialCharsAsWritten: seq<Substitution> := [
    Substitution(LowerA, TextAe),
    Substitution(LowerO, TextOe),
    Substitution(LowerU, TextUe),
    Substitution(SharpS, TextSs),
    Substitution(UpperA, TextCapAe),
    Substitution(UpperO, TextCapOe),
    Substitution(GarbledUpperU, TextCapUe)
  ]

  /** The substitutions with Ü in the seventh place. */
  const SpecialChars: seq<Substitution> := [
    Substitution(LowerA, TextAe),
    Substitution(LowerO, TextOe),
    Substitution(LowerU, TextUe),
    Substitution(SharpS, TextSs),
    Substitution(UpperA, TextCapAe),
    Substitution(UpperO, TextCapOe),
    Substitution(UpperU, TextCapUe)
  ]

  /** Every pattern begins with a byte outside ASCII. */
  predicate NonAsciiPatterns(subs: seq<Substitution>)
  {
    forall i :: 0 <= i < |subs| ==> |subs[i].find| > 0 && subs[i].find[0] >= 128
  }

  predicate AsciiText(text: seq<byte>)
  {
    forall i :: 0 <= i < |text| ==> text[i] < 128
  }

  /** A pure-ASCII text passes through substitutions of non-ASCII patterns unchanged. */
  lemma {:induction false} AsciiUnchanged(text: seq<byte>, subs: seq<Substitution>)
    requires AsciiText(text) && NonAsciiPatterns(subs)
    ensures Substitute(text, subs) == text
    decreases |subs|
  {
    if subs != [] {
      assert subs[0].find[0] !in text;
      AbsentUnchanged(text, subs[0].find, subs[0].replace);
      assert NonAsciiPatterns(subs[1..]) by {
        forall i | 0 <= i < |subs[1..]| ensures |subs[1..][i].find| > 0 && subs[1..][i].find[0] >= 128 {
          assert subs[1..][i] == subs[i + 1];
        }
      }
      AsciiUnchanged(text, subs[1..]);
    }
  }

  /** One substitution of a list, applied to the text so far. */
  lemma SubstituteStep(t: seq<byte>, subs: seq<Substitution>, i: nat)
    requires i < |subs|
    ensures Substitute(t, subs[i..]) == Substitute(FindAndReplace(t, subs[i].find, subs[i].replace), subs[i + 1..])
  {
    assert subs[i..][1..] == subs[i + 1..];
  }

  /**
   * replaceSpezialChars (src/misc.cpp:47-57) as written: seven
   * find_and_replace calls in a row on the same text.
   */
  method ReplaceSpecialCharsAsWritten(text: seq<byte>) returns (t: seq<byte>)
    ensures t == Substitute(text, SpecialCharsAsWritten)
  {
    ghost var subs := SpecialCharsAsWritten;
    assert subs[0..] == subs;
    t := text;
    SubstituteStep(t, subs, 0);
    t := FindAndReplace(t, LowerA, TextAe);
    SubstituteStep(t, subs, 1);
    t := FindAndReplace(t, LowerO, TextOe);
    SubstituteStep(t, subs, 2);
    t := FindAndReplace(t, LowerU, TextUe);
    SubstituteStep(t, subs, 3);
    t := FindAndReplace(t, SharpS, TextSs);
    SubstituteStep(t, subs, 4);
    t := FindAndReplace(t, UpperA, TextCapAe);
    SubstituteStep(t, subs, 5);
    t := FindAndReplace(t, UpperO, TextCapOe);
    SubstituteStep(t, subs, 6);
    t := FindAndReplace(t, GarbledUpperU, TextCapUe);
    assert subs[7..] == [];
  }

  /** replaceSpezialChars with Ü spelled correctly; ASCII text is returned as it is. */
  method ReplaceSpecialChars(text: seq<byte>) returns (t: seq<byte>)
    ensures t == Substitute(text, SpecialChars)
    ensures AsciiText(text) ==> t == text
  {
    ghost var subs := SpecialChars;
    assert subs[0..] == subs;
    t := text;
    SubstituteStep(t, subs, 0);
    t := FindAndReplace(t, LowerA, TextAe);
    SubstituteStep(t, subs, 1);
    t := FindAndReplace(t, LowerO, TextOe);
    SubstituteStep(t, subs, 2);
    t := FindAndReplace(t, LowerU, TextUe);
    SubstituteStep(t, subs, 3);
    t := FindAndReplace(t, SharpS, TextSs);
    SubstituteStep(t, subs, 4);
    t := FindAndReplace(t, UpperA, TextCapAe);
    SubstituteStep(t, subs, 5);
    t := FindAndReplace(t, UpperO, TextCapOe);
    SubstituteStep(t, subs, 6);
    t := FindAndReplace(t, UpperU, TextCapUe);
    assert subs[7..] == [];
    if AsciiText(text) {
      SpecialPatternsNonAscii();
      AsciiUnchanged(text, SpecialChars);
    }
  }

  /** The patterns of both lists begin with a non-ASCII byte. */
  lemma SpecialPatternsNonAscii()
    ensures NonAsciiPatterns(SpecialCharsAsWritten) && NonAsciiPatterns(SpecialChars)
  {
  }

  /** As written, a capital Ü is never replaced. */
  lemma UpperUKeptAsWritten()
    ensures Substitute(UpperU, SpecialCharsAsWritten) == UpperU
  {
    forall i | 0 <= i < 7 ensures NoStart(UpperU, SpecialCharsAsWritten[i].find) {
    }
    UntouchedPrefix(UpperU, SpecialCharsAsWritten, 7);
    assert SpecialCharsAsWritten[..7] == SpecialCharsAsWritten;
  }

  /** With the corrected list, a capital Ü becomes "Ue". */
  lemma UpperUReplaced()
    ensures Substitute(UpperU, SpecialChars) == TextCapUe
  {
    forall i | 0 <= i < 6 ensures NoStart(UpperU, SpecialChars[i].find) {
    }
    UntouchedPrefix(UpperU, SpecialChars, 6);
    SubstituteAppend(UpperU, SpecialChars[..6], SpecialChars[6]);
    assert SpecialChars[..6] + [SpecialChars[6]] == SpecialChars;
    assert OccursAt(UpperU, UpperU, 0);
    assert FindAndReplace(UpperU, UpperU, TextCapUe) == TextCapUe;
  }

  /** Only the last ä of "ää" is replaced. */
  lemma LastOccurrenceOnly()
    ensures Substitute(LowerA + LowerA, SpecialChars) == LowerA + TextAe
  {
    var t := LowerA + LowerA;
    var t1 := LowerA + TextAe;
    assert t1 == [0xC3, 0xA4, 0x61, 0x65];
    assert SpecialChars[0..] == SpecialChars;
    assert SpecialChars[0] == Substitution(LowerA, TextAe);
    SubstituteStep(t, SpecialChars, 0);
    assert t[2..4] == LowerA;
    assert RFind(t, LowerA) == Some(2);
    assert FindAndReplace(t, LowerA, TextAe) == t1;
    SecondPatternsAbsent(t1);
    UntouchedSuffix(t1, SpecialChars, 1);
  }

  /** No pattern after the first starts in "äae". */
  lemma SecondPatternsAbsent(t: seq<byte>)
    requires t == [0xC3, 0xA4, 0x61, 0x65]
    ensures forall i :: 1 <= i < 7 ==> NoStart(t, SpecialChars[i].find)
  {
    assert NoStart(t, LowerO) && NoStart(t, LowerU) && NoStart(t, SharpS);
    assert NoStart(t, UpperA) && NoStart(t, UpperO) && NoStart(t, UpperU);
    forall i | 1 <= i < 7 ensures NoStart(t, SpecialChars[i].find) {
      if i == 1 {
      } else if i == 2 {
      } else if i == 3 {
      } else if i == 4 {
      } else if i == 5 {
      }
    }
  }

  /**
   * A text in which no pattern of subs[..n] starts is left unchanged by
   * those substitutions.
   */
  lemma {:induction false} UntouchedPrefix(t: seq<byte>, subs: seq<Substitution>, n: nat)
    requires n <= |subs|
    requires forall i :: 0 <= i < n ==> NoStart(t, subs[i].find)
    ensures Substitute(t, subs[..n]) == t
    decreases n
  {
    if n > 0 {
      var last := subs[n - 1];
      UntouchedPrefix(t, subs, n - 1);
      NotFoundIn(t, last.find, last.replace);
      SubstituteAppend(t, subs[..n - 1], last);
      assert subs[..n - 1] + [last] == subs[..n];
    }
  }

  /** Substituting a list and then one more pattern. */
  lemma {:induction false} SubstituteAppend(t: seq<byte>, subs: seq<Substitution>, last: Substitution)
    ensures Substitute(t, subs + [last]) == FindAndReplace(Substitute(t, subs), last.find, last.replace)
    decreases |subs|
  {
    if subs == [] {
      assert [last][1..] == [];
    } else {
      assert (subs + [last])[1..] == subs[1..] + [last];
      SubstituteAppend(FindAndReplace(t, subs[0].find, subs[0].replace), subs[1..], last);
    }
  }

  /**
   * A text in which no pattern of subs[m..] starts is left unchanged by
   * those substitutions.
   */
  lemma {:induction false} UntouchedSuffix(t: seq<byte>, subs: seq<Substitution>, m: nat)
    requires m <= |subs|
    requires forall i :: m <= i < |subs| ==> NoStart(t, subs[i].find)
    ensures Substitute(t, subs[m..]) == t
    decreases |subs| - m
  {
    if m < |subs| {
      SubstituteStep(t, subs, m);
      NotFoundIn(t, subs[m].find, subs[m].replace);
      UntouchedSuffix(t, subs, m + 1);
    }
  }

  /** The first two bytes of `f` appear together nowhere in `s`. */
  predicate NoStart(s: seq<byte>, f: seq<byte>)
  {
    |f| >= 2 && forall k :: 0 <= k < |s| - 1 ==> s[k] != f[0] || s[k + 1] != f[1]
  }

  /** The first two elements of an occurrence. */
  lemma FirstTwo(s: seq<byte>, f: seq<byte>, k: nat)
    requires |f| >= 2 && OccursAt(s, f, k)
    ensures k + 1 < |s| && s[k] == f[0] && s[k + 1] == f[1]
  {
    assert s[k..k + |f|][0] == s[k] && s[k..k + |f|][1] == s[k + 1];
  }

  /** A pattern whose first two bytes never appear together is not found. */
  lemma NotFoundIn(s: seq<byte>, f: seq<byte>, replace: seq<byte>)
    requires NoStart(s, f)
    ensures FindAndReplace(s, f, replace) == s
  {
    if RFind(s, f).Some? {
      FirstTwo(s, f, RFind(s, f).value);
      assert false;
    }
  }

  /** float-to-int conversion in C: truncation toward zero. */
  function Trunc(x: real): (n: int)
    ensures x >= 0.0 ==> n as real <= x < n as real + 1.0
    ensures x < 0.0 ==> n as real - 1.0 < x <= n as real
  {
    if x >= 0.0 then x.Floor else -((-x).Floor)
  }

  /**
   * FtoIround (src/misc.cpp:14-17): the nearest integer, a tie going away
   * from zero.
   */
  function FtoIround(d: real): (r: int)
    ensures -0.5 <= r as real - d <= 0.5
    ensures r as real - d == 0.5 ==> d > 0.0
    ensures d - r as real == 0.5 ==> d < 0.0
  {
    Trunc(if d < 0.0 then d - 0.5 else d + 0.5)
  }

  /**
   * roundc (src/misc.cpp:19-30): rounds like FtoIround, then clamps to
   * [-127, 127] before the conversion to char.
   */
  method Roundc(a: real) returns (c: int)
    ensures -127 <= c <= 127
    ensures var r := FtoIround(a); c == if r < -127 then -127 else if r > 127 then 127 else r
  {
    var x := a;
    if x < 0.0 {
      x := x - 0.5;
    }
    if x > 0.0 {
      x := x + 0.5;
    }
    if x < -127.0 {
      x := -127.0;
    } else if x > 127.0 {
      x := 127.0;
    }
    c := Trunc(x);
  }
}
