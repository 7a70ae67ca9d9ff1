/**
 * The texture cache (src/noggit/TextureManager.cpp): one reference-counted
 * texture per lower-cased file name, kept in a map ordered by name.
 *
 * A texture object is identified by its key: newTexture hands out the one
 * object stored under the lower-cased name, so two handles are the same
 * pointer exactly when their keys are equal. The texture object itself is
 * reduced to its reference count.
 */
module TextureManagement {

  /** ::tolower in the "C" locale: only 'A'..'Z' change. */
  function LowerChar(c: char): (r: char)
    ensures 'A' <= c <= 'Z' ==> 'a' <= r <= 'z' && r as int == c as int + 32
    ensures !('A' <= c <= 'Z') ==> r == c
  {
    if 'A' <= c <= 'Z' then (c as int + 32) as char else c
  }

  /** std::transform(name, ::tolower), as done to every name before a lookup. */
  function ToLower(name: string): (r: string)
    ensures |r| == |name|
    ensures forall i :: 0 <= i < |name| ==> r[i] == LowerChar(name[i])
  {
    seq(|name|, i requires 0 <= i < |name| => LowerChar(name[i]))
  }

  predicate IsLower(name: string)
  {
    forall i :: 0 <= i < |name| ==> !('A' <= name[i] <= 'Z')
  }

  /** Lower-casing gives a lower-case name and leaves a lower-case name alone. */
  lemma ToLowerIdempotent(name: string)
    ensures IsLower(ToLower(name))
    ensures ToLower(ToLower(name)) == ToLower(name)
    ensures IsLower(name) ==> ToLower(name) == name
  {
  }

  /** The map after one more reference to the texture stored under key (TextureManager.cpp:45-50). */
  function Acquire(items: map<string, nat>, key: string): (r: map<string, nat>)
    ensures key in r && r[key] >= 1
    ensures r.Keys == items.Keys + {key}
    ensures forall k :: k in items && k != key ==> r[k] == items[k]
  {
    items[key := if key in items then items[key] + 1 else 1]
  }

  /**
   * The map after dropping one reference to the texture stored under key; a
   * texture left without references is deleted and its entry erased
   * (TextureManager.cpp:29-38). An unknown key changes nothing.
   */
  function Release(items: map<string, nat>, key: string): (r: map<string, nat>)
    ensures key !in items ==> r == items
    ensures key in items && items[key] <= 1 ==> key !in r && r.Keys == items.Keys - {key}
    ensures key in items && items[key] > 1 ==> key in r && r[key] == items[key] - 1 && r.Keys == items.Keys
    ensures forall k :: k in r && k != key ==> k in items && r[k] == items[k]
  {
    if key !in items then items
    else if items[key] <= 1 then items - {key}
    else items[key := items[key] - 1]
  }

  /** Every cached texture is still referenced and is stored under a lower-case name. */
  predicate Tidy(items: map<string, nat>)
  {
    forall k :: k in items ==> items[k] >= 1 && IsLower(k)
  }

  /** Taking a reference and dropping it again restores the cache exactly. */
  lemma AcquireRelease(items: map<string, nat>, key: string)
    requires Tidy(items)
    ensures Release(Acquire(items, key), key) == items
  {
    if key in items {
      assert Release(Acquire(items, key), key) == items[key := items[key]];
    }
  }

  /** The cache stays tidy under both updates, given a lower-case key. */
  lemma TidyKept(items: map<string, nat>, key: string)
    requires Tidy(items) && IsLower(key)
    ensures Tidy(Acquire(items, key)) && Tidy(Release(items, key))
  {
  }

  /**
   * Releasing a list of names one after the other, first to last: what
   * erasing a sequence of texture layers does to the cache.
   */
  function ReleaseAll(items: map<string, nat>, names: seq<string>): (r: map<string, nat>)
    ensures r.Keys <= items.Keys
  {
    if names == [] then items else ReleaseAll(Release(items, ToLower(names[0])), names[1..])
  }

  /** Releasing one more name after a list of them. */
  lemma {:induction false} ReleaseAllAppend(items: map<string, nat>, names: seq<string>, name: string)
    ensures ReleaseAll(items, names + [name]) == Release(ReleaseAll(items, names), ToLower(name))
    decreases |names|
  {
    if names == [] {
      assert ([] + [name])[1..] == [];
    } else {
      assert (names + [name])[1..] == names[1..] + [name];
      ReleaseAllAppend(Release(items, ToLower(names[0])), names[1..], name);
    }
  }

  /** Releasing names none of which maps to key leaves key's entry alone. */
  lemma {:induction false} ReleaseAllKeeps(items: map<string, nat>, names: seq<string>, key: string)
    requires key in items
    requires forall i :: 0 <= i < |names| ==> ToLower(names[i]) != key
    ensures key in ReleaseAll(items, names) && ReleaseAll(items, names)[key] == items[key]
    decreases |names|
  {
    if names != [] {
      ReleaseAllKeeps(Release(items, ToLower(names[0])), names[1..], key);
    }
  }

  /** The map after k calls of newTexture for the same key. */
  function AcquireTimes(items: map<string, nat>, key: string, k: nat): (r: map<string, nat>)
    ensures k >= 1 ==> key in r
  {
    if k == 0 then items else Acquire(AcquireTimes(items, key, k - 1), key)
  }

  /** The map after k calls of delbyname for the same key. */
  function ReleaseTimes(items: map<string, nat>, key: string, k: nat): map<string, nat>
  {
    if k == 0 then items else ReleaseTimes(Release(items, key), key, k - 1)
  }

  lemma {:induction false} AcquireTimesCount(items: map<string, nat>, key: string, k: nat)
    requires key !in items && k >= 1
    ensures AcquireTimes(items, key, k) == items[key := k]
  {
    if k > 1 {
      AcquireTimesCount(items, key, k - 1);
    }
  }

  lemma {:induction false} ReleaseTimesCount(items: map<string, nat>, key: string, k: nat)
    requires key !in items && k >= 1
    ensures ReleaseTimes(items[key := k], key, k) == items
  {
    if k == 1 {
      assert Release(items[key := 1], key) == items;
    } else {
      assert Release(items[key := k], key) == items[key := k - 1];
      ReleaseTimesCount(items, key, k - 1);
    }
  }

  /**
   * k references taken on a name new to the cache and k dropped again
   * leave the cache as it was.
   */
  lemma AcquireReleaseTimes(items: map<string, nat>, key: string, k: nat)
    requires key !in items
    ensures ReleaseTimes(AcquireTimes(items, key, k), key, k) == items
  {
    if k >= 1 {
      AcquireTimesCount(items, key, k);
      ReleaseTimesCount(items, key, k);
    }
  }

  /** Lexicographic order of std::string on byte-valued characters. */
  predicate Less(a: string, b: string)
  {
    if a == [] then b != []
    else if b == [] then false
    else if a[0] != b[0] then a[0] < b[0]
    else Less(a[1..], b[1..])
  }

  lemma {:induction false} LessIrreflexive(a: string)
    ensures !Less(a, a)
  {
    if a != [] {
      LessIrreflexive(a[1..]);
    }
  }

  lemma {:induction false} LessTransitive(a: string, b: string, c: string)
    requires Less(a, b) && Less(b, c)
    ensures Less(a, c)
  {
    if a != [] && b != [] && c != [] && a[0] == b[0] && b[0] == c[0] {
      LessTransitive(a[1..], b[1..], c[1..]);
    }
  }

  lemma {:induction false} LessTotal(a: string, b: string)
    requires a != b
    ensures Less(a, b) || Less(b, a)
  {
    if a != [] && b != [] && a[0] == b[0] {
      assert a == [a[0]] + a[1..] && b == [b[0]] + b[1..];
      LessTotal(a[1..], b[1..]);
    }
  }

  /** Every non-empty finite set of names has a least one: std::map's next key. */
  lemma {:induction false} HasLeast(s: set<string>)
    requires s != {}
    ensures exists m :: m in s && forall o :: o in s && o != m ==> Less(m, o)
    decreases |s|
  {
    var x :| x in s;
    if s == {x} {
      assert forall o :: o in s && o != x ==> Less(x, o);
    } else {
      var rest := s - {x};
      HasLeast(rest);
      var m :| m in rest && forall o :: o in rest && o != m ==> Less(m, o);
      if Less(m, x) {
        forall o | o in s && o != m ensures Less(m, o) {
        }
      } else {
        LessTotal(m, x);
        forall o | o in s && o != x ensures Less(x, o) {
          if o != m {
            LessTransitive(x, m, o);
          }
        }
      }
    }
  }

  predicate StrictlyIncreasing(s: seq<string>)
  {
    forall i, j :: 0 <= i < j < |s| ==> Less(s[i], s[j])
  }

  /** The process-wide texture cache. */
  class TextureManager {
    var items: map<string, nat>

    predicate Valid()
      reads this
    {
      Tidy(items)
    }

    constructor ()
      ensures Valid() && items == map[]
    {
      items := map[];
    }

    /**
     * The texture for a file name: created on first use, shared afterwards;
     * each call takes one reference (TextureManager.cpp:41-53).
     */
    method NewTexture(name: string) returns (handle: string)
      requires Valid()
      modifies this
      ensures Valid()
      ensures handle == ToLower(name) && handle in items
      ensures items == Acquire(old(items), handle)
    {
      handle := ToLower(name);
      ToLowerIdempotent(name);
      TidyKept(items, handle);
      items := Acquire(items, handle);
    }

    /** Drops one reference to the texture of that file name, deleting it when unused (TextureManager.cpp:25-39). */
    method DelByName(name: string)
      requires Valid()
      modifies this
      ensures Valid()
      ensures items == Release(old(items), ToLower(name))
    {
      var key := ToLower(name);
      ToLowerIdempotent(name);
      TidyKept(items, key);
      items := Release(items, key);
    }

    /** One more reference to a cached texture, taken through its handle (TextureSet.cpp:81). */
    method AddReference(handle: string)
      requires Valid() && handle in items
      modifies this
      ensures Valid()
      ensures items == Acquire(old(items), handle)
    {
      items := Acquire(items, handle);
    }

    /**
     * The cached textures whose names satisfy the filter, in the map's
     * ascending name order (TextureManager.cpp:55-66).
     */
    method GetAllTexturesMatching(filter: string -> bool) returns (found: seq<string>)
      ensures forall k :: k in found <==> k in items && filter(k)
      ensures StrictlyIncreasing(found)
    {
      found := [];
      var remaining := items.Keys;
      while remaining != {}
        invariant remaining <= items.Keys
        invariant forall k :: k in found <==> k in items && k !in remaining && filter(k)
        invariant StrictlyIncreasing(found)
        invariant forall k, o :: k in found && o in remaining ==> Less(k, o)
        decreases |remaining|
      {
        HasLeast(remaining);
        var next :| next in remaining && forall o :: o in remaining && o != next ==> Less(next, o);
        if filter(next) {
          found := found + [next];
        }
        remaining := remaining - {next};
      }
    }
  }
}
