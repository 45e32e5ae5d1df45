/**
 Merging lists of component names: what is in the source and not yet in the destination is
 appended. Equality is deep equality, which a value that is not a number does not satisfy even
 with itself; what is assumed of it is that it is symmetric and transitive.
 */
module ListMerge {
  import opened Options
  import opened ConfTree

  ghost predicate PartialEquivalence<T(!new)>(eq: (T, T) -> bool) {
    && (forall x, y :: eq(x, y) ==> eq(y, x))
    && (forall x, y, z :: eq(x, y) && eq(y, z) ==> eq(x, z))
  }

  predicate IsPresent<T>(slice: seq<T>, val: T, eq: (T, T) -> bool) {
    exists i :: 0 <= i < |slice| && eq(val, slice[i])
  }

  /** `mergeSlice`: start with the destination, append each element of the source that is not present yet. */
  function Merge<T>(src: seq<T>, dest: seq<T>, eq: (T, T) -> bool): seq<T>
    decreases |src|
  {
    if src == [] then dest
    else Merge(src[1..], if IsPresent(dest, src[0], eq) then dest else dest + [src[0]], eq)
  }

  /** The elements from position `i` on that equal neither one of `dest` nor an earlier one. */
  function Firsts<T>(src: seq<T>, dest: seq<T>, eq: (T, T) -> bool, i: nat): seq<T>
    requires i <= |src|
    decreases |src| - i
  {
    if i == |src| then []
    else (if IsPresent(dest, src[i], eq) || IsPresent(src[..i], src[i], eq) then [] else [src[i]])
         + Firsts(src, dest, eq, i + 1)
  }

  lemma {:induction false} MergeFrom<T(!new)>(src: seq<T>, dest: seq<T>, slice: seq<T>, eq: (T, T) -> bool, i: nat)
    requires PartialEquivalence(eq) && i <= |src|
    requires forall x :: IsPresent(slice, x, eq) <==> IsPresent(dest, x, eq) || IsPresent(src[..i], x, eq)
    ensures Merge(src[i..], slice, eq) == slice + Firsts(src, dest, eq, i)
    decreases |src| - i
  {
    hide IsPresent;
    if i == |src| {
      assert slice + [] == slice;
    } else {
      var s := src[i];
      assert src[i..][0] == s && src[i..][1..] == src[i + 1..];
      assert src[..i + 1] == src[..i] + [s];
      var more := if IsPresent(slice, s, eq) then slice else slice + [s];
      forall x ensures IsPresent(more, x, eq) <==> IsPresent(dest, x, eq) || IsPresent(src[..i + 1], x, eq) {
        OneMore(slice, s, x, eq);
        OneMore(src[..i], s, x, eq);
        if IsPresent(slice, s, eq) && eq(x, s) { PresentByEquality(slice, s, x, eq); }
      }
      MergeFrom(src, dest, more, eq, i + 1);
      assert slice + ([s] + Firsts(src, dest, eq, i + 1)) == slice + [s] + Firsts(src, dest, eq, i + 1);
      assert [] + Firsts(src, dest, eq, i + 1) == Firsts(src, dest, eq, i + 1);
    }
  }

  lemma OneMore<T>(slice: seq<T>, s: T, x: T, eq: (T, T) -> bool)
    ensures IsPresent(slice + [s], x, eq) <==> IsPresent(slice, x, eq) || eq(x, s)
  {
    var more := slice + [s];
    assert more[|slice|] == s;
    if IsPresent(slice, x, eq) {
      var i :| 0 <= i < |slice| && eq(x, slice[i]);
      assert more[i] == slice[i];
    }
  }

  lemma PresentByEquality<T(!new)>(slice: seq<T>, y: T, x: T, eq: (T, T) -> bool)
    requires PartialEquivalence(eq) && IsPresent(slice, y, eq) && eq(x, y)
    ensures IsPresent(slice, x, eq)
  {
    var i :| 0 <= i < |slice| && eq(y, slice[i]);
    assert eq(x, slice[i]);
  }

  /**
   A stable union: merging gives the destination, untouched, followed by the elements of the
   source that are not in it, each at its first occurrence and in the order of the source.
   */
  lemma MergeIsStableUnion<T(!new)>(src: seq<T>, dest: seq<T>, eq: (T, T) -> bool)
    requires PartialEquivalence(eq)
    ensures Merge(src, dest, eq) == dest + Firsts(src, dest, eq, 0)
  {
    assert src[..0] == [] && src[0..] == src;
    MergeFrom(src, dest, dest, eq, 0);
  }

  lemma {:induction false} MergeContains<T(!new)>(src: seq<T>, dest: seq<T>, eq: (T, T) -> bool)
    requires PartialEquivalence(eq)
    ensures |dest| <= |Merge(src, dest, eq)|
    ensures forall x :: IsPresent(Merge(src, dest, eq), x, eq) <==> IsPresent(dest, x, eq) || IsPresent(src, x, eq)
    decreases |src|
  {
    if src != [] {
      var s := src[0];
      var more := if IsPresent(dest, s, eq) then dest else dest + [s];
      MergeContains(src[1..], more, eq);
      forall x
        ensures IsPresent(Merge(src, dest, eq), x, eq) <==> IsPresent(dest, x, eq) || IsPresent(src, x, eq)
      {
        OneMore(dest, s, x, eq);
        FirstOrRest(src, x, eq);
        if IsPresent(dest, s, eq) && eq(x, s) { PresentByEquality(dest, s, x, eq); }
      }
    }
  }

  lemma FirstOrRest<T>(src: seq<T>, x: T, eq: (T, T) -> bool)
    requires src != []
    ensures IsPresent(src, x, eq) <==> eq(x, src[0]) || IsPresent(src[1..], x, eq)
  {
    if IsPresent(src[1..], x, eq) {
      var i :| 0 <= i < |src| - 1 && eq(x, src[1..][i]);
      assert src[i + 1] == src[1..][i];
    }
    if IsPresent(src, x, eq) {
      var i :| 0 <= i < |src| && eq(x, src[i]);
      if i > 0 { assert src[1..][i - 1] == src[i]; }
    }
  }

  /** What is all present adds nothing, and what is not adds something. */
  lemma {:induction false} NothingNew<T(!new)>(src: seq<T>, dest: seq<T>, eq: (T, T) -> bool)
    requires PartialEquivalence(eq)
    ensures Merge(src, dest, eq) == dest <==> forall x :: x in src ==> IsPresent(dest, x, eq)
    decreases |src|
  {
    if src != [] {
      assert src == [src[0]] + src[1..];
      if IsPresent(dest, src[0], eq) {
        NothingNew(src[1..], dest, eq);
      } else {
        MergeContains(src[1..], dest + [src[0]], eq);
        assert src[0] in src;
      }
    }
  }

  /** Merging again changes nothing, exactly when every element of the source equals itself. */
  lemma MergeIsIdempotentIff<T(!new)>(src: seq<T>, dest: seq<T>, eq: (T, T) -> bool)
    requires PartialEquivalence(eq)
    ensures Merge(src, Merge(src, dest, eq), eq) == Merge(src, dest, eq) <==> forall x :: x in src ==> eq(x, x)
  {
    var once := Merge(src, dest, eq);
    MergeContains(src, dest, eq);
    NothingNew(src, once, eq);
    forall x | x in src ensures IsPresent(once, x, eq) <==> eq(x, x) {
      if eq(x, x) {
        var i :| 0 <= i < |src| && src[i] == x;
        assert IsPresent(src, x, eq);
      }
      if IsPresent(once, x, eq) {
        var i :| 0 <= i < |once| && eq(x, once[i]);
        assert eq(once[i], x);
      }
    }
  }

  /** Merging in either grouping gives the same list. */
  lemma {:induction false} MergeIsAssociative<T(!new)>(c: seq<T>, b: seq<T>, a: seq<T>, eq: (T, T) -> bool)
    requires PartialEquivalence(eq)
    ensures Merge(c, Merge(b, a, eq), eq) == Merge(Merge(c, b, eq), a, eq)
    decreases |c|
  {
    if c != [] {
      var x := c[0];
      var both := Merge(b, a, eq);
      MergeContains(b, a, eq);
      if IsPresent(b, x, eq) {
        MergeIsAssociative(c[1..], b, a, eq);
      } else {
        MergeOneMore(b, x, a, eq);
        MergeIsAssociative(c[1..], b + [x], a, eq);
      }
    }
  }

  lemma {:induction false} MergeOneMore<T>(b: seq<T>, x: T, a: seq<T>, eq: (T, T) -> bool)
    ensures Merge(b + [x], a, eq) ==
      var both := Merge(b, a, eq); if IsPresent(both, x, eq) then both else both + [x]
    decreases |b|
  {
    if b == [] {
      assert (b + [x])[1..] == [];
    } else {
      assert (b + [x])[0] == b[0] && (b + [x])[1..] == b[1..] + [x];
      MergeOneMore(b[1..], x, if IsPresent(a, b[0], eq) then a else a + [b[0]], eq);
    }
  }

  /** The loops of `mergeSlice` and `isPresent`. */
  method MergeSlice<T>(src: seq<T>, dest: seq<T>, eq: (T, T) -> bool) returns (slice: seq<T>)
    ensures slice == Merge(src, dest, eq)
  {
    slice := [];
    for i := 0 to |dest|
      invariant slice == dest[..i]
    {
      slice := slice + [dest[i]];
    }
    assert src[0..] == src && dest[..|dest|] == dest;
    for i := 0 to |src|
      invariant Merge(src, dest, eq) == Merge(src[i..], slice, eq)
    {
      assert src[i..][0] == src[i] && src[i..][1..] == src[i + 1..];
      var present := IsPresentLoop(slice, src[i], eq);
      if !present {
        slice := slice + [src[i]];
      }
    }
  }

  method IsPresentLoop<T>(slice: seq<T>, val: T, eq: (T, T) -> bool) returns (present: bool)
    ensures present <==> IsPresent(slice, val, eq)
  {
    for i := 0 to |slice|
      invariant forall k :: 0 <= k < i ==> !eq(val, slice[k])
    {
      if eq(val, slice[i]) {
        return true;
      }
    }
    return false;
  }

  // ---- whole configurations ----

  /** A configuration as a map from full keys to values. */
  type Flat = map<string, Value>

  /** A list is to be merged into something that is not a list: the program panics. */
  ghost predicate Clashes(src: Flat, dest: Flat, matched: string -> bool) {
    exists k :: k in src && k in dest && matched(k) && src[k].List? && !dest[k].List?
  }

  /** The value of a key of the source after merging: lists of matched keys are united, others override. */
  function Merged(k: string, src: Flat, dest: Flat, matched: string -> bool, eq: (Value, Value) -> bool): Value
    requires k in src
  {
    if matched(k) && k in dest && src[k].List? && dest[k].List? then List(Merge(src[k].items, dest[k].items, eq))
    else src[k]
  }

  /** `mergeAppend`; nothing when it panics. */
  ghost function MergeFlat(src: Flat, dest: Flat, matched: string -> bool, eq: (Value, Value) -> bool): Option<Flat> {
    if Clashes(src, dest, matched) then None
    else Some(dest + map k | k in src :: Merged(k, src, dest, matched, eq))
  }

  /** The loop of `mergeAppend` over the keys of the source, in any order, and the final merge. */
  method MergeAppend(
      src: Flat, dest: Flat, matched: string -> bool, eq: (Value, Value) -> bool) returns (merged: Option<Flat>)
    ensures merged == MergeFlat(src, dest, matched, eq)
  {
    hide Merge;
    var srcFlat, keys := src, src.Keys;
    while keys != {}
      invariant keys <= src.Keys && srcFlat.Keys == src.Keys
      invariant forall k :: k in src ==> srcFlat[k] == if k in keys then src[k] else Merged(k, src, dest, matched, eq)
      invariant forall k :: k in src && k !in keys && k in dest && matched(k) && src[k].List? ==> dest[k].List?
      decreases keys
    {
      var sKey :| sKey in keys;
      keys := keys - {sKey};
      if !matched(sKey) || sKey !in dest {
        continue;
      }
      if src[sKey].List? {
        if !dest[sKey].List? {
          return None;
        }
        var slice := MergeSlice(src[sKey].items, dest[sKey].items, eq);
        srcFlat := srcFlat[sKey := List(slice)];
      }
    }
    assert srcFlat == map k | k in src :: Merged(k, src, dest, matched, eq);
    merged := Some(dest + srcFlat);
  }

  /**
   If merging three configurations in source order succeeds, so does merging the later two
   first, and the result is the same.
   */
  lemma FlatMergeIsAssociative(c: Flat, b: Flat, a: Flat, matched: string -> bool, eq: (Value, Value) -> bool)
    requires PartialEquivalence(eq)
    requires MergeFlat(b, a, matched, eq).Some?
    requires MergeFlat(c, MergeFlat(b, a, matched, eq).value, matched, eq).Some?
    ensures var left := MergeFlat(c, MergeFlat(b, a, matched, eq).value, matched, eq);
      MergeFlat(c, b, matched, eq).Some? && MergeFlat(MergeFlat(c, b, matched, eq).value, a, matched, eq) == left
  {
    hide Merge, MergeFlat;
    var ba := MergeFlat(b, a, matched, eq).value;
    var left := MergeFlat(c, ba, matched, eq).value;
    NoClash(b, a, matched, eq);
    NoClash(c, ba, matched, eq);
    MergedAt(b, a, matched, eq);
    MergedAt(c, ba, matched, eq);
    NoClash(c, b, matched, eq);
    var cb := MergeFlat(c, b, matched, eq).value;
    MergedAt(c, b, matched, eq);
    NoClash(cb, a, matched, eq);
    var right := MergeFlat(cb, a, matched, eq).value;
    MergedAt(cb, a, matched, eq);
    forall k | k in left ensures left[k] == right[k] {
      if k in c && k in b && k in a && c[k].List? && b[k].List? && a[k].List? {
        MergeIsAssociative(c[k].items, b[k].items, a[k].items, eq);
      }
    }
    assert left == right;
  }

  lemma NoClash(src: Flat, dest: Flat, matched: string -> bool, eq: (Value, Value) -> bool)
    ensures MergeFlat(src, dest, matched, eq).Some? <==>
      forall k :: k in src && k in dest && matched(k) && src[k].List? ==> dest[k].List?
  {
  }

  lemma MergedAt(src: Flat, dest: Flat, matched: string -> bool, eq: (Value, Value) -> bool)
    requires MergeFlat(src, dest, matched, eq).Some?
    ensures var m := MergeFlat(src, dest, matched, eq).value;
      && m.Keys == src.Keys + dest.Keys
      && forall k :: k in m ==> m[k] == if k in src then Merged(k, src, dest, matched, eq) else dest[k]
  {
  }

  /**
   Merging two configurations: it fails iff at some matched key a list meets something else. Where
   both have lists at a matched key, what is new in the source is appended in order; at any other
   key the source wins, and what only one of them has stays.
   */
  lemma MergeFlatIs(src: Flat, dest: Flat, matched: string -> bool, eq: (Value, Value) -> bool)
    requires PartialEquivalence(eq)
    ensures var r := MergeFlat(src, dest, matched, eq);
      && (r.None? <==> exists k :: k in src && k in dest && matched(k) && src[k].List? && !dest[k].List?)
      && (r.Some? ==>
            && r.value.Keys == src.Keys + dest.Keys
            && (forall k :: k in dest && k !in src ==> r.value[k] == dest[k])
            && (forall k :: k in src && !(k in dest && matched(k) && src[k].List? && dest[k].List?) ==>
                  r.value[k] == src[k])
            && (forall k :: k in src && k in dest && matched(k) && src[k].List? && dest[k].List? ==>
                  r.value[k] == List(dest[k].items + Firsts(src[k].items, dest[k].items, eq, 0))))
  {
    hide Merge, Firsts;
    forall k | k in src && k in dest && src[k].List? && dest[k].List?
      ensures Merge(src[k].items, dest[k].items, eq) == dest[k].items + Firsts(src[k].items, dest[k].items, eq, 0)
    {
      MergeIsStableUnion(src[k].items, dest[k].items, eq);
    }
  }

  // ---- two groupings ----

  /** Merge in source order: `b` into `a`, then `c` into the result. */
  ghost function InOrder(c: Flat, b: Flat, a: Flat, matched: string -> bool, eq: (Value, Value) -> bool): Option<Flat> {
    var first := MergeFlat(b, a, matched, eq);
    if first.None? then None else MergeFlat(c, first.value, matched, eq)
  }

  /** Merge the later two first. */
  ghost function LaterFirst(
      c: Flat, b: Flat, a: Flat, matched: string -> bool, eq: (Value, Value) -> bool): Option<Flat> {
    var first := MergeFlat(c, b, matched, eq);
    if first.None? then None else MergeFlat(first.value, a, matched, eq)
  }

  /** A list meets something that is no list at `k`, and is overridden by something that is no list. */
  ghost predicate HiddenAt(k: string, c: Flat, b: Flat, a: Flat, matched: string -> bool) {
    && k in a && k in b && k in c && matched(k)
    && !a[k].List? && b[k].List? && !c[k].List?
  }

  ghost predicate Hidden(c: Flat, b: Flat, a: Flat, matched: string -> bool) {
    exists k :: HiddenAt(k, c, b, a, matched)
  }

  /** Without such a key, merging the later two first cannot succeed where source order fails. */
  lemma LaterFirstMeetsClashes(c: Flat, b: Flat, a: Flat, matched: string -> bool, eq: (Value, Value) -> bool)
    requires !Hidden(c, b, a, matched) && LaterFirst(c, b, a, matched, eq).Some?
    ensures InOrder(c, b, a, matched, eq).Some?
  {
    hide Merge, MergeFlat;
    var cb := MergeFlat(c, b, matched, eq).value;
    NoClash(c, b, matched, eq);
    MergedAt(c, b, matched, eq);
    NoClash(cb, a, matched, eq);
    forall k | k in b && k in a && matched(k) && b[k].List? ensures a[k].List? {
      assert !HiddenAt(k, c, b, a, matched);
      assert k in cb;
    }
    NoClash(b, a, matched, eq);
    var ba := MergeFlat(b, a, matched, eq).value;
    MergedAt(b, a, matched, eq);
    forall k | k in c && k in ba && matched(k) && c[k].List? ensures ba[k].List? {
      assert k in cb;
    }
    NoClash(c, ba, matched, eq);
  }

  /** Merging the later two first trips at `k`: over the middle one, or with the result over the first. */
  ghost predicate TripsAt(k: string, c: Flat, b: Flat, a: Flat, matched: string -> bool) {
    matched(k) && (
      || (k in c && k in b && c[k].List? && !b[k].List?)
      || (k in a && !a[k].List? && if k in c then c[k].List? else k in b && b[k].List?))
  }

  lemma LaterFirstFailsIff(c: Flat, b: Flat, a: Flat, matched: string -> bool, eq: (Value, Value) -> bool)
    ensures LaterFirst(c, b, a, matched, eq).None? <==> exists k :: TripsAt(k, c, b, a, matched)
  {
    hide Merge, MergeFlat;
    NoClash(c, b, matched, eq);
    var cb := MergeFlat(c, b, matched, eq);
    if cb.None? {
      var k :| k in c && k in b && matched(k) && c[k].List? && !b[k].List?;
      assert TripsAt(k, c, b, a, matched);
    } else {
      MergedAt(c, b, matched, eq);
      NoClash(cb.value, a, matched, eq);
      if k :| k in cb.value && k in a && matched(k) && cb.value[k].List? && !a[k].List? {
        assert TripsAt(k, c, b, a, matched);
      }
      if k :| TripsAt(k, c, b, a, matched) {
        assert k in cb.value && k in a && matched(k) && cb.value[k].List? && !a[k].List?;
      }
    }
  }

  /**
   The two groupings agree, failure included, exactly when no list that source order would trip
   over is hidden by a later override, or when merging the later two first trips somewhere itself.
   */
  lemma GroupingsAgreeIff(c: Flat, b: Flat, a: Flat, matched: string -> bool, eq: (Value, Value) -> bool)
    requires PartialEquivalence(eq)
    ensures InOrder(c, b, a, matched, eq) == LaterFirst(c, b, a, matched, eq) <==>
      !Hidden(c, b, a, matched) || exists k :: TripsAt(k, c, b, a, matched)
    ensures Hidden(c, b, a, matched) ==> InOrder(c, b, a, matched, eq).None?
  {
    hide Merge, MergeFlat, TripsAt;
    LaterFirstFailsIff(c, b, a, matched, eq);
    if InOrder(c, b, a, matched, eq).Some? {
      FlatMergeIsAssociative(c, b, a, matched, eq);
    } else if !Hidden(c, b, a, matched) && LaterFirst(c, b, a, matched, eq).Some? {
      LaterFirstMeetsClashes(c, b, a, matched, eq);
    }
    NoClash(b, a, matched, eq);
  }

  /** For example: merging the later two first hides a clash that source order meets. */
  lemma GroupingCanHideAClash(key: string, eq: (Value, Value) -> bool)
    ensures var all := (k: string) => true;
      var a, b, c := map[key := Scalar(1)], map[key := List([])], map[key := Scalar(2)];
      && MergeFlat(b, a, all, eq).None?
      && MergeFlat(c, b, all, eq).Some?
      && MergeFlat(MergeFlat(c, b, all, eq).value, a, all, eq).Some?
  {
    var all := (k: string) => true;
    var a, b, c: Flat := map[key := Scalar(1)], map[key := List([])], map[key := Scalar(2)];
    assert key in b && key in a && all(key) && b[key].List? && !a[key].List?;
    var cb := MergeFlat(c, b, all, eq);
    assert cb.Some? && cb.value == map[key := Scalar(2)];
  }

  /** The sources in order, each merged into what there is. */
  ghost function MergeAll(
      sources: seq<Flat>, start: Flat, matched: string -> bool, eq: (Value, Value) -> bool): Option<Flat> {
    if sources == [] then Some(start)
    else
      var next := MergeFlat(sources[0], start, matched, eq);
      if next.None? then None else MergeAll(sources[1..], next.value, matched, eq)
  }

  /** Merge `mid` into `start`, then all sources in order. */
  ghost function AllInOrder(
    sources: seq<Flat>, mid: Flat, start: Flat, matched: string -> bool, eq: (Value, Value) -> bool): Option<Flat> {
    var first := MergeFlat(mid, start, matched, eq);
    if first.None? then None else MergeAll(sources, first.value, matched, eq)
  }

  /** Merge all sources into `mid`, and only the result into `start`. */
  ghost function AllLaterFirst(
    sources: seq<Flat>, mid: Flat, start: Flat, matched: string -> bool, eq: (Value, Value) -> bool): Option<Flat> {
    var merged := MergeAll(sources, mid, matched, eq);
    if merged.None? then None else MergeFlat(merged.value, start, matched, eq)
  }

  /** The first of the configurations that has the key, and what it has. */
  ghost function FirstAt(k: string, all: seq<Flat>): Option<Value> {
    if all == [] then None else if k in all[0] then Some(all[0][k]) else FirstAt(k, all[1..])
  }

  /** The last of the configurations that has the key, and what it has. */
  ghost function LastAt(k: string, all: seq<Flat>): Option<Value> {
    if all == [] then None
    else
      var rest := LastAt(k, all[1..]);
      if rest.Some? then rest else if k in all[0] then Some(all[0][k]) else None
  }

  /** The first value after that of `start`, which is no list, is a list, and the last one is none. */
  ghost predicate HiddenFrom(k: string, all: seq<Flat>, start: Flat, matched: string -> bool) {
    && k in start && matched(k) && !start[k].List?
    && FirstAt(k, all).Some? && FirstAt(k, all).value.List?
    && LastAt(k, all).Some? && !LastAt(k, all).value.List?
  }

  ghost predicate HiddenAmong(all: seq<Flat>, start: Flat, matched: string -> bool) {
    exists k :: HiddenFrom(k, all, start, matched)
  }

  /** If the first value after one that is no list is a list, source order fails. */
  lemma {:induction false} FirstListClashes(
      all: seq<Flat>, start: Flat, matched: string -> bool, eq: (Value, Value) -> bool, k: string)
    requires k in start && matched(k) && !start[k].List? && FirstAt(k, all).Some? && FirstAt(k, all).value.List?
    ensures MergeAll(all, start, matched, eq).None?
    decreases |all|
  {
    hide MergeFlat;
    NoClash(all[0], start, matched, eq);
    if k !in all[0] && MergeFlat(all[0], start, matched, eq).Some? {
      MergedAt(all[0], start, matched, eq);
      FirstListClashes(all[1..], MergeFlat(all[0], start, matched, eq).value, matched, eq, k);
    }
  }

  /** If merging goes through from a value that is no list, the last one is none either. */
  lemma {:induction false} NoListAfterOther(
      all: seq<Flat>, start: Flat, matched: string -> bool, eq: (Value, Value) -> bool, k: string)
    requires k in start && matched(k) && !start[k].List? && MergeAll(all, start, matched, eq).Some?
    ensures LastAt(k, all).Some? ==> !LastAt(k, all).value.List?
    decreases |all|
  {
    hide MergeFlat;
    if all != [] {
      NoClash(all[0], start, matched, eq);
      MergedAt(all[0], start, matched, eq);
      NoListAfterOther(all[1..], MergeFlat(all[0], start, matched, eq).value, matched, eq, k);
    }
  }

  /** One source more in front: what hides among three, or behind the first two merged, hides among all. */
  lemma HiddenInFront(
      s: Flat, rest: seq<Flat>, mid: Flat, start: Flat, matched: string -> bool, eq: (Value, Value) -> bool)
    requires MergeFlat(s, mid, matched, eq).Some?
    requires MergeAll(rest, MergeFlat(s, mid, matched, eq).value, matched, eq).Some?
    ensures Hidden(s, mid, start, matched) ==> HiddenAmong([mid, s] + rest, start, matched)
    ensures HiddenAmong([MergeFlat(s, mid, matched, eq).value] + rest, start, matched) ==>
      HiddenAmong([mid, s] + rest, start, matched)
  {
    hide MergeFlat;
    var both, all := MergeFlat(s, mid, matched, eq).value, [mid, s] + rest;
    MergedAt(s, mid, matched, eq);
    NoClash(s, mid, matched, eq);
    hide FirstAt, LastAt;
    if k :| HiddenAt(k, s, mid, start, matched) {
      EndsOf(k, mid, s, rest);
      NoListAfterOther(rest, both, matched, eq, k);
      assert HiddenFrom(k, all, start, matched);
    }
    if k :| HiddenFrom(k, [both] + rest, start, matched) {
      EndsOf(k, mid, s, rest);
      EndsOfTwo(k, both, rest);
      assert HiddenFrom(k, all, start, matched);
    }
  }

  lemma EndsOfTwo(k: string, first: Flat, rest: seq<Flat>)
    ensures FirstAt(k, [first] + rest) == if k in first then Some(first[k]) else FirstAt(k, rest)
    ensures LastAt(k, [first] + rest) ==
      if LastAt(k, rest).Some? then LastAt(k, rest) else if k in first then Some(first[k]) else None
  {
    assert ([first] + rest)[1..] == rest;
  }

  lemma EndsOf(k: string, first: Flat, second: Flat, rest: seq<Flat>)
    ensures FirstAt(k, [first, second] + rest) ==
      if k in first then Some(first[k]) else if k in second then Some(second[k]) else FirstAt(k, rest)
    ensures LastAt(k, [first, second] + rest) ==
      if LastAt(k, rest).Some? then LastAt(k, rest)
      else if k in second then Some(second[k]) else if k in first then Some(first[k]) else None
  {
    hide FirstAt, LastAt;
    assert [first, second] + rest == [first] + ([second] + rest);
    EndsOfTwo(k, first, [second] + rest);
    EndsOfTwo(k, second, rest);
  }

  lemma {:induction false} AllMeetClashes(
      sources: seq<Flat>, mid: Flat, start: Flat, matched: string -> bool, eq: (Value, Value) -> bool)
    requires PartialEquivalence(eq)
    requires !HiddenAmong([mid] + sources, start, matched) && AllLaterFirst(sources, mid, start, matched, eq).Some?
    ensures AllInOrder(sources, mid, start, matched, eq).Some?
    decreases |sources|
  {
    hide MergeFlat, HiddenAmong, Hidden;
    if sources != [] {
      var s, rest := sources[0], sources[1..];
      var both := MergeFlat(s, mid, matched, eq).value;
      assert [mid] + sources == [mid, s] + rest;
      HiddenInFront(s, rest, mid, start, matched, eq);
      AllMeetClashes(rest, both, start, matched, eq);
      LaterFirstMeetsClashes(s, mid, start, matched, eq);
      FlatMergeIsAssociative(s, mid, start, matched, eq);
    }
  }

  // ---- where merging in order fails ----

  /** Among the configurations that have the key, a list directly follows a value that is none. */
  ghost predicate ListAfterOther(k: string, all: seq<Flat>) {
    all != [] && (ListAfterFirst(k, all) || ListAfterOther(k, all[1..]))
  }

  ghost predicate ListAfterFirst(k: string, all: seq<Flat>)
    requires all != []
  {
    k in all[0] && !all[0][k].List? && FirstAt(k, all[1..]).Some? && FirstAt(k, all[1..]).value.List?
  }

  /** Merging the first two does not change whether a list follows a value that is none, when they do not clash. */
  lemma MergedInFront(
      s: Flat, rest: seq<Flat>, start: Flat, matched: string -> bool, eq: (Value, Value) -> bool, k: string)
    requires MergeFlat(s, start, matched, eq).Some? && matched(k)
    ensures ListAfterOther(k, [MergeFlat(s, start, matched, eq).value] + rest) <==> ListAfterOther(k, [start, s] + rest)
  {
    hide MergeFlat, FirstAt;
    var next := MergeFlat(s, start, matched, eq).value;
    NoClash(s, start, matched, eq);
    MergedAt(s, start, matched, eq);
    assert ([next] + rest)[1..] == rest;
    assert ([start, s] + rest)[1..] == [s] + rest && ([s] + rest)[1..] == rest;
    EndsOfTwo(k, s, rest);
  }

  /** Merging in order fails iff, at some matched key, a list directly follows a value that is none. */
  lemma {:induction false} MergeAllFailsIff(
      all: seq<Flat>, start: Flat, matched: string -> bool, eq: (Value, Value) -> bool)
    ensures MergeAll(all, start, matched, eq).None? <==> exists k :: matched(k) && ListAfterOther(k, [start] + all)
    decreases |all|
  {
    hide MergeFlat, ListAfterOther;
    if all == [] {
      NothingFollows(start);
    } else {
      var next := MergeFlat(all[0], start, matched, eq);
      assert [start] + all == [start, all[0]] + all[1..];
      if next.None? {
        NoClash(all[0], start, matched, eq);
        var k :| k in all[0] && k in start && matched(k) && all[0][k].List? && !start[k].List?;
        FollowsAtOnce(k, start, all[0], all[1..]);
      } else {
        MergeAllFailsIff(all[1..], next.value, matched, eq);
        forall k | matched(k)
          ensures ListAfterOther(k, [next.value] + all[1..]) <==> ListAfterOther(k, [start, all[0]] + all[1..])
        {
          MergedInFront(all[0], all[1..], start, matched, eq, k);
        }
      }
    }
  }

  lemma NothingFollows(start: Flat)
    ensures forall k :: !ListAfterOther(k, [start] + [])
  {
    assert ([start] + [])[1..] == [];
  }

  lemma FollowsAtOnce(k: string, start: Flat, s: Flat, rest: seq<Flat>)
    requires k in start && k in s && !start[k].List? && s[k].List?
    ensures ListAfterOther(k, [start, s] + rest)
  {
    assert ([start, s] + rest)[1..] == [s] + rest;
    EndsOfTwo(k, s, rest);
  }

  /** What merging in order leaves at a key is a list iff the last configuration that has the key has a list. */
  lemma {:induction false} MergedLast(
      all: seq<Flat>, start: Flat, matched: string -> bool, eq: (Value, Value) -> bool, k: string)
    requires MergeAll(all, start, matched, eq).Some?
    ensures var m, last := MergeAll(all, start, matched, eq).value, LastAt(k, [start] + all);
      && (k in m <==> last.Some?)
      && (k in m ==> (m[k].List? <==> last.value.List?))
    decreases |all|
  {
    hide MergeFlat, LastAt;
    if all == [] {
      EndsOfTwo(k, start, []);
      NoLast(k);
    } else {
      var next := MergeFlat(all[0], start, matched, eq).value;
      MergedAt(all[0], start, matched, eq);
      NoClash(all[0], start, matched, eq);
      MergedLast(all[1..], next, matched, eq, k);
      EndsOfTwo(k, next, all[1..]);
      EndsOf(k, start, all[0], all[1..]);
      assert [start] + all == [start, all[0]] + all[1..];
    }
  }

  lemma NoLast(k: string)
    ensures LastAt(k, []) == None
  {
  }

  /** The last of all sources is a list at `k`, and `start` has something else there. */
  ghost predicate LastIsListOver(k: string, all: seq<Flat>, start: Flat, matched: string -> bool) {
    && matched(k) && k in start && !start[k].List?
    && LastAt(k, all).Some? && LastAt(k, all).value.List?
  }

  /** Merging the later ones first trips among them, or with what they leave over `start`. */
  ghost predicate LaterOnesTrip(all: seq<Flat>, start: Flat, matched: string -> bool) {
    || (exists k :: matched(k) && ListAfterOther(k, all))
    || (exists k :: LastIsListOver(k, all, start, matched))
  }

  lemma AllLaterFirstFailsIff(
      sources: seq<Flat>, mid: Flat, start: Flat, matched: string -> bool, eq: (Value, Value) -> bool)
    ensures AllLaterFirst(sources, mid, start, matched, eq).None? <==> LaterOnesTrip([mid] + sources, start, matched)
  {
    hide MergeFlat, ListAfterOther, LastAt;
    MergeAllFailsIff(sources, mid, matched, eq);
    var merged := MergeAll(sources, mid, matched, eq);
    if merged.Some? {
      NoClash(merged.value, start, matched, eq);
      forall k
        ensures LastIsListOver(k, [mid] + sources, start, matched) <==>
          k in merged.value && k in start && matched(k) && merged.value[k].List? && !start[k].List?
      {
        MergedLast(sources, mid, matched, eq, k);
      }
    }
  }

  /**
   Over any number of sources: merging all later ones into one first gives the same as source
   order, failure included, exactly when no list that source order would trip over is hidden by
   the last source, or when merging the later ones first trips somewhere itself. All conditions
   are on the sources.
   */
  lemma AllGroupingsAgreeIff(
      sources: seq<Flat>, mid: Flat, start: Flat, matched: string -> bool, eq: (Value, Value) -> bool)
    requires PartialEquivalence(eq)
    ensures AllInOrder(sources, mid, start, matched, eq) == AllLaterFirst(sources, mid, start, matched, eq) <==>
      !HiddenAmong([mid] + sources, start, matched) || LaterOnesTrip([mid] + sources, start, matched)
    ensures HiddenAmong([mid] + sources, start, matched) ==> AllInOrder(sources, mid, start, matched, eq).None?
  {
    hide MergeFlat, LaterOnesTrip;
    assert ([mid] + sources)[1..] == sources;
    AllLaterFirstFailsIff(sources, mid, start, matched, eq);
    if AllInOrder(sources, mid, start, matched, eq).Some? {
      MergeAllIsAssociative(sources, mid, start, matched, eq);
    } else if !HiddenAmong([mid] + sources, start, matched) && AllLaterFirst(sources, mid, start, matched, eq).Some? {
      AllMeetClashes(sources, mid, start, matched, eq);
    }
    if k :| HiddenFrom(k, [mid] + sources, start, matched) {
      FirstListClashes([mid] + sources, start, matched, eq, k);
    }
  }

  /**
   Over many sources: merging some of them into one configuration first gives the same result,
   whenever both ways succeed. The result depends on the order of the sources only.
   */
  lemma {:induction false} MergeAllIsAssociative(
      sources: seq<Flat>, mid: Flat, start: Flat, matched: string -> bool, eq: (Value, Value) -> bool)
    requires PartialEquivalence(eq)
    requires MergeFlat(mid, start, matched, eq).Some?
    requires MergeAll(sources, MergeFlat(mid, start, matched, eq).value, matched, eq).Some?
    ensures var left := MergeAll(sources, MergeFlat(mid, start, matched, eq).value, matched, eq);
      && MergeAll(sources, mid, matched, eq).Some?
      && MergeFlat(MergeAll(sources, mid, matched, eq).value, start, matched, eq) == left
    decreases |sources|
  {
    hide MergeFlat;
    if sources != [] {
      FlatMergeIsAssociative(sources[0], mid, start, matched, eq);
      MergeAllIsAssociative(sources[1..], MergeFlat(sources[0], mid, matched, eq).value, start, matched, eq);
    }
  }
}
