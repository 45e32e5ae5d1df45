/**
 The string operations of the Go standard library that the modelled code calls, on strings
 seen as sequences of characters, together with the order used when strings are sorted.
 */
module Text {

  /** True iff `t` is found in `s` at position `i`. */
  predicate OccursAt(s: string, t: string, i: nat) {
    i + |t| <= |s| && s[i..i + |t|] == t
  }

  ghost predicate Contains(s: string, t: string) {
    exists i: nat :: OccursAt(s, t, i)
  }

  /** `strings.Index` for a one-character needle. */
  function Index(s: string, c: char): (i: int)
    ensures -1 <= i < |s|
    ensures i >= 0 ==> s[i] == c
    ensures forall k :: 0 <= k < (if i < 0 then |s| else i) ==> s[k] != c
  {
    IndexFrom(s, c, 0)
  }

  function IndexFrom(s: string, c: char, from: nat): (i: int)
    requires from <= |s|
    ensures i == -1 || from <= i < |s|
    ensures i >= 0 ==> s[i] == c
    ensures forall k :: from <= k < (if i < 0 then |s| else i) ==> s[k] != c
    decreases |s| - from
  {
    if from == |s| then -1
    else if s[from] == c then from
    else IndexFrom(s, c, from + 1)
  }

  /** `strings.ReplaceAll`: non-overlapping occurrences, leftmost first. */
  function ReplaceAll(s: string, from: string, to: string): string
    requires from != []
  {
    if |s| < |from| then s
    else if s[..|from|] == from then to + ReplaceAll(s[|from|..], from, to)
    else [s[0]] + ReplaceAll(s[1..], from, to)
  }

  /** `strings.Split` on a one-character separator. */
  function Split(s: string, c: char): (parts: seq<string>)
    ensures |parts| > 0
    ensures forall p :: p in parts ==> c !in p
    decreases |s|
  {
    var i := Index(s, c);
    if i < 0 then [s] else [s[..i]] + Split(s[i + 1..], c)
  }

  /** `strings.Join` with a one-character separator. */
  function Join(parts: seq<string>, c: char): string {
    if parts == [] then ""
    else if |parts| == 1 then parts[0]
    else parts[0] + [c] + Join(parts[1..], c)
  }

  function Count(s: string, c: char): nat {
    if s == [] then 0 else (if s[0] == c then 1 else 0) + Count(s[1..], c)
  }

  /** Byte order, the order of `sort.Strings` and of Python's string comparison. */
  predicate Leq(a: string, b: string) {
    a == [] || (b != [] && (a[0] < b[0] || (a[0] == b[0] && Leq(a[1..], b[1..]))))
  }

  lemma SliceOfTail(s: string, d: nat, i: nat, j: nat)
    requires i <= j && j + d <= |s|
    ensures s[d..][i..j] == s[i + d..j + d]
  {
    var a, b := s[d..][i..j], s[i + d..j + d];
    assert forall k :: 0 <= k < j - i ==> a[k] == b[k];
  }

  // ---- counting ----

  lemma {:induction false} CountConcat(s: string, t: string, c: char)
    ensures Count(s + t, c) == Count(s, c) + Count(t, c)
  {
    if s == [] {
      assert s + t == t;
    } else {
      assert (s + t)[1..] == s[1..] + t;
      CountConcat(s[1..], t, c);
    }
  }

  lemma {:induction false} CountPositive(s: string, c: char)
    ensures Count(s, c) > 0 <==> c in s
  {
    if s != [] {
      CountPositive(s[1..], c);
      assert s == [s[0]] + s[1..];
    }
  }

  /** Replacing text that holds `c` by text that does not removes every `c` of each replaced occurrence. */
  lemma {:induction false} ReplaceLowersCount(s: string, from: string, to: string, c: char)
    requires from != [] && c in from && c !in to
    ensures Count(ReplaceAll(s, from, to), c) <= Count(s, c)
    ensures Contains(s, from) ==> Count(ReplaceAll(s, from, to), c) < Count(s, c)
  {
    if |s| < |from| {
    } else if s[..|from|] == from {
      var rest := s[|from|..];
      ReplaceLowersCount(rest, from, to, c);
      calc {
        Count(ReplaceAll(s, from, to), c);
        { CountConcat(to, ReplaceAll(rest, from, to), c); CountPositive(to, c); }
        Count(ReplaceAll(rest, from, to), c);
      }
      CountPositive(from, c);
      CountConcat(from, rest, c);
      assert s == from + rest;
    } else {
      var rest := s[1..];
      ReplaceLowersCount(rest, from, to, c);
      CountConcat([s[0]], ReplaceAll(rest, from, to), c);
      if Contains(s, from) {
        ContainsInTail(s, from);
      }
    }
  }

  lemma ContainsInTail(s: string, t: string)
    requires Contains(s, t) && !OccursAt(s, t, 0)
    ensures s != [] && Contains(s[1..], t)
  {
    var i: nat :| OccursAt(s, t, i);
    SliceOfTail(s, 1, i - 1, i - 1 + |t|);
    assert OccursAt(s[1..], t, i - 1);
  }

  // ---- replacing ----

  /** The parts with `between` between each two of them. */
  function Weave(parts: seq<string>, between: string): string
    requires parts != []
  {
    if |parts| == 1 then parts[0] else parts[0] + between + Weave(parts[1..], between)
  }

  /** Every occurrence of `from` that ends a part is the first in it, and after the last part there is none. */
  ghost predicate LeftmostFirst(parts: seq<string>, from: string) {
    && parts != [] && !Contains(parts[|parts| - 1], from)
    && forall i, k: nat :: 0 <= i < |parts| - 1 && OccursAt(parts[i] + from, from, k) ==> k == |parts[i]|
  }

  /**
   Replacing: the text is cut at the occurrences of `from`, the leftmost first and none overlapping
   another, and put together again with `to` in their places.
   */
  lemma {:induction false} ReplaceAllIs(s: string, from: string, to: string) returns (parts: seq<string>)
    requires from != []
    ensures LeftmostFirst(parts, from)
    ensures Weave(parts, from) == s && Weave(parts, to) == ReplaceAll(s, from, to)
  {
    if |s| < |from| {
      parts := [s];
    } else if s[..|from|] == from {
      var rest := ReplaceAllIs(s[|from|..], from, to);
      parts := [""] + rest;
      assert parts[1..] == rest && s == "" + from + s[|from|..];
      assert "" + to + Weave(rest, to) == to + Weave(rest, to);
      NoneEarlier("", rest, from);
    } else {
      var rest := ReplaceAllIs(s[1..], from, to);
      parts := [[s[0]] + rest[0]] + rest[1..];
      assert parts[1..] == rest[1..] && s == [s[0]] + s[1..];
      MoreInFront(s[0], rest, from);
      MoreInFront(s[0], rest, to);
      LaterByOne(s, rest, from);
    }
  }

  lemma MoreInFront(c: char, parts: seq<string>, between: string)
    requires parts != []
    ensures Weave([[c] + parts[0]] + parts[1..], between) == [c] + Weave(parts, between)
  {
    if |parts| > 1 {
      var rest := Weave(parts[1..], between);
      assert [c] + parts[0] + between + rest == [c] + (parts[0] + between + rest);
    }
  }

  lemma NoneEarlier(p: string, rest: seq<string>, from: string)
    requires LeftmostFirst(rest, from) && p == ""
    ensures LeftmostFirst([p] + rest, from)
  {
    var parts := [p] + rest;
    assert forall i :: 0 < i < |parts| ==> parts[i] == rest[i - 1];
  }

  lemma LaterByOne(s: string, rest: seq<string>, from: string)
    requires s != "" && LeftmostFirst(rest, from) && Weave(rest, from) == s[1..]
    requires from != "" && !OccursAt(s, from, 0)
    ensures LeftmostFirst([[s[0]] + rest[0]] + rest[1..], from)
  {
    hide Weave;
    var first := [s[0]] + rest[0];
    var parts := [first] + rest[1..];
    StartsWith(s, rest, from);
    assert forall i :: 0 < i < |parts| ==> parts[i] == rest[i];
    forall k: nat | |parts| > 1 && OccursAt(first + from, from, k) ensures k == |first| {
      assert first + from == [s[0]] + (rest[0] + from);
      if k > 0 { SliceOfTail(first + from, 1, k - 1, k - 1 + |from|); assert OccursAt(rest[0] + from, from, k - 1); }
    }
    if |parts| == 1 && Contains(first, from) { ContainsInTail(first, from); }
  }

  lemma StartsWith(s: string, rest: seq<string>, from: string)
    requires s != "" && rest != [] && Weave(rest, from) == s[1..] && from != "" && !OccursAt(s, from, 0)
    ensures |rest| == 1 ==> !OccursAt([s[0]] + rest[0], from, 0)
    ensures |rest| > 1 ==> !OccursAt([s[0]] + rest[0] + from, from, 0)
  {
    assert s == [s[0]] + s[1..];
    if |rest| == 1 {
      assert Weave(rest, from) == rest[0];
      SameInFront(s, [s[0]] + rest[0], "", from);
    } else {
      var more := Weave(rest[1..], from);
      assert [s[0]] + (rest[0] + from + more) == [s[0]] + rest[0] + from + more;
      SameInFront(s, [s[0]] + rest[0] + from, more, from);
    }
  }

  lemma SameInFront(s: string, all: string, more: string, t: string)
    requires s == all + more && !OccursAt(s, t, 0)
    ensures !OccursAt(all, t, 0)
  {
    assert |t| <= |all| ==> s[0..0 + |t|] == all[0..0 + |t|];
  }

  // ---- splitting and joining ----

  lemma {:induction false} SplitCons(p: string, rest: string, c: char)
    requires c !in p
    ensures Split(p + [c] + rest, c) == [p] + Split(rest, c)
  {
    hide Split, IndexFrom;
    var s := p + [c] + rest;
    var i := Index(s, c);
    SplitHead(s, c);
    assert s[..|p|] == p && s[|p|] == c;
    assert c in s[..|p| + 1];
    assert forall k :: 0 <= k < |p| ==> s[k] == p[k];
    assert s[..i] == p && s[i + 1..] == rest;
  }

  /** Splitting undoes joining when no part holds the separator. */
  lemma {:induction false} SplitJoin(parts: seq<string>, c: char)
    requires parts != []
    requires forall p :: p in parts ==> c !in p
    ensures Split(Join(parts, c), c) == parts
  {
    hide Split, Join;
    assert parts == [parts[0]] + parts[1..];
    if |parts| == 1 {
      assert parts == [parts[0]];
      JoinOne(parts[0], c);
      SplitHead(parts[0], c);
    } else {
      JoinCons(parts[0], parts[1..], c);
      SplitCons(parts[0], Join(parts[1..], c), c);
      SplitJoin(parts[1..], c);
    }
  }

  /** And joining undoes splitting. */
  lemma {:induction false} JoinSplit(s: string, c: char)
    ensures Join(Split(s, c), c) == s
    decreases |s|
  {
    hide Join, Split;
    var i := Index(s, c);
    SplitHead(s, c);
    if i < 0 {
      JoinOne(s, c);
    } else {
      JoinSplit(s[i + 1..], c);
      var rest := Split(s[i + 1..], c);
      JoinCons(s[..i], rest, c);
      assert s == s[..i] + [c] + s[i + 1..];
    }
  }

  lemma SplitHead(s: string, c: char)
    ensures var i := Index(s, c); Split(s, c) == if i < 0 then [s] else [s[..i]] + Split(s[i + 1..], c)
  {
  }

  lemma JoinOne(s: string, c: char)
    ensures Join([s], c) == s
  {
  }

  lemma JoinCons(p: string, parts: seq<string>, c: char)
    requires parts != []
    ensures Join([p] + parts, c) == p + [c] + Join(parts, c)
  {
    assert ([p] + parts)[1..] == parts;
  }

  // ---- order ----

  lemma {:induction false} LeqReflexive(a: string)
    ensures Leq(a, a)
  {
    if a != [] { LeqReflexive(a[1..]); }
  }

  lemma {:induction false} LeqTotal(a: string, b: string)
    ensures Leq(a, b) || Leq(b, a)
  {
    if a != [] && b != [] { LeqTotal(a[1..], b[1..]); }
  }

  lemma {:induction false} LeqAntisymmetric(a: string, b: string)
    requires Leq(a, b) && Leq(b, a)
    ensures a == b
  {
    if a != [] && b != [] {
      LeqAntisymmetric(a[1..], b[1..]);
      assert a == [a[0]] + a[1..] && b == [b[0]] + b[1..];
    }
  }

  lemma {:induction false} LeqTransitive(a: string, b: string, c: string)
    requires Leq(a, b) && Leq(b, c)
    ensures Leq(a, c)
  {
    if a != [] && a[0] == b[0] == c[0] { LeqTransitive(a[1..], b[1..], c[1..]); }
  }
}
