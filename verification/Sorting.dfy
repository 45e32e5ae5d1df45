/**
 Sorting by a given order, standing for the sorts of the libraries: the result is sorted and
 has the same elements, and with an antisymmetric order that determines it.
 */
module Sorting {
  import Text

  ghost predicate IsTotal<T(!new)>(leq: (T, T) -> bool) {
    forall x, y :: leq(x, y) || leq(y, x)
  }

  ghost predicate IsTransitive<T(!new)>(leq: (T, T) -> bool) {
    forall x, y, z :: leq(x, y) && leq(y, z) ==> leq(x, z)
  }

  ghost predicate Sorted<T>(s: seq<T>, leq: (T, T) -> bool) {
    forall i, j :: 0 <= i < j < |s| ==> leq(s[i], s[j])
  }

  function Insert<T>(x: T, s: seq<T>, leq: (T, T) -> bool): seq<T> {
    if s == [] then [x]
    else if leq(x, s[0]) then [x] + s
    else [s[0]] + Insert(x, s[1..], leq)
  }

  /** A stable sort. */
  function Sort<T>(s: seq<T>, leq: (T, T) -> bool): seq<T> {
    if s == [] then [] else Insert(s[0], Sort(s[1..], leq), leq)
  }

  lemma {:induction false} InsertElements<T>(x: T, s: seq<T>, leq: (T, T) -> bool)
    ensures multiset(Insert(x, s, leq)) == multiset(s) + multiset{x}
  {
    if s != [] && !leq(x, s[0]) {
      InsertElements(x, s[1..], leq);
      assert s == [s[0]] + s[1..];
    }
  }

  lemma {:induction false} SortElements<T>(s: seq<T>, leq: (T, T) -> bool)
    ensures multiset(Sort(s, leq)) == multiset(s)
  {
    if s != [] {
      SortElements(s[1..], leq);
      InsertElements(s[0], Sort(s[1..], leq), leq);
      assert s == [s[0]] + s[1..];
    }
  }

  lemma {:induction false} InsertSorted<T(!new)>(x: T, s: seq<T>, leq: (T, T) -> bool)
    requires IsTotal(leq) && IsTransitive(leq) && Sorted(s, leq)
    ensures Sorted(Insert(x, s, leq), leq)
  {
    if s != [] && !leq(x, s[0]) {
      var rest := Insert(x, s[1..], leq);
      InsertSorted(x, s[1..], leq);
      InsertElements(x, s[1..], leq);
      forall j | 0 <= j < |rest| ensures leq(s[0], rest[j]) {
        assert rest[j] in multiset(rest);
        assert rest[j] == x || rest[j] in s[1..];
      }
    }
  }

  lemma {:induction false} SortSorts<T(!new)>(s: seq<T>, leq: (T, T) -> bool)
    requires IsTotal(leq) && IsTransitive(leq)
    ensures Sorted(Sort(s, leq), leq)
  {
    if s != [] {
      SortSorts(s[1..], leq);
      InsertSorted(s[0], Sort(s[1..], leq), leq);
    }
  }

  /** Two elements of `s` that are each below the other are the same. */
  ghost predicate Antisymmetric<T>(s: seq<T>, leq: (T, T) -> bool) {
    forall x, y :: x in s && y in s && leq(x, y) && leq(y, x) ==> x == y
  }

  lemma RemoveOne<T>(s: seq<T>, k: nat)
    requires k < |s|
    ensures multiset(s[..k] + s[k + 1..]) == multiset(s) - multiset{s[k]}
  {
    assert s == s[..k] + [s[k]] + s[k + 1..];
  }

  /** The first elements of two sorted arrangements are the same. */
  lemma SameHead<T(!new)>(s: seq<T>, t: seq<T>, leq: (T, T) -> bool)
    requires s != [] && multiset(s) == multiset(t)
    requires Sorted(s, leq) && Sorted(t, leq) && IsTotal(leq) && Antisymmetric(s, leq)
    ensures t != [] && s[0] == t[0]
  {
    assert s[0] in multiset(t);
    assert t[0] in multiset(s);
    var i :| 0 <= i < |t| && t[i] == s[0];
    var j :| 0 <= j < |s| && s[j] == t[0];
    assert leq(t[0], t[i]) && leq(s[0], s[j]);
  }

  /** A sorted arrangement is unique, so every correct sorting algorithm gives this one. */
  lemma {:induction false} SortedIsUnique<T(!new)>(s: seq<T>, t: seq<T>, leq: (T, T) -> bool)
    requires multiset(s) == multiset(t)
    requires Sorted(s, leq) && Sorted(t, leq) && IsTotal(leq) && Antisymmetric(s, leq)
    ensures s == t
  {
    if s == [] {
      assert |t| == |multiset(t)| == 0;
    } else {
      SameHead(s, t, leq);
      TailSorted(s, leq);
      TailSorted(t, leq);
      SameTails(s, t);
      hide Sorted, Antisymmetric, IsTotal;
      SortedIsUnique(s[1..], t[1..], leq);
      assert s == [s[0]] + s[1..] && t == [t[0]] + t[1..];
    }
  }

  lemma TailSorted<T>(s: seq<T>, leq: (T, T) -> bool)
    requires s != [] && Sorted(s, leq)
    ensures Sorted(s[1..], leq)
    ensures Antisymmetric(s, leq) ==> Antisymmetric(s[1..], leq)
  {
    assert forall i :: 0 <= i < |s| - 1 ==> s[1..][i] == s[i + 1];
    assert forall x :: x in s[1..] ==> x in s;
  }

  lemma HeadAndTail<T>(s: seq<T>)
    requires s != []
    ensures multiset(s) == multiset{s[0]} + multiset(s[1..])
  {
    assert s == [s[0]] + s[1..];
  }

  lemma SameTails<T>(s: seq<T>, t: seq<T>)
    requires s != [] && t != [] && s[0] == t[0] && multiset(s) == multiset(t)
    ensures multiset(s[1..]) == multiset(t[1..])
  {
    HeadAndTail(s);
    HeadAndTail(t);
    forall x ensures multiset(s[1..])[x] == multiset(t[1..])[x] {
      assert multiset(s)[x] == multiset(t)[x];
    }
  }

  /** Sorting does not depend on the order of the input when keys do not tie. */
  lemma SortOfPermutation<T(!new)>(s: seq<T>, t: seq<T>, leq: (T, T) -> bool)
    requires multiset(s) == multiset(t)
    requires IsTotal(leq) && IsTransitive(leq) && Antisymmetric(s, leq)
    ensures Sort(s, leq) == Sort(t, leq)
  {
    SortElements(s, leq);
    SortElements(t, leq);
    SortSorts(s, leq);
    SortSorts(t, leq);
    forall x | x in Sort(s, leq) ensures x in s {
      assert x in multiset(Sort(s, leq));
    }
    SortedIsUnique(Sort(s, leq), Sort(t, leq), leq);
  }

  /** The order of strings is a linear order. */
  lemma StringOrder()
    ensures IsTotal(Text.Leq) && IsTransitive(Text.Leq)
  {
    forall x, y ensures Text.Leq(x, y) || Text.Leq(y, x) { Text.LeqTotal(x, y); }
    forall x, y, z | Text.Leq(x, y) && Text.Leq(y, z) ensures Text.Leq(x, z) { Text.LeqTransitive(x, y, z); }
  }

  lemma StringsAntisymmetric(s: seq<string>)
    ensures Antisymmetric(s, Text.Leq)
  {
    forall x, y | x in s && y in s && Text.Leq(x, y) && Text.Leq(y, x) ensures x == y { Text.LeqAntisymmetric(x, y); }
  }
}
