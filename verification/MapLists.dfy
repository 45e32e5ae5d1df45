/**
 A list of name and value pairs that stands in for a map: lookups and updates agree with those
 of a map, and an update is not seen through shallow copies of the list.
 */
module MapLists {
  import opened Options
  import opened Text
  import opened Sorting

  datatype Pair = Pair(name: string, value: string)

  /** `Get`: the value of the first pair with the name. */
  function Lookup(s: seq<Pair>, name: string): Option<string> {
    if s == [] then None
    else if s[0].name == name then Some(s[0].value)
    else Lookup(s[1..], name)
  }

  /** `Set`: overwrite the first pair with the name, or append one. */
  function Update(s: seq<Pair>, name: string, value: string): seq<Pair> {
    if s == [] then [Pair(name, value)]
    else if s[0].name == name then [Pair(name, value)] + s[1..]
    else [s[0]] + Update(s[1..], name, value)
  }

  ghost predicate DistinctNames(s: seq<Pair>) {
    forall i, j :: 0 <= i < j < |s| ==> s[i].name != s[j].name
  }

  /** The map a list stands for. */
  function AsMap(s: seq<Pair>): map<string, string> {
    if s == [] then map[] else AsMap(s[1..])[s[0].name := s[0].value]
  }

  /** Looking up agrees with the map. */
  lemma {:induction false} LookupIsMapLookup(s: seq<Pair>, name: string)
    ensures name in AsMap(s) <==> Lookup(s, name).Some?
    ensures name in AsMap(s) ==> Lookup(s, name) == Some(AsMap(s)[name])
    ensures name in AsMap(s) <==> exists p :: p in s && p.name == name
  {
    if s != [] {
      LookupIsMapLookup(s[1..], name);
      assert s == [s[0]] + s[1..];
    }
  }

  lemma {:induction false} LengthOfMap(s: seq<Pair>)
    ensures |AsMap(s)| <= |s|
    ensures |AsMap(s)| == |s| <==> DistinctNames(s)
  {
    if s != [] {
      var rest := AsMap(s[1..]);
      LengthOfMap(s[1..]);
      LookupIsMapLookup(s[1..], s[0].name);
      assert AsMap(s).Keys == rest.Keys + {s[0].name};
      if s[0].name in rest {
        assert AsMap(s).Keys == rest.Keys;
        var p :| p in s[1..] && p.name == s[0].name;
        var j :| 0 <= j < |s| - 1 && s[1..][j] == p;
        assert s[j + 1].name == s[0].name;
      } else {
        assert |AsMap(s).Keys| == |rest.Keys| + 1;
        assert forall j :: 0 < j < |s| ==> s[j] == s[1..][j - 1] && s[j] in s[1..];
        if DistinctNames(s[1..]) {
          forall i, j | 0 <= i < j < |s| ensures s[i].name != s[j].name {
            if i > 0 { assert s[i] == s[1..][i - 1] && s[j] == s[1..][j - 1]; }
          }
        }
        if DistinctNames(s) {
          forall i, j | 0 <= i < j < |s| - 1 ensures s[1..][i].name != s[1..][j].name {
            assert s[1..][i] == s[i + 1] && s[1..][j] == s[j + 1];
          }
        }
      }
    }
  }

  lemma AsMapCons(p: Pair, s: seq<Pair>)
    ensures AsMap([p] + s) == AsMap(s)[p.name := p.value]
  {
    assert ([p] + s)[1..] == s;
  }

  /** Updating agrees with the map, and keeps the names there were in place. */
  lemma {:induction false} UpdateIsMapUpdate(s: seq<Pair>, name: string, value: string)
    ensures AsMap(Update(s, name, value)) == AsMap(s)[name := value]
    ensures |Update(s, name, value)| == if name in AsMap(s) then |s| else |s| + 1
    ensures forall i :: 0 <= i < |s| ==> Update(s, name, value)[i].name == s[i].name
  {
    if s == [] {
      AsMapCons(Pair(name, value), []);
      assert [Pair(name, value)] + [] == [Pair(name, value)];
    } else {
      AsMapCons(s[0], s[1..]);
      assert s == [s[0]] + s[1..];
      if s[0].name == name {
        AsMapCons(Pair(name, value), s[1..]);
      } else {
        UpdateIsMapUpdate(s[1..], name, value);
        AsMapCons(s[0], Update(s[1..], name, value));
      }
    }
  }

  /** Updating keeps names distinct. */
  lemma UpdateKeepsDistinct(s: seq<Pair>, name: string, value: string)
    requires DistinctNames(s)
    ensures DistinctNames(Update(s, name, value))
  {
    hide Update, AsMap;
    LengthOfMap(s);
    UpdateIsMapUpdate(s, name, value);
    LengthOfMap(Update(s, name, value));
    assert AsMap(s)[name := value].Keys == AsMap(s).Keys + {name};
    if name in AsMap(s) { assert AsMap(s).Keys + {name} == AsMap(s).Keys; }
  }

  predicate NameLeq(p: Pair, q: Pair) { Leq(p.name, q.name) }

  ghost predicate SortedByName(s: seq<Pair>) {
    forall i, j :: 0 <= i < j < |s| ==> Leq(s[i].name, s[j].name) && s[i].name != s[j].name
  }

  lemma {:induction false} AsMapMembers(s: seq<Pair>)
    requires DistinctNames(s)
    ensures forall p :: p in s ==> p.name in AsMap(s) && AsMap(s)[p.name] == p.value
  {
    if s != [] {
      AsMapMembers(s[1..]);
      assert s == [s[0]] + s[1..];
    }
  }

  /** The map of a list with distinct names, told by its pairs. */
  lemma AsMapIs(s: seq<Pair>, m: map<string, string>)
    requires DistinctNames(s) && (forall p :: p in s ==> p.name in m && m[p.name] == p.value)
    requires forall name :: name in m ==> exists p :: p in s && p.name == name
    ensures AsMap(s) == m
  {
    hide AsMap;
    AsMapMembers(s);
    forall name ensures name in AsMap(s) <==> name in m { LookupIsMapLookup(s, name); }
    forall name | name in m ensures AsMap(s)[name] == m[name] {
      var p :| p in s && p.name == name;
    }
  }

  /** `Unmarshal`: whatever the order in which the map is ranged over, the result is sorted and stands for the map. */
  lemma UnmarshalIsCanonical(pairs: seq<Pair>, m: map<string, string>)
    requires DistinctNames(pairs) && (forall p :: p in pairs ==> p.name in m && m[p.name] == p.value)
    requires forall name :: name in m ==> exists p :: p in pairs && p.name == name
    ensures SortedByName(Sort(pairs, NameLeq)) && AsMap(Sort(pairs, NameLeq)) == m
  {
    hide Sort, Leq, AsMap;
    var sorted := Sort(pairs, NameLeq);
    NameOrder();
    SortSorts(pairs, NameLeq);
    SortElements(pairs, NameLeq);
    SortedStaysDistinct(pairs, sorted);
    SameMembers(pairs, sorted);
    forall name | name in m ensures exists p :: p in sorted && p.name == name {
      var p :| p in pairs && p.name == name;
    }
    AsMapIs(sorted, m);
  }

  lemma SameMembers(a: seq<Pair>, b: seq<Pair>)
    requires multiset(a) == multiset(b)
    ensures forall p :: p in a <==> p in b
  {
    assert forall p :: p in a <==> p in multiset(a);
    assert forall p :: p in b <==> p in multiset(b);
  }

  /** There is only one list for a map that is sorted by distinct names. */
  lemma SortedListIsUnique(s: seq<Pair>, t: seq<Pair>)
    requires SortedByName(s) && SortedByName(t) && AsMap(s) == AsMap(t)
    ensures s == t
  {
    hide Leq, AsMap;
    NameOrder();
    AsMapMembers(s);
    AsMapMembers(t);
    forall p ensures multiset(s)[p] == multiset(t)[p] {
      OncePerName(s, p);
      OncePerName(t, p);
      LookupIsMapLookup(s, p.name);
      LookupIsMapLookup(t, p.name);
      assert p in multiset(s) <==> p in s;
      assert p in multiset(t) <==> p in t;
    }
    forall p, q | p in s && q in s && NameLeq(p, q) && NameLeq(q, p) ensures p == q {
      LeqAntisymmetric(p.name, q.name);
    }
    SortedIsUnique(s, t, NameLeq);
  }

  lemma NameOrder()
    ensures IsTotal(NameLeq) && IsTransitive(NameLeq)
  {
    hide Leq;
    StringOrder();
  }

  lemma SortedStaysDistinct(a: seq<Pair>, b: seq<Pair>)
    requires DistinctNames(a) && multiset(a) == multiset(b)
    ensures DistinctNames(b)
  {
    forall i, j | 0 <= i < j < |b| ensures b[i].name != b[j].name {
      assert b == b[..i] + [b[i]] + b[i + 1..j] + [b[j]] + b[j + 1..];
      assert multiset(b)[b[i]] >= 1 && multiset(b)[b[j]] >= 1 && (b[i] == b[j] ==> multiset(b)[b[i]] >= 2);
      assert b[i] in multiset(a) && b[j] in multiset(a);
      OncePerName(a, b[i]);
    }
  }

  lemma {:induction false} OncePerName(a: seq<Pair>, p: Pair)
    requires DistinctNames(a)
    ensures multiset(a)[p] <= 1
  {
    if a != [] {
      OncePerName(a[1..], p);
      assert a == [a[0]] + a[1..];
      assert p == a[0] ==> p !in a[1..];
    }
  }

  // ---- the list as a slice ----

  /** A variable that holds a slice: a backing array, possibly shared, and a length. */
  class MapList {
    var data: array<Pair>
    var len: nat

    ghost predicate Valid()
      reads this
    {
      len <= data.Length
    }

    ghost function Contents(): seq<Pair>
      requires Valid()
      reads this, data
    {
      data[..len]
    }

    constructor ()
      ensures Valid() && Contents() == [] && fresh(data)
    {
      data := new Pair[0];
      len := 0;
    }

    /** A shallow copy shares the backing array. */
    constructor ShallowCopy(other: MapList)
      requires other.Valid()
      ensures Valid() && data == other.data && Contents() == other.Contents()
    {
      data, len := other.data, other.len;
    }

    method Get(name: string) returns (val: string, ok: bool)
      requires Valid()
      ensures (if ok then Some(val) else None) == Lookup(Contents(), name)
      ensures !ok ==> val == ""
    {
      assert Contents()[0..] == Contents();
      for i := 0 to len
        invariant Lookup(Contents(), name) == Lookup(Contents()[i..], name)
      {
        assert Contents()[i..][0] == data[i] && Contents()[i..][1..] == Contents()[i + 1..];
        if data[i].name == name {
          return data[i].value, true;
        }
      }
      return "", false;
    }

    /**
     Set always moves to a new backing array and writes to no other, so the contents seen through
     any other variable, in particular through a shallow copy, stay as they are.
     */
    method Set(name: string, val: string)
      requires Valid()
      modifies this
      ensures Valid() && Contents() == Update(old(Contents()), name, val)
      ensures fresh(data) && old(data)[..] == old(data[..])
    {
      hide Update;
      ghost var before := Contents();
      for i := 0 to len
        invariant len == old(len) && data == old(data)
        invariant forall k :: 0 <= k < i ==> before[k].name != name
      {
        if data[i].name == name {
          UpdateFound(before, name, val, i);
          var clone := new Pair[len](k requires 0 <= k < len && len <= data.Length reads this, data => data[k]);
          clone[i] := clone[i].(value := val);
          data := clone;
          assert data[..len] == before[i := Pair(name, val)];
          return;
        }
      }
      UpdateMissing(before, name, val);
      var n := len;
      var grown := new Pair[n + 1](k requires 0 <= k < n + 1 && n <= data.Length reads this, data =>
        if k < n then data[k] else Pair(name, val));
      data, len := grown, n + 1;
      assert data[..len] == before + [Pair(name, val)];
    }

    /** `Validate`: the sorted names that occur more than once, if there are any. */
    method Validate() returns (duplicates: Option<seq<string>>)
      requires Valid()
      ensures duplicates.None? <==> DistinctNames(Contents())
      ensures duplicates.Some? ==> Sorted(duplicates.value, Leq)
      ensures duplicates.Some? ==> forall d :: d in duplicates.value <==> Repeated(Contents(), d)
    {
      hide Leq, Sort, Sorted, NameCount;
      var counts := CountNames();
      CountsOfAll(Contents(), counts.Keys);
      if |counts| == len {
        return None;
      }
      var dups := MoreThanOnce(counts);
      SortedNames(dups);
      forall d ensures d in dups <==> Repeated(Contents(), d) { NameCounted(Contents(), d); }
      duplicates := Some(Sort(dups, Leq));
    }

    /** How often each name occurs. */
    method CountNames() returns (counts: map<string, nat>)
      requires Valid()
      ensures forall name :: name in counts <==> NameCount(Contents(), name) > 0
      ensures forall name :: name in counts ==> counts[name] == NameCount(Contents(), name)
    {
      ghost var s := Contents();
      counts := map[];
      for i := 0 to len
        invariant forall name :: name in counts <==> NameCount(s[..i], name) > 0
        invariant forall name :: name in counts ==> counts[name] == NameCount(s[..i], name)
      {
        assert s[..i + 1][..i] == s[..i];
        var n := data[i].name;
        counts := counts[n := (if n in counts then counts[n] else 0) + 1];
      }
      assert s[..len] == s;
    }

    /** The names that were counted more than once, in the order in which the counters are ranged over. */
    static method MoreThanOnce(counts: map<string, nat>) returns (dups: seq<string>)
      ensures forall d :: d in dups <==> d in counts && counts[d] > 1
    {
      var keys := counts.Keys;
      dups := [];
      while keys != {}
        invariant keys <= counts.Keys
        invariant forall d :: d in dups <==> d in counts && d !in keys && counts[d] > 1
        decreases keys
      {
        var name :| name in keys;
        keys := keys - {name};
        if counts[name] > 1 {
          dups := dups + [name];
        }
      }
    }

    /** `Unmarshal`: the pairs of the map, in any order, then sorted by name. */
    method Unmarshal(m: map<string, string>)
      modifies this
      ensures Valid() && fresh(data)
      ensures SortedByName(Contents()) && AsMap(Contents()) == m
    {
      hide Sort, Leq, AsMap;
      var keys, pairs := m.Keys, [];
      while keys != {}
        invariant keys <= m.Keys
        invariant DistinctNames(pairs)
        invariant forall p :: p in pairs ==> p.name in m && p.name !in keys && m[p.name] == p.value
        invariant forall name :: name in m && name !in keys ==> exists p :: p in pairs && p.name == name
        decreases keys
      {
        var name :| name in keys;
        assert forall i :: 0 <= i < |pairs| ==> pairs[i] in pairs;
        assert Pair(name, m[name]) in pairs + [Pair(name, m[name])];
        keys := keys - {name};
        pairs := pairs + [Pair(name, m[name])];
      }
      UnmarshalIsCanonical(pairs, m);
      pairs := Sort(pairs, NameLeq);
      data := new Pair[|pairs|](i requires 0 <= i < |pairs| => pairs[i]);
      len := |pairs|;
      assert data[..len] == pairs;
    }
  }

  function NameCount(s: seq<Pair>, name: string): nat {
    if s == [] then 0
    else NameCount(s[..|s| - 1], name) + if s[|s| - 1].name == name then 1 else 0
  }

  ghost predicate Repeated(s: seq<Pair>, name: string) {
    exists i, j :: 0 <= i < j < |s| && s[i].name == s[j].name == name
  }

  lemma {:induction false} NameCounted(s: seq<Pair>, name: string)
    ensures NameCount(s, name) > 0 <==> exists k :: 0 <= k < |s| && s[k].name == name
    ensures NameCount(s, name) > 1 <==> Repeated(s, name)
  {
    if s != [] {
      var n := |s| - 1;
      var front := s[..n];
      NameCounted(front, name);
      assert forall k :: 0 <= k < n ==> s[k] == front[k];
      if Repeated(front, name) {
        var i, j :| 0 <= i < j < n && front[i].name == front[j].name == name;
        assert s[i].name == s[j].name == name;
      }
    }
  }

  lemma SortedNames(names: seq<string>)
    ensures Sorted(Sort(names, Leq), Leq)
    ensures forall d :: d in Sort(names, Leq) <==> d in names
  {
    hide Sort, Leq;
    StringOrder();
    SortSorts(names, Leq);
    SortElements(names, Leq);
    assert forall d :: d in Sort(names, Leq) <==> d in multiset(Sort(names, Leq));
    assert forall d :: d in names <==> d in multiset(names);
  }

  lemma CountsOfAll(s: seq<Pair>, names: set<string>)
    requires forall name :: name in names <==> NameCount(s, name) > 0
    ensures |names| == |s| <==> DistinctNames(s)
  {
    hide AsMap, NameCount;
    LengthOfMap(s);
    forall name ensures name in AsMap(s) <==> name in names {
      LookupIsMapLookup(s, name);
      NameCounted(s, name);
      assert forall k :: 0 <= k < |s| ==> s[k] in s;
    }
    assert AsMap(s).Keys == names;
  }

  lemma {:induction false} UpdateFound(s: seq<Pair>, name: string, value: string, i: nat)
    requires i < |s| && s[i].name == name && forall k :: 0 <= k < i ==> s[k].name != name
    ensures Update(s, name, value) == s[i := Pair(name, value)]
  {
    if i > 0 {
      UpdateFound(s[1..], name, value, i - 1);
      assert s[i := Pair(name, value)] == [s[0]] + s[1..][i - 1 := Pair(name, value)];
    }
  }

  lemma {:induction false} UpdateMissing(s: seq<Pair>, name: string, value: string)
    requires forall k :: 0 <= k < |s| ==> s[k].name != name
    ensures Update(s, name, value) == s + [Pair(name, value)]
  {
    if s != [] {
      UpdateMissing(s[1..], name, value);
      assert s + [Pair(name, value)] == [s[0]] + (s[1..] + [Pair(name, value)]);
    }
  }
}
