/**
 Instance identifiers: a set of pipeline identifiers kept as one string, so that comparing
 strings compares sets.
 */
module InstanceId {
  import opened Options
  import opened Text
  import opened Sorting
  import opened PipelineId

  const DELIM: char := ' '

  /** `slices.Compact`: of equal neighbours only the first stays. */
  function Compact(s: seq<string>): seq<string> {
    if |s| <= 1 then s
    else if s[0] == s[1] then Compact(s[1..])
    else [s[0]] + Compact(s[1..])
  }

  function Printed(ids: seq<ID>): seq<string> {
    if ids == [] then [] else [ToString(ids[0])] + Printed(ids[1..])
  }

  /** `addPipelines`: split, append, sort, compact, join. */
  function Add(encoded: string, ids: seq<ID>): string {
    Join(Compact(Sort(Split(encoded, DELIM) + Printed(ids), Leq)), DELIM) + [DELIM]
  }

  /** The encoding after the pipelines of the constructor and of each later extension were added. */
  function Build(batches: seq<seq<ID>>): string {
    if batches == [] then "" else Add(Build(batches[..|batches| - 1]), batches[|batches| - 1])
  }

  function IdsOf(batches: seq<seq<ID>>): set<ID> {
    set b, id | b in batches && id in b :: id
  }

  // ---- the canonical form ----

  ghost function Elements(s: seq<string>): set<string> { set p | p in s }

  ghost predicate Ascending(s: seq<string>) {
    forall i, j :: 0 <= i < j < |s| ==> Leq(s[i], s[j]) && s[i] != s[j]
  }

  /** The parts of the canonical encoding of a set of printed identifiers; the empty part is always among them. */
  ghost predicate Canonical(parts: seq<string>, names: set<string>) {
    && Ascending(parts)
    && Elements(parts) == names + {""}
    && (forall p :: p in parts ==> DELIM !in p)
  }

  ghost predicate Encodes(encoded: string, names: set<string>) {
    exists parts :: Canonical(parts, names) && encoded == Join(parts, DELIM) + [DELIM]
  }

  lemma {:induction false} CompactSorted(s: seq<string>)
    requires Sorted(s, Leq)
    ensures Elements(Compact(s)) == Elements(s)
    ensures Ascending(Compact(s))
    ensures s != [] ==> Compact(s) != [] && Compact(s)[0] == s[0]
  {
    hide Leq;
    if |s| > 1 {
      var rest := s[1..];
      CompactSorted(rest);
      ElementsCons(s[0], rest);
      assert s == [s[0]] + rest;
      if s[0] == s[1] {
        assert s[0] in Elements(rest);
      } else {
        var c := Compact(rest);
        ElementsCons(s[0], c);
        forall j | 0 <= j < |c| ensures Leq(s[0], c[j]) && s[0] != c[j] {
          assert c[j] in Elements(rest);
          var k :| 0 <= k < |rest| && rest[k] == c[j];
          assert rest[k] == s[k + 1];
          if s[0] == c[j] {
            assert k > 0 && Leq(s[1], s[k + 1]);
            LeqAntisymmetric(s[0], s[1]);
          }
        }
      }
    }
  }

  lemma ElementsCons(p: string, s: seq<string>)
    ensures Elements([p] + s) == {p} + Elements(s)
  {
    assert forall q :: q in [p] + s <==> q == p || q in s;
  }

  lemma ElementsConcat(s: seq<string>, t: seq<string>)
    ensures Elements(s + t) == Elements(s) + Elements(t)
  {
    assert forall q :: q in s + t <==> q in s || q in t;
  }

  lemma SortedElements(s: seq<string>)
    ensures Sorted(Sort(s, Leq), Leq)
    ensures Elements(Sort(s, Leq)) == Elements(s)
  {
    hide Sort, Leq;
    StringOrder();
    SortSorts(s, Leq);
    SortElements(s, Leq);
    assert forall p :: p in Sort(s, Leq) <==> p in multiset(Sort(s, Leq));
    assert forall p :: p in s <==> p in multiset(s);
  }

  lemma {:induction false} AscendingIsUnique(a: seq<string>, b: seq<string>)
    requires Ascending(a) && Ascending(b) && Elements(a) == Elements(b)
    ensures a == b
  {
    hide Leq;
    assert forall k :: 0 <= k < |a| ==> a[k] in Elements(b);
    assert forall k :: 0 <= k < |b| ==> b[k] in Elements(a);
    if a != [] {
      if a[0] != b[0] { LeqAntisymmetric(a[0], b[0]); }
      assert a == [a[0]] + a[1..] && b == [b[0]] + b[1..];
      assert Elements(a[1..]) == Elements(a) - {a[0]};
      assert Elements(b[1..]) == Elements(b) - {b[0]};
      AscendingIsUnique(a[1..], b[1..]);
    }
  }

  lemma {:induction false} JoinOneMore(parts: seq<string>, p: string, c: char)
    requires parts != []
    ensures Join(parts + [p], c) == Join(parts, c) + [c] + p
  {
    if |parts| > 1 {
      JoinOneMore(parts[1..], p, c);
      assert (parts + [p])[1..] == parts[1..] + [p];
      assert Join(parts + [p], c) == parts[0] + [c] + (Join(parts[1..], c) + [c] + p);
    } else {
      assert (parts + [p])[1..] == [p];
    }
  }

  /** Splitting an encoding gives its parts, and one empty segment after the last delimiter. */
  lemma SplitEncoding(parts: seq<string>)
    requires parts != [] && forall p :: p in parts ==> DELIM !in p
    ensures Split(Join(parts, DELIM) + [DELIM], DELIM) == parts + [""]
  {
    JoinOneMore(parts, "", DELIM);
    assert Join(parts, DELIM) + [DELIM] + "" == Join(parts, DELIM) + [DELIM];
    SplitJoin(parts + [""], DELIM);
  }

  lemma {:induction false} PrintedElements(ids: seq<ID>)
    ensures |Printed(ids)| == |ids|
    ensures forall k :: 0 <= k < |ids| ==> Printed(ids)[k] == ToString(ids[k])
  {
    if ids != [] { PrintedElements(ids[1..]); }
  }

  /** Adding identifiers to an encoding gives the encoding of the larger set. */
  lemma AddEncodes(encoded: string, names: set<string>, ids: seq<ID>)
    requires Encodes(encoded, names) || (encoded == "" && names == {})
    requires forall id :: id in ids ==> Spaceless(id)
    ensures Encodes(Add(encoded, ids), names + Elements(Printed(ids)))
  {
    hide Join, Split, Sort, Compact, Printed, Leq, Spaceless;
    var segments := Split(encoded, DELIM);
    if encoded == "" {
      assert segments == [""] by { SplitEmpty(); }
    } else {
      var parts :| Canonical(parts, names) && encoded == Join(parts, DELIM) + [DELIM];
      assert "" in Elements(parts);
      SplitEncoding(parts);
      ElementsConcat(parts, [""]);
    }
    assert "" in Elements(segments);
    SortedParts(segments, ids);
    assert Elements(segments) == names + {""};
  }

  lemma SplitEmpty()
    ensures Split("", DELIM) == [""]
  {
    assert Index("", DELIM) < 0;
  }

  lemma SortedParts(segments: seq<string>, ids: seq<ID>)
    requires forall p :: p in segments ==> DELIM !in p
    requires forall id :: id in ids ==> Spaceless(id)
    requires "" in segments
    ensures Canonical(Compact(Sort(segments + Printed(ids), Leq)), Elements(segments) + Elements(Printed(ids)))
  {
    hide Sort, Compact, Printed, Leq, Spaceless;
    var all := segments + Printed(ids);
    SortedElements(all);
    CompactSorted(Sort(all, Leq));
    ElementsConcat(segments, Printed(ids));
    PrintedParts(ids);
    forall p | p in Compact(Sort(all, Leq)) ensures DELIM !in p {
      assert p in Elements(Compact(Sort(all, Leq)));
    }
  }

  lemma PrintedParts(ids: seq<ID>)
    requires forall id :: id in ids ==> Spaceless(id)
    ensures forall p :: p in Printed(ids) ==> DELIM !in p && p != ""
    ensures Elements(Printed(ids)) == set id | id in ids :: ToString(id)
  {
    hide ToString;
    PrintedElements(ids);
    forall k | 0 <= k < |ids| ensures ToString(ids[k]) != "" && DELIM !in ToString(ids[k]) {
      assert Spaceless(ids[k]);
      SpacelessForms(ids[k]);
    }
    forall id | id in ids ensures ToString(id) in Printed(ids) {
      var k :| 0 <= k < |ids| && ids[k] == id;
      assert Printed(ids)[k] == ToString(id);
    }
  }

  ghost predicate AllSpaceless(batches: seq<seq<ID>>) {
    forall b, id :: b in batches && id in b ==> Spaceless(id)
  }

  ghost function Names(ids: set<ID>): set<string> { set id | id in ids :: ToString(id) }

  lemma {:induction false} BuildEncodes(batches: seq<seq<ID>>)
    requires batches != [] && AllSpaceless(batches)
    ensures Encodes(Build(batches), Names(IdsOf(batches)))
    decreases |batches|
  {
    hide ToString, Spaceless, Add, Encodes, Printed;
    var n := |batches| - 1;
    var front, last := batches[..n], batches[n];
    assert batches == front + [last];
    assert IdsOf(batches) == IdsOf(front) + set id | id in last;
    if n > 0 { BuildEncodes(front); }
    AddEncodes(Build(front), Names(IdsOf(front)), last);
    PrintedParts(last);
    assert Names(IdsOf(batches)) == Names(IdsOf(front)) + Elements(Printed(last));
  }

  /** An encoding determines the set of names, as long as none of them is empty. */
  lemma EncodingsAgree(e1: string, e2: string, names1: set<string>, names2: set<string>)
    requires Encodes(e1, names1) && Encodes(e2, names2)
    requires "" !in names1 && "" !in names2
    ensures e1 == e2 <==> names1 == names2
  {
    var p1 :| Canonical(p1, names1) && e1 == Join(p1, DELIM) + [DELIM];
    var p2 :| Canonical(p2, names2) && e2 == Join(p2, DELIM) + [DELIM];
    assert "" in Elements(p1) && "" in Elements(p2);
    SplitEncoding(p1);
    SplitEncoding(p2);
    if e1 == e2 {
      assert p1 == (p1 + [""])[..|p1|] && p2 == (p2 + [""])[..|p2|];
      assert names1 == Elements(p1) - {""} && names2 == Elements(p2) - {""};
    }
    if names1 == names2 { AscendingIsUnique(p1, p2); }
  }

  lemma NamesDetermineIds(ids1: set<ID>, ids2: set<ID>)
    requires (forall id :: id in ids1 ==> Spaceless(id)) && (forall id :: id in ids2 ==> Spaceless(id))
    ensures Names(ids1) == Names(ids2) <==> ids1 == ids2
    ensures "" !in Names(ids1)
  {
    hide ToString;
    forall id | id in ids1 ensures ToString(id) != "" { SpacelessForms(id); }
    if Names(ids1) == Names(ids2) {
      forall id | id in ids1 ensures id in ids2 {
        assert ToString(id) in Names(ids2);
        var id2 :| id2 in ids2 && ToString(id2) == ToString(id);
        PrintedApart(id, id2);
      }
      forall id | id in ids2 ensures id in ids1 {
        assert ToString(id) in Names(ids1);
        var id1 :| id1 in ids1 && ToString(id1) == ToString(id);
        PrintedApart(id, id1);
      }
    }
  }

  /**
   The string of an instance depends on its set of pipelines only: over any split and order of
   additions of identifiers without a space in the name, two strings are equal iff the accumulated
   sets are.
   */
  lemma CanonicalIdentity(batches1: seq<seq<ID>>, batches2: seq<seq<ID>>)
    requires batches1 != [] && batches2 != []
    requires AllSpaceless(batches1) && AllSpaceless(batches2)
    ensures Build(batches1) == Build(batches2) <==> IdsOf(batches1) == IdsOf(batches2)
  {
    BuildEncodes(batches1);
    BuildEncodes(batches2);
    NamesDetermineIds(IdsOf(batches1), IdsOf(batches2));
    NamesDetermineIds(IdsOf(batches2), IdsOf(batches1));
    EncodingsAgree(Build(batches1), Build(batches2), Names(IdsOf(batches1)), Names(IdsOf(batches2)));
  }

  /** Adding identifiers that are already present changes nothing. */
  lemma ReAddingChangesNothing(batches: seq<seq<ID>>, ids: seq<ID>)
    requires batches != [] && AllSpaceless(batches)
    requires forall id :: id in ids ==> id in IdsOf(batches)
    ensures Add(Build(batches), ids) == Build(batches)
  {
    var more := batches + [ids];
    assert more[..|more| - 1] == batches;
    assert IdsOf(more) == IdsOf(batches);
    CanonicalIdentity(more, batches);
  }

  // ---- names with a space ----

  /** An identifier can be added again without a change iff its name holds no space. */
  lemma ReAddingIff(c: ID)
    requires c.signal in SIGNALS
    ensures Add(Build([[c]]), [c]) == Build([[c]]) <==> ' ' !in c.name
  {
    hide Build, Add, ToString;
    if ' ' !in c.name {
      assert AllSpaceless([[c]]);
      assert c in [[c]][0];
      ReAddingChangesNothing([[c]], [c]);
    } else {
      SpacelessForms(c);
      BuildOne([c]);
      AddOne("", c);
      AddOne(Build([[c]]), c);
      ReAddedIsLonger(c);
    }
  }

  lemma AddOne(encoded: string, c: ID)
    ensures Add(encoded, [c]) == Join(Compact(Sort(Split(encoded, DELIM) + [ToString(c)], Leq)), DELIM) + [DELIM]
  {
    hide Sort, Compact, Join, Split;
    PrintedElements([c]);
    assert Printed([c]) == [ToString(c)];
  }

  /** Splitting the encoding breaks the name up, and its first segment is new. */
  lemma ReAddedIsLonger(c: ID)
    requires c.signal in SIGNALS && ' ' in ToString(c)
    ensures |Add(Build([[c]]), [c])| > |Build([[c]])|
  {
    hide Sort, Compact, Join, Split, Leq, Build, Add, ToString;
    var s := ToString(c);
    FirstBuild(c);
    AddOne(Build([[c]]), c);
    var cut := Index(s, DELIM);
    var segment, rest := s[..cut], s[cut + 1..];
    assert s == segment + [DELIM] + rest;
    FirstSegment(c, cut);
    SplitCons("", s + [DELIM], DELIM);
    SplitCons(segment, rest + [DELIM], DELIM);
    assert Build([[c]]) == "" + [DELIM] + (s + [DELIM]);
    assert s + [DELIM] == segment + [DELIM] + (rest + [DELIM]);
    var all := Split(Build([[c]]), DELIM) + [s];
    assert all[0] == "" && all[1] == segment && all[|all| - 1] == s;
    SortedElements(all);
    CompactSorted(Sort(all, Leq));
    var parts := Compact(Sort(all, Leq));
    ThreeParts(parts, segment, s);
  }

  lemma FirstBuild(c: ID)
    requires c.signal in SIGNALS
    ensures Build([[c]]) == [DELIM] + ToString(c) + [DELIM]
  {
    hide Leq, ToString;
    var s := ToString(c);
    SpacelessForms(c);
    BuildOne([c]);
    AddOne("", c);
    SplitEmpty();
    EmptyIsLeast(s);
    SortTwo(s);
    assert [""] + [s] == ["", s] && ["", s][1..] == [s];
  }

  lemma FirstSegment(c: ID, cut: nat)
    requires c.signal in SIGNALS && cut < |ToString(c)| && ToString(c)[cut] == DELIM
    ensures cut > 0
  {
    SignalText(c.signal);
    assert ToString(c)[0] == c.signal[0] && c.signal[0] in c.signal;
  }

  lemma ThreeParts(parts: seq<string>, p: string, q: string)
    requires Ascending(parts) && {"", p, q} <= Elements(parts) && p != "" && q != "" && p != q
    ensures |Join(parts, DELIM)| > |q| + 1
  {
    var i :| 0 <= i < |parts| && parts[i] == p;
    var j :| 0 <= j < |parts| && parts[j] == q;
    if i < j { JoinLength(parts, i, j); } else { JoinLength(parts, j, i); }
  }

  lemma {:induction false} JoinLength(parts: seq<string>, i: nat, j: nat)
    requires i < j < |parts|
    ensures |Join(parts, DELIM)| >= |parts[i]| + |parts[j]| + |parts| - 1
  {
    if i > 0 {
      JoinLength(parts[1..], i - 1, j - 1);
    } else {
      JoinOneLength(parts[1..], j - 1);
    }
  }

  lemma {:induction false} JoinOneLength(parts: seq<string>, j: nat)
    requires j < |parts|
    ensures |Join(parts, DELIM)| >= |parts[j]| + |parts| - 1
  {
    if |parts| > 1 {
      if j > 0 { JoinOneLength(parts[1..], j - 1); } else { JoinOneLength(parts[1..], 0); }
    }
  }

  /** Every addition sequence over `ids` is identified by its set. */
  ghost predicate Identifies(ids: set<ID>) {
    forall b1, b2 :: b1 != [] && b2 != [] && IdsOf(b1) <= ids && IdsOf(b2) <= ids ==> SameIffSameSet(b1, b2)
  }

  ghost predicate SameIffSameSet(b1: seq<seq<ID>>, b2: seq<seq<ID>>) {
    Build(b1) == Build(b2) <==> IdsOf(b1) == IdsOf(b2)
  }

  /**
   The exact condition. Strings identify sets of pipelines, over all splits and orders of additions
   from a given stock of identifiers, iff no name of the stock holds a space. Validation, which
   demands more, is not needed.
   */
  lemma IdentityIffSpaceless(ids: set<ID>)
    requires forall c :: c in ids ==> c.signal in SIGNALS
    ensures Identifies(ids) <==> forall c :: c in ids ==> ' ' !in c.name
  {
    hide Build, Add;
    if forall c :: c in ids ==> ' ' !in c.name {
      forall b1, b2 | b1 != [] && b2 != [] && IdsOf(b1) <= ids && IdsOf(b2) <= ids ensures SameIffSameSet(b1, b2) {
        StockIsSpaceless(b1, ids);
        StockIsSpaceless(b2, ids);
        CanonicalIdentity(b1, b2);
      }
    } else {
      var c :| c in ids && ' ' in c.name;
      ReAddingIff(c);
      BuildTwo([c], [c]);
      assert IdsOf([[c]]) == {c} == IdsOf([[c], [c]]) by { assert c in [[c]][0] && c in [[c], [c]][0]; }
      assert !SameIffSameSet([[c], [c]], [[c]]);
    }
  }

  lemma StockIsSpaceless(batches: seq<seq<ID>>, ids: set<ID>)
    requires IdsOf(batches) <= ids && forall c :: c in ids ==> Spaceless(c)
    ensures AllSpaceless(batches)
  {
    forall b, id | b in batches && id in b ensures Spaceless(id) {
      assert id in IdsOf(batches);
    }
  }

  lemma BuildTwo(a: seq<ID>, b: seq<ID>)
    ensures Build([a, b]) == Add(Build([a]), b)
  {
    assert [a, b][..1] == [a];
  }

  /** For example, a name with a space in it can pass for two pipelines. */
  lemma SpacesCollide(a: ID, b: ID)
    requires Spaceless(a) && Spaceless(b) && a.name != ""
    requires Leq(ToString(a), ToString(b)) && a != b
    ensures var c := ID(a.signal, a.name + " " + ToString(b)); c != a && c != b && Build([[c]]) == Build([[a, b]])
  {
    hide Leq, Join, Build, Printed, Sort, Compact, Split;
    var c := ID(a.signal, a.name + " " + ToString(b));
    var sa, sb, sc := ToString(a), ToString(b), ToString(c);
    SpacelessForms(a);
    SpacelessForms(b);
    PrintedApart(a, b);
    assert sc == sa + " " + sb;
    assert c.name[|a.name|] == ' ';
    EmptyIsLeast(sa);
    EmptyIsLeast(sc);
    SplitEmpty();
    SortTwo(sc);
    SortThree(sa, sb);
    JoinSegments(sa, sb, sc);
    BuildOne([c]);
    BuildOne([a, b]);
    PrintedElements([c]);
    PrintedElements([a, b]);
    assert [""] + Printed([c]) == ["", sc];
    assert [""] + Printed([a, b]) == ["", sa, sb];
  }

  lemma BuildOne(ids: seq<ID>)
    ensures Build([ids]) == Add("", ids)
  {
    assert [ids][..0] == [];
  }

  lemma EmptyIsLeast(s: string)
    ensures Leq("", s)
  {
  }

  lemma SortTwo(s: string)
    requires Leq("", s) && s != ""
    ensures Compact(Sort(["", s], Leq)) == ["", s]
  {
    hide Leq;
    assert ["", s][1..] == [s] && [s][1..] == [];
    assert Sort([s], Leq) == [s];
    assert ["", s][1..] == [s];
  }

  lemma SortThree(s: string, t: string)
    requires Leq("", s) && Leq(s, t) && s != "" && s != t
    ensures Compact(Sort(["", s, t], Leq)) == ["", s, t]
  {
    hide Leq;
    assert ["", s, t][1..] == [s, t] && [s, t][1..] == [t] && [t][1..] == [];
    assert Sort([t], Leq) == [t] && Sort([s, t], Leq) == [s, t];
    assert Compact([s, t]) == [s, t];
  }

  lemma JoinSegments(s: string, t: string, u: string)
    requires u == s + [DELIM] + t
    ensures Join(["", s, t], DELIM) == Join(["", u], DELIM)
  {
    assert ["", s, t][1..] == [s, t] && [s, t][1..] == [t] && ["", u][1..] == [u];
    assert Join([s, t], DELIM) == u;
  }

  // ---- decoding ----

  /** The identifiers among the segments of an encoding; segments that do not parse are skipped. */
  function ParseAll(segments: seq<string>, other: char -> bool): seq<ID> {
    if segments == [] then []
    else AsList(Parse(segments[0], other)) + ParseAll(segments[1..], other)
  }

  function AsList(id: Option<ID>): seq<ID> {
    if id.Some? then [id.value] else []
  }

  /** All identifiers an encoding holds: every segment that is followed by a delimiter. */
  function Decode(encoded: string, other: char -> bool): seq<ID> {
    var segments := Split(encoded, DELIM);
    ParseAll(segments[..|segments| - 1], other)
  }

  /**
   The calls that visiting a list makes: one for each element in turn, up to and including the
   first that is answered with false. The callback sees all calls so far.
   */
  function Visits(ids: seq<ID>, done: seq<ID>, f: seq<ID> -> bool): seq<ID> {
    if ids == [] then done
    else if !f(done + [ids[0]]) then done + [ids[0]]
    else Visits(ids[1..], done + [ids[0]], f)
  }

  /**
   The visited identifiers are a prefix; all but the last were answered with true, and the visit ends
   early only after a false.
   */
  lemma {:induction false} VisitsStopAtFirstFalse(ids: seq<ID>, done: seq<ID>, f: seq<ID> -> bool)
    ensures var v := Visits(ids, done, f);
      && done <= v <= done + ids
      && (forall k :: |done| < k < |v| ==> f(v[..k]))
      && (v != done + ids ==> |v| > |done| && !f(v))
    decreases |ids|
  {
    if ids == [] {
      assert done + [] == done;
    } else {
      var more := done + [ids[0]];
      assert done + ids == more + ids[1..];
      if f(more) {
        VisitsStopAtFirstFalse(ids[1..], more, f);
        var v := Visits(ids, done, f);
        assert v[..|more|] == more;
        assert done == more[..|done|] == v[..|done|];
      }
    }
  }

  lemma {:induction false} ParseAllConcat(s: seq<string>, t: seq<string>, other: char -> bool)
    ensures ParseAll(s + t, other) == ParseAll(s, other) + ParseAll(t, other)
  {
    hide Parse;
    if s == [] {
      assert s + t == t;
    } else {
      hide AsList;
      assert (s + t)[1..] == s[1..] + t && (s + t)[0] == s[0];
      ParseAllConcat(s[1..], t, other);
      calc {
        ParseAll(s + t, other);
        AsList(Parse(s[0], other)) + ParseAll(s[1..] + t, other);
        AsList(Parse(s[0], other)) + (ParseAll(s[1..], other) + ParseAll(t, other));
        (AsList(Parse(s[0], other)) + ParseAll(s[1..], other)) + ParseAll(t, other);
      }
    }
  }

  /** Decoding a list of printed identifiers gives the list back. */
  lemma {:induction false} ParseAllPrinted(ids: seq<ID>, other: char -> bool)
    requires forall id :: id in ids ==> Valid(id, other)
    ensures ParseAll(Printed(ids), other) == ids
  {
    hide Parse, Valid, ToString;
    if ids != [] {
      ParsePrinted(ids[0], other);
      ParseAllPrinted(ids[1..], other);
      assert ids == [ids[0]] + ids[1..];
    }
  }

  lemma EmptySegment(other: char -> bool)
    ensures Parse("", other) == None
  {
  }

  /** The list of a set of identifiers in ascending order of their printed forms. */
  ghost predicate AscendingIds(ids: seq<ID>) {
    forall i, j :: 0 <= i < j < |ids| ==>
      Leq(ToString(ids[i]), ToString(ids[j])) && ToString(ids[i]) != ToString(ids[j])
  }

  /** Names in ascending order are the printed forms of identifiers in ascending order. */
  lemma {:induction false} IdsOfNames(parts: seq<string>, ids: set<ID>, other: char -> bool) returns (list: seq<ID>)
    requires Elements(parts) <= Names(ids)
    ensures Printed(list) == parts
    ensures forall id :: id in list ==> id in ids
  {
    hide ToString;
    if parts == [] {
      list := [];
    } else {
      assert parts[0] in Elements(parts);
      var id :| id in ids && ToString(id) == parts[0];
      assert Elements(parts[1..]) <= Elements(parts);
      var rest := IdsOfNames(parts[1..], ids, other);
      list := [id] + rest;
      assert parts == [parts[0]] + parts[1..];
    }
  }

  ghost predicate AllValid(batches: seq<seq<ID>>, other: char -> bool) {
    forall b, id :: b in batches && id in b ==> Valid(id, other)
  }

  /**
   Decoding inverts encoding: the identifiers of an instance are read back each once, in
   ascending order of their printed form; the empty segment in front is harmless.
   */
  lemma DecodeInvertsBuild(batches: seq<seq<ID>>, other: char -> bool)
    requires AllValid(batches, other)
    ensures var ids := Decode(Build(batches), other);
      && AscendingIds(ids)
      && (set id | id in ids) == IdsOf(batches)
      && (forall i, j :: 0 <= i < j < |ids| ==> ids[i] != ids[j])
  {
    hide Split, Join, Parse, ToString, Valid, Leq, Build;
    if batches == [] {
      NothingBuilt(other);
      return;
    }
    var ids := IdsOf(batches);
    forall b, id | b in batches && id in b ensures Spaceless(id) { ValidIsSpaceless(id, other); }
    BuildEncodes(batches);
    var parts :| Canonical(parts, Names(ids)) && Build(batches) == Join(parts, DELIM) + [DELIM];
    NamesDetermineIds(ids, ids);
    EmptyFirst(parts, Names(ids));
    SplitEncoding(parts);
    assert (parts + [""])[..|parts|] == parts == [""] + parts[1..];
    var list := IdsOfNames(parts[1..], ids, other);
    assert Decode(Build(batches), other) == list by {
      EmptySegment(other);
      ParseAllConcat([""], parts[1..], other);
      assert ParseAll([""], other) == [];
      ParseAllPrinted(list, other);
    }
    DecodedList(parts[1..], list, ids, other);
  }

  lemma NothingBuilt(other: char -> bool)
    ensures Decode(Build([]), other) == [] && IdsOf([]) == {}
  {
    SplitEmpty();
  }

  lemma {:induction false} ParseAllValid(segments: seq<string>, other: char -> bool)
    ensures forall id :: id in ParseAll(segments, other) ==> Valid(id, other)
  {
    hide Parse, Valid;
    if segments != [] {
      ParseAllValid(segments[1..], other);
      if Parse(segments[0], other).Some? { ParsedIsValid(segments[0], other); }
    }
  }

  /** The exact condition: what was added is read back iff all of it is valid, names included. */
  lemma DecodeInvertsBuildIff(batches: seq<seq<ID>>, other: char -> bool)
    ensures (set id | id in Decode(Build(batches), other)) == IdsOf(batches) <==> AllValid(batches, other)
  {
    hide Split, Parse, Valid, Build, ParseAll;
    var segments := Split(Build(batches), DELIM);
    ParseAllValid(segments[..|segments| - 1], other);
    if AllValid(batches, other) {
      DecodeInvertsBuild(batches, other);
    } else {
      var b, id :| b in batches && id in b && !Valid(id, other);
      assert id in IdsOf(batches);
    }
  }

  lemma EmptyFirst(parts: seq<string>, names: set<string>)
    requires Canonical(parts, names) && "" !in names
    ensures parts != [] && parts[0] == ""
    ensures Ascending(parts[1..]) && Elements(parts[1..]) == names
  {
    assert "" in Elements(parts);
    if parts[0] != "" { LeqAntisymmetric(parts[0], ""); }
    assert parts == [parts[0]] + parts[1..];
    ElementsCons("", parts[1..]);
  }

  lemma DecodedList(parts: seq<string>, list: seq<ID>, ids: set<ID>, other: char -> bool)
    requires Ascending(parts) && Elements(parts) == Names(ids)
    requires Printed(list) == parts && forall id :: id in list ==> id in ids
    requires forall id :: id in ids ==> Valid(id, other)
    ensures AscendingIds(list)
    ensures (set id | id in list) == ids
  {
    hide ToString, Valid, Leq;
    PrintedElements(list);
    forall id | id in ids ensures id in list {
      assert ToString(id) in Elements(parts);
      var k :| 0 <= k < |parts| && parts[k] == ToString(id);
      PrintedForms(id, list[k], other);
    }
  }

  // ---- the object ----

  class InstanceID {
    const componentID: string
    const kind: int
    var pipelineIDs: string

    /** `NewInstanceID`. */
    constructor (componentID: string, kind: int, ids: seq<ID>)
      ensures this.componentID == componentID && this.kind == kind
      ensures pipelineIDs == Add("", ids)
    {
      this.componentID, this.kind, pipelineIDs := componentID, kind, "";
      new;
      AddPipelines(ids);
    }

    constructor Copy(id: InstanceID)
      ensures componentID == id.componentID && kind == id.kind && pipelineIDs == id.pipelineIDs
    {
      componentID, kind, pipelineIDs := id.componentID, id.kind, id.pipelineIDs;
    }

    method AddPipelines(ids: seq<ID>)
      modifies this
      ensures pipelineIDs == Add(old(pipelineIDs), ids)
    {
      hide Split, Sort, Compact, Join, ToString;
      var strIDs := Split(pipelineIDs, DELIM);
      for i := 0 to |ids|
        invariant pipelineIDs == old(pipelineIDs)
        invariant strIDs == Split(pipelineIDs, DELIM) + Printed(ids[..i])
      {
        PrintedElements(ids[..i + 1]);
        PrintedElements(ids[..i]);
        assert Printed(ids[..i + 1]) == Printed(ids[..i]) + [ToString(ids[i])];
        strIDs := strIDs + [ToString(ids[i])];
      }
      assert ids[..|ids|] == ids;
      strIDs := Sort(strIDs, Leq);
      strIDs := Compact(strIDs);
      pipelineIDs := Join(strIDs, DELIM) + [DELIM];
    }

    /** `WithPipelines`: a new instance; this one is left as it was. */
    method WithPipelines(ids: seq<ID>) returns (r: InstanceID)
      ensures fresh(r) && r.componentID == componentID && r.kind == kind
      ensures r.pipelineIDs == Add(pipelineIDs, ids)
    {
      r := new InstanceID.Copy(this);
      r.AddPipelines(ids);
    }

    /** `AllPipelineIDs`: scan the characters, parse at each delimiter, stop when the callback says so. */
    method AllPipelineIDs(f: seq<ID> -> bool, other: char -> bool) returns (visited: seq<ID>)
      ensures visited == Visits(Decode(pipelineIDs, other), [], f)
    {
      hide Parse, Decode;
      visited := [];
      var bs := "";
      assert bs + pipelineIDs[0..] == pipelineIDs;
      for i := 0 to |pipelineIDs|
        invariant DELIM !in bs
        invariant Visits(Decode(pipelineIDs, other), [], f) == Visits(Decode(bs + pipelineIDs[i..], other), visited, f)
      {
        var b := pipelineIDs[i];
        if b != DELIM {
          assert bs + pipelineIDs[i..] == bs + [b] + pipelineIDs[i + 1..];
          bs := bs + [b];
        } else {
          DecodeSegment(bs, pipelineIDs[i + 1..], other);
          VisitFirst(Parse(bs, other), Decode(pipelineIDs[i + 1..], other), visited, f);
          assert bs + pipelineIDs[i..] == bs + [DELIM] + pipelineIDs[i + 1..];
          assert "" + pipelineIDs[i + 1..] == pipelineIDs[i + 1..];
          var pipelineID := Parse(bs, other);
          bs := "";
          if pipelineID.Some? {
            visited := visited + [pipelineID.value];
            if !f(visited) {
              return;
            }
          }
        }
      }
      assert bs + pipelineIDs[|pipelineIDs|..] == bs;
      DecodeRest(bs, other);
    }
  }

  lemma DecodeSegment(bs: string, rest: string, other: char -> bool)
    requires DELIM !in bs
    ensures Decode(bs + [DELIM] + rest, other) ==
      AsList(Parse(bs, other)) + Decode(rest, other)
  {
    hide Parse;
    SplitCons(bs, rest, DELIM);
    var segments := Split(rest, DELIM);
    assert ([bs] + segments)[..|segments|] == [bs] + segments[..|segments| - 1];
  }

  lemma VisitFirst(id: Option<ID>, rest: seq<ID>, done: seq<ID>, f: seq<ID> -> bool)
    ensures Visits(AsList(id) + rest, done, f) ==
      if id.None? then Visits(rest, done, f)
      else if f(done + [id.value]) then Visits(rest, done + [id.value], f)
      else done + [id.value]
  {
    if id.Some? {
      assert ([id.value] + rest)[1..] == rest;
    } else {
      assert [] + rest == rest;
    }
  }

  lemma DecodeRest(bs: string, other: char -> bool)
    requires DELIM !in bs
    ensures Decode(bs, other) == []
  {
    assert Index(bs, DELIM) < 0;
  }
}
