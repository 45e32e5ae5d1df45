/**
 When the order of a batch matters: the exact conditions under which the root and the row of a
 trace, and the row of a session, are the same for every order of the observations.
 */
module AggregationOrder {
  import opened Options
  import opened Sorting
  import opened Aggregation
  import opened AggregationLaws

  /** Each value of `f` is the same for rows that tie for the root. */
  ghost predicate EarliestAgree<T>(rows: seq<Row>, f: Row -> T) {
    forall x, y :: IsEarliest(x, rows) && IsEarliest(y, rows) ==> f(x) == f(y)
  }

  /** The rows that have a text for this field have the same one. */
  ghost predicate NamedAgree(rows: seq<Row>, field: Row -> string) {
    forall x, y :: x in rows && y in rows && field(x) != "" && field(y) != "" ==> field(x) == field(y)
  }

  /** Rows that tie for the root all have one and the same text, or else all rows that have a text do. */
  ghost predicate Settled(rows: seq<Row>, field: Row -> string) {
    || (EarliestAgree(rows, field) && forall x :: IsEarliest(x, rows) ==> field(x) != "")
    || NamedAgree(rows, field)
  }

  ghost predicate SameRows(a: seq<Row>, b: seq<Row>) { b != [] && multiset(a) == multiset(b) }

  // ---- arranging rows ----

  lemma ToFront(rows: seq<Row>, x: Row) returns (b: seq<Row>)
    requires x in rows
    ensures SameRows(rows, b) && b[0] == x
    ensures rows[0] != x ==> |b| > 1 && b[1] == rows[0]
  {
    var k :| 0 <= k < |rows| && rows[k] == x && (rows[0] != x ==> k > 0);
    b := [x] + (rows[..k] + rows[k + 1..]);
    RemoveOne(rows, k);
  }

  lemma {:induction false} FirstRootInserted(x: Row, s: seq<Row>)
    requires x.parentSpanId == "" && forall r :: r in s && r.parentSpanId == "" ==> RowLeq(x, r)
    ensures FirstRoot(Insert(x, s, RowLeq)) == Some(x)
  {
    hide RowLeq;
    if s != [] && !RowLeq(x, s[0]) {
      assert s[0].parentSpanId != "";
      FirstRootInserted(x, s[1..]);
    }
  }

  lemma {:induction false} NoFirstRoot(s: seq<Row>)
    requires AllHaveParents(s)
    ensures FirstRoot(s).None?
  {
    if s != [] {
      assert forall i :: 0 <= i < |s| - 1 ==> s[1..][i] == s[i + 1];
      NoFirstRoot(s[1..]);
    }
  }

  /** Sorting is stable: of the rows that tie, the one that comes first becomes the root. */
  lemma FirstBecomesRoot(rows: seq<Row>)
    requires rows != [] && IsEarliest(rows[0], rows)
    ensures RootOf(rows) == rows[0]
  {
    hide RowLeq, FirstRoot, Sort;
    var x, s := rows[0], Sort(rows[1..], RowLeq);
    SortedMembers(rows);
    SortedMembers(rows[1..]);
    assert forall r :: r in rows[1..] ==> r in rows;
    assert Sort(rows, RowLeq) == Insert(x, s, RowLeq) by { SortUnfolded(rows); }
    if x.parentSpanId == "" {
      FirstRootInserted(x, s);
    } else {
      assert forall r :: r in Sort(rows, RowLeq) ==> r.parentSpanId != "";
      NoFirstRoot(Sort(rows, RowLeq));
      assert s != [] ==> s[0] in s;
    }
  }

  lemma SortUnfolded(rows: seq<Row>)
    requires rows != []
    ensures Sort(rows, RowLeq) == Insert(rows[0], Sort(rows[1..], RowLeq), RowLeq)
  {
  }

  lemma SortedMembers(rows: seq<Row>)
    ensures forall r :: r in Sort(rows, RowLeq) <==> r in rows
  {
    hide Sort;
    SortElements(rows, RowLeq);
    SameMembers(Sort(rows, RowLeq), rows);
  }

  /** Any of the rows that tie becomes the root in some order, with any other row right behind it. */
  lemma MakeRoot(rows: seq<Row>, x: Row, p: Row) returns (b: seq<Row>)
    requires IsEarliest(x, rows) && p in rows
    ensures SameRows(rows, b) && b[0] == x && RootOf(b) == x
    ensures p != x ==> |b| > 1 && b[1] == p
  {
    hide RootOf, RowLeq, IsEarliest;
    assert x in rows by { Member(x, rows); }
    var a := ToFront(rows, p);
    SameMembers(rows, a);
    b := ToFront(a, x);
    EarliestOfPermutation(rows, b);
    FirstBecomesRoot(b);
  }

  lemma Member(x: Row, rows: seq<Row>)
    requires IsEarliest(x, rows)
    ensures x in rows
  {
  }

  lemma SameMembers(a: seq<Row>, b: seq<Row>)
    requires multiset(a) == multiset(b)
    ensures forall r :: r in a <==> r in b
  {
    assert forall r :: r in a <==> r in multiset(a);
    assert forall r :: r in b <==> r in multiset(b);
  }

  // ---- the root ----

  /** Something about the root is the same for every order iff it is the same for all rows that tie for it. */
  lemma RootIgnoresOrderIff<T>(rows: seq<Row>, f: Row -> T)
    requires rows != []
    ensures (forall b :: SameRows(rows, b) ==> f(RootOf(b)) == f(RootOf(rows))) <==> EarliestAgree(rows, f)
  {
    hide RootOf, IsEarliest;
    if EarliestAgree(rows, f) {
      forall b | SameRows(rows, b) ensures f(RootOf(b)) == f(RootOf(rows)) {
        RootIsEarliest(rows);
        RootIsEarliest(b);
        EarliestOfPermutation(rows, b);
      }
    } else {
      var x, y :| IsEarliest(x, rows) && IsEarliest(y, rows) && f(x) != f(y);
      var b1 := MakeRoot(rows, x, rows[0]);
      var b2 := MakeRoot(rows, y, rows[0]);
      assert SameRows(rows, b1) && SameRows(rows, b2);
    }
  }

  // ---- names ----

  /** What a trace takes from its root, or else from the first row that has it. */
  function NameOf(rows: seq<Row>, field: Row -> string): string
    requires rows != []
  {
    var root := RootOf(rows);
    if field(root) != "" then field(root) else FirstText(rows, field)
  }

  lemma TextOfPermutation(a: seq<Row>, b: seq<Row>, field: Row -> string)
    requires SameRows(a, b) && NamedAgree(a, field)
    ensures FirstText(a, field) == FirstText(b, field)
    ensures forall r :: r in a && field(r) != "" ==> FirstText(a, field) == field(r)
  {
    hide FirstText;
    SameMembers(a, b);
    var i := FirstTextIsFirst(a, field);
    var j := FirstTextIsFirst(b, field);
  }

  lemma NameIgnoresOrderIff(rows: seq<Row>, field: Row -> string)
    requires rows != []
    ensures (forall b :: SameRows(rows, b) ==> NameOf(b, field) == NameOf(rows, field)) <==> Settled(rows, field)
  {
    hide RootOf, IsEarliest, FirstText, EarliestAgree, NamedAgree;
    if Settled(rows, field) {
      forall b | SameRows(rows, b) ensures NameOf(b, field) == NameOf(rows, field) {
        SettledName(rows, b, field);
      }
    } else {
      var b1, b2 := TwoNames(rows, field);
      assert SameRows(rows, b1) && SameRows(rows, b2);
    }
  }

  lemma SettledName(a: seq<Row>, b: seq<Row>, field: Row -> string)
    requires a != [] && SameRows(a, b) && Settled(a, field)
    ensures NameOf(b, field) == NameOf(a, field)
  {
    hide RootOf, IsEarliest, FirstText, NamedAgree;
    RootIsEarliest(a);
    RootIsEarliest(b);
    EarliestOfPermutation(a, b);
    if NamedAgree(a, field) {
      TextOfPermutation(a, b, field);
      Member(RootOf(a), a);
      Member(RootOf(b), a);
    }
  }

  lemma TwoNames(rows: seq<Row>, field: Row -> string) returns (b1: seq<Row>, b2: seq<Row>)
    requires rows != [] && !Settled(rows, field)
    ensures SameRows(rows, b1) && SameRows(rows, b2) && NameOf(b1, field) != NameOf(b2, field)
  {
    hide RootOf, IsEarliest;
    if x :| IsEarliest(x, rows) && field(x) == "" {
      var p, q :| p in rows && q in rows && field(p) != "" && field(q) != "" && field(p) != field(q);
      b1 := MakeRoot(rows, x, p);
      b2 := MakeRoot(rows, x, q);
      SecondName(b1, field);
      SecondName(b2, field);
    } else {
      var x, y :| IsEarliest(x, rows) && IsEarliest(y, rows) && field(x) != field(y);
      b1 := MakeRoot(rows, x, rows[0]);
      b2 := MakeRoot(rows, y, rows[0]);
    }
  }

  lemma SecondName(rows: seq<Row>, field: Row -> string)
    requires |rows| > 1 && RootOf(rows) == rows[0] && field(rows[0]) == "" && field(rows[1]) != ""
    ensures NameOf(rows, field) == field(rows[1])
  {
    hide RootOf;
    assert rows[1..] != [] && rows[1..][0] == rows[1];
    assert FirstText(rows, field) == FirstText(rows[1..], field) == field(rows[1]);
  }

  lemma TextIgnoresOrderIff(rows: seq<Row>, field: Row -> string)
    requires rows != []
    ensures (forall b :: SameRows(rows, b) ==> FirstText(b, field) == FirstText(rows, field)) <==>
      NamedAgree(rows, field)
  {
    if NamedAgree(rows, field) {
      hide NamedAgree, FirstText;
      forall b | SameRows(rows, b) ensures FirstText(b, field) == FirstText(rows, field) {
        TextOfPermutation(rows, b, field);
      }
    } else {
      var p, q :| p in rows && q in rows && field(p) != "" && field(q) != "" && field(p) != field(q);
      var b1 := ToFront(rows, p);
      var b2 := ToFront(rows, q);
      assert SameRows(rows, b1) && SameRows(rows, b2);
      assert FirstText(b1, field) == field(p) && FirstText(b2, field) == field(q);
    }
  }

  // ---- rows of one group ----

  function SpanName(r: Row): string { r.name }

  ghost predicate TraceSettled(rows: seq<Row>) {
    EarliestAgree(rows, SpanName) && Settled(rows, SessionKey) && Settled(rows, AgentName)
  }

  lemma TraceOfGroupIff(id: string, rows: seq<Row>, duration: (string, string) -> int)
    requires rows != []
    ensures (forall b :: SameRows(rows, b) ==> TraceOf(id, b, duration) == TraceOf(id, rows, duration)) <==>
      TraceSettled(rows)
  {
    hide RootOf, FirstText, TotalsOf, StatusOf, Settled, EarliestAgree, NameOf;
    RootIgnoresOrderIff(rows, SpanName);
    NameIgnoresOrderIff(rows, SessionKey);
    NameIgnoresOrderIff(rows, AgentName);
    forall b | SameRows(rows, b)
      ensures TraceOf(id, b, duration) == TraceOf(id, rows, duration) <==>
        && SpanName(RootOf(b)) == SpanName(RootOf(rows))
        && NameOf(b, SessionKey) == NameOf(rows, SessionKey)
        && NameOf(b, AgentName) == NameOf(rows, AgentName)
    {
      TotalsOfPermutation(rows, b, duration);
      TraceFields(id, b, duration);
      TraceFields(id, rows, duration);
    }
  }

  lemma TraceFields(id: string, rows: seq<Row>, duration: (string, string) -> int)
    requires rows != []
    ensures TraceOf(id, rows, duration) ==
      TraceRow(id, NameOf(rows, SessionKey), SpanName(RootOf(rows)), NameOf(rows, AgentName),
               TotalsOf(rows, duration), StatusOf(rows))
  {
    hide RootOf, FirstText, TotalsOf, StatusOf;
  }

  lemma SessionOfGroupIff(id: string, rows: seq<Row>, duration: (string, string) -> int)
    requires rows != []
    ensures (forall b :: SameRows(rows, b) ==> SessionOf(id, b, duration) == SessionOf(id, rows, duration)) <==>
      NamedAgree(rows, UserId) && NamedAgree(rows, AgentName)
  {
    hide FirstText, TotalsOf, Keys, NamedAgree;
    TextIgnoresOrderIff(rows, UserId);
    TextIgnoresOrderIff(rows, AgentName);
    forall b | SameRows(rows, b)
      ensures SessionOf(id, b, duration) == SessionOf(id, rows, duration) <==>
        && FirstText(b, UserId) == FirstText(rows, UserId)
        && FirstText(b, AgentName) == FirstText(rows, AgentName)
    {
      TotalsOfPermutation(rows, b, duration);
      KeysOfPermutation(rows, b, TraceKey);
    }
  }

  // ---- the batch ----

  function Others(rows: seq<Row>, key: Row -> string, k: string): seq<Row> {
    if rows == [] then []
    else
      var n := |rows| - 1;
      Others(rows[..n], key, k) + if key(rows[n]) == k then [] else [rows[n]]
  }

  lemma {:induction false} OthersCount(rows: seq<Row>, key: Row -> string, k: string, r: Row)
    ensures multiset(Others(rows, key, k))[r] == if key(r) == k then 0 else multiset(rows)[r]
  {
    if rows != [] {
      var n := |rows| - 1;
      OthersCount(rows[..n], key, k, r);
      assert rows == rows[..n] + [rows[n]];
    }
  }

  lemma {:induction false} GroupOfAll(rows: seq<Row>, more: seq<Row>, key: Row -> string, k: string)
    requires forall r :: r in rows ==> key(r) == k
    requires forall r :: r in more ==> key(r) != k
    ensures Group(rows + more, key, k) == rows
    decreases |rows| + |more|
  {
    if more != [] {
      var n := |more| - 1;
      assert (rows + more)[..|rows| + n] == rows + more[..n];
      GroupOfAll(rows, more[..n], key, k);
    } else if rows != [] {
      var n := |rows| - 1;
      assert rows + more == rows && rows[..n] + [] == rows[..n];
      GroupOfAll(rows[..n], [], key, k);
      assert rows == rows[..n] + [rows[n]];
    }
  }

  /** Every order of a group is that of the group in some order of the batch. */
  lemma Arrange(batch: seq<Row>, key: Row -> string, k: string, g: seq<Row>) returns (b: seq<Row>)
    requires multiset(g) == multiset(Group(batch, key, k))
    ensures multiset(b) == multiset(batch) && Group(b, key, k) == g
  {
    hide Group, Others;
    var others := Others(batch, key, k);
    b := g + others;
    forall r ensures multiset(b)[r] == multiset(batch)[r] && (r in others ==> key(r) != k) {
      OthersCount(batch, key, k, r);
      GroupCounts(batch, key, k, r);
      assert r in others ==> r in multiset(others);
    }
    GroupMembers(batch, key, k);
    SameMembers(g, Group(batch, key, k));
    GroupOfAll(g, others, key, k);
  }

  /**
   The row of a trace is the same for every order of the batch iff the rows that tie for its root
   have the same span name, and its session and its agent are settled.
   */
  lemma TraceIgnoresOrderIff(batch: seq<Row>, id: string, duration: (string, string) -> int)
    requires id in Keys(batch, TraceKey)
    ensures
      (forall b :: multiset(b) == multiset(batch) ==>
        id in Keys(b, TraceKey) && TraceFor(b, id, duration) == TraceFor(batch, id, duration)) <==>
      TraceSettled(Group(batch, TraceKey, id))
  {
    hide Group, Keys, TraceOf, TraceSettled;
    GroupIsNonEmpty(batch, TraceKey, id);
    var rows := Group(batch, TraceKey, id);
    TraceOfGroupIff(id, rows, duration);
    if TraceSettled(rows) {
      forall b | multiset(b) == multiset(batch)
        ensures id in Keys(b, TraceKey) && TraceFor(b, id, duration) == TraceFor(batch, id, duration)
      {
        KeysOfPermutation(batch, b, TraceKey);
        GroupIsNonEmpty(b, TraceKey, id);
        GroupOfPermutation(batch, b, TraceKey, id);
        assert SameRows(rows, Group(b, TraceKey, id));
      }
    } else {
      var g :| SameRows(rows, g) && TraceOf(id, g, duration) != TraceOf(id, rows, duration);
      var b := Arrange(batch, TraceKey, id, g);
      KeysOfPermutation(batch, b, TraceKey);
      assert TraceFor(b, id, duration) != TraceFor(batch, id, duration);
    }
  }

  /** And its root is the same row iff the rows that tie for it are equal. */
  lemma TraceRootIgnoresOrderIff(batch: seq<Row>, id: string)
    requires id in Keys(batch, TraceKey)
    ensures
      (forall b :: multiset(b) == multiset(batch) ==>
        id in Keys(b, TraceKey) && RootFor(b, id) == RootFor(batch, id)) <==>
      OneEarliest(Group(batch, TraceKey, id))
  {
    hide Group, Keys, RootOf, IsEarliest;
    GroupIsNonEmpty(batch, TraceKey, id);
    var rows := Group(batch, TraceKey, id);
    RootIgnoresOrderIff(rows, (r: Row) => r);
    if OneEarliest(rows) {
      forall b | multiset(b) == multiset(batch)
        ensures id in Keys(b, TraceKey) && RootFor(b, id) == RootFor(batch, id)
      {
        KeysOfPermutation(batch, b, TraceKey);
        GroupIsNonEmpty(b, TraceKey, id);
        GroupOfPermutation(batch, b, TraceKey, id);
        assert SameRows(rows, Group(b, TraceKey, id));
      }
    } else {
      var g :| SameRows(rows, g) && RootOf(g) != RootOf(rows);
      var b := Arrange(batch, TraceKey, id, g);
      KeysOfPermutation(batch, b, TraceKey);
      assert RootFor(b, id) != RootFor(batch, id);
    }
  }

  lemma {:induction false} GroupWithSession(rows: seq<Row>, id: string)
    requires id != ""
    ensures Group(WithSession(rows), SessionKey, id) == Group(rows, SessionKey, id)
  {
    if rows != [] {
      var n := |rows| - 1;
      GroupWithSession(rows[..n], id);
      var front := WithSession(rows[..n]);
      assert (front + [rows[n]])[..|front|] == front;
      assert front + [] == front;
    }
  }

  /** The row of a session is the same for every order of the batch iff its rows name at most one user and one agent. */
  lemma SessionIgnoresOrderIff(batch: seq<Row>, id: string, duration: (string, string) -> int)
    requires id in Keys(WithSession(batch), SessionKey)
    ensures
      (forall b :: multiset(b) == multiset(batch) ==>
        && id in Keys(WithSession(b), SessionKey)
        && SessionFor(WithSession(b), id, duration) == SessionFor(WithSession(batch), id, duration)) <==>
      NamedAgree(Group(batch, SessionKey, id), UserId) && NamedAgree(Group(batch, SessionKey, id), AgentName)
  {
    hide Group, Keys, SessionOf, WithSession, NamedAgree;
    SessionGroup(batch, id);
    var rows := Group(batch, SessionKey, id);
    SessionOfGroupIff(id, rows, duration);
    if NamedAgree(rows, UserId) && NamedAgree(rows, AgentName) {
      forall b | multiset(b) == multiset(batch)
        ensures id in Keys(WithSession(b), SessionKey)
        ensures SessionFor(WithSession(b), id, duration) == SessionFor(WithSession(batch), id, duration)
      {
        WithSessionOfPermutation(batch, b);
        KeysOfPermutation(WithSession(batch), WithSession(b), SessionKey);
        SessionGroup(b, id);
        GroupOfPermutation(batch, b, SessionKey, id);
        assert SameRows(rows, Group(b, SessionKey, id));
      }
    } else {
      var g :| SameRows(rows, g) && SessionOf(id, g, duration) != SessionOf(id, rows, duration);
      var b := Arrange(batch, SessionKey, id, g);
      WithSessionOfPermutation(batch, b);
      KeysOfPermutation(WithSession(batch), WithSession(b), SessionKey);
      SessionGroup(b, id);
      assert SessionFor(WithSession(b), id, duration) != SessionFor(WithSession(batch), id, duration);
    }
  }

  lemma SessionGroup(batch: seq<Row>, id: string)
    requires id in Keys(WithSession(batch), SessionKey)
    ensures Group(batch, SessionKey, id) == Group(WithSession(batch), SessionKey, id) != []
  {
    hide Group, Keys, WithSession;
    KeysAreDistinct(WithSession(batch), SessionKey);
    WithSessionRows(batch);
    GroupIsNonEmpty(WithSession(batch), SessionKey, id);
    GroupWithSession(batch, id);
  }
}
