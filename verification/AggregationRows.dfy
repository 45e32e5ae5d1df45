/**
 What every row of an aggregation says, field by field, told from the observations of the batch.
 */
module AggregationRows {
  import opened Options
  import opened Text
  import opened Sorting
  import opened Aggregation
  import opened AggregationLaws
  import opened AggregationOrder

  // ---- groups and keys ----

  /** `part` is what `rows` has at these positions, in the same order, and they are those of the rows with this key. */
  ghost predicate PickedAt(part: seq<Row>, rows: seq<Row>, key: Row -> string, k: string, at: seq<nat>) {
    && |at| == |part|
    && (forall j :: 0 <= j < |at| ==> at[j] < |rows| && rows[at[j]] == part[j])
    && (forall i, j :: 0 <= i < j < |at| ==> at[i] < at[j])
    && (forall i: nat :: i < |rows| ==> (i in at <==> key(rows[i]) == k))
  }

  lemma PickedOneMore(part: seq<Row>, rows: seq<Row>, r: Row, key: Row -> string, k: string, at: seq<nat>)
    requires PickedAt(part, rows, key, k, at)
    ensures key(r) == k ==> PickedAt(part + [r], rows + [r], key, k, at + [|rows|])
    ensures key(r) != k ==> PickedAt(part, rows + [r], key, k, at)
  {
    var all, last := rows + [r], at + [|rows|];
    assert all[..|rows|] == rows;
    assert forall i :: i in last <==> i in at || i == |rows|;
    assert forall i :: i in at ==> i < |rows|;
  }

  /** A group is what the batch has of its key, in the order of the batch. */
  lemma {:induction false} GroupIs(rows: seq<Row>, key: Row -> string, k: string) returns (at: seq<nat>)
    ensures PickedAt(Group(rows, key, k), rows, key, k, at)
  {
    at := [];
    if rows != [] {
      hide PickedAt;
      var n := |rows| - 1;
      at := GroupIs(rows[..n], key, k);
      assert rows == rows[..n] + [rows[n]];
      PickedOneMore(Group(rows[..n], key, k), rows[..n], rows[n], key, k, at);
      var front := Group(rows[..n], key, k);
      assert front + [] == front;
      at := if key(rows[n]) == k then at + [n] else at;
    }
  }

  ghost predicate FirstOf(rows: seq<Row>, key: Row -> string, k: string, i: nat) {
    i < |rows| && key(rows[i]) == k && forall j :: 0 <= j < i ==> key(rows[j]) != k
  }

  /** These keys first occur at these positions, one after the other. */
  ghost predicate InOrder(rows: seq<Row>, key: Row -> string, keys: seq<string>, first: seq<nat>) {
    && |first| == |keys|
    && (forall i :: 0 <= i < |keys| ==> FirstOf(rows, key, keys[i], first[i]))
    && (forall i, j :: 0 <= i < j < |keys| ==> first[i] < first[j])
  }

  /** The keys come in the order in which they first occur. */
  lemma {:induction false} KeysInOrder(rows: seq<Row>, key: Row -> string) returns (first: seq<nat>)
    ensures InOrder(rows, key, Keys(rows, key), first)
  {
    first := [];
    if rows != [] {
      var n := |rows| - 1;
      first := KeysInOrder(rows[..n], key);
      var front := Keys(rows[..n], key);
      KeysAreDistinct(rows[..n], key);
      assert forall i: nat :: i < n ==> rows[..n][i] == rows[i] && rows[i] in rows[..n];
      if key(rows[n]) !in front {
        assert FirstOf(rows, key, key(rows[n]), n);
        first := first + [n];
      }
    }
  }

  // ---- counts and sums ----

  /** Where the rows with this key stand. */
  function Places(rows: seq<Row>, key: Row -> string, k: string): set<nat> {
    set i: nat | i < |rows| && key(rows[i]) == k
  }

  function ErrorPlaces(rows: seq<Row>, key: Row -> string, k: string): set<nat> {
    set i: nat | i < |rows| && key(rows[i]) == k && rows[i].statusCode == "ERROR"
  }

  lemma {:induction false} SizeOfGroup(rows: seq<Row>, key: Row -> string, k: string)
    ensures |Group(rows, key, k)| == |Places(rows, key, k)|
  {
    if rows != [] {
      var n := |rows| - 1;
      SizeOfGroup(rows[..n], key, k);
      var last := if key(rows[n]) == k then {n} else {};
      assert Places(rows, key, k) == Places(rows[..n], key, k) + last && n !in Places(rows[..n], key, k);
    }
  }

  lemma {:induction false} ErrorsOfGroup(rows: seq<Row>, key: Row -> string, k: string)
    ensures Sum(Group(rows, key, k), IsError) == |ErrorPlaces(rows, key, k)|
  {
    if rows != [] {
      hide Sum, Group, ErrorPlaces;
      var n := |rows| - 1;
      ErrorsOfGroup(rows[..n], key, k);
      assert rows == rows[..n] + [rows[n]];
      GroupOneMore(rows[..n], rows[n], key, k, IsError);
      ErrorPlacesOneMore(rows[..n], rows[n], key, k);
    }
  }

  lemma ErrorPlacesOneMore(rows: seq<Row>, r: Row, key: Row -> string, k: string)
    ensures |ErrorPlaces(rows + [r], key, k)| ==
      |ErrorPlaces(rows, key, k)| + if key(r) == k && r.statusCode == "ERROR" then 1 else 0
  {
    assert forall i: nat :: i < |rows| ==> (rows + [r])[i] == rows[i];
    var front := ErrorPlaces(rows, key, k);
    var last := if key(r) == k && r.statusCode == "ERROR" then {|rows|} else {};
    assert ErrorPlaces(rows + [r], key, k) == front + last && |rows| !in front;
  }

  /** The sum of a field over the rows of a batch that have this key. */
  function SumWhere(rows: seq<Row>, key: Row -> string, k: string, f: Row -> int): int {
    if rows == [] then 0
    else
      var n := |rows| - 1;
      SumWhere(rows[..n], key, k, f) + if key(rows[n]) == k then f(rows[n]) else 0
  }

  lemma {:induction false} SumOfGroup(rows: seq<Row>, key: Row -> string, k: string, f: Row -> int, g: Row -> int)
    requires forall r :: f(r) == g(r)
    ensures Sum(Group(rows, key, k), f) == SumWhere(rows, key, k, g)
  {
    if rows != [] {
      var n := |rows| - 1;
      SumOfGroup(rows[..n], key, k, f, g);
      assert rows == rows[..n] + [rows[n]];
      GroupOneMore(rows[..n], rows[n], key, k, f);
    }
  }

  /** Totals over the rows of a batch with this key: their number, the errors, the tokens and the bounds in time. */
  ghost predicate TotalsAre(
      t: Totals, batch: seq<Row>, key: Row -> string, k: string, duration: (string, string) -> int)
  {
    && t.observations == |Places(batch, key, k)|
    && t.errors == |ErrorPlaces(batch, key, k)|
    && t.inputTokens == SumWhere(batch, key, k, (r: Row) => r.inputTokens)
    && t.outputTokens == SumWhere(batch, key, k, (r: Row) => r.outputTokens)
    && t.totalTokens == SumWhere(batch, key, k, (r: Row) => r.totalTokens)
    && (exists r :: r in batch && key(r) == k && r.startedAt == t.startedAt)
    && (exists r :: r in batch && key(r) == k && r.endedAt == t.endedAt)
    && (forall r :: r in batch && key(r) == k ==> Leq(t.startedAt, r.startedAt) && Leq(r.endedAt, t.endedAt))
    && t.durationMs == duration(t.startedAt, t.endedAt)
  }

  lemma TotalsOfGroup(batch: seq<Row>, key: Row -> string, k: string, duration: (string, string) -> int)
    requires Group(batch, key, k) != []
    ensures TotalsAre(TotalsOf(Group(batch, key, k), duration), batch, key, k, duration)
  {
    hide Group, SumWhere, Leq, MinStart, MaxEnd, Sum;
    var rows := Group(batch, key, k);
    GroupMembers(batch, key, k);
    SizeOfGroup(batch, key, k);
    ErrorsOfGroup(batch, key, k);
    SumOfGroup(batch, key, k, Input, (r: Row) => r.inputTokens);
    SumOfGroup(batch, key, k, Output, (r: Row) => r.outputTokens);
    SumOfGroup(batch, key, k, Aggregation.Total, (r: Row) => r.totalTokens);
    StartIsLeast(rows);
    EndIsGreatest(rows);
  }

  // ---- the root ----

  /** The first of the rows that tie for the root. */
  ghost predicate FirstEarliest(rows: seq<Row>, i: nat) {
    i < |rows| && IsEarliest(rows[i], rows) && forall j :: 0 <= j < i ==> !IsEarliest(rows[j], rows)
  }

  lemma EarliestOfRest(rows: seq<Row>, i: nat)
    requires i > 0 && FirstEarliest(rows, i)
    ensures FirstEarliest(rows[1..], i - 1)
  {
    hide Leq;
    RowOrder();
    var rest, e := rows[1..], rows[i];
    assert rows == [rows[0]] + rest && rest[i - 1] == e;
    assert !IsEarliest(rows[0], rows);
    forall r | r in rest ensures IsEarliest(r, rest) <==> IsEarliest(r, rows) {
      if IsEarliest(r, rest) { LaterIsEarliest(rows, e, r); }
    }
    assert forall j :: 0 <= j < i - 1 ==> rest[j] == rows[j + 1];
  }

  lemma LaterIsEarliest(rows: seq<Row>, e: Row, r: Row)
    requires rows != [] && e in rows[1..] && IsEarliest(e, rows) && IsEarliest(r, rows[1..])
    ensures IsEarliest(r, rows)
  {
    hide RowLeq;
    RowOrder();
    var rest := rows[1..];
    assert rows == [rows[0]] + rest;
    forall q | q in rows && (r.parentSpanId == "" ==> q.parentSpanId == "") ensures RowLeq(r, q) {
      if q !in rest { assert RowLeq(r, e) && RowLeq(e, q); }
    }
  }

  /** Sorting keeps the order of rows that tie, so the first of them becomes the root. */
  lemma {:induction false} RootIsFirst(rows: seq<Row>, i: nat)
    requires FirstEarliest(rows, i)
    ensures RootOf(rows) == rows[i]
    decreases i
  {
    hide RowLeq, FirstRoot, Sort, IsEarliest;
    if i == 0 {
      FirstBecomesRoot(rows);
    } else {
      EarliestOfRest(rows, i);
      RootIsFirst(rows[1..], i - 1);
      RootOfRest(rows, i);
    }
  }

  lemma RootOfRest(rows: seq<Row>, i: nat)
    requires i > 0 && FirstEarliest(rows, i) && RootOf(rows[1..]) == rows[i]
    ensures RootOf(rows) == rows[i]
  {
    hide RowLeq, FirstRoot, Sort, Insert, IsEarliest;
    var x, s := rows[0], Sort(rows[1..], RowLeq);
    SortUnfolded(rows);
    RowOrder();
    SortSorts(rows[1..], RowLeq);
    NotEarliest(rows, i);
    RootStands(rows, i);
    if rows[i].parentSpanId == "" {
      RootAfterInsert(x, s, rows[i]);
    } else {
      assert !RowLeq(x, s[0]);
      FirstStays(x, s);
    }
  }

  lemma FirstStays(x: Row, s: seq<Row>)
    requires s != [] && !RowLeq(x, s[0])
    ensures Insert(x, s, RowLeq)[0] == s[0]
  {
  }

  /** Where the root stands in the sorted rows: if it has a parent they all have, and it is the first of them. */
  lemma RootStands(rows: seq<Row>, i: nat)
    requires i > 0 && FirstEarliest(rows, i) && RootOf(rows[1..]) == rows[i]
    ensures var s := Sort(rows[1..], RowLeq);
      if rows[i].parentSpanId == "" then FirstRoot(s) == Some(rows[i])
      else s != [] && s[0] == rows[i] && FirstRoot(Sort(rows, RowLeq)).None?
  {
    hide RowLeq, FirstRoot, Sort;
    SortedMembers(rows);
    SortedMembers(rows[1..]);
    var s := Sort(rows[1..], RowLeq);
    assert rows[i] == rows[1..][i - 1] && rows[i] in s;
    var k := FirstRootIsFirst(s);
    if rows[i].parentSpanId == "" {
      assert !AllHaveParents(s);
    } else {
      assert forall r :: r in Sort(rows, RowLeq) ==> r in rows && r.parentSpanId != "";
      assert forall r :: r in s ==> r in rows[1..] && r in rows;
      NoFirstRoot(Sort(rows, RowLeq));
      NoFirstRoot(s);
    }
  }

  lemma NotEarliest(rows: seq<Row>, i: nat)
    requires i > 0 && FirstEarliest(rows, i)
    ensures !RowLeq(rows[0], rows[i]) || (rows[0].parentSpanId != "" && rows[i].parentSpanId == "")
  {
    hide IsEarliest, RowLeq;
    var x, e := rows[0], rows[i];
    if RowLeq(x, e) && (e.parentSpanId == "" ==> x.parentSpanId == "") { FrontIsEarliest(rows, e); }
  }

  lemma FrontIsEarliest(rows: seq<Row>, e: Row)
    requires rows != [] && IsEarliest(e, rows)
    requires RowLeq(rows[0], e) && (e.parentSpanId == "" ==> rows[0].parentSpanId == "")
    ensures IsEarliest(rows[0], rows)
  {
    hide RowLeq;
    RowOrder();
    forall q | q in rows && (rows[0].parentSpanId == "" ==> q.parentSpanId == "") ensures RowLeq(rows[0], q) {
      assert RowLeq(e, q);
    }
  }

  lemma {:induction false} RootAfterInsert(x: Row, s: seq<Row>, root: Row)
    requires Sorted(s, RowLeq) && FirstRoot(s) == Some(root)
    requires !RowLeq(x, root) || x.parentSpanId != ""
    requires IsTransitive(RowLeq)
    ensures FirstRoot(Insert(x, s, RowLeq)) == Some(root)
  {
    hide RowLeq;
    if s != [] {
      var k := FirstRootIsFirst(s);
      assert k > 0 ==> RowLeq(s[0], s[k]);
      if !RowLeq(x, s[0]) && s[0].parentSpanId != "" {
        assert forall i :: 0 <= i < |s| - 1 ==> s[1..][i] == s[i + 1];
        RootAfterInsert(x, s[1..], root);
      }
    }
  }

  // ---- names ----

  /** The first of the rows that has this text, as far as it is not empty. */
  ghost predicate FirstNamed(rows: seq<Row>, field: Row -> string, text: string) {
    || (text == "" && forall r :: r in rows ==> field(r) == "")
    || (text != "" && exists i: nat :: FirstNamedAt(rows, field, text, i))
  }

  ghost predicate FirstNamedAt(rows: seq<Row>, field: Row -> string, text: string, i: nat) {
    i < |rows| && field(rows[i]) == text && forall j :: 0 <= j < i ==> field(rows[j]) == ""
  }

  lemma FirstTextIs(rows: seq<Row>, field: Row -> string)
    ensures FirstNamed(rows, field, FirstText(rows, field))
  {
    hide FirstText;
    var i := FirstTextIsFirst(rows, field);
    assert FirstText(rows, field) != "" ==> FirstNamedAt(rows, field, FirstText(rows, field), i);
  }

  // ---- the rows ----

  ghost predicate SomeStatus(batch: seq<Row>, id: string, status: string) {
    exists r :: r in batch && r.traceId == id && r.statusCode == status
  }

  /** The observations of a trace, at these positions of the batch. */
  ghost predicate IsTrace(rows: seq<Row>, batch: seq<Row>, id: string, at: seq<nat>) {
    PickedAt(rows, batch, (r: Row) => r.traceId, id, at)
  }

  /**
   A row of a trace: the totals and the status of its observations, and the names of its root or
   else of the first observation that has one.
   */
  ghost predicate TraceRowIs(
      t: TraceRow, batch: seq<Row>, rows: seq<Row>, i: nat, duration: (string, string) -> int)
  {
    && TotalsAre(t.totals, batch, (r: Row) => r.traceId, t.traceId, duration)
    && (t.statusCode == "ERROR" <==> SomeStatus(batch, t.traceId, "ERROR"))
    && (t.statusCode == "OK" <==> !SomeStatus(batch, t.traceId, "ERROR") && SomeStatus(batch, t.traceId, "OK"))
    && (t.statusCode == "UNSET" <==> !SomeStatus(batch, t.traceId, "ERROR") && !SomeStatus(batch, t.traceId, "OK"))
    && FirstEarliest(rows, i) && t.rootSpanName == rows[i].name
    && (if rows[i].sessionId != "" then t.sessionId == rows[i].sessionId
        else FirstNamed(rows, (r: Row) => r.sessionId, t.sessionId))
    && (if rows[i].agentName != "" then t.agentName == rows[i].agentName
        else FirstNamed(rows, (r: Row) => r.agentName, t.agentName))
  }

  ghost predicate SessionRowIs(s: SessionRow, batch: seq<Row>, rows: seq<Row>, duration: (string, string) -> int) {
    && TotalsAre(s.totals, batch, (r: Row) => r.sessionId, s.sessionId, duration)
    && s.traceCount == |set r | r in rows :: r.traceId|
    && FirstNamed(rows, (r: Row) => r.userId, s.userId)
    && FirstNamed(rows, (r: Row) => r.agentName, s.agentName)
  }

  lemma {:induction false} SumOfSameKey(
      rows: seq<Row>, key: Row -> string, same: Row -> string, k: string, f: Row -> int)
    requires forall r :: key(r) == same(r)
    ensures SumWhere(rows, key, k, f) == SumWhere(rows, same, k, f)
  {
    if rows != [] { SumOfSameKey(rows[..|rows| - 1], key, same, k, f); }
  }

  lemma TotalsOfSameKey(
      t: Totals, batch: seq<Row>, key: Row -> string, same: Row -> string, k: string, duration: (string, string) -> int)
    requires TotalsAre(t, batch, key, k, duration) && forall r :: key(r) == same(r)
    ensures TotalsAre(t, batch, same, k, duration)
  {
    hide SumWhere, Leq;
    assert Places(batch, key, k) == Places(batch, same, k);
    assert ErrorPlaces(batch, key, k) == ErrorPlaces(batch, same, k);
    forall f: Row -> int ensures SumWhere(batch, key, k, f) == SumWhere(batch, same, k, f) {
      SumOfSameKey(batch, key, same, k, f);
    }
  }

  lemma SameNamed(rows: seq<Row>, field: Row -> string, same: Row -> string, text: string)
    requires FirstNamed(rows, field, text) && forall r :: field(r) == same(r)
    ensures FirstNamed(rows, same, text)
  {
    if i: nat :| FirstNamedAt(rows, field, text, i) { assert FirstNamedAt(rows, same, text, i); }
  }

  lemma FirstEarliestExists(rows: seq<Row>) returns (i: nat)
    requires rows != []
    ensures FirstEarliest(rows, i)
  {
    hide IsEarliest;
    RootIsEarliest(rows);
    assert RootOf(rows) in rows by { Member(RootOf(rows), rows); }
    var n: nat :| n < |rows| && rows[n] == RootOf(rows);
    i := FirstUpTo(rows, n);
  }

  lemma {:induction false} FirstUpTo(rows: seq<Row>, n: nat) returns (i: nat)
    requires n < |rows| && IsEarliest(rows[n], rows)
    ensures FirstEarliest(rows, i)
  {
    hide IsEarliest;
    if j :| 0 <= j < n && IsEarliest(rows[j], rows) { i := FirstUpTo(rows, j); } else { i := n; }
  }

  lemma TraceNames(id: string, rows: seq<Row>, duration: (string, string) -> int) returns (i: nat)
    requires rows != []
    ensures FirstEarliest(rows, i)
    ensures var t := TraceOf(id, rows, duration);
      && t.rootSpanName == rows[i].name
      && (if rows[i].sessionId != "" then t.sessionId == rows[i].sessionId
          else FirstNamed(rows, (r: Row) => r.sessionId, t.sessionId))
      && (if rows[i].agentName != "" then t.agentName == rows[i].agentName
          else FirstNamed(rows, (r: Row) => r.agentName, t.agentName))
  {
    hide RootOf, FirstText, TotalsOf, StatusOf, IsEarliest, FirstNamed;
    i := FirstEarliestExists(rows);
    RootIsFirst(rows, i);
    FirstTextIs(rows, SessionKey);
    FirstTextIs(rows, AgentName);
    SameNamed(rows, SessionKey, (r: Row) => r.sessionId, FirstText(rows, SessionKey));
    SameNamed(rows, AgentName, (r: Row) => r.agentName, FirstText(rows, AgentName));
  }

  lemma StatusIs(rows: seq<Row>)
    ensures var error, ok :=
        (exists r :: r in rows && r.statusCode == "ERROR"), exists r :: r in rows && r.statusCode == "OK";
      && (StatusOf(rows) == "ERROR" <==> error)
      && (StatusOf(rows) == "OK" <==> !error && ok)
      && (StatusOf(rows) == "UNSET" <==> !error && !ok)
  {
    SomeErrors(rows);
  }

  lemma {:induction false} SomeErrors(rows: seq<Row>)
    ensures Errors(rows) > 0 <==> exists r :: r in rows && r.statusCode == "ERROR"
  {
    if rows != [] {
      var n := |rows| - 1;
      SomeErrors(rows[..n]);
      assert rows == rows[..n] + [rows[n]];
    }
  }

  lemma TraceRowIsRight(batch: seq<Row>, id: string, duration: (string, string) -> int)
      returns (rows: seq<Row>, at: seq<nat>, i: nat)
    requires id in Keys(batch, TraceKey)
    ensures IsTrace(rows, batch, id, at)
    ensures var t := TraceFor(batch, id, duration); t.traceId == id && TraceRowIs(t, batch, rows, i, duration)
  {
    hide Group, Keys, TotalsOf, RootOf, FirstText, StatusOf, TotalsAre, FirstEarliest, FirstNamed;
    GroupIsNonEmpty(batch, TraceKey, id);
    rows := Group(batch, TraceKey, id);
    at := GroupIs(batch, TraceKey, id);
    GroupMembers(batch, TraceKey, id);
    TotalsOfGroup(batch, TraceKey, id, duration);
    TotalsOfSameKey(TotalsOf(rows, duration), batch, TraceKey, (r: Row) => r.traceId, id, duration);
    StatusIs(rows);
    i := TraceNames(id, rows, duration);
  }

  /**
   The trace rows are right. They come in the order in which their traces first occur, and each says
   of the observations of its trace what it should; `rows` are these in batch order, and `i` is the
   root among them.
   */
  lemma TraceRowsAreRight(batch: seq<Row>, duration: (string, string) -> int, j: nat)
      returns (first: seq<nat>, rows: seq<Row>, at: seq<nat>, i: nat)
    requires j < |TraceRows(batch, duration)|
    ensures var traces := TraceRows(batch, duration);
      && InOrder(batch, (r: Row) => r.traceId, TraceIds(traces), first)
      && IsTrace(rows, batch, traces[j].traceId, at)
      && TraceRowIs(traces[j], batch, rows, i, duration)
  {
    hide Group, Keys, TraceOf, TraceRowIs;
    var keys := Keys(batch, TraceKey);
    first := KeysInOrder(batch, TraceKey);
    TraceIdsAre(batch, duration);
    rows, at, i := TraceRowIsRight(batch, keys[j], duration);
  }

  lemma TraceIdsAre(batch: seq<Row>, duration: (string, string) -> int)
    ensures TraceIds(TraceRows(batch, duration)) == Keys(batch, TraceKey)
  {
    hide Group, Keys, TotalsOf, RootOf, FirstText, StatusOf;
  }

  lemma SessionIdsAre(batch: seq<Row>, duration: (string, string) -> int)
    ensures SessionIds(SessionRows(batch, duration)) == Keys(WithSession(batch), SessionKey)
  {
    hide Group, Keys, TotalsOf, FirstText, WithSession;
  }

  /** The rows of a session name it, and its row says of them what it should. */
  lemma SessionRowIsRight(batch: seq<Row>, id: string, duration: (string, string) -> int)
      returns (rows: seq<Row>, at: seq<nat>)
    requires id in Keys(WithSession(batch), SessionKey)
    ensures id != "" && PickedAt(rows, batch, (r: Row) => r.sessionId, id, at)
    ensures var s := SessionFor(WithSession(batch), id, duration);
      s.sessionId == id && SessionRowIs(s, batch, rows, duration)
  {
    hide Group, Keys, TotalsOf, FirstText, TotalsAre, FirstNamed, WithSession;
    SessionGroup(batch, id);
    KeysAreDistinct(WithSession(batch), SessionKey);
    WithSessionRows(batch);
    rows := Group(batch, SessionKey, id);
    at := GroupIs(batch, SessionKey, id);
    TotalsOfGroup(batch, SessionKey, id, duration);
    TotalsOfSameKey(TotalsOf(rows, duration), batch, SessionKey, (r: Row) => r.sessionId, id, duration);
    KeyCount(rows, TraceKey);
    assert KeySet(rows, TraceKey) == set r | r in rows :: r.traceId;
    FirstTextIs(rows, UserId);
    FirstTextIs(rows, AgentName);
    SameNamed(rows, UserId, (r: Row) => r.userId, FirstText(rows, UserId));
    SameNamed(rows, AgentName, (r: Row) => r.agentName, FirstText(rows, AgentName));
  }

  /** The session rows are right, in the order in which their sessions first occur. */
  lemma SessionRowsAreRight(batch: seq<Row>, duration: (string, string) -> int, j: nat)
      returns (first: seq<nat>, rows: seq<Row>, at: seq<nat>)
    requires j < |SessionRows(batch, duration)|
    ensures var sessions := SessionRows(batch, duration);
      && InOrder(WithSession(batch), (r: Row) => r.sessionId, SessionIds(sessions), first)
      && sessions[j].sessionId != ""
      && PickedAt(rows, batch, (r: Row) => r.sessionId, sessions[j].sessionId, at)
      && SessionRowIs(sessions[j], batch, rows, duration)
  {
    hide Group, Keys, SessionOf, SessionRowIs, WithSession;
    var keys := Keys(WithSession(batch), SessionKey);
    first := KeysInOrder(WithSession(batch), SessionKey);
    SessionIdsAre(batch, duration);
    rows, at := SessionRowIsRight(batch, keys[j], duration);
  }
}
