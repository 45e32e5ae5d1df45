/**
 What aggregation keeps: one row for each trace, totals that add up to those of the batch,
 bounds that are the true first and last instants, and independence of the order of the batch.
 */
module AggregationLaws {
  import opened Options
  import opened Text
  import opened Sorting
  import opened Aggregation
  import Timestamps

  // ---- conservation ----

  function SumTotals(totals: seq<Totals>, g: Totals -> int): int {
    if totals == [] then 0 else SumTotals(totals[..|totals| - 1], g) + g(totals[|totals| - 1])
  }

  function SumGroups(rows: seq<Row>, key: Row -> string, keys: seq<string>, f: Row -> int): int {
    if keys == [] then 0
    else SumGroups(rows, key, keys[..|keys| - 1], f) + Sum(Group(rows, key, keys[|keys| - 1]), f)
  }

  ghost predicate Distinct(keys: seq<string>) {
    forall i, j :: 0 <= i < j < |keys| ==> keys[i] != keys[j]
  }

  /** One more row adds its value to the group of its key and to no other. */
  lemma GroupOneMore(rows: seq<Row>, r: Row, key: Row -> string, k: string, f: Row -> int)
    ensures Sum(Group(rows + [r], key, k), f) == Sum(Group(rows, key, k), f) + if key(r) == k then f(r) else 0
  {
    var g := Group(rows, key, k);
    assert (rows + [r])[..|rows|] == rows;
    assert (g + [r])[..|g|] == g;
    assert g + [] == g;
  }

  lemma {:induction false} SumGroupsOneMore(
      rows: seq<Row>, r: Row, key: Row -> string, keys: seq<string>, f: Row -> int)
    requires Distinct(keys)
    ensures SumGroups(rows + [r], key, keys, f) == SumGroups(rows, key, keys, f) + if key(r) in keys then f(r) else 0
  {
    hide Sum, Group;
    if keys != [] {
      var n := |keys| - 1;
      SumGroupsOneMore(rows, r, key, keys[..n], f);
      GroupOneMore(rows, r, key, keys[n], f);
      assert keys == keys[..n] + [keys[n]];
    }
  }

  /** Summing group by group gives the sum of the batch. */
  lemma {:induction false} GroupsPartition(rows: seq<Row>, key: Row -> string, keys: seq<string>, f: Row -> int)
    requires Distinct(keys) && forall r :: r in rows ==> key(r) in keys
    ensures SumGroups(rows, key, keys, f) == Sum(rows, f)
    decreases |rows|
  {
    if rows == [] {
      EmptyGroups(key, keys, f);
    } else {
      var n := |rows| - 1;
      assert rows == rows[..n] + [rows[n]];
      GroupsPartition(rows[..n], key, keys, f);
      SumGroupsOneMore(rows[..n], rows[n], key, keys, f);
    }
  }

  lemma {:induction false} EmptyGroups(key: Row -> string, keys: seq<string>, f: Row -> int)
    ensures SumGroups([], key, keys, f) == 0
  {
    if keys != [] { EmptyGroups(key, keys[..|keys| - 1], f); }
  }

  lemma {:induction false} SumOfOnes(rows: seq<Row>)
    ensures Sum(rows, One) == |rows|
  {
    if rows != [] { SumOfOnes(rows[..|rows| - 1]); }
  }

  function GroupTotals(
      rows: seq<Row>, key: Row -> string, keys: seq<string>, duration: (string, string) -> int): seq<Totals>
    requires forall k :: k in keys ==> Group(rows, key, k) != []
  {
    if keys == [] then []
    else
      var n := |keys| - 1;
      GroupTotals(rows, key, keys[..n], duration) + [TotalsOf(Group(rows, key, keys[n]), duration)]
  }

  /** A field of the totals that is a sum over the rows of a group. */
  ghost predicate Sums(g: Totals -> int, f: Row -> int, duration: (string, string) -> int) {
    forall rows: seq<Row> :: rows != [] ==> g(TotalsOf(rows, duration)) == Sum(rows, f)
  }

  lemma {:induction false} TotalsAddUp(rows: seq<Row>, key: Row -> string, keys: seq<string>,
                                       g: Totals -> int, f: Row -> int, duration: (string, string) -> int)
    requires forall k :: k in keys ==> Group(rows, key, k) != []
    requires Sums(g, f, duration)
    ensures SumTotals(GroupTotals(rows, key, keys, duration), g) == SumGroups(rows, key, keys, f)
  {
    if keys != [] {
      var n := |keys| - 1;
      TotalsAddUp(rows, key, keys[..n], g, f, duration);
      var front := GroupTotals(rows, key, keys[..n], duration);
      assert (front + [TotalsOf(Group(rows, key, keys[n]), duration)])[..|front|] == front;
    }
  }

  function Observations(t: Totals): int { t.observations }

  function ErrorCount(t: Totals): int { t.errors }

  function InputTokens(t: Totals): int { t.inputTokens }

  function OutputTokens(t: Totals): int { t.outputTokens }

  function TotalTokens(t: Totals): int { t.totalTokens }

  /** The totals of a list of rows add up to those of the batch they were made from. */
  ghost predicate AddsUpTo(totals: seq<Totals>, rows: seq<Row>) {
    && SumTotals(totals, Observations) == |rows|
    && SumTotals(totals, ErrorCount) == Sum(rows, (r: Row) => if r.statusCode == "ERROR" then 1 else 0)
    && SumTotals(totals, InputTokens) == Sum(rows, (r: Row) => r.inputTokens)
    && SumTotals(totals, OutputTokens) == Sum(rows, (r: Row) => r.outputTokens)
    && SumTotals(totals, TotalTokens) == Sum(rows, (r: Row) => r.totalTokens)
  }

  lemma GroupsAddUp(rows: seq<Row>, key: Row -> string, duration: (string, string) -> int)
    ensures var keys := Keys(rows, key);
      && (forall k :: k in keys ==> Group(rows, key, k) != [])
      && AddsUpTo(GroupTotals(rows, key, keys, duration), rows)
  {
    hide Group, Keys;
    var keys := Keys(rows, key);
    KeysAreDistinct(rows, key);
    forall k | k in keys ensures Group(rows, key, k) != [] { GroupIsNonEmpty(rows, key, k); }
    forall rows: seq<Row> ensures Sum(rows, One) == |rows| { SumOfOnes(rows); }
    AddsUpOne(rows, key, keys, Observations, One, duration);
    AddsUpOne(rows, key, keys, ErrorCount, IsError, duration);
    AddsUpOne(rows, key, keys, InputTokens, Input, duration);
    AddsUpOne(rows, key, keys, OutputTokens, Output, duration);
    AddsUpOne(rows, key, keys, TotalTokens, Total, duration);
    SumOfSame(rows, IsError, (r: Row) => if r.statusCode == "ERROR" then 1 else 0);
    SumOfSame(rows, Input, (r: Row) => r.inputTokens);
    SumOfSame(rows, Output, (r: Row) => r.outputTokens);
    SumOfSame(rows, Total, (r: Row) => r.totalTokens);
  }

  lemma {:induction false} SumOfSame(rows: seq<Row>, f: Row -> int, g: Row -> int)
    requires forall r :: f(r) == g(r)
    ensures Sum(rows, f) == Sum(rows, g)
  {
    if rows != [] { SumOfSame(rows[..|rows| - 1], f, g); }
  }

  lemma AddsUpOne(rows: seq<Row>, key: Row -> string, keys: seq<string>,
                  g: Totals -> int, f: Row -> int, duration: (string, string) -> int)
    requires Distinct(keys) && forall r :: r in rows ==> key(r) in keys
    requires forall k :: k in keys ==> Group(rows, key, k) != []
    requires Sums(g, f, duration)
    ensures SumTotals(GroupTotals(rows, key, keys, duration), g) == Sum(rows, f)
  {
    TotalsAddUp(rows, key, keys, g, f, duration);
    GroupsPartition(rows, key, keys, f);
  }

  function TotalsOfTraces(traces: seq<TraceRow>): seq<Totals> {
    seq(|traces|, i requires 0 <= i < |traces| => traces[i].totals)
  }

  function TotalsOfSessions(sessions: seq<SessionRow>): seq<Totals> {
    seq(|sessions|, i requires 0 <= i < |sessions| => sessions[i].totals)
  }

  lemma {:induction false} GroupTotalsAt(
      rows: seq<Row>, key: Row -> string, keys: seq<string>, duration: (string, string) -> int)
    requires forall k :: k in keys ==> Group(rows, key, k) != []
    ensures |GroupTotals(rows, key, keys, duration)| == |keys|
    ensures forall i :: 0 <= i < |keys| ==>
      GroupTotals(rows, key, keys, duration)[i] == TotalsOf(Group(rows, key, keys[i]), duration)
  {
    hide Group;
    if keys != [] { GroupTotalsAt(rows, key, keys[..|keys| - 1], duration); }
  }

  function TraceIds(traces: seq<TraceRow>): seq<string> {
    seq(|traces|, i requires 0 <= i < |traces| => traces[i].traceId)
  }

  function SessionIds(sessions: seq<SessionRow>): seq<string> {
    seq(|sessions|, i requires 0 <= i < |sessions| => sessions[i].sessionId)
  }

  /** `ids` lists the keys that occur in `rows`, each exactly once. */
  ghost predicate ListsKeys(ids: seq<string>, rows: seq<Row>, key: Row -> string) {
    Distinct(ids) && (set id | id in ids) == set r | r in rows :: key(r)
  }

  lemma KeysListKeys(rows: seq<Row>, key: Row -> string)
    ensures ListsKeys(Keys(rows, key), rows, key)
  {
    hide Keys;
    KeysAreDistinct(rows, key);
  }

  /**
   Conservation: there is exactly one trace row for each trace of the batch, and the trace rows
   add up to the batch; there is exactly one session row for each session, and the session rows
   add up to the rows that have a session.
   */
  lemma AggregationConserves(batch: seq<Row>, duration: (string, string) -> int)
    ensures var traces := TraceRows(batch, duration);
      ListsKeys(TraceIds(traces), batch, TraceKey) && AddsUpTo(TotalsOfTraces(traces), batch)
    ensures var sessions, rows := SessionRows(batch, duration), WithSession(batch);
      ListsKeys(SessionIds(sessions), rows, SessionKey) && AddsUpTo(TotalsOfSessions(sessions), rows)
  {
    TraceRowsConserve(batch, duration);
    SessionRowsConserve(batch, duration);
  }

  lemma TraceRowsConserve(batch: seq<Row>, duration: (string, string) -> int)
    ensures var traces := TraceRows(batch, duration);
      ListsKeys(TraceIds(traces), batch, TraceKey) && AddsUpTo(TotalsOfTraces(traces), batch)
  {
    hide Group, Keys, TotalsOf, RootOf, AddsUpTo, ListsKeys;
    var traces, keys := TraceRows(batch, duration), Keys(batch, TraceKey);
    KeysListKeys(batch, TraceKey);
    GroupsAddUp(batch, TraceKey, duration);
    GroupTotalsAt(batch, TraceKey, keys, duration);
    assert TotalsOfTraces(traces) == GroupTotals(batch, TraceKey, keys, duration);
    assert TraceIds(traces) == keys;
  }

  lemma SessionRowsConserve(batch: seq<Row>, duration: (string, string) -> int)
    ensures var sessions, rows := SessionRows(batch, duration), WithSession(batch);
      ListsKeys(SessionIds(sessions), rows, SessionKey) && AddsUpTo(TotalsOfSessions(sessions), rows)
  {
    hide Group, Keys, TotalsOf, AddsUpTo, ListsKeys, WithSession;
    var rows := WithSession(batch);
    var sessions, keys := SessionRows(batch, duration), Keys(rows, SessionKey);
    KeysListKeys(rows, SessionKey);
    GroupsAddUp(rows, SessionKey, duration);
    GroupTotalsAt(rows, SessionKey, keys, duration);
    assert TotalsOfSessions(sessions) == GroupTotals(rows, SessionKey, keys, duration);
    assert SessionIds(sessions) == keys;
  }

  /** The rows that have a session are those with a non-empty session identifier. */
  lemma {:induction false} WithSessionRows(rows: seq<Row>)
    ensures forall r :: r in WithSession(rows) <==> r in rows && r.sessionId != ""
  {
    if rows != [] {
      var n := |rows| - 1;
      WithSessionRows(rows[..n]);
      assert rows == rows[..n] + [rows[n]];
    }
  }

  // ---- independence of the order ----

  lemma {:induction false} SumConcat(a: seq<Row>, b: seq<Row>, f: Row -> int)
    ensures Sum(a + b, f) == Sum(a, f) + Sum(b, f)
    decreases |b|
  {
    if b == [] {
      assert a + b == a;
    } else {
      var n := |b| - 1;
      assert (a + b)[..|a + b| - 1] == a + b[..n];
      SumConcat(a, b[..n], f);
    }
  }

  lemma SumWithout(b: seq<Row>, k: nat, f: Row -> int)
    requires k < |b|
    ensures Sum(b, f) == Sum(b[..k] + b[k + 1..], f) + f(b[k])
  {
    hide Sum;
    assert b == b[..k] + [b[k]] + b[k + 1..];
    SumConcat(b[..k] + [b[k]], b[k + 1..], f);
    SumConcat(b[..k], [b[k]], f);
    SumConcat(b[..k], b[k + 1..], f);
    SumOfOne(b[k], f);
  }

  lemma SumOfOne(r: Row, f: Row -> int)
    ensures Sum([r], f) == f(r)
  {
    assert [r][..0] == [];
  }

  /** Sums do not depend on the order. */
  lemma {:induction false} SumOfPermutation(a: seq<Row>, b: seq<Row>, f: Row -> int)
    requires multiset(a) == multiset(b)
    ensures Sum(a, f) == Sum(b, f)
    decreases |a|
  {
    if a == [] {
      assert |b| == |multiset(b)| == 0;
    } else {
      var n := |a| - 1;
      assert a[n] in multiset(b);
      var k :| 0 <= k < |b| && b[k] == a[n];
      assert a[..n] + a[n + 1..] == a[..n];
      RemoveOne(a, n);
      RemoveOne(b, k);
      SumWithout(b, k, f);
      SumOfPermutation(a[..n], b[..k] + b[k + 1..], f);
    }
  }

  lemma {:induction false} GroupCounts(rows: seq<Row>, key: Row -> string, k: string, r: Row)
    ensures multiset(Group(rows, key, k))[r] == if key(r) == k then multiset(rows)[r] else 0
  {
    if rows != [] {
      var n := |rows| - 1;
      GroupCounts(rows[..n], key, k, r);
      assert rows == rows[..n] + [rows[n]];
    }
  }

  lemma GroupOfPermutation(a: seq<Row>, b: seq<Row>, key: Row -> string, k: string)
    requires multiset(a) == multiset(b)
    ensures multiset(Group(a, key, k)) == multiset(Group(b, key, k))
  {
    forall r ensures multiset(Group(a, key, k))[r] == multiset(Group(b, key, k))[r] {
      GroupCounts(a, key, k, r);
      GroupCounts(b, key, k, r);
    }
  }

  /** The start of a group: attained by a row, and not after that of any. */
  lemma {:induction false} StartIsLeast(rows: seq<Row>)
    requires rows != []
    ensures exists r :: r in rows && r.startedAt == MinStart(rows)
    ensures forall r :: r in rows ==> Leq(MinStart(rows), r.startedAt)
  {
    hide Leq;
    var n := |rows| - 1;
    var front, last := rows[..n], rows[n];
    assert rows == front + [last];
    LeqReflexive(last.startedAt);
    if n > 0 {
      StartIsLeast(front);
      LeqTotal(MinStart(front), last.startedAt);
      forall r | r in front ensures Leq(MinStart(rows), r.startedAt) {
        if Leq(last.startedAt, MinStart(front)) {
          LeqTransitive(last.startedAt, MinStart(front), r.startedAt);
        }
      }
    }
  }

  /** The end of a group: attained by a row, and not before that of any. */
  lemma {:induction false} EndIsGreatest(rows: seq<Row>)
    requires rows != []
    ensures exists r :: r in rows && r.endedAt == MaxEnd(rows)
    ensures forall r :: r in rows ==> Leq(r.endedAt, MaxEnd(rows))
  {
    hide Leq;
    var n := |rows| - 1;
    var front, last := rows[..n], rows[n];
    assert rows == front + [last];
    LeqReflexive(last.endedAt);
    if n > 0 {
      EndIsGreatest(front);
      LeqTotal(MaxEnd(front), last.endedAt);
      forall r | r in front ensures Leq(r.endedAt, MaxEnd(rows)) {
        if Leq(MaxEnd(front), last.endedAt) {
          LeqTransitive(r.endedAt, MaxEnd(front), last.endedAt);
        }
      }
    }
  }

  lemma BoundsOfPermutation(a: seq<Row>, b: seq<Row>)
    requires a != [] && b != [] && multiset(a) == multiset(b)
    ensures MinStart(a) == MinStart(b) && MaxEnd(a) == MaxEnd(b)
  {
    hide Leq, MinStart, MaxEnd;
    assert forall r :: r in a <==> r in multiset(a);
    assert forall r :: r in b <==> r in multiset(b);
    StartIsLeast(a);
    StartIsLeast(b);
    EndIsGreatest(a);
    EndIsGreatest(b);
    LeqAntisymmetric(MinStart(a), MinStart(b));
    LeqAntisymmetric(MaxEnd(a), MaxEnd(b));
  }

  /** Totals and status of a group do not depend on the order of its rows. */
  lemma TotalsOfPermutation(a: seq<Row>, b: seq<Row>, duration: (string, string) -> int)
    requires a != [] && b != [] && multiset(a) == multiset(b)
    ensures TotalsOf(a, duration) == TotalsOf(b, duration)
    ensures StatusOf(a) == StatusOf(b)
  {
    hide MinStart, MaxEnd;
    BoundsOfPermutation(a, b);
    SumOfPermutation(a, b, IsError);
    SumOfPermutation(a, b, Input);
    SumOfPermutation(a, b, Output);
    SumOfPermutation(a, b, Aggregation.Total);
    assert |a| == |multiset(a)| == |multiset(b)| == |b|;
    assert forall r :: r in a <==> r in multiset(a);
    assert forall r :: r in b <==> r in multiset(b);
  }

  lemma RowOrder()
    ensures IsTotal(RowLeq) && IsTransitive(RowLeq)
  {
    hide Leq;
    StringOrder();
    forall x, y, z | RowLeq(x, y) && RowLeq(y, z) ensures RowLeq(x, z) {
      LeqTransitive(x.startedAt, y.startedAt, z.startedAt);
      if x.startedAt == z.startedAt && x.startedAt != y.startedAt {
        LeqAntisymmetric(x.startedAt, y.startedAt);
      }
    }
  }

  /** No row of those without a parent, or of all if each has one, comes before `root`, which is one of them. */
  ghost predicate IsEarliest(root: Row, rows: seq<Row>) {
    && root in rows
    && ((exists r :: r in rows && r.parentSpanId == "") ==> root.parentSpanId == "")
    && forall r :: r in rows && (root.parentSpanId == "" ==> r.parentSpanId == "") ==> RowLeq(root, r)
  }

  /** Rows that tie for the root are equal. */
  ghost predicate OneEarliest(rows: seq<Row>) {
    forall x, y :: IsEarliest(x, rows) && IsEarliest(y, rows) ==> x == y
  }

  lemma EarliestOfPermutation(a: seq<Row>, b: seq<Row>)
    requires multiset(a) == multiset(b)
    ensures forall r :: IsEarliest(r, a) <==> IsEarliest(r, b)
  {
    hide RowLeq;
    assert forall r :: r in a <==> r in multiset(a);
    assert forall r :: r in b <==> r in multiset(b);
  }

  /**
   The row of a trace does not depend on the order of the batch: totals, bounds, duration and
   status never do, and the chosen root does not when the rows that tie for it are equal.
   */
  lemma TraceOfPermutation(a: seq<Row>, b: seq<Row>, id: string, duration: (string, string) -> int)
    requires multiset(a) == multiset(b) && id in Keys(a, TraceKey)
    ensures id in Keys(b, TraceKey)
    ensures TraceFor(a, id, duration).totals == TraceFor(b, id, duration).totals
    ensures TraceFor(a, id, duration).statusCode == TraceFor(b, id, duration).statusCode
    ensures OneEarliest(Group(a, TraceKey, id)) ==> RootFor(a, id) == RootFor(b, id)
  {
    hide Group, Keys, TotalsOf, RootOf, StatusOf, IsEarliest;
    KeysAreDistinct(a, TraceKey);
    KeysAreDistinct(b, TraceKey);
    assert forall r :: r in a <==> r in multiset(a);
    assert forall r :: r in b <==> r in multiset(b);
    GroupIsNonEmpty(a, TraceKey, id);
    GroupIsNonEmpty(b, TraceKey, id);
    GroupOfPermutation(a, b, TraceKey, id);
    TotalsOfPermutation(Group(a, TraceKey, id), Group(b, TraceKey, id), duration);
    EarliestOfPermutation(Group(a, TraceKey, id), Group(b, TraceKey, id));
    RootIsEarliest(Group(a, TraceKey, id));
    RootIsEarliest(Group(b, TraceKey, id));
  }

  /** `root` stands at `i`, has no parent, and each row before it has one. */
  ghost predicate FirstRootAt(rows: seq<Row>, root: Row, i: nat) {
    && i < |rows| && rows[i] == root && root.parentSpanId == ""
    && forall j :: 0 <= j < i ==> rows[j].parentSpanId != ""
  }

  ghost predicate AllHaveParents(rows: seq<Row>) {
    forall i :: 0 <= i < |rows| ==> rows[i].parentSpanId != ""
  }

  lemma {:induction false} FirstRootIsFirst(rows: seq<Row>) returns (i: nat)
    ensures FirstRoot(rows).None? ==> AllHaveParents(rows)
    ensures FirstRoot(rows).Some? ==> FirstRootAt(rows, FirstRoot(rows).value, i)
  {
    i := 0;
    if rows != [] && rows[0].parentSpanId != "" {
      var k := FirstRootIsFirst(rows[1..]);
      assert forall j :: 1 <= j < |rows| ==> rows[j] == rows[1..][j - 1];
      i := k + 1;
    }
  }

  /** The root of a trace is the earliest of its rows without a parent, or of all its rows if each has one. */
  lemma RootIsEarliest(rows: seq<Row>)
    requires rows != []
    ensures IsEarliest(RootOf(rows), rows)
  {
    hide Sort, FirstRoot, Leq;
    var sorted := Sort(rows, RowLeq);
    RowOrder();
    SortSorts(rows, RowLeq);
    SortElements(rows, RowLeq);
    var i := FirstRootIsFirst(sorted);
    if FirstRoot(sorted).None? { i := 0; }
    assert forall r :: r in sorted <==> r in multiset(sorted);
    assert forall r :: r in rows <==> r in multiset(rows);
    var root := RootOf(rows);
    forall r | r in rows && (root.parentSpanId == "" ==> r.parentSpanId == "") ensures RowLeq(root, r) {
      var k :| 0 <= k < |sorted| && sorted[k] == r;
      if k == i { LeqReflexive(r.spanId); }
    }
  }

  /** The text that a row takes over from others: that of the first row which has one, and none iff no row has. */
  lemma {:induction false} FirstTextIsFirst(rows: seq<Row>, field: Row -> string) returns (i: nat)
    ensures FirstText(rows, field) == "" <==> forall r :: r in rows ==> field(r) == ""
    ensures FirstText(rows, field) != "" ==>
      && i < |rows| && FirstText(rows, field) == field(rows[i])
      && forall j :: 0 <= j < i ==> field(rows[j]) == ""
  {
    i := 0;
    if rows != [] {
      assert rows == [rows[0]] + rows[1..];
      var k := FirstTextIsFirst(rows[1..], field);
      if field(rows[0]) == "" {
        i := k + 1;
        assert forall j :: 1 <= j < |rows| ==> rows[j] == rows[1..][j - 1];
      }
    }
  }

  /** A trace names a session, and an agent, iff some row of it does; and then one that a row of it names. */
  lemma TraceNamesComeFromRows(id: string, rows: seq<Row>, duration: (string, string) -> int)
    requires rows != []
    ensures var t := TraceOf(id, rows, duration);
      && t.traceId == id
      && (t.sessionId == "" <==> forall r :: r in rows ==> r.sessionId == "")
      && (t.agentName == "" <==> forall r :: r in rows ==> r.agentName == "")
      && (exists r :: r in rows && t.rootSpanName == r.name)
      && (exists r :: r in rows && t.sessionId == r.sessionId)
      && (exists r :: r in rows && t.agentName == r.agentName)
  {
    hide RootOf, TotalsOf, FirstText;
    var root := RootOf(rows);
    RootIsEarliest(rows);
    var i := FirstTextIsFirst(rows, SessionKey);
    var j := FirstTextIsFirst(rows, AgentName);
    assert root in rows && SessionKey(root) == root.sessionId && AgentName(root) == root.agentName;
  }

  lemma {:induction false} WithSessionCounts(rows: seq<Row>, r: Row)
    ensures multiset(WithSession(rows))[r] == if r.sessionId != "" then multiset(rows)[r] else 0
  {
    if rows != [] {
      var n := |rows| - 1;
      WithSessionCounts(rows[..n], r);
      assert rows == rows[..n] + [rows[n]];
    }
  }

  function KeySet(rows: seq<Row>, key: Row -> string): set<string> {
    set r | r in rows :: key(r)
  }

  lemma {:induction false} KeyCount(rows: seq<Row>, key: Row -> string)
    ensures |Keys(rows, key)| == |KeySet(rows, key)|
  {
    if rows != [] {
      var n := |rows| - 1;
      var front, k := rows[..n], key(rows[n]);
      KeyCount(front, key);
      KeysAreDistinct(front, key);
      assert rows == front + [rows[n]];
      assert KeySet(rows, key) == KeySet(front, key) + {k};
      if k in KeySet(front, key) {
        assert KeySet(front, key) + {k} == KeySet(front, key);
      }
    }
  }

  /** A session counts its distinct traces, and names a user, or an agent, iff some row of it does. */
  lemma SessionNamesComeFromRows(id: string, rows: seq<Row>, duration: (string, string) -> int)
    requires rows != []
    ensures var s := SessionOf(id, rows, duration);
      && s.sessionId == id
      && s.traceCount == |KeySet(rows, TraceKey)|
      && (s.userId == "" <==> forall r :: r in rows ==> r.userId == "")
      && (s.agentName == "" <==> forall r :: r in rows ==> r.agentName == "")
      && (exists r :: r in rows && s.userId == r.userId)
      && (exists r :: r in rows && s.agentName == r.agentName)
  {
    hide TotalsOf, FirstText, Keys;
    KeyCount(rows, TraceKey);
    var i := FirstTextIsFirst(rows, UserId);
    var j := FirstTextIsFirst(rows, AgentName);
    assert rows[0] in rows && UserId(rows[0]) == rows[0].userId && AgentName(rows[0]) == rows[0].agentName;
  }

  lemma WithSessionOfPermutation(a: seq<Row>, b: seq<Row>)
    requires multiset(a) == multiset(b)
    ensures multiset(WithSession(a)) == multiset(WithSession(b))
  {
    forall r ensures multiset(WithSession(a))[r] == multiset(WithSession(b))[r] {
      WithSessionCounts(a, r);
      WithSessionCounts(b, r);
    }
  }

  lemma KeysOfPermutation(a: seq<Row>, b: seq<Row>, key: Row -> string)
    requires multiset(a) == multiset(b)
    ensures |Keys(a, key)| == |Keys(b, key)|
    ensures forall k :: k in Keys(a, key) <==> k in Keys(b, key)
  {
    hide Keys;
    assert forall r :: r in a <==> r in multiset(a);
    assert forall r :: r in b <==> r in multiset(b);
    KeyCount(a, key);
    KeyCount(b, key);
    assert KeySet(a, key) == KeySet(b, key);
    KeysAreDistinct(a, key);
    KeysAreDistinct(b, key);
  }

  /** The totals and the number of traces of a session do not depend on the order of the batch. */
  lemma SessionOfPermutation(a: seq<Row>, b: seq<Row>, id: string, duration: (string, string) -> int)
    requires multiset(a) == multiset(b) && id in Keys(WithSession(a), SessionKey)
    ensures id in Keys(WithSession(b), SessionKey)
    ensures var x, y := SessionFor(WithSession(a), id, duration), SessionFor(WithSession(b), id, duration);
      x.totals == y.totals && x.traceCount == y.traceCount
  {
    hide Group, Keys, TotalsOf, WithSession;
    var sa, sb := WithSession(a), WithSession(b);
    WithSessionOfPermutation(a, b);
    KeysOfPermutation(sa, sb, SessionKey);
    GroupIsNonEmpty(sa, SessionKey, id);
    GroupIsNonEmpty(sb, SessionKey, id);
    GroupOfPermutation(sa, sb, SessionKey, id);
    var ga, gb := Group(sa, SessionKey, id), Group(sb, SessionKey, id);
    TotalsOfPermutation(ga, gb, duration);
    KeysOfPermutation(ga, gb, TraceKey);
  }

  // ---- instants ----

  /** The texts of the rows were printed from the instants `start` and `end`. */
  ghost predicate Printed(rows: seq<Row>, start: Row -> int, end: Row -> int) {
    forall r :: r in rows ==>
      Timestamps.NsToDt64(start(r)) == Some(r.startedAt) && Timestamps.NsToDt64(end(r)) == Some(r.endedAt)
  }

  ghost predicate Earliest(r: Row, rows: seq<Row>, instant: Row -> int) {
    forall q :: q in rows ==> Timestamps.Millis(instant(r)) <= Timestamps.Millis(instant(q))
  }

  ghost predicate Latest(r: Row, rows: seq<Row>, instant: Row -> int) {
    forall q :: q in rows ==> Timestamps.Millis(instant(q)) <= Timestamps.Millis(instant(r))
  }

  /** The start of a group is that of a row that is truly earliest, to the millisecond, its end that of a latest one. */
  ghost predicate TrueBounds(rows: seq<Row>, start: Row -> int, end: Row -> int)
    requires rows != []
  {
    && (exists r :: r in rows && r.startedAt == MinStart(rows) && Earliest(r, rows, start))
    && (exists r :: r in rows && r.endedAt == MaxEnd(rows) && Latest(r, rows, end))
  }

  ghost predicate AllFrom(rows: seq<Row>, instant: Row -> int, from: int) {
    forall r :: r in rows ==> from <= instant(r)
  }

  /** Comparing texts finds the true bounds of all instants from the year 1000 on. */
  lemma BoundsAreTrue(rows: seq<Row>, start: Row -> int, end: Row -> int)
    requires rows != [] && Printed(rows, start, end)
    requires AllFrom(rows, start, Timestamps.YEAR_1000) && AllFrom(rows, end, Timestamps.YEAR_1000)
    ensures TrueBounds(rows, start, end)
  {
    hide Leq, MinStart, MaxEnd, Timestamps.NsToDt64, Timestamps.Millis;
    StartIsLeast(rows);
    EndIsGreatest(rows);
    var s :| s in rows && s.startedAt == MinStart(rows);
    var e :| e in rows && e.endedAt == MaxEnd(rows);
    forall q | q in rows
      ensures Timestamps.Millis(start(s)) <= Timestamps.Millis(start(q))
      ensures Timestamps.Millis(end(q)) <= Timestamps.Millis(end(e))
    {
      Timestamps.TextOrder(start(s), start(q));
      Timestamps.TextOrder(end(q), end(e));
    }
  }

  ghost predicate TrueFrom(from: int) {
    forall rows, start, end ::
      rows != [] && Printed(rows, start, end) && AllFrom(rows, start, from) && AllFrom(rows, end, from) ==>
        TrueBounds(rows, start, end)
  }

  /** The exact condition: the bounds of all groups from `from` on are true iff `from` is not before the year 1000. */
  lemma BoundsAreTrueIff(from: int)
    ensures TrueFrom(from) <==> from >= Timestamps.YEAR_1000
  {
    hide TrueBounds, Printed, AllFrom;
    if from >= Timestamps.YEAR_1000 {
      forall rows, start, end
        | rows != [] && Printed(rows, start, end) && AllFrom(rows, start, from) && AllFrom(rows, end, from)
        ensures TrueBounds(rows, start, end)
      {
        NotBefore(rows, start, from);
        NotBefore(rows, end, from);
        BoundsAreTrue(rows, start, end);
      }
    } else {
      var rows, instant := AtTheTurn(from);
    }
  }

  lemma NotBefore(rows: seq<Row>, instant: Row -> int, from: int)
    requires AllFrom(rows, instant, from) && from >= Timestamps.YEAR_1000
    ensures AllFrom(rows, instant, Timestamps.YEAR_1000)
  {
  }

  /** Two rows at the turn of the year 1000: the later one is taken for the start. */
  lemma AtTheTurn(from: int) returns (rows: seq<Row>, instant: Row -> int)
    requires from < Timestamps.YEAR_1000
    ensures rows != [] && Printed(rows, instant, instant) && AllFrom(rows, instant, from)
    ensures !TrueBounds(rows, instant, instant)
  {
    hide Leq, Timestamps.NsToDt64, MaxEnd;
    var a, b := Timestamps.YEAR_1000 - 1, Timestamps.YEAR_1000;
    Timestamps.TurnOfTheYear(a, b);
    var before, after := Timestamps.NsToDt64(a).value, Timestamps.NsToDt64(b).value;
    var x := Row("", "", "", "", "", "", "", before, before, "", 0, 0, 0);
    var y := x.(startedAt := after, endedAt := after);
    rows, instant := [x, y], (r: Row) => if r.startedAt == before then a else b;
    assert rows[..1] == [x];
    assert MinStart(rows) == after;
    assert Timestamps.Millis(a) < Timestamps.Millis(b);
    forall r | r in rows && r.startedAt == MinStart(rows) ensures !Earliest(r, rows, instant) {
      assert r == y && x in rows;
    }
  }
}
