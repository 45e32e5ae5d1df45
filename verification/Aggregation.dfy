/**
 The aggregation of a batch of spans into one row per trace and one row per session.
 */
module Aggregation {
  import opened Options
  import opened Text
  import opened Sorting

  /** An observation, with the token counts as integers and absent texts as empty ones. */
  datatype Row = Row(
    traceId: string, spanId: string, parentSpanId: string, sessionId: string,
    name: string, agentName: string, userId: string,
    startedAt: string, endedAt: string, statusCode: string,
    inputTokens: int, outputTokens: int, totalTokens: int)

  datatype Totals = Totals(
    startedAt: string, endedAt: string, durationMs: int, observations: nat, errors: nat,
    inputTokens: int, outputTokens: int, totalTokens: int)

  datatype TraceRow = TraceRow(
    traceId: string, sessionId: string, rootSpanName: string, agentName: string,
    totals: Totals, statusCode: string)

  datatype SessionRow = SessionRow(
    sessionId: string, userId: string, agentName: string, traceCount: nat, totals: Totals)

  // ---- grouping ----

  function TraceKey(r: Row): string { r.traceId }

  function SessionKey(r: Row): string { r.sessionId }

  /** The keys of a batch, each once, in the order of their first occurrence. */
  function Keys(rows: seq<Row>, key: Row -> string): seq<string> {
    if rows == [] then []
    else
      var n := |rows| - 1;
      var front := Keys(rows[..n], key);
      if key(rows[n]) in front then front else front + [key(rows[n])]
  }

  /** The rows of one group, in batch order. */
  function Group(rows: seq<Row>, key: Row -> string, k: string): seq<Row> {
    if rows == [] then []
    else
      var n := |rows| - 1;
      Group(rows[..n], key, k) + if key(rows[n]) == k then [rows[n]] else []
  }

  function WithSession(rows: seq<Row>): seq<Row> {
    if rows == [] then []
    else
      var n := |rows| - 1;
      WithSession(rows[..n]) + if rows[n].sessionId != "" then [rows[n]] else []
  }

  // ---- one group ----

  function Sum(rows: seq<Row>, f: Row -> int): int {
    if rows == [] then 0 else Sum(rows[..|rows| - 1], f) + f(rows[|rows| - 1])
  }

  function One(r: Row): int { 1 }

  function IsError(r: Row): int { if r.statusCode == "ERROR" then 1 else 0 }

  function Input(r: Row): int { r.inputTokens }

  function Output(r: Row): int { r.outputTokens }

  function Total(r: Row): int { r.totalTokens }

  function Smaller(a: string, b: string): string { if Leq(a, b) then a else b }

  function Larger(a: string, b: string): string { if Leq(a, b) then b else a }

  function MinStart(rows: seq<Row>): string
    requires rows != []
  {
    var n := |rows| - 1;
    if n == 0 then rows[0].startedAt else Smaller(MinStart(rows[..n]), rows[n].startedAt)
  }

  function MaxEnd(rows: seq<Row>): string
    requires rows != []
  {
    var n := |rows| - 1;
    if n == 0 then rows[0].endedAt else Larger(MaxEnd(rows[..n]), rows[n].endedAt)
  }

  function Errors(rows: seq<Row>): (n: nat)
  {
    ErrorsAreCounted(rows);
    Sum(rows, IsError)
  }

  lemma {:induction false} ErrorsAreCounted(rows: seq<Row>)
    ensures 0 <= Sum(rows, IsError) <= |rows|
  {
    if rows != [] { ErrorsAreCounted(rows[..|rows| - 1]); }
  }

  function TotalsOf(rows: seq<Row>, duration: (string, string) -> int): Totals
    requires rows != []
  {
    var start, end := MinStart(rows), MaxEnd(rows);
    Totals(start, end, duration(start, end), |rows|, Errors(rows),
           Sum(rows, Input), Sum(rows, Output), Sum(rows, Total))
  }

  /** Rows are sorted by start and, at the same start, by span. */
  predicate RowLeq(a: Row, b: Row) {
    if a.startedAt == b.startedAt then Leq(a.spanId, b.spanId) else Leq(a.startedAt, b.startedAt)
  }

  /** The first row without a parent, if any. */
  function FirstRoot(rows: seq<Row>): Option<Row> {
    if rows == [] then None
    else if rows[0].parentSpanId == "" then Some(rows[0])
    else FirstRoot(rows[1..])
  }

  function RootOf(rows: seq<Row>): Row
    requires rows != []
  {
    SortElements(rows, RowLeq);
    var sorted := Sort(rows, RowLeq);
    var root := FirstRoot(sorted);
    if root.Some? then root.value else assert |multiset(sorted)| == |multiset(rows)| > 0; sorted[0]
  }

  /** The first non-empty text that a field takes in a list of rows. */
  function FirstText(rows: seq<Row>, field: Row -> string): string {
    if rows == [] then ""
    else if field(rows[0]) != "" then field(rows[0])
    else FirstText(rows[1..], field)
  }

  function AgentName(r: Row): string { r.agentName }

  function UserId(r: Row): string { r.userId }

  function StatusOf(rows: seq<Row>): string {
    if Errors(rows) > 0 then "ERROR"
    else if exists r :: r in rows && r.statusCode == "OK" then "OK"
    else "UNSET"
  }

  function TraceOf(id: string, rows: seq<Row>, duration: (string, string) -> int): TraceRow
    requires rows != []
  {
    var root := RootOf(rows);
    TraceRow(
      id,
      if root.sessionId != "" then root.sessionId else FirstText(rows, SessionKey),
      root.name,
      if root.agentName != "" then root.agentName else FirstText(rows, AgentName),
      TotalsOf(rows, duration),
      StatusOf(rows))
  }

  function SessionOf(id: string, rows: seq<Row>, duration: (string, string) -> int): SessionRow
    requires rows != []
  {
    SessionRow(
      id, FirstText(rows, UserId), FirstText(rows, AgentName), |Keys(rows, TraceKey)|, TotalsOf(rows, duration))
  }

  // ---- the batch ----

  lemma {:induction false} KeysAreDistinct(rows: seq<Row>, key: Row -> string)
    ensures forall i, j :: 0 <= i < j < |Keys(rows, key)| ==> Keys(rows, key)[i] != Keys(rows, key)[j]
    ensures forall k :: k in Keys(rows, key) <==> exists r :: r in rows && key(r) == k
  {
    if rows != [] {
      var n := |rows| - 1;
      KeysAreDistinct(rows[..n], key);
      assert rows == rows[..n] + [rows[n]];
    }
  }

  lemma {:induction false} GroupMembers(rows: seq<Row>, key: Row -> string, k: string)
    ensures forall r :: r in Group(rows, key, k) <==> r in rows && key(r) == k
  {
    if rows != [] {
      var n := |rows| - 1;
      GroupMembers(rows[..n], key, k);
      assert rows == rows[..n] + [rows[n]];
    }
  }

  lemma GroupIsNonEmpty(rows: seq<Row>, key: Row -> string, k: string)
    requires k in Keys(rows, key)
    ensures Group(rows, key, k) != []
  {
    KeysAreDistinct(rows, key);
    GroupMembers(rows, key, k);
  }

  function TraceFor(rows: seq<Row>, k: string, duration: (string, string) -> int): TraceRow
    requires k in Keys(rows, TraceKey)
  {
    GroupIsNonEmpty(rows, TraceKey, k);
    TraceOf(k, Group(rows, TraceKey, k), duration)
  }

  function RootFor(rows: seq<Row>, k: string): Row
    requires k in Keys(rows, TraceKey)
  {
    GroupIsNonEmpty(rows, TraceKey, k);
    RootOf(Group(rows, TraceKey, k))
  }

  function SessionFor(rows: seq<Row>, k: string, duration: (string, string) -> int): SessionRow
    requires k in Keys(rows, SessionKey)
  {
    GroupIsNonEmpty(rows, SessionKey, k);
    SessionOf(k, Group(rows, SessionKey, k), duration)
  }

  /** The trace rows of a batch: one for each distinct trace, in order of first occurrence. */
  function TraceRows(rows: seq<Row>, duration: (string, string) -> int): seq<TraceRow> {
    var keys := Keys(rows, TraceKey);
    seq(|keys|, i requires 0 <= i < |keys| => TraceFor(rows, keys[i], duration))
  }

  /** The session rows of a batch: one for each distinct session of the rows that have one. */
  function SessionRows(batch: seq<Row>, duration: (string, string) -> int): seq<SessionRow> {
    var rows := WithSession(batch);
    var keys := Keys(rows, SessionKey);
    seq(|keys|, i requires 0 <= i < |keys| => SessionFor(rows, keys[i], duration))
  }

  /** The dictionary of groups, filled row by row, with its keys in order of insertion. */
  method GroupBy(rows: seq<Row>, key: Row -> string) returns (groups: map<string, seq<Row>>, order: seq<string>)
    ensures order == Keys(rows, key)
    ensures groups.Keys == set k | k in order
    ensures forall k :: k in order ==> groups[k] == Group(rows, key, k)
  {
    groups, order := map[], [];
    for i := 0 to |rows|
      invariant order == Keys(rows[..i], key)
      invariant groups.Keys == set k | k in order
      invariant forall k :: k in order ==> groups[k] == Group(rows[..i], key, k)
    {
      var k := key(rows[i]);
      assert rows[..i + 1][..i] == rows[..i];
      if k !in groups {
        NoGroup(rows[..i], key, k);
        groups := groups[k := []];
        order := order + [k];
      }
      groups := groups[k := groups[k] + [rows[i]]];
    }
    assert rows[..|rows|] == rows;
  }

  lemma NoGroup(rows: seq<Row>, key: Row -> string, k: string)
    requires k !in Keys(rows, key)
    ensures Group(rows, key, k) == []
  {
    KeysAreDistinct(rows, key);
    GroupMembers(rows, key, k);
    assert forall r :: r !in Group(rows, key, k);
  }

  /** `aggregate_batch`. */
  method AggregateBatch(observations: seq<Row>, duration: (string, string) -> int)
    returns (traceRows: seq<TraceRow>, sessionRows: seq<SessionRow>)
    ensures traceRows == TraceRows(observations, duration)
    ensures sessionRows == SessionRows(observations, duration)
  {
    hide TraceOf, SessionOf, Group, Keys;
    var byTrace, traces := GroupBy(observations, TraceKey);
    traceRows := [];
    for i := 0 to |traces|
      invariant traceRows == TraceRows(observations, duration)[..i]
    {
      GroupIsNonEmpty(observations, TraceKey, traces[i]);
      traceRows := traceRows + [TraceOf(traces[i], byTrace[traces[i]], duration)];
    }

    var rows := [];
    for i := 0 to |observations|
      invariant rows == WithSession(observations[..i])
    {
      assert observations[..i + 1][..i] == observations[..i];
      if observations[i].sessionId != "" {
        rows := rows + [observations[i]];
      }
    }
    assert observations[..|observations|] == observations;
    var bySession, sessions := GroupBy(rows, SessionKey);
    sessionRows := [];
    for i := 0 to |sessions|
      invariant sessionRows == SessionRows(observations, duration)[..i]
    {
      GroupIsNonEmpty(rows, SessionKey, sessions[i]);
      sessionRows := sessionRows + [SessionOf(sessions[i], bySession[sessions[i]], duration)];
    }
  }
}
