/**
 The order in which a map is ranged over does not matter: with providers that answer the same
 question always in the same way, expansion gives the same values for every order of the entries.
 */
module MapOrder {
  import opened Options
  import opened Text
  import opened UriSearch
  import opened ConfTree
  import opened Expansion

  /** The answer to a question does not depend on when it is asked. */
  ghost predicate Stationary(env: Env) {
    forall m: nat, n: nat, uri: string :: env.provider(m, uri) == env.provider(n, uri)
  }

  ghost predicate DistinctKeys(entries: seq<Entry>) {
    forall i, j :: 0 <= i < j < |entries| ==> entries[i].key != entries[j].key
  }

  ghost predicate SameKeys(a: seq<Entry>, b: seq<Entry>) {
    && DistinctKeys(a) && DistinctKeys(b)
    && (forall i :: 0 <= i < |a| ==> HasKey(b, a[i].key))
    && (forall j :: 0 <= j < |b| ==> HasKey(a, b[j].key))
  }

  ghost predicate HasKey(entries: seq<Entry>, key: string) {
    exists i :: 0 <= i < |entries| && entries[i].key == key
  }

  /** The same value, up to the order of the entries of its maps, at every level. */
  ghost predicate Same(v: Value, w: Value)
    decreases v
  {
    match v
    case List(items) =>
      w.List? && |w.items| == |items| && forall i :: 0 <= i < |items| ==> Same(items[i], w.items[i])
    case Map(entries) =>
      && w.Map? && SameKeys(entries, w.entries)
      && forall i, j :: 0 <= i < |entries| && 0 <= j < |w.entries| && entries[i].key == w.entries[j].key ==>
        Same(entries[i].value, w.entries[j].value)
    case Expanded(x, original) => w.Expanded? && w.original == original && Same(x, w.value)
    case _ => v == w
  }

  /** What providers return is one value, whose maps have distinct keys. */
  ghost predicate WellKeyedAnswers(env: Env) {
    forall n: nat, uri: string :: env.provider(n, uri).Some? ==>
      Same(env.provider(n, uri).value.raw, env.provider(n, uri).value.raw)
  }

  /** The outcome of a round, apart from the resources. */
  ghost predicate SameRound(r: Round, q: Round) {
    && (r.Failed? <==> q.Failed?)
    && (r.Done? && q.Done? ==> r.changed == q.changed && Same(r.value, q.value))
  }

  // ---- the ledger does not matter ----

  lemma StringIgnoresLedger(env: Env, s: string, l: Ledger, l': Ledger)
    requires Stationary(env)
    ensures ExpandString(env, s, l).0 == ExpandString(env, s, l').0
  {
    hide FindUri, LocationOf, ReplaceAll;
    if FindUri(s, env.defaultScheme) != "" {
      FoundUri(s, env.defaultScheme);
      var where := LocationOf(env, FindUri(s, env.defaultScheme));
      if where.Some? { assert env.provider(l.calls, where.value.1) == env.provider(l'.calls, where.value.1); }
    }
  }

  lemma {:induction false} RoundIgnoresLedger(env: Env, v: Value, l: Ledger, l': Ledger)
    requires Stationary(env)
    ensures ExpandValue(env, v, l).0 == ExpandValue(env, v, l').0
    decreases v
  {
    hide ExpandString;
    match v
    case Str(s) => StringIgnoresLedger(env, s, l, l');
    case List(items) => ItemsIgnoreLedger(env, items, l, l');
    case Map(entries) => EntriesIgnoreLedger(env, entries, l, l');
    case Expanded(x, original) =>
      RoundIgnoresLedger(env, x, l, l');
      StringIgnoresLedger(env, original, ExpandValue(env, x, l).1, ExpandValue(env, x, l').1);
    case _ =>
  }

  lemma {:induction false} ItemsIgnoreLedger(env: Env, items: seq<Value>, l: Ledger, l': Ledger)
    requires Stationary(env)
    ensures ExpandItems(env, items, l).0 == ExpandItems(env, items, l').0
    ensures ExpandItems(env, items, l).1 == ExpandItems(env, items, l').1
    decreases items
  {
    hide ExpandString;
    if items != [] {
      RoundIgnoresLedger(env, items[0], l, l');
      ItemsIgnoreLedger(env, items[1..], ExpandValue(env, items[0], l).1, ExpandValue(env, items[0], l').1);
    }
  }

  lemma {:induction false} EntriesIgnoreLedger(env: Env, entries: seq<Entry>, l: Ledger, l': Ledger)
    requires Stationary(env)
    ensures ExpandEntries(env, entries, l).0 == ExpandEntries(env, entries, l').0
    ensures ExpandEntries(env, entries, l).1 == ExpandEntries(env, entries, l').1
    decreases entries
  {
    hide ExpandString;
    if entries != [] {
      var v := entries[0].value;
      RoundIgnoresLedger(env, v, l, l');
      EntriesIgnoreLedger(env, entries[1..], ExpandValue(env, v, l).1, ExpandValue(env, v, l').1);
    }
  }

  // ---- part by part ----

  const NO_RESOURCES := Ledger(0, [], [], [], [])

  /** What a round makes of a value, whatever the resources. */
  function RoundOf(env: Env, v: Value): Round { ExpandValue(env, v, NO_RESOURCES).0 }

  predicate Changes(env: Env, v: Value) { RoundOf(env, v).Done? && RoundOf(env, v).changed }

  /** A round on a list is a round on each of its values. */
  lemma {:induction false} RoundOfItems(env: Env, items: seq<Value>, l: Ledger)
    requires Stationary(env)
    ensures var (r, changed, _) := ExpandItems(env, items, l);
      && (r.Some? <==> forall i :: 0 <= i < |items| ==> RoundOf(env, items[i]).Done?)
      && (r.Some? ==>
            && |r.value| == |items|
            && (changed <==> exists i :: 0 <= i < |items| && Changes(env, items[i]))
            && forall i :: 0 <= i < |items| ==> r.value[i] == RoundOf(env, items[i]).value)
    decreases items
  {
    hide ExpandString, ExpandValue;
    if items != [] {
      RoundIgnoresLedger(env, items[0], l, NO_RESOURCES);
      RoundOfItems(env, items[1..], ExpandValue(env, items[0], l).1);
      assert forall i :: 1 <= i < |items| ==> items[i] == items[1..][i - 1];
      assert forall i :: 0 <= i < |items| - 1 ==> items[1..][i] == items[i + 1];
    }
  }

  /** A round on a map is a round on each of its entries. */
  lemma {:induction false} RoundOfEntries(env: Env, entries: seq<Entry>, l: Ledger)
    requires Stationary(env)
    ensures var (r, changed, _) := ExpandEntries(env, entries, l);
      && (r.Some? <==> forall i :: 0 <= i < |entries| ==> RoundOf(env, entries[i].value).Done?)
      && (r.Some? ==>
            && |r.value| == |entries|
            && (changed <==> exists i :: 0 <= i < |entries| && Changes(env, entries[i].value))
            && forall i :: 0 <= i < |entries| ==>
              r.value[i] == Entry(entries[i].key, RoundOf(env, entries[i].value).value))
    decreases entries
  {
    hide ExpandString, ExpandValue;
    if entries != [] {
      RoundIgnoresLedger(env, entries[0].value, l, NO_RESOURCES);
      RoundOfEntries(env, entries[1..], ExpandValue(env, entries[0].value, l).1);
      assert forall i :: 1 <= i < |entries| ==> entries[i] == entries[1..][i - 1];
      assert forall i :: 0 <= i < |entries| - 1 ==> entries[1..][i] == entries[i + 1];
    }
  }

  // ---- the order does not matter ----

  lemma SameStringRound(env: Env, s: string, l: Ledger)
    requires WellKeyedAnswers(env)
    ensures SameRound(ExpandString(env, s, l).0, ExpandString(env, s, l).0)
  {
    hide FindUri, LocationOf, ReplaceAll;
    if FindUri(s, env.defaultScheme) != "" { FoundUri(s, env.defaultScheme); }
  }

  /** Rounds on the same values give the same values. */
  lemma {:induction false} SameValues(env: Env, v: Value, w: Value)
    requires Stationary(env) && WellKeyedAnswers(env) && Same(v, w)
    ensures SameRound(RoundOf(env, v), RoundOf(env, w))
    decreases v
  {
    hide ExpandString;
    match v
    case Str(s) => SameStringRound(env, s, NO_RESOURCES);
    case List(items) =>
      forall i | 0 <= i < |items| ensures SameRound(RoundOf(env, items[i]), RoundOf(env, w.items[i])) {
        SameValues(env, items[i], w.items[i]);
      }
      SameLists(env, items, w.items);
    case Map(entries) =>
      forall i, j | 0 <= i < |entries| && 0 <= j < |w.entries| && entries[i].key == w.entries[j].key
        ensures SameRound(RoundOf(env, entries[i].value), RoundOf(env, w.entries[j].value))
      {
        SameValues(env, entries[i].value, w.entries[j].value);
      }
      SameMaps(env, entries, w.entries);
    case Expanded(x, original) =>
      SameValues(env, x, w.value);
      SamePairs(env, x, w.value, original);
    case _ =>
  }

  lemma SameLists(env: Env, a: seq<Value>, b: seq<Value>)
    requires Stationary(env) && |a| == |b|
    requires forall i :: 0 <= i < |a| ==> SameRound(RoundOf(env, a[i]), RoundOf(env, b[i]))
    ensures SameRound(RoundOf(env, List(a)), RoundOf(env, List(b)))
  {
    RoundOfItems(env, a, NO_RESOURCES);
    RoundOfItems(env, b, NO_RESOURCES);
    hide RoundOf;
    ListRound(env, a);
    ListRound(env, b);
  }

  lemma ListRound(env: Env, a: seq<Value>)
    ensures var (r, changed, _) := ExpandItems(env, a, NO_RESOURCES);
      RoundOf(env, List(a)) == if r.None? then Failed else Done(List(r.value), changed)
  {
    hide ExpandItems;
  }

  lemma MapRound(env: Env, a: seq<Entry>)
    ensures var (r, changed, _) := ExpandEntries(env, a, NO_RESOURCES);
      RoundOf(env, Map(a)) == if r.None? then Failed else Done(Map(r.value), changed)
  {
    hide ExpandEntries;
  }

  /** Entries with the same key have the same round. */
  ghost predicate RoundsMatch(env: Env, a: seq<Entry>, b: seq<Entry>) {
    forall i, j :: 0 <= i < |a| && 0 <= j < |b| && a[i].key == b[j].key ==>
      SameRound(RoundOf(env, a[i].value), RoundOf(env, b[j].value))
  }

  lemma Swapped(env: Env, a: seq<Entry>, b: seq<Entry>)
    requires RoundsMatch(env, a, b)
    ensures forall i, j :: 0 <= i < |a| && 0 <= j < |b| && a[i].key == b[j].key ==>
      (RoundOf(env, a[i].value).Done? <==> RoundOf(env, b[j].value).Done?) &&
      (Changes(env, a[i].value) <==> Changes(env, b[j].value))
  {
    hide RoundOf;
  }

  lemma SameMaps(env: Env, a: seq<Entry>, b: seq<Entry>)
    requires Stationary(env) && SameKeys(a, b) && RoundsMatch(env, a, b)
    ensures SameRound(RoundOf(env, Map(a)), RoundOf(env, Map(b)))
  {
    RoundOfEntries(env, a, NO_RESOURCES);
    RoundOfEntries(env, b, NO_RESOURCES);
    hide RoundOf, Same, ExpandEntries, ExpandValue;
    MapRound(env, a);
    MapRound(env, b);
    Swapped(env, a, b);
    SameOutcome(env, a, b);
    var r, q := ExpandEntries(env, a, NO_RESOURCES).0, ExpandEntries(env, b, NO_RESOURCES).0;
    if r.Some? && q.Some? { SameEntries(env, a, b, r.value, q.value); }
  }

  lemma SameOutcome(env: Env, a: seq<Entry>, b: seq<Entry>)
    requires SameKeys(a, b)
    requires forall i, j :: 0 <= i < |a| && 0 <= j < |b| && a[i].key == b[j].key ==>
      (RoundOf(env, a[i].value).Done? <==> RoundOf(env, b[j].value).Done?) &&
      (Changes(env, a[i].value) <==> Changes(env, b[j].value))
    ensures (forall i :: 0 <= i < |a| ==> RoundOf(env, a[i].value).Done?) <==>
      (forall j :: 0 <= j < |b| ==> RoundOf(env, b[j].value).Done?)
    ensures (exists i :: 0 <= i < |a| && Changes(env, a[i].value)) <==>
      (exists j :: 0 <= j < |b| && Changes(env, b[j].value))
  {
    hide RoundOf, Changes;
    forall i | 0 <= i < |a| ensures exists j :: 0 <= j < |b| && a[i].key == b[j].key { assert HasKey(b, a[i].key); }
    forall j | 0 <= j < |b| ensures exists i :: 0 <= i < |a| && a[i].key == b[j].key { assert HasKey(a, b[j].key); }
  }

  lemma SameEntries(env: Env, a: seq<Entry>, b: seq<Entry>, a': seq<Entry>, b': seq<Entry>)
    requires SameKeys(a, b) && RoundsMatch(env, a, b) && |a'| == |a| && |b'| == |b|
    requires forall i :: 0 <= i < |a| ==>
      RoundOf(env, a[i].value).Done? && a'[i] == Entry(a[i].key, RoundOf(env, a[i].value).value)
    requires forall i :: 0 <= i < |b| ==>
      RoundOf(env, b[i].value).Done? && b'[i] == Entry(b[i].key, RoundOf(env, b[i].value).value)
    ensures Same(Map(a'), Map(b'))
  {
    hide RoundOf;
    forall i | 0 <= i < |a'| ensures HasKey(b', a'[i].key) {
      assert HasKey(b, a[i].key);
      var j :| 0 <= j < |b| && b[j].key == a[i].key;
      assert b'[j].key == a'[i].key;
    }
    forall j | 0 <= j < |b'| ensures HasKey(a', b'[j].key) {
      assert HasKey(a, b[j].key);
      var i :| 0 <= i < |a| && a[i].key == b[j].key;
      assert a'[i].key == b'[j].key;
    }
  }

  lemma SamePairs(env: Env, x: Value, y: Value, original: string)
    requires Stationary(env) && WellKeyedAnswers(env) && SameRound(RoundOf(env, x), RoundOf(env, y))
    ensures SameRound(RoundOf(env, Expanded(x, original)), RoundOf(env, Expanded(y, original)))
  {
    hide ExpandString;
    var l, l' := ExpandValue(env, x, NO_RESOURCES).1, ExpandValue(env, y, NO_RESOURCES).1;
    StringIgnoresLedger(env, original, l, l');
    SameStringRound(env, original, l);
  }

  // ---- all rounds ----

  ghost predicate SameOutcomes(r: Outcome, q: Outcome) {
    if r.Finished? then q.Finished? && Same(r.value, q.value) else q == r
  }

  /**
   Over all rounds: the same configuration, with the entries of its maps in another order at any
   level, expands to the same configuration, or fails with the same error.
   */
  lemma {:induction false} OrderDoesNotMatter(env: Env, v: Value, w: Value, rounds: nat, l: Ledger, l': Ledger)
    requires Stationary(env) && WellKeyedAnswers(env) && Same(v, w)
    ensures SameOutcomes(ExpandRounds(env, v, rounds, l).0, ExpandRounds(env, w, rounds, l').0)
    decreases rounds
  {
    hide ExpandValue, Same;
    if rounds > 0 {
      RoundIgnoresLedger(env, v, l, NO_RESOURCES);
      RoundIgnoresLedger(env, w, l', NO_RESOURCES);
      SameValues(env, v, w);
      var (r, l1) := ExpandValue(env, v, l);
      var (q, l2) := ExpandValue(env, w, l');
      if r.Done? && r.changed { OrderDoesNotMatter(env, r.value, q.value, rounds - 1, l1, l2); }
    }
  }
}
