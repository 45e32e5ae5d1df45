/**
 What a round and all rounds return, failures included, told from the strings, the locations and
 the answers of the providers.
 */
module RoundLaws {
  import opened Options
  import opened Text
  import opened UriSearch
  import opened ConfTree
  import opened Expansion

  // ---- one string ----

  /** The location that a reference asks for: the text in its brackets, completed when it has no colon. */
  ghost predicate AsksFor(env: Env, uri: string, full: string) {
    exists inner ::
      && uri == "${" + inner + "}"
      && full == if ':' in inner then inner else env.defaultScheme + ":" + inner
  }

  /** It is a location, of a scheme that has a provider. */
  ghost predicate HasProvider(env: Env, full: string) {
    exists scheme, rest :: Splits(full, scheme, rest) && scheme in env.schemes
  }

  /** The text of an answer: the recorded one or, without one, its string. */
  ghost predicate HasText(answer: Retrieved, text: string) {
    answer.recorded == Some(text) || (answer.recorded.None? && answer.raw == Str(text))
  }

  ghost predicate Textless(answer: Retrieved) { answer.recorded.None? && !answer.raw.Str? }

  /** The ledger after one more call, which obtains a resource to be closed iff it is answered. */
  ghost predicate OneCall(l: Ledger, l': Ledger, full: string, answered: bool) {
    var obtained := if answered then [l.calls] else [];
    l' == Ledger(l.calls + 1, l.asked + [full], l.obtained + obtained, l.closed, l.closers + obtained)
  }

  /** A reference in `s` cannot be replaced, when it is the `n`-th to be retrieved. */
  ghost predicate StringFails(env: Env, s: string, n: nat) {
    var uri := FindUri(s, env.defaultScheme);
    uri != "" && exists full :: AsksFor(env, uri, full) && LocationFails(env, full, n, uri == s)
  }

  ghost predicate LocationFails(env: Env, full: string, n: nat, whole: bool) {
    || !HasProvider(env, full)
    || env.provider(n, full).None?
    || (!whole && Textless(env.provider(n, full).value))
  }

  lemma AsksForOne(env: Env, uri: string, full: string)
    requires AsksFor(env, uri, full)
    ensures |uri| >= 3 && full == FullLocation(env, uri)
  {
    var inner :| uri == "${" + inner + "}" && full == if ':' in inner then inner else env.defaultScheme + ":" + inner;
    assert uri[2..|uri| - 1] == inner;
  }

  lemma FoundAsks(env: Env, s: string)
    requires FindUri(s, env.defaultScheme) != ""
    ensures var uri := FindUri(s, env.defaultScheme); |uri| >= 3 && AsksFor(env, uri, FullLocation(env, uri))
  {
    hide FindUri;
    var uri := FindUri(s, env.defaultScheme);
    FoundUri(s, env.defaultScheme);
    assert uri == "${" + uri[2..|uri| - 1] + "}";
  }

  lemma ProviderOf(env: Env, uri: string)
    requires |uri| >= 3
    ensures var where, full := LocationOf(env, uri), FullLocation(env, uri);
      && (where.Some? ==> where.value.1 == full)
      && (where.Some? && where.value.0 in env.schemes <==> HasProvider(env, full))
  {
    hide SchemeLength, Splits;
    var where, full := LocationOf(env, uri), FullLocation(env, uri);
    if where.Some? { SchemeSplits(full); }
    if scheme, rest :| Splits(full, scheme, rest) && scheme in env.schemes { SplitsAt(full, scheme, rest); }
  }

  /**
   The round on a string, in full. Without a reference it stays as it is. A reference is replaced
   by the text of one answer everywhere, or becomes the answer when it is the whole string; and if
   it has no provider, no answer or, in other text, no text, the round fails.
   */
  lemma StringRoundIs(env: Env, s: string, full: string, l: Ledger)
    requires var uri := FindUri(s, env.defaultScheme); uri != "" ==> AsksFor(env, uri, full)
    ensures var uri := FindUri(s, env.defaultScheme); var (r, l') := ExpandValue(env, Str(s), l);
      if uri == "" then r == Done(Str(s), false) && l' == l
      else if !HasProvider(env, full) then r.Failed? && l' == l
      else
        var answer := env.provider(l.calls, full);
        && OneCall(l, l', full, answer.Some?)
        && (r.Failed? <==> answer.None? || (uri != s && Textless(answer.value)))
        && (r.Done? ==> r.changed)
        && (r.Done? && uri == s && Textless(answer.value) ==> r.value == answer.value.raw)
        && (r.Done? && uri == s ==> forall text :: HasText(answer.value, text) ==>
              r.value == Expanded(answer.value.raw, text))
        && (r.Done? && uri != s ==> forall text :: HasText(answer.value, text) ==>
              r.value == Str(ReplaceAll(s, uri, text)))
  {
    hide FindUri, ReplaceAll, HasProvider, ExpandUri, AsksFor, OneCall;
    var uri := FindUri(s, env.defaultScheme);
    if uri == "" {
      assert ExpandString(env, s, l) == (Done(Str(s), false), l);
    } else {
      FoundUri(s, env.defaultScheme);
      UriCall(env, uri, full, l);
      ReferenceInText(s, uri);
      assert ExpandValue(env, Str(s), l) == ExpandString(env, s, l);
    }
  }

  lemma UriCall(env: Env, uri: string, full: string, l: Ledger)
    requires AsksFor(env, uri, full)
    ensures |uri| >= 3
    ensures var (answer, l') := ExpandUri(env, uri, l);
      if !HasProvider(env, full) then answer.None? && l' == l
      else answer == env.provider(l.calls, full) && OneCall(l, l', full, answer.Some?)
  {
    hide HasProvider, LocationOf, FullLocation, AsksFor;
    AsksForOne(env, uri, full);
    ProviderOf(env, uri);
    assert l.obtained + [] == l.obtained && l.closers + [] == l.closers;
  }

  lemma StringFailsIff(env: Env, s: string, l: Ledger)
    ensures ExpandValue(env, Str(s), l).0.Failed? <==> StringFails(env, s, l.calls)
  {
    hide FindUri, ReplaceAll, HasProvider, AsksFor, ExpandString;
    var uri := FindUri(s, env.defaultScheme);
    if uri == "" {
      StringRoundIs(env, s, "", l);
    } else {
      FoundAsks(env, s);
      var full := FullLocation(env, uri);
      StringRoundIs(env, s, full, l);
      forall f | AsksFor(env, uri, f) ensures f == full { AsksForOne(env, uri, f); }
    }
  }

  // ---- lists and maps ----

  /** The first `k` of these values are expanded one after the other, each from the ledger that the one before left. */
  ghost predicate Chain(env: Env, values: seq<Value>, k: nat, ls: seq<Ledger>) {
    && k <= |values| && |ls| == k + 1
    && forall j :: 0 <= j < k ==> Succeeds(env, values[j], ls[j], ls[j + 1])
  }

  ghost predicate Succeeds(env: Env, v: Value, l: Ledger, l': Ledger) {
    ExpandValue(env, v, l).0.Done? && ExpandValue(env, v, l).1 == l'
  }

  /** After a chain either all is expanded, or the next value fails. */
  ghost predicate Ends(env: Env, values: seq<Value>, k: nat, ls: seq<Ledger>) {
    Chain(env, values, k, ls) && (k < |values| ==> ExpandValue(env, values[k], ls[k]).0.Failed?)
  }

  function ValuesOf(entries: seq<Entry>): seq<Value> {
    seq(|entries|, i requires 0 <= i < |entries| => entries[i].value)
  }

  /** What the values become along a chain, and whether any of them changes. */
  ghost predicate Becomes(env: Env, values: seq<Value>, ls: seq<Ledger>, results: seq<Value>, changed: bool) {
    && |results| == |values| && |ls| == |values| + 1
    && (forall j :: 0 <= j < |values| ==> BecomesOne(env, values[j], ls[j], results[j]))
    && (changed <==> exists j :: 0 <= j < |values| && Changes(env, values[j], ls[j]))
  }

  ghost predicate BecomesOne(env: Env, v: Value, l: Ledger, result: Value) {
    var r := ExpandValue(env, v, l).0;
    r.Done? && r.value == result
  }

  ghost predicate Changes(env: Env, v: Value, l: Ledger) {
    var r := ExpandValue(env, v, l).0;
    r.Done? && r.changed
  }

  lemma ChainCons(env: Env, v: Value, rest: seq<Value>, l: Ledger, k: nat, ls: seq<Ledger>)
    requires Ends(env, rest, k, ls) && Succeeds(env, v, l, ls[0])
    ensures Ends(env, [v] + rest, k + 1, [l] + ls)
  {
    hide ExpandValue;
    var values, all := [v] + rest, [l] + ls;
    forall j | 0 <= j < k + 1 ensures Succeeds(env, values[j], all[j], all[j + 1]) {
      if j > 0 { assert Succeeds(env, rest[j - 1], ls[j - 1], ls[j - 1 + 1]); }
    }
  }

  lemma BecomesCons(
      env: Env, v: Value, rest: seq<Value>, l: Ledger, ls: seq<Ledger>, results: seq<Value>, changed: bool)
    requires Becomes(env, rest, ls, results, changed) && ExpandValue(env, v, l).0.Done?
    ensures var r := ExpandValue(env, v, l).0;
      Becomes(env, [v] + rest, [l] + ls, [r.value] + results, r.changed || changed)
  {
    hide ExpandValue, BecomesOne, Changes;
    var r := ExpandValue(env, v, l).0;
    var values, all, becomes := [v] + rest, [l] + ls, [r.value] + results;
    FirstBecomes(env, v, l);
    forall j | 0 <= j < |values| ensures BecomesOne(env, values[j], all[j], becomes[j]) {
      if j > 0 { assert BecomesOne(env, rest[j - 1], ls[j - 1], results[j - 1]); }
    }
    if j :| 0 <= j < |rest| && Changes(env, rest[j], ls[j]) { assert Changes(env, values[j + 1], all[j + 1]); }
    if j :| 1 <= j < |values| && Changes(env, values[j], all[j]) { assert Changes(env, rest[j - 1], ls[j - 1]); }
    assert Changes(env, values[0], all[0]) <==> r.changed;
  }

  lemma FirstBecomes(env: Env, v: Value, l: Ledger)
    requires ExpandValue(env, v, l).0.Done?
    ensures var r := ExpandValue(env, v, l).0; BecomesOne(env, v, l, r.value) && (Changes(env, v, l) <==> r.changed)
  {
  }

  /**
   The round on a list: its values are expanded in order, up to the first that fails; then the list
   fails, and otherwise it has the results in their places and changed iff one of them did.
   */
  lemma {:induction false} ListRoundIs(env: Env, items: seq<Value>, l: Ledger) returns (k: nat, ls: seq<Ledger>)
    ensures Ends(env, items, k, ls) && ls[0] == l
    ensures var (r, l') := ExpandValue(env, List(items), l);
      if k < |items| then r.Failed? && l' == ExpandValue(env, items[k], ls[k]).1
      else r.Done? && r.value.List? && Becomes(env, items, ls, r.value.items, r.changed) && l' == ls[k]
    decreases items
  {
    hide ExpandString;
    if items == [] {
      k, ls := 0, [l];
    } else {
      var (first, l1) := ExpandValue(env, items[0], l);
      if first.Failed? {
        k, ls := 0, [l];
      } else {
        k, ls := ListRoundIs(env, items[1..], l1);
        assert items == [items[0]] + items[1..];
        ChainCons(env, items[0], items[1..], l, k, ls);
        var rest := ExpandValue(env, List(items[1..]), l1).0;
        if k == |items| - 1 { BecomesCons(env, items[0], items[1..], l, ls, rest.value.items, rest.changed); }
        k, ls := k + 1, [l] + ls;
      }
    }
  }

  ghost predicate SameKeys(a: seq<Entry>, b: seq<Entry>) {
    |a| == |b| && forall i :: 0 <= i < |b| ==> a[i].key == b[i].key
  }

  /** The round on a map is that on the list of its values; the keys stay. */
  lemma {:induction false} MapRoundIs(env: Env, entries: seq<Entry>, l: Ledger)
    ensures var (r, l') := ExpandValue(env, Map(entries), l);
      var (rs, ls') := ExpandValue(env, List(ValuesOf(entries)), l);
      && l' == ls' && (r.Failed? <==> rs.Failed?)
      && (r.Done? ==> r.value.Map? && rs.value == List(ValuesOf(r.value.entries)) && r.changed == rs.changed)
      && (r.Done? ==> SameKeys(r.value.entries, entries))
    decreases entries
  {
    hide ExpandString;
    var values := ValuesOf(entries);
    if entries != [] {
      var (first, l1) := ExpandValue(env, entries[0].value, l);
      assert values[1..] == ValuesOf(entries[1..]) && values[0] == entries[0].value;
      MapRoundIs(env, entries[1..], l1);
      var rest := ExpandEntries(env, entries[1..], l1).0;
      if first.Done? && rest.Some? {
        var e := Entry(entries[0].key, first.value);
        assert ValuesOf([e] + rest.value) == [first.value] + ValuesOf(rest.value);
      }
    }
  }

  // ---- failure ----

  /** A string that the round comes to fails: in a list or map after the values before it, in a pair in its value. */
  ghost predicate Fails(env: Env, v: Value, l: Ledger)
    decreases v
  {
    match v
    case Str(s) => StringFails(env, s, l.calls)
    case List(items) => exists k: nat, ls :: FailsAt(env, items, l, k, ls) && Fails(env, items[k], ls[k])
    case Map(entries) =>
      exists k: nat, ls :: FailsAt(env, ValuesOf(entries), l, k, ls) && Fails(env, entries[k].value, ls[k])
    case Expanded(x, _) => Fails(env, x, l)
    case _ => false
  }

  ghost predicate FailsAt(env: Env, values: seq<Value>, l: Ledger, k: nat, ls: seq<Ledger>) {
    k < |values| && Chain(env, values, k, ls) && ls[0] == l
  }

  lemma {:induction false} SameChain(env: Env, values: seq<Value>, k: nat, ls: seq<Ledger>, k': nat, ls': seq<Ledger>)
    requires Chain(env, values, k, ls) && Ends(env, values, k', ls') && ls[0] == ls'[0]
    ensures k <= k' && forall j :: 0 <= j <= k ==> ls[j] == ls'[j]
    decreases k
  {
    hide ExpandValue;
    if k > 0 {
      assert Chain(env, values, k - 1, ls[..k]);
      SameChain(env, values, k - 1, ls[..k], k', ls');
      assert Succeeds(env, values[k - 1], ls[k - 1], ls[k - 1 + 1]);
      assert k' >= k ==> Succeeds(env, values[k - 1], ls'[k - 1], ls'[k - 1 + 1]);
    }
  }

  /** A round fails iff some string that it comes to fails; originals of pairs do not count. */
  lemma {:induction false} RoundFailsIff(env: Env, v: Value, l: Ledger)
    ensures ExpandValue(env, v, l).0.Failed? <==> Fails(env, v, l)
    decreases v, 0
  {
    match v
    case Str(s) => StringFailsIff(env, s, l);
    case List(items) => ListFailsIff(env, items, l);
    case Map(entries) => MapFailsIff(env, entries, l);
    case Expanded(x, original) => PairFailsIff(env, x, original, l);
    case _ =>
  }

  lemma PairFailsIff(env: Env, x: Value, original: string, l: Ledger)
    ensures ExpandValue(env, Expanded(x, original), l).0.Failed? <==> Fails(env, x, l)
    decreases x, 1
  {
    hide ExpandString;
    RoundFailsIff(env, x, l);
  }

  lemma ListFailsIff(env: Env, items: seq<Value>, l: Ledger)
    ensures ExpandValue(env, List(items), l).0.Failed? <==> Fails(env, List(items), l)
    decreases items
  {
    hide ExpandValue;
    var k, ls := ListRoundIs(env, items, l);
    if k < |items| {
      RoundFailsIff(env, items[k], ls[k]);
      assert FailsAt(env, items, l, k, ls);
    }
    if k': nat, ls' :| FailsAt(env, items, l, k', ls') && Fails(env, items[k'], ls'[k']) {
      SameChain(env, items, k', ls', k, ls);
      RoundFailsIff(env, items[k'], ls'[k']);
      assert k' < k ==> Succeeds(env, items[k'], ls[k'], ls[k' + 1]);
    }
  }

  lemma MapFailsIff(env: Env, entries: seq<Entry>, l: Ledger)
    ensures ExpandValue(env, Map(entries), l).0.Failed? <==> Fails(env, Map(entries), l)
    decreases entries
  {
    hide ExpandValue;
    var values := ValuesOf(entries);
    MapRoundIs(env, entries, l);
    var k, ls := ListRoundIs(env, values, l);
    if k < |entries| {
      RoundFailsIff(env, entries[k].value, ls[k]);
      assert FailsAt(env, values, l, k, ls);
    }
    if k': nat, ls' :| FailsAt(env, values, l, k', ls') && Fails(env, entries[k'].value, ls'[k']) {
      SameChain(env, values, k', ls', k, ls);
      RoundFailsIff(env, entries[k'].value, ls'[k']);
      assert k' < k ==> Succeeds(env, values[k'], ls[k'], ls[k' + 1]);
    }
  }

  /**
   The round on a pair: that on its value; unless a text comes out, its original is expanded too,
   and kept if it is still a text. What happens to the original never makes the round fail.
   */
  lemma PairRoundIs(env: Env, x: Value, original: string, l: Ledger)
    ensures var (v, l1) := ExpandValue(env, x, l); var (o, l2) := ExpandValue(env, Str(original), l1);
      var (r, l') := ExpandValue(env, Expanded(x, original), l);
      && (r.Failed? <==> v.Failed?)
      && (v.Done? && !v.value.Str? && !v.value.Expanded? ==>
            && l' == l2
            && (o.Done? && o.value.Str? ==> r == Done(Expanded(v.value, o.value.text), v.changed || o.changed))
            && (o.Failed? || !o.value.Str? ==> r == v))
      && (v.Failed? || v.value.Str? || v.value.Expanded? ==> (r, l') == (v, l1))
  {
    hide ExpandString;
  }

  // ---- all rounds ----

  /** `k` rounds, each of which changes the value. */
  ghost predicate Rounds(env: Env, k: nat, vs: seq<Value>, ls: seq<Ledger>) {
    && |vs| == |ls| == k + 1
    && forall j :: 0 <= j < k ==> Turns(env, vs[j], ls[j], vs[j + 1], ls[j + 1])
  }

  ghost predicate Turns(env: Env, v: Value, l: Ledger, v': Value, l': Ledger) {
    ExpandValue(env, v, l) == (Done(v', true), l')
  }

  /**
   All rounds: they go on as long as the value changes. The first round that fails makes them fail,
   the first that changes nothing ends them with its value, and there are no more than the bound.
   */
  lemma {:induction false} AllRoundsAre(env: Env, v: Value, rounds: nat, l: Ledger)
      returns (k: nat, vs: seq<Value>, ls: seq<Ledger>)
    ensures k <= rounds && Rounds(env, k, vs, ls) && vs[0] == v && ls[0] == l
    ensures var (out, l') := ExpandRounds(env, v, rounds, l); var (r, l1) := ExpandValue(env, vs[k], ls[k]);
      if k == rounds then out == Aborted(TooManyExpansions) && l' == ls[k]
      else
        && !Changes(env, vs[k], ls[k]) && l' == l1
        && (Fails(env, vs[k], ls[k]) ==> out == Aborted(ExpandError))
        && (!Fails(env, vs[k], ls[k]) ==> r.Done? && out == Finished(r.value))
    decreases rounds
  {
    hide ExpandValue, Fails;
    if rounds == 0 {
      k, vs, ls := 0, [v], [l];
    } else {
      RoundFailsIff(env, v, l);
      var (r, l1) := ExpandValue(env, v, l);
      if r.Failed? || !r.changed {
        k, vs, ls := 0, [v], [l];
      } else {
        k, vs, ls := AllRoundsAre(env, r.value, rounds - 1, l1);
        RoundsCons(env, v, l, k, vs, ls);
        k, vs, ls := k + 1, [v] + vs, [l] + ls;
      }
    }
  }

  lemma RoundsCons(env: Env, v: Value, l: Ledger, k: nat, vs: seq<Value>, ls: seq<Ledger>)
    requires Rounds(env, k, vs, ls) && Turns(env, v, l, vs[0], ls[0])
    ensures Rounds(env, k + 1, [v] + vs, [l] + ls)
  {
    hide ExpandValue, Turns;
    var vs', ls' := [v] + vs, [l] + ls;
    forall j | 0 <= j < k + 1 ensures Turns(env, vs'[j], ls'[j], vs'[j + 1], ls'[j + 1]) {
      if j > 0 { assert Turns(env, vs[j - 1], ls[j - 1], vs[j - 1 + 1], ls[j - 1 + 1]); }
    }
  }

  // ---- answers that never come ----

  /** A string of the value, originals apart, has a reference that fails whenever it is retrieved. */
  ghost predicate HoldsUnanswered(env: Env, v: Value)
    decreases v
  {
    match v
    case Str(s) => forall n: nat :: StringFails(env, s, n)
    case List(items) => exists x :: x in items && HoldsUnanswered(env, x)
    case Map(entries) => exists e :: e in entries && HoldsUnanswered(env, e.value)
    case Expanded(x, _) => HoldsUnanswered(env, x)
    case _ => false
  }

  /** One such reference makes the whole round fail, wherever it stands and whatever else is answered. */
  lemma {:induction false} UnansweredFails(env: Env, v: Value, l: Ledger)
    requires HoldsUnanswered(env, v)
    ensures ExpandValue(env, v, l).0.Failed?
    decreases v, 0
  {
    match v
    case Str(s) =>
      StringFailsIff(env, s, l);
      assert StringFails(env, s, l.calls);
    case List(items) => UnansweredItem(env, items, l);
    case Map(entries) => UnansweredEntry(env, entries, l);
    case Expanded(x, original) => UnansweredPair(env, x, original, l);
    case _ =>
  }

  lemma UnansweredPair(env: Env, x: Value, original: string, l: Ledger)
    requires HoldsUnanswered(env, x)
    ensures ExpandValue(env, Expanded(x, original), l).0.Failed?
    decreases x, 1
  {
    hide ExpandValue;
    UnansweredFails(env, x, l);
    PairRoundIs(env, x, original, l);
  }

  lemma UnansweredItem(env: Env, items: seq<Value>, l: Ledger)
    requires HoldsUnanswered(env, List(items))
    ensures ExpandValue(env, List(items), l).0.Failed?
    decreases items
  {
    hide ExpandValue;
    var k, ls := ListRoundIs(env, items, l);
    var i :| 0 <= i < |items| && HoldsUnanswered(env, items[i]);
    if k == |items| {
      assert Succeeds(env, items[i], ls[i], ls[i + 1]);
      UnansweredFails(env, items[i], ls[i]);
    }
  }

  lemma UnansweredEntry(env: Env, entries: seq<Entry>, l: Ledger)
    requires HoldsUnanswered(env, Map(entries))
    ensures ExpandValue(env, Map(entries), l).0.Failed?
    decreases entries
  {
    hide ExpandValue;
    var values := ValuesOf(entries);
    MapRoundIs(env, entries, l);
    var k, ls := ListRoundIs(env, values, l);
    var i :| 0 <= i < |entries| && HoldsUnanswered(env, entries[i].value);
    if k == |values| {
      assert Succeeds(env, values[i], ls[i], ls[i + 1]);
      UnansweredFails(env, entries[i].value, ls[i]);
    }
  }

  /** And it makes the expansion fail, with the error of the retrieval. */
  lemma UnansweredAborts(env: Env, v: Value, l: Ledger)
    requires HoldsUnanswered(env, v)
    ensures ExpandRecursively(env, v, l).0 == Aborted(ExpandError)
  {
    hide ExpandValue;
    UnansweredFails(env, v, l);
  }
}
