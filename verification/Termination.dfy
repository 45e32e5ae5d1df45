/**
 What a round does to a value: the measure it lowers, the normal form in which it stops, and
 how many rounds an expansion can take.
 */
module Termination {
  import opened Options
  import opened Text
  import opened UriSearch
  import opened ConfTree
  import opened Expansion

  /** Providers return neither values nor texts that hold a closing bracket. */
  ghost predicate BracketFree(env: Env) {
    forall n: nat, uri: string :: env.provider(n, uri).Some? ==> BracketFreeAnswer(env.provider(n, uri).value)
  }

  ghost predicate BracketFreeAnswer(answer: Retrieved) {
    Brackets(answer.raw) == 0 && (answer.recorded.Some? ==> '}' !in answer.recorded.value)
  }

  // ---- the measure ----

  lemma SubstitutionLowersBrackets(s: string, uri: string, answer: Retrieved)
    requires BracketFreeAnswer(answer) && '}' in uri && Contains(s, uri)
    ensures var r := Substitute(s, uri, answer); r.Done? ==> Brackets(r.value) < Count(s, '}')
  {
    CountPositive(uri, '}');
    var text := answer.AsString();
    if text.Some? {
      CountPositive(text.value, '}');
      ReplaceLowersCount(s, uri, text.value, '}');
    }
  }

  lemma AnswerIsBracketFree(env: Env, uri: string, l: Ledger)
    requires BracketFree(env) && |uri| >= 3
    ensures var answer := ExpandUri(env, uri, l).0; answer.Some? ==> BracketFreeAnswer(answer.value)
  {
  }

  lemma StringRoundLowersBrackets(env: Env, s: string, l: Ledger)
    requires BracketFree(env)
    ensures var r := ExpandString(env, s, l).0;
      r.Done? ==> Brackets(r.value) <= Count(s, '}') && (r.changed ==> Brackets(r.value) < Count(s, '}'))
  {
    hide FindUri, ExpandUri;
    var r := ExpandString(env, s, l).0;
    if r.Done? && r.changed {
      var uri := FindUri(s, env.defaultScheme);
      FoundUri(s, env.defaultScheme);
      AnswerIsBracketFree(env, uri, l);
      SubstitutionLowersBrackets(s, uri, ExpandUri(env, uri, l).0.value);
    }
  }

  /** Every changed round strictly lowers the number of closing brackets; an unchanged one raises it never. */
  lemma {:induction false} RoundLowersBrackets(env: Env, v: Value, l: Ledger)
    requires BracketFree(env)
    ensures var r := ExpandValue(env, v, l).0;
      r.Done? ==> Brackets(r.value) <= Brackets(v) && (r.changed ==> Brackets(r.value) < Brackets(v))
    decreases v
  {
    hide ExpandString, FindUri;
    match v
    case Str(s) => StringRoundLowersBrackets(env, s, l);
    case List(items) => ItemsRoundLowersBrackets(env, items, l);
    case Map(entries) => EntriesRoundLowersBrackets(env, entries, l);
    case Expanded(x, original) =>
      RoundLowersBrackets(env, x, l);
      StringRoundLowersBrackets(env, original, ExpandValue(env, x, l).1);
    case _ =>
  }

  lemma {:induction false} ItemsRoundLowersBrackets(env: Env, items: seq<Value>, l: Ledger)
    requires BracketFree(env)
    ensures var (r, changed, _) := ExpandItems(env, items, l);
      r.Some? ==>
        && BracketsOfItems(r.value) <= BracketsOfItems(items)
        && (changed ==> BracketsOfItems(r.value) < BracketsOfItems(items))
    decreases items
  {
    hide ExpandString, FindUri;
    if items != [] {
      RoundLowersBrackets(env, items[0], l);
      var (first, l1) := ExpandValue(env, items[0], l);
      ItemsRoundLowersBrackets(env, items[1..], l1);
      var rest := ExpandItems(env, items[1..], l1).0;
      if first.Done? && rest.Some? {
        assert ([first.value] + rest.value)[1..] == rest.value;
      }
    }
  }

  lemma {:induction false} EntriesRoundLowersBrackets(env: Env, entries: seq<Entry>, l: Ledger)
    requires BracketFree(env)
    ensures var (r, changed, _) := ExpandEntries(env, entries, l);
      r.Some? ==>
        && BracketsOfEntries(r.value) <= BracketsOfEntries(entries)
        && (changed ==> BracketsOfEntries(r.value) < BracketsOfEntries(entries))
    decreases entries
  {
    hide ExpandString, FindUri;
    if entries != [] {
      RoundLowersBrackets(env, entries[0].value, l);
      var (first, l1) := ExpandValue(env, entries[0].value, l);
      EntriesRoundLowersBrackets(env, entries[1..], l1);
      var rest := ExpandEntries(env, entries[1..], l1).0;
      if first.Done? && rest.Some? {
        assert ([Entry(entries[0].key, first.value)] + rest.value)[1..] == rest.value;
      }
    }
  }

  // ---- values without brackets ----

  lemma NoBracketsInString(env: Env, s: string, l: Ledger)
    requires Count(s, '}') == 0
    ensures ExpandString(env, s, l) == (Done(Str(s), false), l)
  {
    hide FindUri;
    CountPositive(s, '}');
  }

  /** A value without closing brackets is not changed by a round, and no provider is asked for it. */
  lemma {:induction false} NoBracketsNothingChanges(env: Env, v: Value, l: Ledger)
    requires Brackets(v) == 0
    ensures var (r, l') := ExpandValue(env, v, l); r.Done? && !r.changed && l' == l
    decreases v
  {
    hide ExpandString;
    match v
    case Str(s) => NoBracketsInString(env, s, l);
    case List(items) => NoBracketsInItems(env, items, l);
    case Map(entries) => NoBracketsInEntries(env, entries, l);
    case Expanded(x, original) =>
      NoBracketsNothingChanges(env, x, l);
      NoBracketsInString(env, original, l);
    case _ =>
  }

  lemma {:induction false} NoBracketsInItems(env: Env, items: seq<Value>, l: Ledger)
    requires BracketsOfItems(items) == 0
    ensures var (r, changed, l') := ExpandItems(env, items, l); r.Some? && !changed && l' == l
    decreases items
  {
    hide ExpandString;
    if items != [] {
      NoBracketsNothingChanges(env, items[0], l);
      NoBracketsInItems(env, items[1..], l);
    }
  }

  lemma {:induction false} NoBracketsInEntries(env: Env, entries: seq<Entry>, l: Ledger)
    requires BracketsOfEntries(entries) == 0
    ensures var (r, changed, l') := ExpandEntries(env, entries, l); r.Some? && !changed && l' == l
    decreases entries
  {
    hide ExpandString;
    if entries != [] {
      NoBracketsNothingChanges(env, entries[0].value, l);
      NoBracketsInEntries(env, entries[1..], l);
    }
  }

  // ---- how many rounds ----

  /** More rounds than closing brackets always suffice. */
  lemma {:induction false} EnoughRounds(env: Env, v: Value, rounds: nat, l: Ledger)
    requires BracketFree(env) && Brackets(v) < rounds
    ensures ExpandRounds(env, v, rounds, l).0 != Aborted(TooManyExpansions)
    decreases rounds
  {
    hide ExpandValue;
    RoundLowersBrackets(env, v, l);
    var (r, l1) := ExpandValue(env, v, l);
    if r.Done? && r.changed {
      EnoughRounds(env, r.value, rounds - 1, l1);
    }
  }

  /** The error of too many expansions needs at least as many closing brackets as there are rounds. */
  lemma TooManyNeedsThousandBrackets(env: Env, v: Value, l: Ledger)
    requires BracketFree(env)
    requires ExpandRecursively(env, v, l).0 == Aborted(TooManyExpansions)
    ensures Brackets(v) >= 1000
  {
    if Brackets(v) < MAX_ROUNDS {
      EnoughRounds(env, v, MAX_ROUNDS, l);
    }
  }

  // ---- the normal form ----

  /** No string or original holds a reference, and a kept pair holds neither a string nor another pair. */
  ghost predicate Normal(v: Value, defaultScheme: string) {
    match v
    case Str(s) => FindUri(s, defaultScheme) == ""
    case List(items) => forall x :: x in items ==> Normal(x, defaultScheme)
    case Map(entries) => forall e :: e in entries ==> Normal(e.value, defaultScheme)
    case Expanded(x, original) =>
      !x.Str? && !x.Expanded? && Normal(x, defaultScheme) && FindUri(original, defaultScheme) == ""
    case _ => true
  }

  lemma UnchangedString(env: Env, s: string, l: Ledger)
    ensures var r := ExpandString(env, s, l).0; r.Done? && !r.changed <==> FindUri(s, env.defaultScheme) == ""
    ensures FindUri(s, env.defaultScheme) == "" ==> ExpandString(env, s, l) == (Done(Str(s), false), l)
  {
    if (forall k: nat :: k < |s| ==> !OpensAt(s, k)) || '}' !in s {
      NoBracketNoUri(s, env.defaultScheme);
    }
  }

  /** A round that changes nothing ends in normal form, whatever the providers answer. */
  lemma {:induction false} UnchangedIsNormal(env: Env, v: Value, l: Ledger)
    requires ExpandValue(env, v, l).0.Done? && !ExpandValue(env, v, l).0.changed
    ensures Normal(ExpandValue(env, v, l).0.value, env.defaultScheme)
    decreases v
  {
    hide ExpandString, FindUri;
    match v
    case Str(s) => UnchangedString(env, s, l);
    case List(items) => UnchangedItemsAreNormal(env, items, l);
    case Map(entries) => UnchangedEntriesAreNormal(env, entries, l);
    case Expanded(x, original) =>
      UnchangedIsNormal(env, x, l);
      UnchangedString(env, original, ExpandValue(env, x, l).1);
    case _ =>
  }

  lemma {:induction false} UnchangedItemsAreNormal(env: Env, items: seq<Value>, l: Ledger)
    requires var (r, changed, _) := ExpandItems(env, items, l); r.Some? && !changed
    ensures forall x :: x in ExpandItems(env, items, l).0.value ==> Normal(x, env.defaultScheme)
    decreases items
  {
    hide ExpandString, FindUri;
    if items != [] {
      UnchangedIsNormal(env, items[0], l);
      UnchangedItemsAreNormal(env, items[1..], ExpandValue(env, items[0], l).1);
    }
  }

  lemma {:induction false} UnchangedEntriesAreNormal(env: Env, entries: seq<Entry>, l: Ledger)
    requires var (r, changed, _) := ExpandEntries(env, entries, l); r.Some? && !changed
    ensures forall e :: e in ExpandEntries(env, entries, l).0.value ==> Normal(e.value, env.defaultScheme)
    decreases entries
  {
    hide ExpandString, FindUri;
    if entries != [] {
      UnchangedIsNormal(env, entries[0].value, l);
      UnchangedEntriesAreNormal(env, entries[1..], ExpandValue(env, entries[0].value, l).1);
    }
  }

  /** Success means normal form, for every provider and every number of rounds. */
  lemma {:induction false} FinishedIsNormal(env: Env, v: Value, rounds: nat, l: Ledger)
    requires ExpandRounds(env, v, rounds, l).0.Finished?
    ensures Normal(ExpandRounds(env, v, rounds, l).0.value, env.defaultScheme)
    decreases rounds
  {
    hide ExpandValue;
    var (r, l1) := ExpandValue(env, v, l);
    if r.changed {
      FinishedIsNormal(env, r.value, rounds - 1, l1);
    } else {
      UnchangedIsNormal(env, v, l);
    }
  }

  /** A round leaves a normal form alone and calls no provider for it. */
  lemma {:induction false} NormalIsFixed(env: Env, v: Value, l: Ledger)
    requires Normal(v, env.defaultScheme)
    ensures ExpandValue(env, v, l) == (Done(v, false), l)
    decreases v
  {
    hide ExpandString, FindUri;
    match v
    case Str(s) => UnchangedString(env, s, l);
    case List(items) => NormalItemsAreFixed(env, items, l);
    case Map(entries) => NormalEntriesAreFixed(env, entries, l);
    case Expanded(x, original) =>
      NormalIsFixed(env, x, l);
      UnchangedString(env, original, l);
    case _ =>
  }

  lemma {:induction false} NormalItemsAreFixed(env: Env, items: seq<Value>, l: Ledger)
    requires forall x :: x in items ==> Normal(x, env.defaultScheme)
    ensures ExpandItems(env, items, l) == (Some(items), false, l)
    decreases items
  {
    hide ExpandString, FindUri;
    if items != [] {
      NormalIsFixed(env, items[0], l);
      NormalItemsAreFixed(env, items[1..], l);
      assert items == [items[0]] + items[1..];
    }
  }

  lemma {:induction false} NormalEntriesAreFixed(env: Env, entries: seq<Entry>, l: Ledger)
    requires forall e :: e in entries ==> Normal(e.value, env.defaultScheme)
    ensures ExpandEntries(env, entries, l) == (Some(entries), false, l)
    decreases entries
  {
    hide ExpandString, FindUri;
    if entries != [] {
      NormalIsFixed(env, entries[0].value, l);
      NormalEntriesAreFixed(env, entries[1..], l);
      assert entries == [entries[0]] + entries[1..];
    }
  }

  /** Expanding the result of an expansion gives it back and asks no provider anything. */
  lemma ExpansionIsIdempotent(env: Env, v: Value, l: Ledger, l': Ledger)
    requires ExpandRecursively(env, v, l).0.Finished?
    ensures var w := ExpandRecursively(env, v, l).0.value;
      ExpandRecursively(env, w, l') == (Finished(w), l')
  {
    FinishedIsNormal(env, v, MAX_ROUNDS, l);
    NormalIsFixed(env, ExpandRecursively(env, v, l).0.value, l');
  }
}
