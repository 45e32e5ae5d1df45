/**
 The limit of 1000 rounds is exact: references nested n deep take n changed rounds, so 999
 levels resolve and 1000 do not; and a reference to itself never resolves.
 */
module ExpansionLimit {
  import opened Options
  import opened Text
  import opened UriSearch
  import opened ConfTree
  import opened Expansion
  import opened Termination

  const OPENING := "${ab:"

  /** A reference of the scheme `ab`. */
  function Inner(x: string): string { OPENING + x + "}" }

  /** Text that neither starts nor ends a reference. */
  predicate Inert(x: string) { '$' !in x && '}' !in x }

  /**
   A provider of the scheme `ab` that answers every question: with a text that is inert and a value
   that holds no closing bracket, otherwise arbitrary, and another one every time.
   */
  ghost predicate AnswersTexts(env: Env) {
    "ab" in env.schemes && forall n: nat, uri: string :: InertAnswer(env.provider(n, uri))
  }

  predicate InertAnswer(answer: Option<Retrieved>) {
    && answer.Some? && Brackets(answer.value.raw) == 0
    && answer.value.AsString().Some? && Inert(answer.value.AsString().value)
  }

  /** The ledger after one call for the reference `Inner(x)` that obtained a resource. */
  function OneMore(x: string, l: Ledger): Ledger {
    l.(calls := l.calls + 1, asked := l.asked + ["ab:" + x],
       obtained := l.obtained + [l.calls], closers := l.closers + [l.calls])
  }

  function Opens(n: nat): string { seq(5 * n, i requires 0 <= i => OPENING[i % 5]) }

  function Closes(n: nat): string { seq(n, _ => '}') }

  /** `${ab:${ab:...x...}}`, n levels deep. */
  function Nested(n: nat, x: string): string { Opens(n) + x + Closes(n) }

  /** The characters of a nested reference. */
  lemma NestedAt(n: nat, x: string, k: nat)
    ensures |Nested(n, x)| == 6 * n + |x|
    ensures k < 6 * n + |x| ==>
      Nested(n, x)[k] == if k < 5 * n then OPENING[k % 5] else if k < 5 * n + |x| then x[k - 5 * n] else '}'
  {
  }

  lemma OpeningAt(k: nat)
    ensures var c := OPENING[k % 5]; c != '}' && (c == '$' <==> k % 5 == 0) && (c == '{' <==> k % 5 == 1)
  {
  }

  lemma InnermostShape(n: nat, x: string)
    requires n > 0 && Inert(x)
    ensures var s, open, close := Nested(n, x), 5 * (n - 1), 5 * n + |x|;
      && close < |s| && OpensAt(s, open) && s[open + 4] == ':'
      && s[close] == '}' && s[open..close + 1] == Inner(x)
      && Free(s, '}', 0, close) && NoOpening(s, open + 1, close)
      && (forall k :: open < k < |s| ==> s[k] != '$')
      && (n > 1 ==> s[open - 1] == ':')
  {
    hide Nested;
    var s, open, close := Nested(n, x), 5 * (n - 1), 5 * n + |x|;
    assert open % 5 == 0 && (open + 1) % 5 == 1 && (open + 4) % 5 == 4;
    NestedAt(n, x, 0);
    forall k | 0 <= k < |s|
      ensures s[k] == if k < 5 * n then OPENING[k % 5] else if k < 5 * n + |x| then x[k - 5 * n] else '}'
      ensures k < close ==> s[k] != '}'
      ensures k > open ==> s[k] != '$'
    {
      NestedAt(n, x, k);
      OpeningAt(k);
      if open < k < open + 5 { assert k % 5 == k - open; }
    }
    InnerAt(n, x);
    if n > 1 { assert (open - 1) % 5 == 4; }
  }

  lemma InnerAt(n: nat, x: string)
    requires n > 0
    ensures 5 * n + |x| < |Nested(n, x)| && Nested(n, x)[5 * (n - 1)..5 * n + |x| + 1] == Inner(x)
  {
    var part := Nested(n, x)[5 * (n - 1)..5 * n + |x| + 1];
    forall k | 0 <= k < |part| ensures part[k] == Inner(x)[k] {
      NestedAt(n, x, 5 * (n - 1) + k);
      if k < 5 { assert (5 * (n - 1) + k) % 5 == k; }
    }
  }

  lemma InnermostIsFound(n: nat, x: string, defaultScheme: string)
    requires n > 0 && Inert(x)
    ensures FindUri(Nested(n, x), defaultScheme) == Inner(x)
  {
    hide FindUri, Nested;
    var s, open, close := Nested(n, x), 5 * (n - 1), 5 * n + |x|;
    InnermostShape(n, x);
    assert s[open + 4] == ':' && open <= open + 4 < close;
    assert Candidate(s, defaultScheme, open, close);
    var found, o, c := FindUriIsFirstCandidate(s, defaultScheme);
    assert c == close && o == open;
  }

  lemma {:induction false} ReplaceOnce(a: string, b: string, uri: string, text: string)
    requires uri != [] && uri[|uri| - 1] == '}' && '}' !in uri[..|uri| - 1] && uri[0] == '$'
    requires '}' !in a && '$' !in b
    ensures ReplaceAll(a + uri + b, uri, text) == a + text + b
  {
    var s := a + uri + b;
    if a == [] {
      assert s[..|uri|] == uri && s[|uri|..] == b;
      NothingToReplace(b, uri, text);
      assert text + b == a + text + b;
    } else {
      assert s[|uri| - 1] != '}' by {
        if |uri| - 1 < |a| { assert s[|uri| - 1] == a[|uri| - 1]; }
        else { assert s[|uri| - 1] == uri[..|uri| - 1][|uri| - 1 - |a|]; }
      }
      assert s[..|uri|][|uri| - 1] != '}';
      assert s[1..] == a[1..] + uri + b;
      ReplaceOnce(a[1..], b, uri, text);
      assert [s[0]] + (a[1..] + text + b) == a + text + b;
    }
  }

  lemma {:induction false} NothingToReplace(b: string, uri: string, text: string)
    requires uri != [] && uri[0] == '$' && '$' !in b
    ensures ReplaceAll(b, uri, text) == b
  {
    if |b| >= |uri| {
      assert b[..|uri|][0] == b[0];
      NothingToReplace(b[1..], uri, text);
    }
  }

  /** The answer to the reference `Inner(x)`, when it is asked for now. */
  function Answer(env: Env, x: string, l: Ledger): Option<Retrieved> { env.provider(l.calls, "ab:" + x) }

  lemma AskInner(env: Env, x: string, l: Ledger)
    requires "ab" in env.schemes && Inert(x) && Answer(env, x, l).Some?
    ensures ExpandUri(env, Inner(x), l) == (Answer(env, x, l), OneMore(x, l))
  {
    hide IndexFrom;
    var location := "ab:" + x;
    assert Inner(x)[2..|Inner(x)| - 1] == location;
    assert location[2] == ':' && Index(location, ':') == 2;
    assert location[..2] == "ab" && location[3..] == x;
    assert LocationOf(env, Inner(x)) == Some(("ab", location));
  }

  /** One round removes one level and opens one resource. */
  lemma OneLevel(env: Env, n: nat, x: string, l: Ledger)
    requires AnswersTexts(env) && Inert(x) && n > 0
    ensures var answer := Answer(env, x, l);
      && InertAnswer(answer)
      && ExpandString(env, Nested(n, x), l) ==
        (Done(if n == 1 then Expanded(answer.value.raw, answer.value.AsString().value)
              else Str(Nested(n - 1, answer.value.AsString().value)), true), OneMore(x, l))
  {
    hide FindUri, ExpandUri, ReplaceAll, IndexFrom, Brackets, Nested, Inert;
    var s, answer := Nested(n, x), Answer(env, x, l);
    InnermostShape(n, x);
    AskInner(env, x, l);
    InnermostIsFound(n, x, env.defaultScheme);
    assert OpensAt(s, 5 * (n - 1)) && s[5 * n + |x|] in s;
    Level(n, x, answer.value.AsString().value);
  }

  /** Replacing the innermost reference leaves one level less; with one level it is the whole text. */
  lemma Level(n: nat, x: string, text: string)
    requires n > 0 && Inert(x) && Inert(text)
    ensures n == 1 <==> Nested(n, x) == Inner(x)
    ensures n > 1 ==> ReplaceAll(Nested(n, x), Inner(x), text) == Nested(n - 1, text)
  {
    hide ReplaceAll;
    if n == 1 {
      assert Opens(1) == OPENING && Closes(1) == "}";
    } else {
      assert Opens(n) == Opens(n - 1) + OPENING && Closes(n) == "}" + Closes(n - 1);
      assert Nested(n, x) == Opens(n - 1) + Inner(x) + Closes(n - 1);
      assert |Nested(n, x)| != |Inner(x)|;
      ReplaceOnce(Opens(n - 1), Closes(n - 1), Inner(x), text);
    }
  }

  lemma InertIsFixed(env: Env, x: string, l: Ledger)
    requires Inert(x)
    ensures ExpandString(env, x, l) == (Done(Str(x), false), l)
  {
    hide FindUri;
  }

  lemma {:induction false} NestedRounds(env: Env, n: nat, x: string, rounds: nat, l: Ledger)
    requires AnswersTexts(env) && Inert(x)
    ensures var r := ExpandRounds(env, Str(Nested(n, x)), rounds, l).0;
      if rounds > n then r.Finished? else r == Aborted(TooManyExpansions)
    decreases n
  {
    hide FindUri, ExpandString, Inert, Brackets;
    if rounds > 0 {
      if n == 0 {
        assert Nested(0, x) == x;
        InertIsFixed(env, x, l);
      } else {
        OneLevel(env, n, x, l);
        var (r, l1) := ExpandString(env, Nested(n, x), l);
        if n == 1 {
          LastLevel(env, Answer(env, x, l), rounds - 1, l1);
        } else {
          NestedRounds(env, n - 1, Answer(env, x, l).value.AsString().value, rounds - 1, l1);
        }
      }
    }
  }

  lemma LastLevel(env: Env, answer: Option<Retrieved>, rounds: nat, l: Ledger)
    requires InertAnswer(answer)
    ensures var r := ExpandRounds(env, Expanded(answer.value.raw, answer.value.AsString().value), rounds, l).0;
      if rounds > 0 then r.Finished? else r == Aborted(TooManyExpansions)
  {
    hide ExpandString;
    NoBracketsNothingChanges(env, answer.value.raw, l);
    InertIsFixed(env, answer.value.AsString().value, l);
  }

  /** Up to 999 nested references resolve, whatever the answers; from 1000 on they exceed the limit. */
  lemma LimitIsExact(env: Env, n: nat, x: string, l: Ledger)
    requires AnswersTexts(env) && Inert(x)
    ensures var r := ExpandRecursively(env, Str(Nested(n, x)), l).0;
      if n < 1000 then r.Finished? else r == Aborted(TooManyExpansions)
  {
    NestedRounds(env, n, x, MAX_ROUNDS, l);
  }

  // ---- a reference to itself ----

  /** A provider of the scheme `ab` that answers every question with one and the same reference, as a string. */
  ghost predicate AnswersWith(env: Env, text: string) {
    "ab" in env.schemes && forall n: nat, uri: string :: IsStringAnswer(env.provider(n, uri), text)
  }

  predicate IsStringAnswer(answer: Option<Retrieved>, text: string) {
    answer.Some? && answer.value.raw == Str(text) && answer.value.AsString() == Some(text)
  }

  lemma SelfReference(env: Env, x: string, l: Ledger)
    requires Inert(x) && AnswersWith(env, Inner(x))
    ensures ExpandString(env, Inner(x), l) == (Done(Expanded(Str(Inner(x)), Inner(x)), true), OneMore(x, l))
  {
    hide FindUri, ExpandUri, Nested, Inert;
    AskInner(env, x, l);
    Level(1, x, x);
    InnermostShape(1, x);
    InnermostIsFound(1, x, env.defaultScheme);
    assert OpensAt(Inner(x), 0) && Inner(x)[5 + |x|] == '}';
  }

  /** A provider that answers with the reference itself makes every round a changed one. */
  lemma {:induction false} SelfReferenceNeverResolves(env: Env, x: string, v: Value, rounds: nat, l: Ledger)
    requires Inert(x) && AnswersWith(env, Inner(x))
    requires v == Str(Inner(x)) || (v.Expanded? && v.value == Str(Inner(x)))
    ensures ExpandRounds(env, v, rounds, l).0 == Aborted(TooManyExpansions)
    ensures |ExpandRounds(env, v, rounds, l).1.closers| == |l.closers| + rounds
    decreases rounds
  {
    hide FindUri, ExpandString;
    if rounds > 0 {
      SelfReference(env, x, l);
      assert ExpandValue(env, v, l) == ExpandString(env, Inner(x), l);
      var (r, l1) := ExpandValue(env, v, l);
      SelfReferenceNeverResolves(env, x, r.value, rounds - 1, l1);
    }
  }
}
