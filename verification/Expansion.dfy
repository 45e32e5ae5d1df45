/**
 The rewriting engine of the configuration resolver: one round replaces references by what
 their providers return, rounds are repeated until nothing changes, and at most 1000 times.
 */
module Expansion {
  import opened Options
  import opened Text
  import opened UriSearch
  import opened ConfTree

  const MAX_ROUNDS: nat := 1000

  /** What a provider returns: the raw value, and its text when one was recorded. */
  datatype Retrieved = Retrieved(raw: Value, recorded: Option<string>) {
    /** The text form, when it is unambiguous. */
    function AsString(): Option<string> {
      if recorded.Some? then recorded
      else if raw.Str? then Some(raw.text)
      else None
    }
  }

  /**
   The resolver's surroundings. A provider call may answer differently every time: it is given
   the number of the call as well as the location asked for, and may fail (`None`).
   */
  datatype Env = Env(
    defaultScheme: string,
    schemes: set<string>,
    provider: (nat, string) -> Option<Retrieved>)

  /**
   The bookkeeping of resources. A resource is named by the number of the provider call that
   obtained it; `closers` holds those that the resolver has still to close, `closed` those it closed.
   `asked` holds the locations of all calls.
   */
  datatype Ledger = Ledger(calls: nat, asked: seq<string>, obtained: seq<nat>, closed: seq<nat>, closers: seq<nat>)

  datatype Round = Failed | Done(value: Value, changed: bool)

  datatype Error = ExpandError | TooManyExpansions

  datatype Outcome = Aborted(error: Error) | Finished(value: Value)

  // ---- one provider call ----

  predicate SchemeStart(c: char) { 'a' <= c <= 'z' || 'A' <= c <= 'Z' }

  predicate SchemeChar(c: char) { SchemeStart(c) || '0' <= c <= '9' || c == '+' || c == '.' || c == '-' }

  /** The length of the scheme of a location: a letter, at least one more scheme character, a colon. */
  function SchemeLength(uri: string): (n: Option<nat>)
    ensures n.Some? ==> n.value < |uri|
  {
    var n := Index(uri, ':');
    if n >= 2 && SchemeStart(uri[0]) && (forall k :: 0 <= k < n ==> SchemeChar(uri[k])) then Some(n) else None
  }

  /** `retrieveValue`: ask the provider of a location for its value. */
  function Retrieve(env: Env, scheme: string, location: string, l: Ledger): (Option<Retrieved>, Ledger) {
    if scheme !in env.schemes then (None, l)
    else
      var answer := env.provider(l.calls, location);
      var obtained := if answer.Some? then l.obtained + [l.calls] else l.obtained;
      (answer, l.(calls := l.calls + 1, asked := l.asked + [location], obtained := obtained))
  }

  /** Remember to close the resource that the latest provider call obtained. */
  function Register(l: Ledger): Ledger
    requires l.calls > 0
  {
    l.(closers := l.closers + [l.calls - 1])
  }

  /** The text between the brackets of a reference, with the default scheme in front if it has no colon. */
  function FullLocation(env: Env, uri: string): string
    requires |uri| >= 3
  {
    var inner := uri[2..|uri| - 1];
    if ':' in inner then inner else env.defaultScheme + ":" + inner
  }

  /** Where a reference points to, and under which scheme; nothing when it is not a valid location. */
  function LocationOf(env: Env, uri: string): Option<(string, string)>
    requires |uri| >= 3
  {
    var location := FullLocation(env, uri);
    var n := SchemeLength(location);
    if n.None? || '$' in location[n.value + 1..] then None else Some((location[..n.value], location))
  }

  /**
   `location` is a scheme, a colon, and a value without dollar signs. A scheme is an ASCII letter
   followed by at least one more letter, digit, plus sign, point or hyphen.
   */
  ghost predicate Splits(location: string, scheme: string, opaqueValue: string) {
    && location == scheme + ":" + opaqueValue
    && |scheme| >= 2 && IsLetter(scheme[0])
    && (forall k :: 0 <= k < |scheme| ==>
          IsLetter(scheme[k]) || 48 <= scheme[k] as int <= 57 || scheme[k] in {'+', '.', '-'})
    && '$' !in opaqueValue
  }

  ghost predicate IsLetter(c: char) { 65 <= c as int <= 90 || 97 <= c as int <= 122 }

  lemma SplitsAt(full: string, scheme: string, rest: string)
    requires Splits(full, scheme, rest)
    ensures SchemeLength(full) == Some(|scheme|)
    ensures full[..|scheme|] == scheme && full[|scheme| + 1..] == rest && '$' !in rest
  {
    hide Index;
    assert full[|scheme|] == ':';
    assert forall k :: 0 <= k < |scheme| ==> full[k] == scheme[k];
    assert forall k :: 0 <= k < |scheme| ==> SchemeChar(scheme[k]);
    assert Index(full, ':') == |scheme|;
  }

  lemma SchemeSplits(full: string)
    requires SchemeLength(full).Some? && '$' !in full[SchemeLength(full).value + 1..]
    ensures var n := SchemeLength(full).value; Splits(full, full[..n], full[n + 1..])
  {
    hide Index;
    var n := SchemeLength(full).value;
    assert full == full[..n] + ":" + full[n + 1..];
  }

  /**
   What a provider is asked: the text between the brackets, with the default scheme in front
   iff it has no colon; and it is asked iff what is before the first colon is a scheme and no
   dollar sign follows it.
   */
  lemma LocationsAreWellFormed(env: Env, uri: string)
    requires |uri| >= 3
    ensures var where, full := LocationOf(env, uri), FullLocation(env, uri);
      && (where.Some? <==> exists scheme, opaqueValue :: Splits(full, scheme, opaqueValue))
      && (where.Some? ==> where.value.1 == full)
      && (where.Some? ==> exists opaqueValue :: Splits(full, where.value.0, opaqueValue))
  {
    hide SchemeLength, Splits;
    var full := FullLocation(env, uri);
    if LocationOf(env, uri).Some? { SchemeSplits(full); }
    if scheme, rest :| Splits(full, scheme, rest) { SplitsAt(full, scheme, rest); }
  }

  /** `expandURI`: strip the brackets, add the default scheme, refuse `$` in the opaque part, retrieve. */
  function ExpandUri(env: Env, uri: string, l: Ledger): (r: (Option<Retrieved>, Ledger))
    requires |uri| >= 3
  {
    var where := LocationOf(env, uri);
    if where.None? then (None, l)
    else
      var (answer, l1) := Retrieve(env, where.value.0, where.value.1, l);
      (answer, if answer.Some? then Register(l1) else l1)
  }

  // ---- one round ----

  /** A whole reference becomes any value; an embedded one is replaced by its text, everywhere. */
  function Substitute(s: string, uri: string, answer: Retrieved): Round
    requires uri != ""
  {
    var text := answer.AsString();
    if uri == s then Done(if text.Some? then Expanded(answer.raw, text.value) else answer.raw, true)
    else if text.None? then Failed
    else Done(Str(ReplaceAll(s, uri, text.value)), true)
  }

  function ExpandString(env: Env, s: string, l: Ledger): (Round, Ledger) {
    var uri := FindUri(s, env.defaultScheme);
    if (forall k: nat :: k < |s| ==> !OpensAt(s, k)) || '}' !in s || uri == "" then (Done(Str(s), false), l)
    else
      FoundUri(s, env.defaultScheme);
      var (answer, l1) := ExpandUri(env, uri, l);
      (if answer.None? then Failed else Substitute(s, uri, answer.value), l1)
  }

  function ExpandValue(env: Env, v: Value, l: Ledger): (Round, Ledger)
    decreases v
  {
    match v
    case Str(s) => ExpandString(env, s, l)
    case List(items) =>
      var (r, changed, l1) := ExpandItems(env, items, l);
      (if r.None? then Failed else Done(List(r.value), changed), l1)
    case Map(entries) =>
      var (r, changed, l1) := ExpandEntries(env, entries, l);
      (if r.None? then Failed else Done(Map(r.value), changed), l1)
    case Expanded(x, original) =>
      var (r, l1) := ExpandValue(env, x, l);
      if r.Failed? || r.value.Expanded? || r.value.Str? then (r, l1)
      else
        var (o, l2) := ExpandString(env, original, l1);
        (WithOriginal(r, o), l2)
    case _ => (Done(v, false), l)
  }

  /** The parsed value keeps an original only when that still expands to a string; errors are dropped. */
  function WithOriginal(r: Round, o: Round): Round
    requires r.Done?
  {
    if o.Done? && o.value.Str? then Done(Expanded(r.value, o.value.text), r.changed || o.changed) else r
  }

  function ExpandItems(env: Env, items: seq<Value>, l: Ledger): (r: (Option<seq<Value>>, bool, Ledger))
    decreases items
  {
    if items == [] then (Some([]), false, l)
    else
      var (first, l1) := ExpandValue(env, items[0], l);
      if first.Failed? then (None, false, l1)
      else
        var (rest, changed, l2) := ExpandItems(env, items[1..], l1);
        if rest.None? then (None, false, l2)
        else (Some([first.value] + rest.value), first.changed || changed, l2)
  }

  function ExpandEntries(env: Env, entries: seq<Entry>, l: Ledger): (r: (Option<seq<Entry>>, bool, Ledger))
    decreases entries
  {
    if entries == [] then (Some([]), false, l)
    else
      var (first, l1) := ExpandValue(env, entries[0].value, l);
      if first.Failed? then (None, false, l1)
      else
        var (rest, changed, l2) := ExpandEntries(env, entries[1..], l1);
        if rest.None? then (None, false, l2)
        else (Some([Entry(entries[0].key, first.value)] + rest.value), first.changed || changed, l2)
  }

  // ---- rounds ----

  /** `expandValueRecursively` with a bound of `rounds` rounds. */
  function ExpandRounds(env: Env, v: Value, rounds: nat, l: Ledger): (Outcome, Ledger)
    decreases rounds
  {
    if rounds == 0 then (Aborted(TooManyExpansions), l)
    else
      var (r, l1) := ExpandValue(env, v, l);
      if r.Failed? then (Aborted(ExpandError), l1)
      else if !r.changed then (Finished(r.value), l1)
      else ExpandRounds(env, r.value, rounds - 1, l1)
  }

  function ExpandRecursively(env: Env, v: Value, l: Ledger): (Outcome, Ledger) {
    ExpandRounds(env, v, MAX_ROUNDS, l)
  }
}
