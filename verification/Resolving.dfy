/**
 One resolution: close what the previous one left open, retrieve and merge the configured
 locations, expand every key, convert; and the conservation of resources over all of it.
 */
module Resolving {
  import opened Options
  import opened ConfTree
  import opened UriSearch
  import opened Expansion
  import opened Escaping

  datatype Location = Location(scheme: string, text: string)

  /** A flat configuration: keys and values in the order of iteration. */
  type Conf = seq<Entry>

  /** What a resolver is built with. Merging, converting, closing and shutting down are arbitrary and may fail. */
  datatype Settings = Settings(
    env: Env,
    uris: seq<Location>,
    merge: (Conf, seq<Entry>) -> Option<Conf>,
    converters: seq<Conf -> Option<Conf>>,
    closeFails: nat -> bool,
    shutdownFails: string -> bool)

  /** `AsConf`: an absent value is an empty configuration, a map is one, nothing else is. */
  function AsConf(v: Value): Option<seq<Entry>> {
    match v
    case Null => Some([])
    case Map(entries) => Some(entries)
    case _ => None
  }

  /** `closeIfNeeded`: every pending resource is closed, whether or not closing reports an error. */
  function CloseAll(l: Ledger): Ledger {
    l.(closed := l.closed + l.closers, closers := [])
  }

  function RetrieveAll(cfg: Settings, uris: seq<Location>, conf: Conf, l: Ledger): (Option<Conf>, Ledger) {
    if uris == [] then (Some(conf), l)
    else
      var (answer, l1) := Retrieve(cfg.env, uris[0].scheme, uris[0].text, l);
      if answer.None? then (None, l1)
      else
        var l2 := Register(l1);
        var entries := AsConf(answer.value.raw);
        if entries.None? then (None, l2)
        else
          var merged := cfg.merge(conf, entries.value);
          if merged.None? then (None, l2) else RetrieveAll(cfg, uris[1..], merged.value, l2)
  }

  function ExpandKeys(env: Env, conf: Conf, l: Ledger): (Option<Conf>, Ledger) {
    if conf == [] then (Some([]), l)
    else
      var (first, l1) := ExpandRecursively(env, conf[0].value, l);
      if first.Aborted? then (None, l1)
      else
        var (rest, l2) := ExpandKeys(env, conf[1..], l1);
        (if rest.None? then None else Some([Entry(conf[0].key, Unescape(first.value))] + rest.value), l2)
  }

  function Convert(converters: seq<Conf -> Option<Conf>>, conf: Conf): Option<Conf> {
    if converters == [] then Some(conf)
    else
      var c := converters[0](conf);
      if c.None? then None else Convert(converters[1..], c.value)
  }

  predicate CloseErrors(cfg: Settings, ids: seq<nat>) {
    exists k :: 0 <= k < |ids| && cfg.closeFails(ids[k])
  }

  /** `Resolve`, as the result and the new ledger. */
  function ResolveOnce(cfg: Settings, l: Ledger): (Option<Conf>, Ledger) {
    var l0 := CloseAll(l);
    if CloseErrors(cfg, l.closers) then (None, l0)
    else
      var (merged, l1) := RetrieveAll(cfg, cfg.uris, [], l0);
      if merged.None? then (None, l1)
      else
        var (expanded, l2) := ExpandKeys(cfg.env, merged.value, l1);
        (if expanded.None? then None else Convert(cfg.converters, expanded.value), l2)
  }

  // ---- conservation ----

  /**
   What was obtained is what was closed followed by what is still to be closed, in order and
   each once: the numbers grow, so none occurs twice.
   */
  ghost predicate Conserved(l: Ledger) {
    && l.obtained == l.closed + l.closers
    && (forall i, j :: 0 <= i < j < |l.obtained| ==> l.obtained[i] < l.obtained[j])
    && (forall i :: 0 <= i < |l.obtained| ==> l.obtained[i] < l.calls)
  }

  /** `after` continues `before`: it closed nothing and added only resources of later calls. */
  ghost predicate Grows(before: Ledger, after: Ledger) {
    && Conserved(after)
    && before.calls <= after.calls
    && after.closed == before.closed
    && before.closers <= after.closers
    && (forall i :: |before.closers| <= i < |after.closers| ==> before.calls <= after.closers[i])
  }

  lemma RetrieveAndRegister(env: Env, scheme: string, location: string, l: Ledger)
    requires Conserved(l)
    ensures var (answer, l1) := Retrieve(env, scheme, location, l);
      Grows(l, if answer.Some? then Register(l1) else l1)
  {
    var (answer, l1) := Retrieve(env, scheme, location, l);
    if answer.Some? {
      assert l.closed + (l.closers + [l.calls]) == (l.closed + l.closers) + [l.calls];
    }
  }

  lemma StringConserves(env: Env, s: string, l: Ledger)
    requires Conserved(l)
    ensures Grows(l, ExpandString(env, s, l).1)
  {
    hide FindUri, LocationOf;
    var uri := FindUri(s, env.defaultScheme);
    if uri != "" {
      FoundUri(s, env.defaultScheme);
      var where := LocationOf(env, uri);
      if where.Some? { RetrieveAndRegister(env, where.value.0, where.value.1, l); }
    }
  }

  /** A round conserves resources however it ends, swallowed errors of originals included. */
  lemma {:induction false} RoundConserves(env: Env, v: Value, l: Ledger)
    requires Conserved(l)
    ensures Grows(l, ExpandValue(env, v, l).1)
    decreases v
  {
    hide ExpandString;
    match v
    case Str(s) => StringConserves(env, s, l);
    case List(items) => ItemsConserve(env, items, l);
    case Map(entries) => EntriesConserve(env, entries, l);
    case Expanded(x, original) =>
      RoundConserves(env, x, l);
      StringConserves(env, original, ExpandValue(env, x, l).1);
    case _ =>
  }

  lemma {:induction false} ItemsConserve(env: Env, items: seq<Value>, l: Ledger)
    requires Conserved(l)
    ensures Grows(l, ExpandItems(env, items, l).2)
    decreases items
  {
    hide ExpandString;
    if items != [] {
      RoundConserves(env, items[0], l);
      ItemsConserve(env, items[1..], ExpandValue(env, items[0], l).1);
    }
  }

  lemma {:induction false} EntriesConserve(env: Env, entries: seq<Entry>, l: Ledger)
    requires Conserved(l)
    ensures Grows(l, ExpandEntries(env, entries, l).2)
    decreases entries
  {
    hide ExpandString;
    if entries != [] {
      RoundConserves(env, entries[0].value, l);
      EntriesConserve(env, entries[1..], ExpandValue(env, entries[0].value, l).1);
    }
  }

  lemma {:induction false} RoundsConserve(env: Env, v: Value, rounds: nat, l: Ledger)
    requires Conserved(l)
    ensures Grows(l, ExpandRounds(env, v, rounds, l).1)
    decreases rounds
  {
    hide ExpandValue;
    if rounds > 0 {
      RoundConserves(env, v, l);
      var (r, l1) := ExpandValue(env, v, l);
      if r.Done? && r.changed { RoundsConserve(env, r.value, rounds - 1, l1); }
    }
  }

  lemma {:induction false} KeysConserve(env: Env, conf: Conf, l: Ledger)
    requires Conserved(l)
    ensures Grows(l, ExpandKeys(env, conf, l).1)
    decreases conf
  {
    hide ExpandRounds;
    if conf != [] {
      RoundsConserve(env, conf[0].value, MAX_ROUNDS, l);
      KeysConserve(env, conf[1..], ExpandRecursively(env, conf[0].value, l).1);
    }
  }

  lemma {:induction false} RetrieveAllConserves(cfg: Settings, uris: seq<Location>, conf: Conf, l: Ledger)
    requires Conserved(l)
    ensures Grows(l, RetrieveAll(cfg, uris, conf, l).1)
    decreases uris
  {
    if uris != [] {
      RetrieveAndRegister(cfg.env, uris[0].scheme, uris[0].text, l);
      var (answer, l1) := Retrieve(cfg.env, uris[0].scheme, uris[0].text, l);
      if answer.Some? && AsConf(answer.value.raw).Some? {
        var merged := cfg.merge(conf, AsConf(answer.value.raw).value);
        if merged.Some? { RetrieveAllConserves(cfg, uris[1..], merged.value, Register(l1)); }
      }
    }
  }

  /**
   Wherever a resolution stops, it has closed everything obtained before it, and what it leaves
   to be closed is exactly what it obtained itself.
   */
  lemma ResolveConserves(cfg: Settings, l: Ledger)
    requires Conserved(l)
    ensures var l' := ResolveOnce(cfg, l).1;
      && Conserved(l')
      && l'.closed == l.obtained
      && l'.obtained == l.obtained + l'.closers
      && (forall i :: 0 <= i < |l'.closers| ==> l.calls <= l'.closers[i])
  {
    hide RetrieveAll, ExpandKeys;
    var l0 := CloseAll(l);
    assert l0.closed == l.obtained && l0.closers == [] && l0.closed + l0.closers == l0.closed;
    RetrieveAllConserves(cfg, cfg.uris, [], l0);
    var (merged, l1) := RetrieveAll(cfg, cfg.uris, [], l0);
    if merged.Some? {
      KeysConserve(cfg.env, merged.value, l1);
    }
  }

  /** The ledger after `n` resolutions, however each of them ended, followed by a shutdown. */
  function Session(cfg: Settings, n: nat, l: Ledger): Ledger
    decreases n
  {
    if n == 0 then CloseAll(l) else Session(cfg, n - 1, ResolveOnce(cfg, l).1)
  }

  const EMPTY_LEDGER := Ledger(0, [], [], [], [])

  /** After any number of resolutions and a shutdown, every resource obtained has been closed exactly once. */
  lemma {:induction false} SessionClosesEverythingOnce(cfg: Settings, n: nat, l: Ledger)
    requires Conserved(l)
    ensures var l' := Session(cfg, n, l);
      && l'.closers == []
      && l'.closed == l'.obtained
      && l.obtained <= l'.obtained
      && (forall i, j :: 0 <= i < j < |l'.closed| ==> l'.closed[i] != l'.closed[j])
    decreases n
  {
    hide ResolveOnce;
    if n > 0 {
      ResolveConserves(cfg, l);
      SessionClosesEverythingOnce(cfg, n - 1, ResolveOnce(cfg, l).1);
    }
  }
}
