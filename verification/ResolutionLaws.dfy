/**
 What a whole resolution returns: the configured locations merged in order, every key expanded and
 unescaped, the converters applied in order; and that doubling every `$` takes text through it.
 */
module ResolutionLaws {
  import opened Options
  import opened ConfTree
  import opened UriSearch
  import opened Expansion
  import opened Termination
  import opened Escaping
  import opened Resolving
  import opened RoundLaws

  // ---- retrieving and merging ----

  /** The entries of a configuration: none for an absent value, those of a map. */
  ghost predicate HasEntries(v: Value, entries: seq<Entry>) { (v.Null? && entries == []) || v == Map(entries) }

  /** The `n`-th call, for this location, answers with a configuration that merges into `m` and gives `m'`. */
  ghost predicate Merges(cfg: Settings, where: Location, n: nat, m: Conf, m': Conf) {
    && where.scheme in cfg.env.schemes
    && cfg.env.provider(n, where.text).Some?
    && exists entries ::
      HasEntries(cfg.env.provider(n, where.text).value.raw, entries) && cfg.merge(m, entries) == Some(m')
  }

  ghost predicate MergesSome(cfg: Settings, where: Location, n: nat, m: Conf) {
    exists m' :: Merges(cfg, where, n, m, m')
  }

  /** The first `k` locations are merged one after the other into what `ms` begins with. */
  ghost predicate MergedInOrder(cfg: Settings, uris: seq<Location>, n: nat, k: nat, ms: seq<Conf>) {
    && k <= |uris| && |ms| == k + 1
    && forall i :: 0 <= i < k ==> Merges(cfg, uris[i], n + i, ms[i], ms[i + 1])
  }

  function Texts(uris: seq<Location>): seq<string> {
    seq(|uris|, i requires 0 <= i < |uris| => uris[i].text)
  }

  /** The numbers of the `k` calls from the `n`-th on. */
  function Calls(n: nat, k: nat): seq<nat> { seq(k, i requires 0 <= i < k => n + i) }

  /** The ledger after one answered call for each location. */
  function AfterAll(l: Ledger, uris: seq<Location>): Ledger {
    var calls := Calls(l.calls, |uris|);
    Ledger(l.calls + |uris|, l.asked + Texts(uris), l.obtained + calls, l.closed, l.closers + calls)
  }

  lemma AfterOneMore(l: Ledger, uris: seq<Location>)
    requires uris != []
    ensures AfterAll(l, uris) ==
      AfterAll(Ledger(l.calls + 1, l.asked + [uris[0].text], l.obtained + [l.calls], l.closed, l.closers + [l.calls]),
               uris[1..])
  {
    assert Texts(uris) == [uris[0].text] + Texts(uris[1..]);
    assert Calls(l.calls, |uris|) == [l.calls] + Calls(l.calls + 1, |uris| - 1);
  }

  lemma MergedCons(cfg: Settings, uris: seq<Location>, n: nat, k: nat, m: Conf, ms: seq<Conf>)
    requires uris != [] && MergedInOrder(cfg, uris[1..], n + 1, k, ms) && Merges(cfg, uris[0], n, m, ms[0])
    ensures MergedInOrder(cfg, uris, n, k + 1, [m] + ms)
  {
    hide Merges;
    var all := [m] + ms;
    forall i | 0 <= i < k + 1 ensures Merges(cfg, uris[i], n + i, all[i], all[i + 1]) {
      if i > 0 { assert Merges(cfg, uris[1..][i - 1], n + 1 + (i - 1), ms[i - 1], ms[i - 1 + 1]); }
    }
  }

  /**
   Retrieving all locations: they are asked in order, and each answer is merged into what there is,
   up to the first that is not answered, is no configuration, or does not merge.
   */
  lemma {:induction false} RetrieveAllIs(cfg: Settings, uris: seq<Location>, conf: Conf, l: Ledger)
      returns (k: nat, ms: seq<Conf>)
    ensures MergedInOrder(cfg, uris, l.calls, k, ms) && ms[0] == conf
    ensures var (r, l') := RetrieveAll(cfg, uris, conf, l);
      if k == |uris| then r == Some(ms[k]) && l' == AfterAll(l, uris)
      else r.None? && !MergesSome(cfg, uris[k], l.calls + k, ms[k])
    decreases |uris|
  {
    hide RetrieveAll, AfterAll, Merges, MergesSome;
    if uris == [] {
      k, ms := 0, [conf];
      NothingToRetrieve(cfg, conf, l);
    } else {
      var l1 := l.(calls := l.calls + 1, asked := l.asked + [uris[0].text], obtained := l.obtained + [l.calls],
                   closers := l.closers + [l.calls]);
      var m := FirstLocation(cfg, uris, conf, l, l1);
      if m.None? {
        k, ms := 0, [conf];
      } else {
        k, ms := RetrieveAllIs(cfg, uris[1..], m.value, l1);
        MergedCons(cfg, uris, l.calls, k, conf, ms);
        AfterOneMore(l, uris);
        k, ms := k + 1, [conf] + ms;
      }
    }
  }

  lemma NothingToRetrieve(cfg: Settings, conf: Conf, l: Ledger)
    ensures RetrieveAll(cfg, [], conf, l) == (Some(conf), AfterAll(l, []))
  {
    assert AfterAll(l, []) == l;
  }

  lemma FirstLocation(cfg: Settings, uris: seq<Location>, conf: Conf, l: Ledger, l1: Ledger) returns (m: Option<Conf>)
    requires uris != []
    requires l1 ==
      Ledger(l.calls + 1, l.asked + [uris[0].text], l.obtained + [l.calls], l.closed, l.closers + [l.calls])
    ensures if m.None? then !MergesSome(cfg, uris[0], l.calls, conf) else Merges(cfg, uris[0], l.calls, conf, m.value)
    ensures if m.None? then RetrieveAll(cfg, uris, conf, l).0.None?
      else RetrieveAll(cfg, uris, conf, l) == RetrieveAll(cfg, uris[1..], m.value, l1)
  {
    var (answer, l2) := Retrieve(cfg.env, uris[0].scheme, uris[0].text, l);
    var entries := if answer.Some? then AsConf(answer.value.raw) else None;
    m := if entries.Some? then cfg.merge(conf, entries.value) else None;
    if entries.Some? { assert HasEntries(answer.value.raw, entries.value); }
  }

  lemma {:induction false} SameMerges(
      cfg: Settings, uris: seq<Location>, n: nat, k: nat, ms: seq<Conf>, k': nat, ms': seq<Conf>)
    requires MergedInOrder(cfg, uris, n, k, ms) && MergedInOrder(cfg, uris, n, k', ms') && ms[0] == ms'[0]
    requires k <= k'
    ensures forall i :: 0 <= i <= k ==> ms[i] == ms'[i]
    decreases k
  {
    if k > 0 {
      assert MergedInOrder(cfg, uris, n, k - 1, ms[..k]);
      SameMerges(cfg, uris, n, k - 1, ms[..k], k', ms');
      assert Merges(cfg, uris[k - 1], n + (k - 1), ms[k - 1], ms[k - 1 + 1]);
      assert Merges(cfg, uris[k - 1], n + (k - 1), ms'[k - 1], ms'[k - 1 + 1]);
    }
  }

  // ---- expanding the keys ----

  /** The keys stay in order, and each value is the expansion of what was there, unescaped. */
  ghost predicate Expands(env: Env, conf: Conf, e: Conf, ls: seq<Ledger>) {
    && |e| == |conf| && |ls| == |conf| + 1
    && forall j :: 0 <= j < |conf| ==> ExpandsOne(env, conf[j], e[j], ls[j], ls[j + 1])
  }

  ghost predicate ExpandsOne(env: Env, before: Entry, after: Entry, l: Ledger, l': Ledger) {
    var (out, l1) := ExpandRecursively(env, before.value, l);
    && out.Finished? && l1 == l'
    && after.key == before.key && after.value == Unescape(out.value)
  }

  lemma ExpandsCons(env: Env, first: Entry, conf: Conf, e0: Entry, e: Conf, l: Ledger, ls: seq<Ledger>)
    requires Expands(env, conf, e, ls) && ExpandsOne(env, first, e0, l, ls[0])
    ensures Expands(env, [first] + conf, [e0] + e, [l] + ls)
  {
    hide ExpandsOne;
    var conf', e', ls' := [first] + conf, [e0] + e, [l] + ls;
    forall j | 0 <= j < |conf'| ensures ExpandsOne(env, conf'[j], e'[j], ls'[j], ls'[j + 1]) {
      if j > 0 { assert ExpandsOne(env, conf[j - 1], e[j - 1], ls[j - 1], ls[j - 1 + 1]); }
    }
  }

  lemma {:induction false} ExpandKeysIs(env: Env, conf: Conf, l: Ledger) returns (ls: seq<Ledger>)
    ensures var (r, l') := ExpandKeys(env, conf, l);
      r.Some? ==> Expands(env, conf, r.value, ls) && ls[0] == l && ls[|conf|] == l'
    decreases |conf|
  {
    hide ExpandRecursively;
    ls := [l];
    if conf != [] {
      var (first, l1) := ExpandRecursively(env, conf[0].value, l);
      if first.Finished? {
        var rest := ExpandKeysIs(env, conf[1..], l1);
        var r := ExpandKeys(env, conf[1..], l1).0;
        if r.Some? {
          var e0 := Entry(conf[0].key, Unescape(first.value));
          ExpandsCons(env, conf[0], conf[1..], e0, r.value, l, rest);
          assert conf == [conf[0]] + conf[1..];
          ls := [l] + rest;
        }
      }
    }
  }

  lemma {:induction false} ExpandsDetermines(env: Env, conf: Conf, e: Conf, ls: seq<Ledger>)
    requires Expands(env, conf, e, ls)
    ensures ExpandKeys(env, conf, ls[0]) == (Some(e), ls[|conf|])
    decreases |conf|
  {
    hide ExpandRecursively;
    if conf != [] {
      assert ExpandsOne(env, conf[0], e[0], ls[0], ls[0 + 1]);
      forall j | 0 <= j < |conf| - 1 ensures ExpandsOne(env, conf[1..][j], e[1..][j], ls[1..][j], ls[1..][j + 1]) {
        assert ExpandsOne(env, conf[j + 1], e[j + 1], ls[j + 1], ls[j + 1 + 1]);
      }
      ExpandsDetermines(env, conf[1..], e[1..], ls[1..]);
      assert e == [Entry(conf[0].key, e[0].value)] + e[1..];
    }
  }

  // ---- converting ----

  /** Each converter works on what the one before it returned. */
  ghost predicate Converts(converters: seq<Conf -> Option<Conf>>, c: seq<Conf>) {
    |c| == |converters| + 1 && forall i :: 0 <= i < |converters| ==> converters[i](c[i]) == Some(c[i + 1])
  }

  lemma {:induction false} ConvertIs(converters: seq<Conf -> Option<Conf>>, conf: Conf) returns (c: seq<Conf>)
    ensures Convert(converters, conf).Some? ==>
      Converts(converters, c) && c[0] == conf && c[|converters|] == Convert(converters, conf).value
    decreases |converters|
  {
    c := [conf];
    if converters != [] && converters[0](conf).Some? {
      var rest := ConvertIs(converters[1..], converters[0](conf).value);
      if Convert(converters, conf).Some? {
        c := [conf] + rest;
        forall i | 0 <= i < |converters| ensures converters[i](c[i]) == Some(c[i + 1]) {
          if i > 0 { assert converters[1..][i - 1](rest[i - 1]) == Some(rest[i - 1 + 1]); }
        }
      }
    }
  }

  lemma {:induction false} ConvertsDetermines(converters: seq<Conf -> Option<Conf>>, c: seq<Conf>)
    requires Converts(converters, c)
    ensures Convert(converters, c[0]) == Some(c[|converters|])
    decreases |converters|
  {
    if converters != [] {
      assert converters[0](c[0]) == Some(c[0 + 1]);
      forall i | 0 <= i < |converters| - 1 ensures converters[1..][i](c[1..][i]) == Some(c[1..][i + 1]) {
        assert converters[i + 1](c[i + 1]) == Some(c[i + 1 + 1]);
      }
      ConvertsDetermines(converters[1..], c[1..]);
    }
  }

  // ---- the whole ----

  /** Closing what the resolution before left open reports no error. */
  ghost predicate ClosesWell(cfg: Settings, l: Ledger) {
    forall k :: 0 <= k < |l.closers| ==> !cfg.closeFails(l.closers[k])
  }

  function Closed(l: Ledger): Ledger { Ledger(l.calls, l.asked, l.obtained, l.closed + l.closers, []) }

  /** All that happens in a resolution that succeeds. */
  ghost predicate Way(cfg: Settings, l: Ledger, ms: seq<Conf>, e: Conf, ls: seq<Ledger>, c: seq<Conf>) {
    && ClosesWell(cfg, l)
    && MergedInOrder(cfg, cfg.uris, l.calls, |cfg.uris|, ms) && ms[0] == []
    && Expands(cfg.env, ms[|cfg.uris|], e, ls) && ls[0] == AfterAll(Closed(l), cfg.uris)
    && Converts(cfg.converters, c) && c[0] == e
  }

  /**
   A resolution returns a configuration iff closing, retrieving, merging, expanding and converting
   all succeed on the way to it: each location is merged in order into the empty configuration,
   each key gets its expanded value with `$$` turned into `$`, and each converter is applied in order.
   */
  lemma ResolveIs(cfg: Settings, l: Ledger, conf: Conf)
    ensures ResolveOnce(cfg, l).0 == Some(conf) <==>
      exists ms, e, ls, c :: Way(cfg, l, ms, e, ls, c) && c[|cfg.converters|] == conf
  {
    hide RetrieveAll, ExpandKeys, Convert, MergedInOrder, Expands;
    if ResolveOnce(cfg, l).0 == Some(conf) {
      var ms, e, ls, c := TheWay(cfg, l);
    }
    if ms, e, ls, c :| Way(cfg, l, ms, e, ls, c) && c[|cfg.converters|] == conf {
      WayDetermines(cfg, l, ms, e, ls, c);
    }
  }

  lemma TheWay(cfg: Settings, l: Ledger) returns (ms: seq<Conf>, e: Conf, ls: seq<Ledger>, c: seq<Conf>)
    requires ResolveOnce(cfg, l).0.Some?
    ensures Way(cfg, l, ms, e, ls, c) && ResolveOnce(cfg, l) == (Some(c[|cfg.converters|]), ls[|e|])
  {
    hide RetrieveAll, ExpandKeys, Convert, AfterAll;
    var k;
    k, ms := RetrieveAllIs(cfg, cfg.uris, [], CloseAll(l));
    var (merged, l1) := RetrieveAll(cfg, cfg.uris, [], CloseAll(l));
    ls := ExpandKeysIs(cfg.env, merged.value, l1);
    e := ExpandKeys(cfg.env, merged.value, l1).0.value;
    c := ConvertIs(cfg.converters, e);
  }

  lemma WayDetermines(cfg: Settings, l: Ledger, ms: seq<Conf>, e: Conf, ls: seq<Ledger>, c: seq<Conf>)
    requires Way(cfg, l, ms, e, ls, c)
    ensures |c| == |cfg.converters| + 1 && |ls| == |e| + 1
    ensures ResolveOnce(cfg, l) == (Some(c[|cfg.converters|]), ls[|e|])
  {
    hide RetrieveAll, ExpandKeys, Convert, AfterAll;
    MergesDetermine(cfg, l, ms);
    ExpandsDetermines(cfg.env, ms[|cfg.uris|], e, ls);
    ConvertsDetermines(cfg.converters, c);
  }

  lemma MergesDetermine(cfg: Settings, l: Ledger, ms: seq<Conf>)
    requires MergedInOrder(cfg, cfg.uris, l.calls, |cfg.uris|, ms) && ms[0] == []
    ensures RetrieveAll(cfg, cfg.uris, [], CloseAll(l)) == (Some(ms[|cfg.uris|]), AfterAll(Closed(l), cfg.uris))
  {
    hide RetrieveAll, AfterAll, Merges;
    forall i: nat | i < |cfg.uris| ensures MergesSome(cfg, cfg.uris[i], l.calls + i, ms[i]) {
      assert Merges(cfg, cfg.uris[i], l.calls + i, ms[i], ms[i + 1]);
    }
    var k, ms' := RetrieveAllIs(cfg, cfg.uris, [], CloseAll(l));
    SameMerges(cfg, cfg.uris, l.calls, k, ms', |cfg.uris|, ms);
  }

  // ---- escapes ----

  lemma {:induction false} DoubledKeysExpand(env: Env, conf: Conf, l: Ledger)
    requires forall e :: e in conf ==> Settled(e.value)
    ensures ExpandKeys(env, DoubleEntries(conf), l) == (Some(conf), l)
    decreases |conf|
  {
    hide ExpandRecursively;
    if conf != [] {
      EscapeRoundTrip(env, conf[0].value, l);
      DoubledKeysExpand(env, conf[1..], l);
      var doubled := DoubleEntries(conf);
      assert doubled[0] == Entry(conf[0].key, DoubleAll(conf[0].value)) && doubled[1..] == DoubleEntries(conf[1..]);
      assert conf == [conf[0]] + conf[1..];
    }
  }

  /**
   The escape round trip of a resolution: when the locations merge into a configuration with every
   `$` doubled, then what the converters get is exactly that configuration, and no provider is
   asked for anything but the locations. Without converters it is the result.
   */
  lemma DoubledResolves(cfg: Settings, l: Ledger, ms: seq<Conf>, conf: Conf)
    requires ClosesWell(cfg, l)
    requires MergedInOrder(cfg, cfg.uris, l.calls, |cfg.uris|, ms) && ms[0] == []
    requires ms[|cfg.uris|] == DoubleEntries(conf) && forall e :: e in conf ==> Settled(e.value)
    ensures ResolveOnce(cfg, l).1 == AfterAll(Closed(l), cfg.uris)
    ensures cfg.converters == [] ==> ResolveOnce(cfg, l).0 == Some(conf)
    ensures forall c :: Converts(cfg.converters, c) && c[0] == conf ==>
      ResolveOnce(cfg, l).0 == Some(c[|cfg.converters|])
  {
    hide RetrieveAll, ExpandKeys, AfterAll;
    MergesDetermine(cfg, l, ms);
    DoubledKeysExpand(cfg.env, conf, AfterAll(Closed(l), cfg.uris));
    forall c | Converts(cfg.converters, c) && c[0] == conf
      ensures ResolveOnce(cfg, l).0 == Some(c[|cfg.converters|])
    {
      ConvertsDetermines(cfg.converters, c);
    }
  }

  // ---- failure ----

  /** A reference that no provider ever answers, anywhere in what was merged, fails the resolution. */
  lemma UnansweredFailsResolve(cfg: Settings, l: Ledger, ms: seq<Conf>, e: Entry)
    requires MergedInOrder(cfg, cfg.uris, l.calls, |cfg.uris|, ms) && ms[0] == []
    requires e in ms[|cfg.uris|] && HoldsUnanswered(cfg.env, e.value)
    ensures ResolveOnce(cfg, l).0.None?
  {
    hide RetrieveAll, ExpandKeys, AfterAll, HoldsUnanswered;
    MergesDetermine(cfg, l, ms);
    var l1 := AfterAll(Closed(l), cfg.uris);
    UnansweredFailsKeys(cfg.env, ms[|cfg.uris|], e, l1);
  }

  lemma {:induction false} UnansweredFailsKeys(env: Env, conf: Conf, e: Entry, l: Ledger)
    requires e in conf && HoldsUnanswered(env, e.value)
    ensures ExpandKeys(env, conf, l).0.None?
    decreases |conf|
  {
    hide ExpandRecursively, HoldsUnanswered;
    if conf[0] == e {
      UnansweredAborts(env, e.value, l);
    } else {
      UnansweredFailsKeys(env, conf[1..], e, ExpandRecursively(env, conf[0].value, l).1);
    }
  }
}
