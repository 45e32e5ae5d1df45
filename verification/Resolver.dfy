/**
 The resolver as an object that updates its bookkeeping step by step, proved to do what the
 functions on ledgers say.
 */
module Resolver {
  import opened Options
  import opened Text
  import opened ConfTree
  import opened UriSearch
  import opened Expansion
  import opened Escaping
  import opened Resolving

  lemma Prepended<T>(acc: seq<T>, rest: Option<seq<T>>)
    requires acc == []
    ensures rest.Some? ==> acc + rest.value == rest.value
  {
  }

  lemma Appended<T>(acc: seq<T>, x: T, rest: Option<seq<T>>)
    ensures rest.Some? ==> acc + [x] + rest.value == acc + ([x] + rest.value)
  {
  }

  class Resolver {
    const cfg: Settings
    var calls: nat
    var closers: seq<nat>
    var unexpanded: Option<Conf>
    var shutDown: seq<string>
    var watching: bool
    ghost var asked: seq<string>
    ghost var obtained: seq<nat>
    ghost var closed: seq<nat>

    ghost function Books(): Ledger
      reads this
    {
      Ledger(calls, asked, obtained, closed, closers)
    }

    constructor (cfg: Settings)
      ensures this.cfg == cfg
      ensures Books() == EMPTY_LEDGER && Conserved(Books())
      ensures unexpanded == None && shutDown == [] && watching
    {
      this.cfg := cfg;
      calls, closers, unexpanded, shutDown, watching := 0, [], None, [], true;
      asked, obtained, closed := [], [], [];
    }

    method RetrieveValue(scheme: string, location: string) returns (answer: Option<Retrieved>)
      modifies this
      ensures (answer, Books()) == Retrieve(cfg.env, scheme, location, old(Books()))
      ensures unexpanded == old(unexpanded) && shutDown == old(shutDown) && watching == old(watching)
    {
      if scheme !in cfg.env.schemes {
        return None;
      }
      answer := cfg.env.provider(calls, location);
      if answer.Some? {
        obtained := obtained + [calls];
      }
      asked := asked + [location];
      calls := calls + 1;
    }

    method RetrieveUri(uri: string) returns (answer: Option<Retrieved>)
      requires |uri| >= 3
      modifies this
      ensures (answer, Books()) == ExpandUri(cfg.env, uri, old(Books()))
      ensures unexpanded == old(unexpanded) && shutDown == old(shutDown) && watching == old(watching)
    {
      var where := LocationOf(cfg.env, uri);
      if where.None? {
        return None;
      }
      answer := RetrieveValue(where.value.0, where.value.1);
      if answer.Some? {
        closers := closers + [calls - 1];
      }
    }

    method FindAndExpandUri(input: string) returns (r: Round)
      modifies this
      ensures (r, Books()) == ExpandString(cfg.env, input, old(Books()))
      ensures unexpanded == old(unexpanded) && shutDown == old(shutDown) && watching == old(watching)
    {
      hide FindUri, LocationOf;
      if LastOpening(input, |input|) < 0 || '}' !in input {
        return Done(Str(input), false);
      }
      var uri := SearchUri(input, cfg.env.defaultScheme);
      if uri == "" {
        return Done(Str(input), false);
      }
      FoundUri(input, cfg.env.defaultScheme);
      var answer := RetrieveUri(uri);
      if answer.None? {
        return Failed;
      }
      var text := answer.value.AsString();
      if uri == input {
        r := Done(if text.Some? then Expanded(answer.value.raw, text.value) else answer.value.raw, true);
      } else if text.None? {
        r := Failed;
      } else {
        r := Done(Str(ReplaceAll(input, uri, text.value)), true);
      }
    }

    method ExpandOnce(v: Value) returns (r: Round)
      modifies this
      ensures (r, Books()) == ExpandValue(cfg.env, v, old(Books()))
      ensures unexpanded == old(unexpanded) && shutDown == old(shutDown) && watching == old(watching)
      decreases v
    {
      hide ExpandString;
      match v {
        case Str(s) =>
          r := FindAndExpandUri(s);
        case List(items) =>
          var nslice, nchanged := ExpandSlice(items);
          r := if nslice.None? then Failed else Done(List(nslice.value), nchanged);
        case Map(entries) =>
          var nmap, nchanged := ExpandMap(entries);
          r := if nmap.None? then Failed else Done(Map(nmap.value), nchanged);
        case Expanded(x, original) =>
          r := ExpandOnce(x);
          if r.Failed? || r.value.Expanded? || r.value.Str? {
            return;
          }
          var o := FindAndExpandUri(original);
          if o.Done? && o.value.Str? {
            r := Done(Expanded(r.value, o.value.text), r.changed || o.changed);
          }
        case _ =>
          r := Done(v, false);
      }
    }

    /** The loop over a list: each value is expanded and appended, up to the first failure. */
    method ExpandSlice(items: seq<Value>) returns (nslice: Option<seq<Value>>, nchanged: bool)
      modifies this
      ensures (nslice, nchanged, Books()) == ExpandItems(cfg.env, items, old(Books()))
      ensures unexpanded == old(unexpanded) && shutDown == old(shutDown) && watching == old(watching)
      decreases items
    {
      hide ExpandValue;
      var acc := [];
      nchanged := false;
      Prepended(acc, ExpandItems(cfg.env, items, Books()).0);
      assert items[0..] == items;
      for i := 0 to |items|
        invariant unexpanded == old(unexpanded) && shutDown == old(shutDown) && watching == old(watching)
        invariant ExpandItems(cfg.env, items, old(Books())) ==
          var (rest, changed, l) := ExpandItems(cfg.env, items[i..], Books());
          if rest.None? then (None, false, l) else (Some(acc + rest.value), nchanged || changed, l)
      {
        assert items[i..][0] == items[i] && items[i..][1..] == items[i + 1..];
        var r := ExpandOnce(items[i]);
        if r.Failed? {
          return None, false;
        }
        Appended(acc, r.value, ExpandItems(cfg.env, items[i + 1..], Books()).0);
        acc := acc + [r.value];
        nchanged := nchanged || r.changed;
      }
      assert items[|items|..] == [] && acc + [] == acc;
      nslice := Some(acc);
    }

    method ExpandMap(entries: seq<Entry>) returns (nmap: Option<seq<Entry>>, nchanged: bool)
      modifies this
      ensures (nmap, nchanged, Books()) == ExpandEntries(cfg.env, entries, old(Books()))
      ensures unexpanded == old(unexpanded) && shutDown == old(shutDown) && watching == old(watching)
      decreases entries
    {
      hide ExpandValue;
      var acc := [];
      nchanged := false;
      Prepended(acc, ExpandEntries(cfg.env, entries, Books()).0);
      assert entries[0..] == entries;
      for i := 0 to |entries|
        invariant unexpanded == old(unexpanded) && shutDown == old(shutDown) && watching == old(watching)
        invariant ExpandEntries(cfg.env, entries, old(Books())) ==
          var (rest, changed, l) := ExpandEntries(cfg.env, entries[i..], Books());
          if rest.None? then (None, false, l) else (Some(acc + rest.value), nchanged || changed, l)
      {
        assert entries[i..][0] == entries[i] && entries[i..][1..] == entries[i + 1..];
        var r := ExpandOnce(entries[i].value);
        if r.Failed? {
          return None, false;
        }
        Appended(acc, Entry(entries[i].key, r.value), ExpandEntries(cfg.env, entries[i + 1..], Books()).0);
        acc := acc + [Entry(entries[i].key, r.value)];
        nchanged := nchanged || r.changed;
      }
      assert entries[|entries|..] == [] && acc + [] == acc;
      nmap := Some(acc);
    }

    /** `expandValueRecursively`: at most 1000 rounds. */
    method ExpandValueRecursively(v: Value) returns (r: Outcome)
      modifies this
      ensures (r, Books()) == ExpandRecursively(cfg.env, v, old(Books()))
      ensures unexpanded == old(unexpanded) && shutDown == old(shutDown) && watching == old(watching)
    {
      hide ExpandValue;
      var value := v;
      for i := 0 to MAX_ROUNDS
        invariant unexpanded == old(unexpanded) && shutDown == old(shutDown) && watching == old(watching)
        invariant ExpandRounds(cfg.env, v, MAX_ROUNDS, old(Books())) ==
          ExpandRounds(cfg.env, value, MAX_ROUNDS - i, Books())
      {
        var round := ExpandOnce(value);
        if round.Failed? {
          return Aborted(ExpandError);
        }
        if !round.changed {
          return Finished(round.value);
        }
        value := round.value;
      }
      r := Aborted(TooManyExpansions);
    }

    /** Close everything pending, in order; errors are collected, not obeyed. */
    method CloseIfNeeded() returns (failed: bool)
      modifies this
      ensures Books() == CloseAll(old(Books()))
      ensures failed <==> CloseErrors(cfg, old(closers))
      ensures unexpanded == old(unexpanded) && shutDown == old(shutDown) && watching == old(watching)
    {
      failed := false;
      for i := 0 to |closers|
        invariant closers == old(closers) && calls == old(calls) && asked == old(asked) && obtained == old(obtained)
        invariant unexpanded == old(unexpanded) && shutDown == old(shutDown) && watching == old(watching)
        invariant closed == old(closed) + closers[..i]
        invariant failed <==> exists k :: 0 <= k < i && cfg.closeFails(closers[k])
      {
        assert closers[..i + 1] == closers[..i] + [closers[i]];
        closed := closed + [closers[i]];
        failed := failed || cfg.closeFails(closers[i]);
      }
      assert closers[..|closers|] == closers;
      closers := [];
    }

    /** Retrieve and merge all configured locations. */
    method RetrieveAndMerge() returns (merged: Option<Conf>)
      modifies this
      ensures (merged, Books()) == RetrieveAll(cfg, cfg.uris, [], old(Books()))
      ensures unexpanded == old(unexpanded) && shutDown == old(shutDown) && watching == old(watching)
    {
      var retMap: Conf := [];
      for i := 0 to |cfg.uris|
        invariant unexpanded == old(unexpanded) && shutDown == old(shutDown) && watching == old(watching)
        invariant RetrieveAll(cfg, cfg.uris, [], old(Books())) == RetrieveAll(cfg, cfg.uris[i..], retMap, Books())
      {
        assert cfg.uris[i..][0] == cfg.uris[i] && cfg.uris[i..][1..] == cfg.uris[i + 1..];
        var answer := RetrieveValue(cfg.uris[i].scheme, cfg.uris[i].text);
        if answer.None? {
          return None;
        }
        closers := closers + [calls - 1];
        var entries := AsConf(answer.value.raw);
        if entries.None? {
          return None;
        }
        var m := cfg.merge(retMap, entries.value);
        if m.None? {
          return None;
        }
        retMap := m.value;
      }
      merged := Some(retMap);
    }

    /** Expand every key and undo the escaping. */
    method ExpandAll(conf: Conf) returns (expanded: Option<Conf>)
      modifies this
      ensures (expanded, Books()) == ExpandKeys(cfg.env, conf, old(Books()))
      ensures unexpanded == old(unexpanded) && shutDown == old(shutDown) && watching == old(watching)
    {
      hide ExpandRounds;
      var cfgMap: Conf := [];
      Prepended(cfgMap, ExpandKeys(cfg.env, conf, Books()).0);
      assert conf[0..] == conf;
      for i := 0 to |conf|
        invariant unexpanded == old(unexpanded) && shutDown == old(shutDown) && watching == old(watching)
        invariant ExpandKeys(cfg.env, conf, old(Books())) ==
          var (rest, l) := ExpandKeys(cfg.env, conf[i..], Books());
          (if rest.None? then None else Some(cfgMap + rest.value), l)
      {
        assert conf[i..][0] == conf[i] && conf[i..][1..] == conf[i + 1..];
        var r := ExpandValueRecursively(conf[i].value);
        if r.Aborted? {
          return None;
        }
        Appended(cfgMap, Entry(conf[i].key, Unescape(r.value)), ExpandKeys(cfg.env, conf[i + 1..], Books()).0);
        cfgMap := cfgMap + [Entry(conf[i].key, Unescape(r.value))];
      }
      assert conf[|conf|..] == [] && cfgMap + [] == cfgMap;
      expanded := Some(cfgMap);
    }

    method ApplyConverters(conf: Conf) returns (converted: Option<Conf>)
      ensures converted == Convert(cfg.converters, conf)
    {
      var c := conf;
      for i := 0 to |cfg.converters|
        invariant Convert(cfg.converters, conf) == Convert(cfg.converters[i..], c)
      {
        assert cfg.converters[i..][0] == cfg.converters[i] && cfg.converters[i..][1..] == cfg.converters[i + 1..];
        var next := cfg.converters[i](c);
        if next.None? {
          return None;
        }
        c := next.value;
      }
      converted := Some(c);
    }

    /**
     Resolve. Whatever fails, everything obtained before is closed, and what is pending
     afterwards was obtained by this very call.
     */
    method Resolve() returns (conf: Option<Conf>)
      requires Conserved(Books())
      modifies this
      ensures (conf, Books()) == ResolveOnce(cfg, old(Books()))
      ensures Conserved(Books())
      ensures closed == old(obtained)
      ensures obtained == old(obtained) + closers
      ensures var merged := RetrieveAll(cfg, cfg.uris, [], CloseAll(old(Books()))).0;
        unexpanded == if CloseErrors(cfg, old(closers)) || merged.None? then old(unexpanded) else merged
      ensures shutDown == old(shutDown) && watching == old(watching)
    {
      hide RetrieveAll, ExpandKeys;
      ResolveConserves(cfg, Books());
      var failed := CloseIfNeeded();
      if failed {
        return None;
      }
      var merged := RetrieveAndMerge();
      if merged.None? {
        return None;
      }
      unexpanded := merged;
      var expanded := ExpandAll(merged.value);
      if expanded.None? {
        return None;
      }
      conf := ApplyConverters(expanded.value);
    }

    /**
     Shutdown leaves nothing open, shuts every provider down once, in any order, and reports an
     error iff closing or shutting down reported one. Closing the watch channel again panics.
     */
    method Shutdown() returns (failed: bool, panicked: bool)
      requires Conserved(Books())
      modifies this
      ensures Books() == CloseAll(old(Books()))
      ensures closers == [] && closed == obtained && obtained == old(obtained)
      ensures old(shutDown) <= shutDown && IsOnceEach(shutDown[|old(shutDown)|..], cfg.env.schemes)
      ensures failed <==> CloseErrors(cfg, old(closers)) || exists p :: p in cfg.env.schemes && cfg.shutdownFails(p)
      ensures panicked <==> !old(watching)
      ensures !watching && unexpanded == old(unexpanded)
    {
      failed := CloseIfNeeded();
      ghost var books, closeFailed := Books(), failed;
      var providers := cfg.env.schemes;
      ghost var done: seq<string> := [];
      assert shutDown == old(shutDown) + done;
      while providers != {}
        invariant Books() == books && watching == old(watching) && unexpanded == old(unexpanded)
        invariant providers <= cfg.env.schemes
        invariant shutDown == old(shutDown) + done && IsOnceEach(done, cfg.env.schemes - providers)
        invariant failed <==> closeFailed || exists p :: p in cfg.env.schemes - providers && cfg.shutdownFails(p)
        decreases providers
      {
        var p :| p in providers;
        OnceMore(done, cfg.env.schemes - providers, p);
        assert cfg.env.schemes - (providers - {p}) == (cfg.env.schemes - providers) + {p};
        providers := providers - {p};
        done := done + [p];
        shutDown := shutDown + [p];
        failed := failed || cfg.shutdownFails(p);
      }
      assert cfg.env.schemes - {} == cfg.env.schemes;
      panicked := !watching;
      watching := false;
    }
  }

  /** The elements of a set, each once. */
  ghost predicate IsOnceEach(list: seq<string>, elements: set<string>) {
    (forall i, j :: 0 <= i < j < |list| ==> list[i] != list[j]) && (set p | p in list) == elements
  }

  lemma OnceMore(list: seq<string>, elements: set<string>, p: string)
    requires IsOnceEach(list, elements) && p !in elements
    ensures IsOnceEach(list + [p], elements + {p})
  {
    assert forall q :: q in list ==> q in set r | r in list;
    assert (set q | q in list + [p]) == (set q | q in list) + {p};
  }
}
