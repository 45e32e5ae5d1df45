/**
 Escaping: doubling every dollar sign protects a value from expansion, and the final
 unescaping of the resolver gives the value back.
 */
module Escaping {
  import opened Text
  import opened UriSearch
  import opened ConfTree
  import opened Expansion
  import opened Termination

  /** `escapeDollarSigns`: the resolver's last step turns every `$$` into `$`. */
  function Unescape(v: Value): Value {
    match v
    case Str(s) => Str(ReplaceAll(s, "$$", "$"))
    case Expanded(x, original) => Expanded(Unescape(x), ReplaceAll(original, "$$", "$"))
    case List(items) => List(UnescapeItems(items))
    case Map(entries) => Map(UnescapeEntries(entries))
    case _ => v
  }

  function UnescapeItems(items: seq<Value>): seq<Value> {
    if items == [] then [] else [Unescape(items[0])] + UnescapeItems(items[1..])
  }

  function UnescapeEntries(entries: seq<Entry>): seq<Entry> {
    if entries == [] then []
    else [Entry(entries[0].key, Unescape(entries[0].value))] + UnescapeEntries(entries[1..])
  }

  /** What a user writes to have text taken literally: every `$` twice. */
  function Double(s: string): string {
    if s == [] then [] else (if s[0] == '$' then "$$" else [s[0]]) + Double(s[1..])
  }

  function DoubleAll(v: Value): Value {
    match v
    case Str(s) => Str(Double(s))
    case Expanded(x, original) => Expanded(DoubleAll(x), Double(original))
    case List(items) => List(DoubleItems(items))
    case Map(entries) => Map(DoubleEntries(entries))
    case _ => v
  }

  function DoubleItems(items: seq<Value>): seq<Value> {
    if items == [] then [] else [DoubleAll(items[0])] + DoubleItems(items[1..])
  }

  function DoubleEntries(entries: seq<Entry>): seq<Entry> {
    if entries == [] then []
    else [Entry(entries[0].key, DoubleAll(entries[0].value))] + DoubleEntries(entries[1..])
  }

  // ---- doubled text is inert ----

  /** In doubled text an odd number of `$` precedes the last `$` of every run. */
  lemma {:induction false} RunsAreEven(s: string, o: nat)
    requires o < |Double(s)| && Double(s)[o] == '$'
    requires o + 1 < |Double(s)| ==> Double(s)[o + 1] != '$'
    ensures DollarsBefore(Double(s), o) % 2 == 1
  {
    var d, rest := Double(s), Double(s[1..]);
    if s[0] == '$' {
      assert d == "$$" + rest;
      if o >= 2 {
        RunsAreEven(s[1..], o - 2);
        PrefixedRun("$$", rest, o - 2);
      }
    } else {
      assert d == [s[0]] + rest;
      RunsAreEven(s[1..], o - 1);
      PrefixedRun([s[0]], rest, o - 1);
    }
  }

  /** Two dollar signs, or another character, in front of a text do not change a run's parity. */
  lemma {:induction false} PrefixedRun(head: string, rest: string, o: nat)
    requires head == "$$" || (|head| == 1 && head[0] != '$')
    requires o <= |rest|
    ensures DollarsBefore(head + rest, |head| + o) % 2 == DollarsBefore(rest, o) % 2
    decreases o
  {
    var s := head + rest;
    if o == 0 {
      assert s[|head| - 1] == head[|head| - 1];
      if head == "$$" {
        assert DollarsBefore(s, 1) == 1;
      }
    } else {
      assert s[|head| + o - 1] == rest[o - 1];
      PrefixedRun(head, rest, o - 1);
    }
  }

  lemma DoubledHasNoUri(s: string, defaultScheme: string)
    ensures FindUri(Double(s), defaultScheme) == ""
  {
    var found, open, close := FindUriIsFirstCandidate(Double(s), defaultScheme);
    if found {
      RunsAreEven(s, open);
    }
  }

  lemma {:induction false} UnescapeDoubled(s: string)
    ensures ReplaceAll(Double(s), "$$", "$") == s
  {
    if s != [] {
      var d, rest := Double(s), Double(s[1..]);
      UnescapeDoubled(s[1..]);
      if s[0] == '$' {
        assert d == "$$" + rest && d[..2] == "$$" && d[2..] == rest;
      } else {
        assert d == [s[0]] + rest && d[1..] == rest;
        if |d| >= 2 { assert d[..2][0] == s[0]; } else { assert rest == [] && s == d; }
      }
      assert s == [s[0]] + s[1..];
    }
  }

  // ---- doubled trees ----

  lemma {:induction false} DoubledIsNormal(v: Value, defaultScheme: string)
    requires Settled(v)
    ensures Normal(DoubleAll(v), defaultScheme)
    decreases v
  {
    hide FindUri;
    match v
    case Str(s) => DoubledHasNoUri(s, defaultScheme);
    case List(items) => DoubledItemsAreNormal(items, defaultScheme);
    case Map(entries) => DoubledEntriesAreNormal(entries, defaultScheme);
    case Expanded(x, original) =>
      DoubledIsNormal(x, defaultScheme);
      DoubledHasNoUri(original, defaultScheme);
    case _ =>
  }

  lemma {:induction false} DoubledItemsAreNormal(items: seq<Value>, defaultScheme: string)
    requires forall x :: x in items ==> Settled(x)
    ensures forall x :: x in DoubleItems(items) ==> Normal(x, defaultScheme)
    decreases items
  {
    hide FindUri;
    if items != [] {
      DoubledIsNormal(items[0], defaultScheme);
      DoubledItemsAreNormal(items[1..], defaultScheme);
    }
  }

  lemma {:induction false} DoubledEntriesAreNormal(entries: seq<Entry>, defaultScheme: string)
    requires forall e :: e in entries ==> Settled(e.value)
    ensures forall e :: e in DoubleEntries(entries) ==> Normal(e.value, defaultScheme)
    decreases entries
  {
    hide FindUri;
    if entries != [] {
      DoubledIsNormal(entries[0].value, defaultScheme);
      DoubledEntriesAreNormal(entries[1..], defaultScheme);
    }
  }

  lemma {:induction false} UnescapeDoubledTree(v: Value)
    ensures Unescape(DoubleAll(v)) == v
    decreases v
  {
    match v
    case Str(s) => UnescapeDoubled(s);
    case List(items) => UnescapeDoubledItems(items);
    case Map(entries) => UnescapeDoubledEntries(entries);
    case Expanded(x, original) => UnescapeDoubledTree(x); UnescapeDoubled(original);
    case _ =>
  }

  lemma {:induction false} UnescapeDoubledItems(items: seq<Value>)
    ensures UnescapeItems(DoubleItems(items)) == items
    decreases items
  {
    if items != [] {
      UnescapeDoubledTree(items[0]);
      UnescapeDoubledItems(items[1..]);
      assert DoubleItems(items)[1..] == DoubleItems(items[1..]);
      assert items == [items[0]] + items[1..];
    }
  }

  lemma {:induction false} UnescapeDoubledEntries(entries: seq<Entry>)
    ensures UnescapeEntries(DoubleEntries(entries)) == entries
    decreases entries
  {
    if entries != [] {
      UnescapeDoubledTree(entries[0].value);
      UnescapeDoubledEntries(entries[1..]);
      assert DoubleEntries(entries)[1..] == DoubleEntries(entries[1..]);
      assert entries == [entries[0]] + entries[1..];
    }
  }

  /**
   The escape round trip. A value with every `$` doubled goes through the expansion without a
   single provider call or resource opened (the ledger is untouched), and unescaping the result
   gives back exactly the value, with or without a default scheme.
   */
  lemma EscapeRoundTrip(env: Env, v: Value, l: Ledger)
    requires Settled(v)
    ensures var (r, l') := ExpandRecursively(env, DoubleAll(v), l);
      r.Finished? && Unescape(r.value) == v && l' == l
  {
    hide FindUri;
    DoubledIsNormal(v, env.defaultScheme);
    NormalIsFixed(env, DoubleAll(v), l);
    UnescapeDoubledTree(v);
  }
}
