/**
 Redaction by mirroring: wherever the redacted view of a configuration shows the mask, the raw
 configuration gets the mask too, unless it holds just a reference to a provider there.
 */
module Redaction {
  import opened Options
  import opened Text
  import opened ConfTree
  import opened UriSearch

  const MASK := "[REDACTED]"

  /** Exactly one `${...}` with no closing bracket inside. */
  predicate IsReference(s: string) {
    && |s| >= 3 && s[0] == '$' && s[1] == '{' && s[|s| - 1] == '}'
    && forall k :: 2 <= k < |s| - 1 ==> s[k] != '}'
  }

  predicate Exempt(raw: Value) { raw.Str? && IsReference(raw.text) }

  function Find(entries: seq<Entry>, key: string): Option<Value> {
    if entries == [] then None
    else if entries[0].key == key then Some(entries[0].value)
    else Find(entries[1..], key)
  }

  /** `applyMask`. */
  function ApplyMask(raw: Value, redacted: Value): Value
    decreases raw
  {
    match redacted
    case Map(entries) => if raw.Map? then Map(MaskEntries(raw.entries, entries)) else raw
    case List(items) => if raw.List? then List(MaskItems(raw.items, items)) else raw
    case Str(s) => if s == MASK && !Exempt(raw) then Str(MASK) else raw
    case _ => raw
  }

  function MaskEntries(raw: seq<Entry>, redacted: seq<Entry>): seq<Entry>
    decreases raw
  {
    if raw == [] then []
    else
      var r := Find(redacted, raw[0].key);
      [Entry(raw[0].key, if r.Some? then ApplyMask(raw[0].value, r.value) else raw[0].value)]
        + MaskEntries(raw[1..], redacted)
  }

  /** The items that both lists have are masked pairwise; the others stay. */
  function MaskItems(raw: seq<Value>, redacted: seq<Value>): seq<Value>
    decreases raw
  {
    if raw == [] || redacted == [] then raw
    else [ApplyMask(raw[0], redacted[0])] + MaskItems(raw[1..], redacted[1..])
  }

  /** `redactByMirroring`: an absent view leaves the configuration as it is. */
  function RedactByMirroring(raw: Option<Value>, redacted: Option<Value>): Option<Value> {
    if raw.None? || redacted.None? then raw else Some(ApplyMask(raw.value, redacted.value))
  }

  // ---- positions ----

  datatype Crumb = Key(key: string) | Index(index: nat)

  function Child(v: Value, c: Crumb): Option<Value> {
    match c
    case Key(k) => if v.Map? then Find(v.entries, k) else None
    case Index(i) => if v.List? && i < |v.items| then Some(v.items[i]) else None
  }

  /** The value at a position, if there is one. */
  function At(v: Value, path: seq<Crumb>): Option<Value>
    decreases |path|
  {
    if path == [] then Some(v)
    else
      var c := Child(v, path[0]);
      if c.None? then None else At(c.value, path[1..])
  }

  /** The mask goes to this position: both trees have it, the view shows the mask, and raw holds no bare reference. */
  ghost predicate MaskGoesTo(raw: Value, redacted: Value, path: seq<Crumb>) {
    At(redacted, path) == Some(Str(MASK)) && At(raw, path).Some? && !Exempt(At(raw, path).value)
  }

  /** A position at or above `path` gets the mask. */
  ghost predicate Covered(raw: Value, redacted: Value, path: seq<Crumb>) {
    exists n :: 0 <= n <= |path| && MaskGoesTo(raw, redacted, path[..n])
  }

  lemma {:induction false} FindMasked(raw: seq<Entry>, redacted: seq<Entry>, key: string)
    ensures var x, r := Find(raw, key), Find(redacted, key);
      Find(MaskEntries(raw, redacted), key) ==
        if x.None? then None else if r.None? then x else Some(ApplyMask(x.value, r.value))
    decreases |raw|
  {
    hide ApplyMask;
    if raw != [] {
      FindMasked(raw[1..], redacted, key);
      assert MaskEntries(raw, redacted)[1..] == MaskEntries(raw[1..], redacted);
    }
  }

  lemma {:induction false} ItemMasked(raw: seq<Value>, redacted: seq<Value>, i: nat)
    ensures |MaskItems(raw, redacted)| == |raw|
    ensures i < |raw| ==>
      MaskItems(raw, redacted)[i] == if i < |redacted| then ApplyMask(raw[i], redacted[i]) else raw[i]
    decreases |raw|
  {
    hide ApplyMask;
    if raw != [] && redacted != [] {
      ItemMasked(raw[1..], redacted[1..], if i > 0 then i - 1 else 0);
    }
  }

  /** Masking commutes with going to a child, except below a position that gets the mask. */
  lemma ChildMasked(raw: Value, redacted: Value, c: Crumb)
    requires !MaskGoesTo(raw, redacted, [])
    ensures var x, r := Child(raw, c), Child(redacted, c);
      Child(ApplyMask(raw, redacted), c) ==
        if x.None? then None else if r.None? then x else Some(ApplyMask(x.value, r.value))
  {
    match c
    case Key(k) => if raw.Map? && redacted.Map? { FindMasked(raw.entries, redacted.entries, k); }
    case Index(i) => if raw.List? && redacted.List? { ItemMasked(raw.items, redacted.items, i); }
  }

  lemma NotCoveredBelow(raw: Value, redacted: Value, path: seq<Crumb>)
    requires path != [] && !Covered(raw, redacted, path)
    requires Child(raw, path[0]).Some? && Child(redacted, path[0]).Some?
    ensures !Covered(Child(raw, path[0]).value, Child(redacted, path[0]).value, path[1..])
  {
    var x, r := Child(raw, path[0]).value, Child(redacted, path[0]).value;
    forall n | 0 <= n <= |path| - 1 ensures !MaskGoesTo(x, r, path[1..][..n]) {
      assert path[..n + 1][0] == path[0] && path[..n + 1][1..] == path[1..][..n];
      assert !MaskGoesTo(raw, redacted, path[..n + 1]);
    }
  }

  /**
   Minimal: a position that is not covered by the mask is there after masking iff it was there
   before, and a string or scalar there is what it was.
   */
  lemma {:induction false} OtherPositionsAreKept(raw: Value, redacted: Value, path: seq<Crumb>)
    requires !Covered(raw, redacted, path)
    ensures var before, after := At(raw, path), At(ApplyMask(raw, redacted), path);
      && (before.Some? <==> after.Some?)
      && (before.Some? && !before.value.Map? && !before.value.List? ==> after == before)
      && (before.Some? ==> (before.value.Map? <==> after.value.Map?) && (before.value.List? <==> after.value.List?))
    decreases |path|
  {
    hide MaskEntries, MaskItems;
    assert path[..0] == [];
    assert !MaskGoesTo(raw, redacted, []);
    if path != [] {
      ChildMasked(raw, redacted, path[0]);
      var x, r := Child(raw, path[0]), Child(redacted, path[0]);
      if x.Some? && r.Some? {
        NotCoveredBelow(raw, redacted, path);
        OtherPositionsAreKept(x.value, r.value, path[1..]);
      }
    }
  }

  /**
   Complete: every position of both trees at which the view shows the mask holds the mask
   afterwards, or the bare reference that raw had there.
   */
  lemma {:induction false} MaskedPositionsAreMasked(raw: Value, redacted: Value, path: seq<Crumb>)
    requires At(redacted, path) == Some(Str("[REDACTED]")) && At(raw, path).Some?
    ensures At(ApplyMask(raw, redacted), path) ==
      if Exempt(At(raw, path).value) then At(raw, path) else Some(Str("[REDACTED]"))
    decreases |path|
  {
    hide MaskEntries, MaskItems;
    if path != [] {
      ChildMasked(raw, redacted, path[0]);
      MaskedPositionsAreMasked(Child(raw, path[0]).value, Child(redacted, path[0]).value, path[1..]);
    }
  }

  // ---- masking again ----

  /** Idempotent: masking a masked configuration changes nothing. */
  lemma {:induction false} MaskingIsIdempotent(raw: Value, redacted: Value)
    ensures ApplyMask(ApplyMask(raw, redacted), redacted) == ApplyMask(raw, redacted)
    decreases raw
  {
    match redacted
    case Map(entries) => if raw.Map? { EntriesIdempotent(raw.entries, entries); }
    case List(items) => if raw.List? { ItemsIdempotent(raw.items, items); }
    case Str(s) => assert !Exempt(Str(MASK));
    case _ =>
  }

  lemma {:induction false} EntriesIdempotent(raw: seq<Entry>, redacted: seq<Entry>)
    ensures MaskEntries(MaskEntries(raw, redacted), redacted) == MaskEntries(raw, redacted)
    decreases raw
  {
    hide ApplyMask;
    if raw != [] {
      var r := Find(redacted, raw[0].key);
      if r.Some? { MaskingIsIdempotent(raw[0].value, r.value); }
      EntriesIdempotent(raw[1..], redacted);
      assert MaskEntries(raw, redacted)[1..] == MaskEntries(raw[1..], redacted);
    }
  }

  lemma {:induction false} ItemsIdempotent(raw: seq<Value>, redacted: seq<Value>)
    ensures MaskItems(MaskItems(raw, redacted), redacted) == MaskItems(raw, redacted)
    decreases raw
  {
    hide ApplyMask;
    if raw != [] && redacted != [] {
      MaskingIsIdempotent(raw[0], redacted[0]);
      ItemsIdempotent(raw[1..], redacted[1..]);
      assert MaskItems(raw, redacted)[1..] == MaskItems(raw[1..], redacted[1..]);
    }
  }

  /** A whole reference, as the expansion recognises it, is exempt from masking. */
  lemma ReferencesAreExempt(s: string, defaultScheme: string)
    requires s != "" && FindUri(s, defaultScheme) == s
    ensures Exempt(Str(s))
  {
    hide FindUri;
    FoundUri(s, defaultScheme);
  }

  /** Only a whole reference is: text around it, or a second reference, is masked with it. */
  lemma ExemptIff(raw: Value)
    ensures Exempt(raw) <==> exists inner :: raw == Str("${" + inner + "}") && '}' !in inner
  {
    if Exempt(raw) {
      var s := raw.text;
      var inner := s[2..|s| - 1];
      assert s == "${" + inner + "}";
      assert '}' !in inner;
    }
    if inner :| raw == Str("${" + inner + "}") && '}' !in inner {
      var s := raw.text;
      assert forall k :: 2 <= k < |s| - 1 ==> s[k] == inner[k - 2];
    }
  }

  // ---- entry by entry, item by item ----

  function MaskedEntry(raw: Entry, redacted: seq<Entry>): Entry {
    var r := Find(redacted, raw.key);
    if r.Some? then Entry(raw.key, ApplyMask(raw.value, r.value)) else raw
  }

  lemma {:induction false} EntryMasked(raw: seq<Entry>, redacted: seq<Entry>)
    ensures |MaskEntries(raw, redacted)| == |raw|
    ensures forall i :: 0 <= i < |raw| ==> MaskEntries(raw, redacted)[i] == MaskedEntry(raw[i], redacted)
    decreases |raw|
  {
    hide ApplyMask, Find;
    if raw != [] {
      EntryMasked(raw[1..], redacted);
      assert forall i :: 1 <= i < |raw| ==> raw[1..][i - 1] == raw[i];
    }
  }

  lemma ItemsMasked(raw: seq<Value>, redacted: seq<Value>)
    ensures |MaskItems(raw, redacted)| == |raw|
    ensures forall i :: 0 <= i < |raw| ==>
      MaskItems(raw, redacted)[i] == if i < |redacted| then ApplyMask(raw[i], redacted[i]) else raw[i]
  {
    hide ApplyMask, MaskItems;
    ItemMasked(raw, redacted, 0);
    forall i: nat | i < |raw|
      ensures MaskItems(raw, redacted)[i] == if i < |redacted| then ApplyMask(raw[i], redacted[i]) else raw[i]
    {
      ItemMasked(raw, redacted, i);
    }
  }
}
