/**
 Pipeline identifiers and their printed form `signal[/name]`. Text is a sequence of Unicode
 code points.
 */
module PipelineId {
  import opened Options
  import opened Text

  datatype ID = ID(signal: string, name: string)

  const SIGNALS: set<string> := {"profiles", "traces", "metrics", "logs"}

  /** White space and the other separators of Unicode, which `strings.TrimSpace` removes at both ends. */
  predicate IsSpace(c: char) {
    '\t' <= c <= '\r' || c == '\U{85}' || IsSeparator(c)
  }

  predicate IsSeparator(c: char) {
    || c == ' ' || c == '\U{A0}' || c == '\U{1680}' || '\U{2000}' <= c <= '\U{200A}'
    || c == '\U{2028}' || c == '\U{2029}' || c == '\U{202F}' || c == '\U{205F}' || c == '\U{3000}'
  }

  predicate IsControl(c: char) { c < ' ' || '\U{7F}' <= c <= '\U{9F}' }

  predicate IsAsciiSymbol(c: char) { c in "$+<=>^`|~" }

  /**
   The characters a name may hold: no separators, control characters or symbols. `other` tells
   the remaining characters of the Unicode categories C and S, which are not ASCII.
   */
  predicate NameChar(c: char, other: char -> bool) {
    !IsSeparator(c) && !IsControl(c) && !IsAsciiSymbol(c) && !(c > '\U{9F}' && other(c))
  }

  function Utf8Length(s: string): nat {
    if s == [] then 0
    else (if s[0] < '\U{80}' then 1 else if s[0] < '\U{800}' then 2 else if s[0] < '\U{10000}' then 3 else 4)
         + Utf8Length(s[1..])
  }

  predicate ValidName(name: string, other: char -> bool) {
    name != "" && Utf8Length(name) <= 1024 && forall c :: c in name ==> NameChar(c, other)
  }

  function TrimLeft(s: string): string {
    if s != [] && IsSpace(s[0]) then TrimLeft(s[1..]) else s
  }

  function TrimRight(s: string): string {
    if s != [] && IsSpace(s[|s| - 1]) then TrimRight(s[..|s| - 1]) else s
  }

  function TrimSpace(s: string): string { TrimRight(TrimLeft(s)) }

  function ToString(id: ID): string {
    if id.name == "" then id.signal else id.signal + "/" + id.name
  }

  /** `UnmarshalText`. */
  function Parse(text: string, other: char -> bool): Option<ID> {
    var cut := Index(text, '/');
    var hasName := cut >= 0;
    var signal := TrimSpace(if hasName then text[..cut] else text);
    var name := if hasName then TrimSpace(text[cut + 1..]) else "";
    if signal == "" || (hasName && !ValidName(name, other)) || signal !in SIGNALS then None
    else Some(ID(signal, name))
  }

  predicate Valid(id: ID, other: char -> bool) {
    id.signal in SIGNALS && (id.name != "" ==> ValidName(id.name, other))
  }

  lemma {:induction false} TrimNothing(s: string)
    requires forall c :: c in s ==> !IsSpace(c)
    ensures TrimSpace(s) == s
  {
  }

  lemma SignalText(signal: string)
    requires signal in SIGNALS
    ensures '/' !in signal && signal != "" && forall c :: c in signal ==> 'a' <= c <= 'z'
  {
  }

  lemma NameIsNotTrimmed(name: string, other: char -> bool)
    requires ValidName(name, other)
    ensures ' ' !in name && TrimSpace(name) == name
  {
    forall c | c in name ensures !IsSpace(c) { assert NameChar(c, other); }
    TrimNothing(name);
  }

  /** Parsing undoes printing, also for names that hold the separator. */
  lemma ParsePrinted(id: ID, other: char -> bool)
    requires Valid(id, other)
    ensures Parse(ToString(id), other) == Some(id)
  {
    var text := ToString(id);
    SignalText(id.signal);
    TrimNothing(id.signal);
    if id.name != "" {
      NameIsNotTrimmed(id.name, other);
      assert text[|id.signal|] == '/' && text[..|id.signal|] == id.signal;
      assert text[|id.signal| + 1..] == id.name;
      assert forall k :: 0 <= k < |id.signal| ==> text[k] == id.signal[k];
    }
  }

  /** What parses is valid, so printing it again gives its canonical form. */
  lemma ParsedIsValid(text: string, other: char -> bool)
    requires Parse(text, other).Some?
    ensures Valid(Parse(text, other).value, other)
    ensures Parse(ToString(Parse(text, other).value), other) == Parse(text, other)
  {
    ParsePrinted(Parse(text, other).value, other);
  }

  /** Printing is injective on valid identifiers, and no printed form is empty or holds a space. */
  lemma PrintedForms(a: ID, b: ID, other: char -> bool)
    requires Valid(a, other) && Valid(b, other)
    ensures ToString(a) == ToString(b) ==> a == b
    ensures ToString(a) != "" && ' ' !in ToString(a)
  {
    hide Parse, ValidName;
    ParsePrinted(a, other);
    ParsePrinted(b, other);
    SignalText(a.signal);
    if a.name != "" { NameIsNotTrimmed(a.name, other); }
  }

  // ---- identifiers that were not validated ----

  /** What identity needs of an identifier: one of the signals, and no space in the name. */
  predicate Spaceless(id: ID) { id.signal in SIGNALS && ' ' !in id.name }

  lemma ValidIsSpaceless(id: ID, other: char -> bool)
    requires Valid(id, other)
    ensures Spaceless(id)
  {
    if id.name != "" { NameIsNotTrimmed(id.name, other); }
  }

  lemma SignalEnds(a: ID, b: ID)
    requires a.signal in SIGNALS && b.signal in SIGNALS && ToString(a) == ToString(b)
    ensures |a.signal| == |b.signal|
  {
    hide ToString;
    SignalPart(a);
    SignalPart(b);
  }

  /** The signal ends at the first separator, or with the text. */
  lemma SignalPart(id: ID)
    requires id.signal in SIGNALS
    ensures |id.signal| == var cut := Index(ToString(id), '/'); if cut >= 0 then cut else |ToString(id)|
  {
    hide IndexFrom;
    SignalText(id.signal);
    var text := ToString(id);
    assert forall k :: 0 <= k < |id.signal| ==> text[k] == id.signal[k];
    if id.name != "" { assert text[|id.signal|] == '/'; }
  }

  /** Printing is injective also without validation, as long as the signals are known. */
  lemma PrintedApart(a: ID, b: ID)
    requires a.signal in SIGNALS && b.signal in SIGNALS
    ensures ToString(a) == ToString(b) ==> a == b
  {
    if ToString(a) == ToString(b) {
      SignalEnds(a, b);
      var n := |a.signal|;
      assert ToString(a)[..n] == a.signal && ToString(b)[..n] == b.signal;
      if |ToString(a)| > n {
        assert ToString(a)[n + 1..] == a.name && ToString(b)[n + 1..] == b.name;
      }
    }
  }

  lemma SpacelessForms(id: ID)
    requires id.signal in SIGNALS
    ensures ToString(id) != ""
    ensures ' ' !in ToString(id) <==> ' ' !in id.name
  {
    SignalText(id.signal);
    var text := ToString(id);
    if id.name != "" { assert text == id.signal + ("/" + id.name); }
  }
}
