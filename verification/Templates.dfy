/**
 What expansion means for a text with references in it: the rewriting, one reference after the
 other, computes the text in which every reference is replaced by its provider's answer.
 */
module Templates {
  import opened Options
  import opened Text
  import opened UriSearch
  import opened ConfTree
  import opened Expansion
  import opened Termination
  import opened Escaping

  datatype Piece = Lit(text: string) | Ref(name: string)

  function Reference(name: string): string { "${" + name + "}" }

  function Written(p: Piece): string {
    match p
    case Lit(text) => text
    case Ref(name) => Reference(name)
  }

  /** The text of a template. */
  function Render(t: seq<Piece>): string {
    if t == [] then "" else Written(t[0]) + Render(t[1..])
  }

  /** What a template means: every reference stands for its value. */
  function Meaning(t: seq<Piece>, values: string -> string): string {
    if t == [] then ""
    else (if t[0].Lit? then t[0].text else values(t[0].name)) + Meaning(t[1..], values)
  }

  function Names(t: seq<Piece>): set<string> {
    set p | p in t && p.Ref? :: p.name
  }

  /** Replace one reference, wherever it occurs. */
  function Subst(t: seq<Piece>, name: string, value: string): seq<Piece> {
    if t == [] then [] else [if t[0] == Ref(name) then Lit(value) else t[0]] + Subst(t[1..], name, value)
  }

  /** Neither literal text nor a name holds a dollar sign, and a name holds no closing bracket. */
  ghost predicate Plain(p: Piece) {
    if p.Lit? then '$' !in p.text else '$' !in p.name && '}' !in p.name
  }

  ghost predicate AllPlain(t: seq<Piece>) { forall p :: p in t ==> Plain(p) }

  /** Whenever it is asked for the location behind a name, the provider answers with the same text. */
  ghost predicate Answers(env: Env, name: string, value: string) {
    var where := LocationOf(env, Reference(name));
    && where.Some? && where.value.0 in env.schemes
    && forall n: nat :: HasTextForm(env.provider(n, where.value.1), value)
  }

  ghost predicate HasTextForm(answer: Option<Retrieved>, value: string) {
    answer.Some? && answer.value.AsString() == Some(value)
  }

  /** Its answers are strings, whether or not their text was recorded as well. */
  ghost predicate AnswersString(env: Env, name: string, value: string) {
    && Answers(env, name, value)
    && forall n: nat :: IsString(env.provider(n, LocationOf(env, Reference(name)).value.1), value)
  }

  ghost predicate IsString(answer: Option<Retrieved>, value: string) {
    answer.Some? && answer.value.raw == Str(value)
  }

  ghost predicate Answered(env: Env, t: seq<Piece>, values: string -> string) {
    forall name :: name in Names(t) ==> Answers(env, name, values(name)) && '$' !in values(name)
  }

  function PieceText(p: Piece, values: string -> string): string {
    if p.Lit? then p.text else values(p.name)
  }

  /**
   When the references in front of it are replaced, a reference that occurs first at `k` has other
   text beside it: text of another piece that is not empty, or a reference still to be replaced.
   */
  ghost predicate Accompanied(t: seq<Piece>, values: string -> string, k: nat)
    requires k < |t|
  {
    t[k].Ref? && t[k].name !in Names(t[..k]) ==>
      exists j :: 0 <= j < |t| && j != k && StillThere(t, values, k, t[j])
  }

  ghost predicate StillThere(t: seq<Piece>, values: string -> string, k: nat, p: Piece)
    requires k < |t|
  {
    PieceText(p, values) != "" || (p.Ref? && p.name !in Names(t[..k]))
  }

  /** When it is its turn, the reference at `k` is all that is left of the text. */
  ghost predicate AloneAt(t: seq<Piece>, values: string -> string, k: nat) {
    k < |t| && t[k].Ref? && !Accompanied(t, values, k)
  }

  /** No reference is ever all that is left of the text. */
  ghost predicate NeverAlone(t: seq<Piece>, values: string -> string) {
    forall k :: 0 <= k < |t| ==> Accompanied(t, values, k)
  }

  /** The names of a template, each once, in the order of their first occurrence. */
  function NamesInOrder(t: seq<Piece>): seq<string> {
    if t == [] then []
    else
      var front, last := NamesInOrder(t[..|t| - 1]), t[|t| - 1];
      if last.Ref? && last.name !in front then front + [last.name] else front
  }

  /** The location that a reference with this name asks for. */
  function Asks(env: Env, name: string): string { FullLocation(env, Reference(name)) }

  function AskAll(env: Env, names: seq<string>): seq<string> {
    seq(|names|, i requires 0 <= i < |names| => Asks(env, names[i]))
  }

  // ---- finding the first reference ----

  lemma {:induction false} RenderConcat(a: seq<Piece>, b: seq<Piece>)
    ensures Render(a + b) == Render(a) + Render(b)
  {
    if a == [] {
      assert a + b == b;
    } else {
      assert (a + b)[0] == a[0] && (a + b)[1..] == a[1..] + b;
      RenderConcat(a[1..], b);
    }
  }

  lemma {:induction false} LiteralsRenderPlain(t: seq<Piece>, values: string -> string)
    requires AllPlain(t) && Names(t) == {}
    ensures '$' !in Render(t) && Meaning(t, values) == Render(t)
  {
    if t != [] {
      assert t == [t[0]] + t[1..];
      NamesCons(t[0], t[1..]);
      assert t[0] in t;
      LiteralsRenderPlain(t[1..], values);
    }
  }

  /** The first reference of a template. */
  lemma {:induction false} FirstReference(t: seq<Piece>) returns (k: nat)
    requires Names(t) != {}
    ensures k < |t| && t[k].Ref? && Names(t[..k]) == {}
  {
    if t[0].Ref? {
      k := 0;
    } else {
      assert t == [t[0]] + t[1..];
      assert Names(t[1..]) == Names(t);
      var i := FirstReference(t[1..]);
      k := i + 1;
      assert t[..k] == [t[0]] + t[1..][..i];
    }
  }

  /** After plain text, a reference is found. */
  lemma ReferenceIsFound(a: string, name: string, b: string, defaultScheme: string)
    requires '$' !in a && '$' !in name && '}' !in name
    requires defaultScheme == "" ==> ':' in name
    ensures FindUri(a + Reference(name) + b, defaultScheme) == Reference(name)
  {
    hide FindUri;
    var s, open, close := a + Reference(name) + b, |a|, |a| + |name| + 2;
    assert s[open..close + 1] == Reference(name);
    assert forall k :: 0 <= k < open ==> s[k] == a[k];
    assert forall k :: open + 2 <= k < close ==> s[k] == name[k - open - 2];
    assert s[open] == '$' && s[open + 1] == '{' && s[close] == '}';
    if ':' in name {
      var k :| 0 <= k < |name| && name[k] == ':';
      assert s[open + 2 + k] == ':';
    }
    assert Candidate(s, defaultScheme, open, close);
    var found, o, c := FindUriIsFirstCandidate(s, defaultScheme);
    assert c == close && o == open;
  }

  /** The reference at `k` is the first of the template. */
  ghost predicate IsFirst(t: seq<Piece>, k: nat, name: string) {
    k < |t| && t[k] == Ref(name) && Names(t[..k]) == {}
  }

  lemma TemplateReference(t: seq<Piece>, defaultScheme: string) returns (k: nat, name: string)
    requires AllPlain(t) && Names(t) != {}
    requires forall n :: n in Names(t) && defaultScheme == "" ==> ':' in n
    ensures name in Names(t) && FindUri(Render(t), defaultScheme) == Reference(name)
    ensures IsFirst(t, k, name)
    ensures Contains(Render(t), Reference(name))
  {
    hide FindUri, Render, Names, AllPlain;
    k := FirstReference(t);
    name := t[k].name;
    PlainAround(t, k);
    LiteralsRenderPlain(t[..k], _ => "");
    RenderAround(t, k);
    RefsAreNamed(t);
    ReferenceIsFound(Render(t[..k]), name, Render(t[k + 1..]), defaultScheme);
    assert OccursAt(Render(t), Reference(name), |Render(t[..k])|);
  }

  lemma PlainAround(t: seq<Piece>, k: nat)
    requires AllPlain(t) && k < |t|
    ensures AllPlain(t[..k]) && Plain(t[k])
  {
    assert forall p :: p in t[..k] ==> p in t;
  }

  lemma SplitAt(t: seq<Piece>, k: nat)
    requires k < |t|
    ensures t == t[..k] + ([t[k]] + t[k + 1..])
  {
  }

  lemma RenderAround(t: seq<Piece>, k: nat)
    requires k < |t|
    ensures Render(t) == Render(t[..k]) + Written(t[k]) + Render(t[k + 1..])
  {
    hide Render, Written;
    var front, piece, back := t[..k], t[k], t[k + 1..];
    SplitAt(t, k);
    RenderConcat(front, [piece] + back);
    RenderOne(piece, back);
    assert Render(front) + (Written(piece) + Render(back)) == Render(front) + Written(piece) + Render(back);
  }

  lemma RenderOne(p: Piece, b: seq<Piece>)
    ensures Render([p] + b) == Written(p) + Render(b)
  {
    assert ([p] + b)[1..] == b;
  }

  // ---- replacing it ----

  /** Replacing passes over text without a dollar sign. */
  lemma {:induction false} PassOver(x: string, rest: string, uri: string, value: string)
    requires '$' !in x && uri != "" && uri[0] == '$'
    ensures ReplaceAll(x + rest, uri, value) == x + ReplaceAll(rest, uri, value)
  {
    var s := x + rest;
    if x == [] {
      assert s == rest;
    } else {
      assert s[1..] == x[1..] + rest && s[0] == x[0];
      PassOver(x[1..], rest, uri, value);
      if |s| >= |uri| {
        assert s[..|uri|][0] != uri[0];
        assert [s[0]] + (x[1..] + ReplaceAll(rest, uri, value)) == x + ReplaceAll(rest, uri, value);
      }
    }
  }

  /** References match only if their names do. */
  lemma MatchingReferences(other: string, name: string, rest: string)
    requires '}' !in other && '}' !in name
    requires |Reference(other) + rest| >= |name| + 3 && (Reference(other) + rest)[..|name| + 3] == Reference(name)
    ensures other == name
  {
    var s, uri := Reference(other) + rest, Reference(name);
    FirstBracket(other, rest);
    FirstBracket(name, "");
    assert uri + "" == uri;
    assert forall k :: 0 <= k < |uri| ==> s[k] == uri[k];
    assert |other| == |name|;
    assert forall k :: 0 <= k < |name| ==> other[k] == s[k + 2] == uri[k + 2] == name[k];
  }

  lemma FirstBracket(name: string, rest: string)
    requires '}' !in name
    ensures var s := Reference(name) + rest;
      s[|name| + 2] == '}' && forall k :: 0 <= k < |name| + 2 ==> s[k] != '}'
  {
    var s := Reference(name) + rest;
    assert forall k :: 2 <= k < |name| + 2 ==> s[k] == name[k - 2];
  }

  lemma NoMatchHere(s: string, uri: string, value: string)
    requires s != "" && uri != "" && (|s| >= |uri| ==> s[..|uri|] != uri)
    ensures ReplaceAll(s, uri, value) == [s[0]] + ReplaceAll(s[1..], uri, value)
  {
  }

  lemma OtherReferenceStays(other: string, rest: string, name: string, value: string)
    requires Plain(Ref(other)) && Plain(Ref(name)) && other != name
    ensures ReplaceAll(Reference(other) + rest, Reference(name), value) ==
      Reference(other) + ReplaceAll(rest, Reference(name), value)
  {
    hide ReplaceAll;
    var s, uri, tail := Reference(other) + rest, Reference(name), "{" + other + "}";
    if |s| >= |name| + 3 && s[..|name| + 3] == uri { MatchingReferences(other, name, rest); }
    assert s[0] == '$' && s[1..] == tail + rest;
    NoMatchHere(s, uri, value);
    PassOver(tail, rest, uri, value);
    assert [s[0]] + (tail + ReplaceAll(rest, uri, value)) == Reference(other) + ReplaceAll(rest, uri, value);
  }

  lemma ReplacePiece(p: Piece, rest: string, name: string, value: string)
    requires Plain(p) && Plain(Ref(name))
    ensures ReplaceAll(Written(p) + rest, Reference(name), value) ==
      Written(if p == Ref(name) then Lit(value) else p) + ReplaceAll(rest, Reference(name), value)
  {
    var uri := Reference(name);
    if p.Lit? {
      PassOver(p.text, rest, uri, value);
    } else if p.name == name {
      var s := uri + rest;
      assert s[..|uri|] == uri && s[|uri|..] == rest;
    } else {
      OtherReferenceStays(p.name, rest, name, value);
    }
  }

  /** Replacing in the text is substituting in the template. */
  lemma {:induction false} ReplaceIsSubst(t: seq<Piece>, name: string, value: string)
    requires AllPlain(t) && Plain(Ref(name))
    ensures ReplaceAll(Render(t), Reference(name), value) == Render(Subst(t, name, value))
  {
    hide ReplaceAll;
    if t == [] {
      EmptyReplace(Reference(name), value);
    } else {
      assert t[0] in t && forall p :: p in t[1..] ==> p in t;
      ReplaceIsSubst(t[1..], name, value);
      ReplacePiece(t[0], Render(t[1..]), name, value);
      assert Subst(t, name, value)[1..] == Subst(t[1..], name, value);
    }
  }

  lemma EmptyReplace(uri: string, value: string)
    requires uri != ""
    ensures ReplaceAll("", uri, value) == ""
  {
  }

  /** Substituting removes the name and keeps the meaning. */
  lemma {:induction false} SubstKeepsMeaning(t: seq<Piece>, name: string, values: string -> string)
    requires AllPlain(t) && '$' !in values(name)
    ensures var t' := Subst(t, name, values(name));
      && AllPlain(t')
      && Names(t') == Names(t) - {name}
      && Meaning(t', values) == Meaning(t, values)
  {
    if t != [] {
      var rest, t' := Subst(t[1..], name, values(name)), Subst(t, name, values(name));
      assert t == [t[0]] + t[1..];
      SubstKeepsMeaning(t[1..], name, values);
      assert t' == [t'[0]] + rest && t'[1..] == rest;
      NamesCons(t[0], t[1..]);
      NamesCons(t'[0], rest);
    }
  }

  lemma NamesCons(p: Piece, t: seq<Piece>)
    ensures Names([p] + t) == (if p.Ref? then {p.name} else {}) + Names(t)
  {
    assert forall q :: q in [p] + t <==> q == p || q in t;
  }

  // ---- rounds ----

  /** Whether an answer stands alone or in a text, the next round treats it the same. */
  predicate SameNext(v: Value, s: string) { v == Str(s) || (v.Expanded? && v.value == Str(s)) }

  /** The ledger after one more call, for this location. */
  ghost predicate OneRetrieved(l: Ledger, l': Ledger, location: string) {
    l'.calls == l.calls + 1 && l'.asked == l.asked + [location] && l'.closers == l.closers + [l.calls]
  }

  lemma AskReference(env: Env, name: string, value: string, l: Ledger)
    requires Answers(env, name, value)
    ensures var (answer, l') := ExpandUri(env, Reference(name), l);
      && HasTextForm(answer, value) && OneRetrieved(l, l', Asks(env, name))
      && (AnswersString(env, name, value) ==> IsString(answer, value))
  {
    hide SchemeLength;
  }

  /** The reference is replaced everywhere, unless it stands alone: then its value is kept with its text. */
  lemma RoundOnReference(env: Env, s: string, name: string, value: string, l: Ledger)
    requires FindUri(s, env.defaultScheme) == Reference(name) && Contains(s, Reference(name))
    requires Answers(env, name, value)
    ensures var (r, l') := ExpandString(env, s, l);
      && r.Done? && r.changed && OneRetrieved(l, l', Asks(env, name))
      && (s != Reference(name) ==> r.value == Str(ReplaceAll(s, Reference(name), value)))
      && (AnswersString(env, name, value) ==> SameNext(r.value, ReplaceAll(s, Reference(name), value)))
      && (s == Reference(name) ==>
            r.value.Expanded? && r.value.original == value && Some(r.value.value) == RawAnswer(env, name, l))
  {
    hide FindUri, ReplaceAll, Answers, AnswersString, OneRetrieved, Contains, LocationOf;
    ReferenceInText(s, Reference(name));
    AskReference(env, name, value, l);
    if s == Reference(name) { ReplaceItself(s, value); }
  }

  /** The value behind a reference at this point. */
  function RawAnswer(env: Env, name: string, l: Ledger): Option<Value> {
    var answer := ExpandUri(env, Reference(name), l).0;
    if answer.None? then None else Some(answer.value.raw)
  }

  /** One round on a template: the first reference is retrieved once and replaced everywhere. */
  lemma TemplateRound(env: Env, t: seq<Piece>, values: string -> string, l: Ledger) returns (k: nat, name: string)
    requires AllPlain(t) && Answered(env, t, values) && Names(t) != {}
    ensures name in Names(t) && IsFirst(t, k, name)
    ensures var (r, l') := ExpandString(env, Render(t), l); var s := Render(Subst(t, name, values(name)));
      && r.Done? && r.changed && OneRetrieved(l, l', Asks(env, name))
      && (Render(t) != Reference(name) ==> r.value == Str(s))
      && (AnswersString(env, name, values(name)) ==> SameNext(r.value, s))
      && (Render(t) == Reference(name) ==>
            r.value.Expanded? && r.value.original == values(name) && Some(r.value.value) == RawAnswer(env, name, l))
  {
    hide FindUri, Render, ReplaceAll, Subst, Names, Answers, AnswersString, ExpandString, SameNext, OneRetrieved,
         Contains, Plain, AllPlain, IsFirst, RawAnswer;
    forall n | n in Names(t) && env.defaultScheme == "" ensures ':' in n { ColonNeeded(env, n, values(n)); }
    k, name := TemplateReference(t, env.defaultScheme);
    NamedPiece(t, name);
    ReplaceIsSubst(t, name, values(name));
    RoundOnReference(env, Render(t), name, values(name), l);
  }

  lemma NamedPiece(t: seq<Piece>, name: string)
    requires AllPlain(t) && name in Names(t)
    ensures Plain(Ref(name))
  {
    var p :| p in t && p.Ref? && p.name == name;
    assert p == Ref(name);
  }

  lemma ColonNeeded(env: Env, name: string, value: string)
    requires Answers(env, name, value) && env.defaultScheme == ""
    ensures ':' in name
  {
    hide IndexFrom;
    var uri := Reference(name);
    assert uri[2..|uri| - 1] == name;
    assert (":" + name)[0] == ':' && Index(":" + name, ':') == 0;
  }

  lemma ReplaceItself(uri: string, value: string)
    requires uri != ""
    ensures ReplaceAll(uri, uri, value) == value
  {
    assert uri[..|uri|] == uri && uri[|uri|..] == "";
    assert value + "" == value;
  }

  // ---- company ----

  lemma {:induction false} SubstAt(t: seq<Piece>, name: string, value: string)
    ensures |Subst(t, name, value)| == |t|
    ensures forall i :: 0 <= i < |t| ==> Subst(t, name, value)[i] == if t[i] == Ref(name) then Lit(value) else t[i]
  {
    if t != [] {
      SubstAt(t[1..], name, value);
      assert forall i :: 1 <= i < |t| ==> t[1..][i - 1] == t[i];
    }
  }

  lemma NameAt(t: seq<Piece>, k: nat, name: string)
    requires k <= |t|
    ensures name in Names(t[..k]) <==> exists i :: 0 <= i < k && t[i] == Ref(name)
  {
    if name in Names(t[..k]) {
      var p :| p in t[..k] && p.Ref? && p.name == name;
      var i :| 0 <= i < k && t[..k][i] == p;
      assert t[i] == Ref(name);
    }
    if i :| 0 <= i < k && t[i] == Ref(name) {
      assert t[..k][i] in t[..k];
    }
  }

  /** Replacing the first reference takes no other name away and changes no text. */
  lemma NamesBefore(t: seq<Piece>, name: string, values: string -> string, k: nat, other: string)
    requires k <= |t| && other != name
    ensures var t' := Subst(t, name, values(name));
      k <= |t'| && (other in Names(t'[..k]) <==> other in Names(t[..k]))
  {
    hide Names, Subst;
    var t' := Subst(t, name, values(name));
    SubstAt(t, name, values(name));
    NameAt(t, k, other);
    NameAt(t', k, other);
    if i :| 0 <= i < k && t[i] == Ref(other) { assert t'[i] == Ref(other); }
    if i :| 0 <= i < k && t'[i] == Ref(other) { assert t[i] == Ref(other); }
  }

  /** What is still beside a later reference stays so when the first one is replaced. */
  lemma StillThereKept(t: seq<Piece>, k: nat, name: string, values: string -> string, later: nat, j: nat)
    requires IsFirst(t, k, name) && k < later < |t| && j < |t|
    ensures var t' := Subst(t, name, values(name));
      |t'| == |t| && (StillThere(t', values, later, t'[j]) <==> StillThere(t, values, later, t[j]))
  {
    hide Names, Subst;
    SubstAt(t, name, values(name));
    NameAt(t, later, name);
    assert t[k] == Ref(name);
    if t[j].Ref? && t[j].name != name { NamesBefore(t, name, values, later, t[j].name); }
  }

  lemma SubstKeepsCompany(t: seq<Piece>, k: nat, name: string, values: string -> string, later: nat)
    requires IsFirst(t, k, name) && later < |t| && Accompanied(t, values, later)
    ensures var t' := Subst(t, name, values(name)); later < |t'| && Accompanied(t', values, later)
  {
    hide Names, Subst, StillThere, IsFirst;
    var t' := Subst(t, name, values(name));
    SubstAt(t, name, values(name));
    if t'[later].Ref? && t'[later].name !in Names(t'[..later]) {
      FirstIsBefore(t, k, name, later);
      NamesBefore(t, name, values, later, t'[later].name);
      var j :| 0 <= j < |t| && j != later && StillThere(t, values, later, t[j]);
      StillThereKept(t, k, name, values, later, j);
    }
  }

  lemma FirstIsBefore(t: seq<Piece>, k: nat, name: string, later: nat)
    requires IsFirst(t, k, name) && later < |t| && t[later].Ref?
    ensures k <= later && (t[later] != Ref(name) ==> k < later)
  {
    NameAt(t, k, t[later].name);
  }

  lemma {:induction false} RenderLength(t: seq<Piece>, i: nat, j: nat)
    requires i < j < |t|
    ensures |Render(t)| >= |Written(t[i])| + |Written(t[j])|
  {
    if i > 0 {
      RenderLength(t[1..], i - 1, j - 1);
    } else {
      RenderLonger(t[1..], j - 1);
    }
  }

  lemma {:induction false} RenderLonger(t: seq<Piece>, j: nat)
    requires j < |t|
    ensures |Render(t)| >= |Written(t[j])|
  {
    if j > 0 { RenderLonger(t[1..], j - 1); }
  }

  /** A first reference that has company is not the whole text. */
  lemma CompanyShows(t: seq<Piece>, k: nat, name: string, values: string -> string, j: nat)
    requires IsFirst(t, k, name) && j < |t| && j != k && StillThere(t, values, k, t[j])
    ensures Render(t) != Reference(name)
  {
    hide Render;
    assert |Written(t[j])| > 0;
    if j < k { RenderLength(t, j, k); } else { RenderLength(t, k, j); }
  }

  /** A reference that will be alone stays so when one before it is replaced. */
  lemma StaysAlone(t: seq<Piece>, k: nat, name: string, values: string -> string, later: nat)
    requires IsFirst(t, k, name) && AloneAt(t, values, later) && k != later
    ensures AloneAt(Subst(t, name, values(name)), values, later)
    ensures Render(t) != Reference(name)
  {
    hide Names, Subst, StillThere, IsFirst, Render;
    var t' := Subst(t, name, values(name));
    SubstAt(t, name, values(name));
    NameAt(t, later, name);
    FirstIsBefore(t, k, name, later);
    assert t[k] == Ref(name) by { IsThere(t, k, name); }
    NamesBefore(t, name, values, later, t[later].name);
    forall j | 0 <= j < |t'| && j != later ensures !StillThere(t', values, later, t'[j]) {
      StillThereKept(t, k, name, values, later, j);
    }
    RenderLength(t, k, later);
  }

  lemma IsThere(t: seq<Piece>, k: nat, name: string)
    requires IsFirst(t, k, name)
    ensures k < |t| && t[k] == Ref(name)
  {
  }

  /** The first reference, when it is alone, is the whole text. */
  lemma AloneIsWhole(t: seq<Piece>, k: nat, name: string, values: string -> string)
    requires IsFirst(t, k, name) && AloneAt(t, values, k)
    ensures Render(t) == Reference(name) && Names(t) == {name} && Meaning(t, values) == values(name)
    ensures NamesInOrder(t) == [name]
  {
    forall j | 0 <= j < |t| && j != k ensures t[j] == Lit("") {
      assert !StillThere(t, values, k, t[j]);
    }
    OnlyPiece(t, k, values);
    forall n ensures n in Names(t) <==> n == name {
      NameAt(t, |t|, n);
      assert t[..|t|] == t;
    }
    OneNameInOrder(t, k, name);
  }

  lemma {:induction false} OneNameInOrder(t: seq<Piece>, k: nat, name: string)
    requires k < |t| && t[k] == Ref(name) && forall j :: 0 <= j < |t| && j != k ==> t[j].Lit?
    ensures NamesInOrder(t) == [name]
  {
    var n := |t| - 1;
    if k < n { OneNameInOrder(t[..n], k, name); } else { NoNameInOrder(t[..n]); }
  }

  lemma {:induction false} NoNameInOrder(t: seq<Piece>)
    requires forall j :: 0 <= j < |t| ==> t[j].Lit?
    ensures NamesInOrder(t) == []
  {
    if t != [] { NoNameInOrder(t[..|t| - 1]); }
  }

  lemma {:induction false} OnlyPiece(t: seq<Piece>, k: nat, values: string -> string)
    requires k < |t| && forall j :: 0 <= j < |t| && j != k ==> t[j] == Lit("")
    ensures Render(t) == Written(t[k]) && Meaning(t, values) == PieceText(t[k], values)
  {
    if k > 0 {
      OnlyPiece(t[1..], k - 1, values);
    } else {
      NothingElse(t[1..], values);
    }
  }

  lemma {:induction false} NothingElse(t: seq<Piece>, values: string -> string)
    requires forall j :: 0 <= j < |t| ==> t[j] == Lit("")
    ensures Render(t) == "" && Meaning(t, values) == ""
  {
    if t != [] { NothingElse(t[1..], values); }
  }

  lemma LeftAlone(t: seq<Piece>, k: nat, name: string, values: string -> string)
    requires IsFirst(t, k, name) && Render(t) == Reference(name)
    ensures AloneAt(t, values, k)
  {
    hide Render, StillThere;
    if Accompanied(t, values, k) {
      var j :| 0 <= j < |t| && j != k && StillThere(t, values, k, t[j]);
      CompanyShows(t, k, name, values, j);
    }
  }

  /** The first reference comes first, and replacing it leaves the others in their order. */
  lemma {:induction false} NextInOrder(t: seq<Piece>, k: nat, name: string, value: string)
    requires k < |t| && t[k] == Ref(name) && forall j :: 0 <= j < k ==> t[j].Lit?
    ensures NamesInOrder(t) == [name] + NamesInOrder(Subst(t, name, value))
  {
    hide Subst;
    var n := |t| - 1;
    var t' := Subst(t, name, value);
    SubstAt(t, name, value);
    SubstAt(t[..n], name, value);
    assert t'[..n] == Subst(t[..n], name, value);
    if k < n {
      NextInOrder(t[..n], k, name, value);
    } else {
      NoNameInOrder(t[..n]);
      NoNameInOrder(t'[..n]);
    }
  }

  lemma FirstAfterLiterals(t: seq<Piece>, k: nat, name: string)
    requires IsFirst(t, k, name)
    ensures forall j :: 0 <= j < k ==> t[j].Lit?
  {
    forall j | 0 <= j < k ensures t[j].Lit? {
      if t[j].Ref? { NameAt(t, k, t[j].name); }
    }
  }

  lemma {:induction false} OrderListsNames(t: seq<Piece>)
    ensures |NamesInOrder(t)| == |Names(t)| && (set name | name in NamesInOrder(t)) == Names(t)
  {
    if t != [] {
      var front, last := t[..|t| - 1], t[|t| - 1];
      OrderListsNames(front);
      assert t == front + [last];
      assert Names(t) == Names(front) + if last.Ref? then {last.name} else {};
      var names := set name | name in NamesInOrder(front);
      if last.Ref? && last.name in NamesInOrder(front) {
        assert last.name in names;
        assert Names(front) + {last.name} == Names(front);
      } else if last.Ref? {
        assert last.name !in names;
      }
    }
  }

  lemma NamesAfter(t: seq<Piece>, name: string, values: string -> string)
    ensures Names(Subst(t, name, values(name))) == Names(t) - {name}
  {
    hide Subst;
    var t' := Subst(t, name, values(name));
    SubstAt(t, name, values(name));
    forall n ensures n in Names(t') <==> n in Names(t) && n != name {
      NameAt(t, |t|, n);
      NameAt(t', |t|, n);
      assert t[..|t|] == t && t'[..|t|] == t';
      if i :| 0 <= i < |t| && t[i] == Ref(n) && n != name { assert t'[i] == Ref(n); }
      if i :| 0 <= i < |t| && t'[i] == Ref(n) { assert t[i] == Ref(n); }
    }
  }

  lemma PlainIsFixed(env: Env, s: string, l: Ledger)
    requires '$' !in s
    ensures ExpandString(env, s, l) == (Done(Str(s), false), l)
  {
    hide FindUri;
    assert forall k: nat :: k < |s| ==> !OpensAt(s, k);
  }

  // ---- all rounds ----

  /** The ledger after one call for each of the names, in their order. */
  ghost predicate AllRetrieved(env: Env, l: Ledger, l': Ledger, names: seq<string>) {
    && l'.calls == l.calls + |names|
    && l'.asked == l.asked + AskAll(env, names)
    && |l'.closers| == |l.closers| + |names|
  }

  lemma OneThenAll(env: Env, l: Ledger, l1: Ledger, l2: Ledger, name: string, names: seq<string>)
    requires OneRetrieved(l, l1, Asks(env, name)) && AllRetrieved(env, l1, l2, names)
    ensures AllRetrieved(env, l, l2, [name] + names)
  {
    assert AskAll(env, [name] + names) == [Asks(env, name)] + AskAll(env, names);
  }

  /** The names that as many rounds come to. */
  function UpTo(names: seq<string>, rounds: nat): seq<string> { if |names| < rounds then names else names[..rounds] }

  lemma OneThenRest(env: Env, l: Ledger, l1: Ledger, l2: Ledger, name: string, rest: seq<string>, rounds: nat)
    requires rounds > 0 && OneRetrieved(l, l1, Asks(env, name)) && AllRetrieved(env, l1, l2, UpTo(rest, rounds - 1))
    ensures AllRetrieved(env, l, l2, UpTo([name] + rest, rounds))
  {
    hide AllRetrieved, OneRetrieved;
    OneThenAll(env, l, l1, l2, name, UpTo(rest, rounds - 1));
    assert UpTo([name] + rest, rounds) == [name] + UpTo(rest, rounds - 1);
  }

  lemma NoneRetrieved(env: Env, l: Ledger)
    ensures AllRetrieved(env, l, l, [])
    ensures forall names :: UpTo(names, 0) == []
    ensures forall rounds :: rounds > 0 ==> UpTo([], rounds) == []
  {
    assert l.asked + AskAll(env, []) == l.asked;
  }

  lemma OneIsRetrieved(env: Env, l: Ledger, l1: Ledger, name: string)
    requires OneRetrieved(l, l1, Asks(env, name))
    ensures AllRetrieved(env, l, l1, [name])
    ensures forall rounds :: rounds > 0 ==> UpTo([name], rounds) == [name]
  {
    assert AskAll(env, [name]) == [Asks(env, name)];
    assert [name][..1] == [name];
  }

  /**
   What the rounds leave of a template: its meaning as a text; or, when a reference is all that is
   left in the end, the value it was answered with at the last call, with the meaning as its text.
   */
  ghost predicate Left(env: Env, t: seq<Piece>, values: string -> string, calls: nat, v: Value) {
    || (NeverAlone(t, values) && v == Str(Meaning(t, values)))
    || (v.Expanded? && v.original == Meaning(t, values)
        && exists k: nat :: AloneAt(t, values, k) && LastAnswer(env, t[k].name, values, calls, v))
  }

  ghost predicate LastAnswer(env: Env, name: string, values: string -> string, calls: nat, v: Value) {
    && calls > 0 && v.Expanded? && v.original == values(name)
    && var answer := env.provider(calls - 1, Asks(env, name)); answer.Some? && answer.value.raw == v.value
  }

  /** A round on the first reference, when it is not alone. */
  lemma LeftLater(env: Env, t: seq<Piece>, k: nat, name: string, values: string -> string, calls: nat, v: Value)
    requires IsFirst(t, k, name) && Render(t) != Reference(name)
    requires Left(env, Subst(t, name, values(name)), values, calls, v)
    requires Meaning(Subst(t, name, values(name)), values) == Meaning(t, values)
    ensures Left(env, t, values, calls, v)
  {
    hide Subst, Names, StillThere, Render, IsFirst, Meaning;
    var t' := Subst(t, name, values(name));
    SubstAt(t, name, values(name));
    IsThere(t, k, name);
    if NeverAlone(t', values) {
      forall later | 0 <= later < |t| ensures Accompanied(t, values, later) {
        if !Accompanied(t, values, later) {
          if later == k { AloneIsWhole(t, k, name, values); } else { StaysAlone(t, k, name, values, later); }
        }
      }
    } else {
      var later: nat :| AloneAt(t', values, later) && LastAnswer(env, t'[later].name, values, calls, v);
      if Accompanied(t, values, later) { SubstKeepsCompany(t, k, name, values, later); }
    }
  }

  /** One reference after the other is retrieved and replaced; the further rounds work on what is left. */
  lemma {:induction false} TemplateReduces(
      env: Env, t: seq<Piece>, values: string -> string, rounds: nat, l: Ledger)
      returns (v: Value, l': Ledger)
    requires AllPlain(t) && Answered(env, t, values) && |Names(t)| <= rounds
    ensures ExpandRounds(env, Str(Render(t)), rounds, l) == ExpandRounds(env, v, rounds - |Names(t)|, l')
    ensures AllRetrieved(env, l, l', NamesInOrder(t))
    ensures Left(env, t, values, l'.calls, v)
    decreases rounds
  {
    hide ExpandString, Render, Subst, Meaning, AllPlain, Answers, AnswersString, StillThere, IsFirst, RawAnswer, Left;
    hide OneRetrieved, AllRetrieved;
    if Names(t) == {} {
      v, l' := NothingToRetrieve(env, t, values, l);
    } else {
      var k, name := TemplateRound(env, t, values, l);
      var (r, l1) := ExpandString(env, Render(t), l);
      assert ExpandValue(env, Str(Render(t)), l) == (r, l1);
      var t' := Subst(t, name, values(name));
      NamesAfter(t, name, values);
      SubstKeepsMeaning(t, name, values);
      if Render(t) == Reference(name) {
        v, l' := r.value, l1;
        assert v == Expanded(v.value, v.original);
        LastIsLeft(env, t, k, name, values, l, l1, v);
      } else {
        v, l' := TemplateReduces(env, t', values, rounds - 1, l1);
        FirstAfterLiterals(t, k, name);
        IsThere(t, k, name);
        NextInOrder(t, k, name, values(name));
        OneThenAll(env, l, l1, l', name, NamesInOrder(t'));
        LeftLater(env, t, k, name, values, l'.calls, v);
      }
    }
  }

  lemma NothingToRetrieve(env: Env, t: seq<Piece>, values: string -> string, l: Ledger) returns (v: Value, l': Ledger)
    requires AllPlain(t) && Names(t) == {}
    ensures v == Str(Render(t)) && l' == l && AllRetrieved(env, l, l, NamesInOrder(t))
    ensures forall calls :: Left(env, t, values, calls, v)
  {
    v, l' := Str(Render(t)), l;
    LiteralsRenderPlain(t, values);
    OrderListsNames(t);
    assert NamesInOrder(t) == [];
    RefsAreNamed(t);
    assert l.asked + AskAll(env, []) == l.asked;
  }

  lemma RefsAreNamed(t: seq<Piece>)
    ensures forall k :: 0 <= k < |t| && t[k].Ref? ==> t[k].name in Names(t)
  {
    assert forall k :: 0 <= k < |t| ==> t[k] in t;
  }

  lemma LastIsLeft(
      env: Env, t: seq<Piece>, k: nat, name: string, values: string -> string, l: Ledger, l1: Ledger, v: Value)
    requires IsFirst(t, k, name) && Render(t) == Reference(name) && OneRetrieved(l, l1, Asks(env, name))
    requires Answers(env, name, values(name)) && Some(v) == KeptPair(env, name, values(name), l)
    ensures |Names(t)| == 1 && AllRetrieved(env, l, l1, NamesInOrder(t))
    ensures Left(env, t, values, l1.calls, v)
  {
    hide Render, StillThere, Meaning, Accompanied, Names;
    LeftAlone(t, k, name, values);
    AloneIsWhole(t, k, name, values);
    IsThere(t, k, name);
    assert AskAll(env, [name]) == [Asks(env, name)];
    AskedFor(env, name, values(name), l);
    assert LastAnswer(env, t[k].name, values, l.calls + 1, v);
  }

  /** The pair that a reference becomes when it stands alone. */
  function KeptPair(env: Env, name: string, text: string, l: Ledger): Option<Value> {
    var raw := RawAnswer(env, name, l);
    if raw.None? then None else Some(Expanded(raw.value, text))
  }

  lemma AskedFor(env: Env, name: string, value: string, l: Ledger)
    requires Answers(env, name, value)
    ensures var answer := env.provider(l.calls, Asks(env, name));
      answer.Some? && RawAnswer(env, name, l) == Some(answer.value.raw)
  {
  }

  lemma {:induction false} TooFewRounds(env: Env, t: seq<Piece>, values: string -> string, rounds: nat, l: Ledger)
    requires AllPlain(t) && Answered(env, t, values) && rounds <= |Names(t)|
    ensures var (r, l') := ExpandRounds(env, Str(Render(t)), rounds, l);
      r == Aborted(TooManyExpansions) && AllRetrieved(env, l, l', UpTo(NamesInOrder(t), rounds))
    decreases rounds
  {
    hide ExpandString, Render, Subst, AllPlain, Answers, AnswersString, StillThere, IsFirst, RawAnswer, OneRetrieved,
         AllRetrieved, UpTo;
    NoneRetrieved(env, l);
    if rounds > 0 {
      var k, name := TemplateRound(env, t, values, l);
      var (r, l1) := ExpandString(env, Render(t), l);
      assert ExpandValue(env, Str(Render(t)), l) == (r, l1);
      NamesAfter(t, name, values);
      SubstKeepsMeaning(t, name, values);
      if Render(t) == Reference(name) {
        LeftAlone(t, k, name, values);
        AloneIsWhole(t, k, name, values);
        OneIsRetrieved(env, l, l1, name);
      } else {
        var t' := Subst(t, name, values(name));
        TooFewRounds(env, t', values, rounds - 1, l1);
        FirstAfterLiterals(t, k, name);
        IsThere(t, k, name);
        NextInOrder(t, k, name, values(name));
        var l2 := ExpandRounds(env, Str(Render(t)), rounds, l).1;
        OneThenRest(env, l, l1, l2, name, NamesInOrder(t'), rounds);
      }
    }
  }

  // ---- what is left, expanded ----

  /** Each reference that is ever alone is answered with strings. */
  ghost predicate AloneAreStrings(env: Env, t: seq<Piece>, values: string -> string) {
    forall k: nat :: AloneAt(t, values, k) ==> AnswersString(env, t[k].name, values(t[k].name))
  }

  /** A value that is no text, and that expansion leaves alone: a number, a list, a map, ... */
  ghost predicate Kept(v: Value, defaultScheme: string) {
    !v.Str? && !v.Expanded? && Normal(v, defaultScheme)
  }

  /** Its answers are such values. */
  ghost predicate AnswersKept(env: Env, name: string) {
    forall n: nat :: IsKept(env, env.provider(n, Asks(env, name)))
  }

  ghost predicate IsKept(env: Env, answer: Option<Retrieved>) {
    answer.Some? && Kept(answer.value.raw, env.defaultScheme)
  }

  /** Each reference that is ever alone is answered always with strings, or always with values that are kept. */
  ghost predicate AloneAreStable(env: Env, t: seq<Piece>, values: string -> string) {
    forall k: nat :: AloneAt(t, values, k) ==>
      AnswersString(env, t[k].name, values(t[k].name)) || AnswersKept(env, t[k].name)
  }

  lemma StringAsked(env: Env, name: string, value: string, n: nat)
    requires AnswersString(env, name, value)
    ensures IsString(env.provider(n, Asks(env, name)), value)
  {
  }

  lemma TextIsFinal(env: Env, v: Value, s: string, rounds: nat, l: Ledger)
    requires SameNext(v, s) && '$' !in s && rounds > 0
    ensures ExpandRounds(env, v, rounds, l) == (Finished(Str(s)), l)
  {
    hide ExpandString;
    PlainIsFixed(env, s, l);
    assert ExpandValue(env, v, l) == (Done(Str(s), false), l);
  }

  lemma KeptIsFinal(env: Env, v: Value, text: string, rounds: nat, l: Ledger)
    requires Kept(v, env.defaultScheme) && '$' !in text && rounds > 0
    ensures ExpandRounds(env, Expanded(v, text), rounds, l) == (Finished(Expanded(v, text)), l)
  {
    hide ExpandString, FindUri, Normal;
    NormalIsFixed(env, v, l);
    PlainIsFixed(env, text, l);
    assert ExpandValue(env, Expanded(v, text), l) == (Done(Expanded(v, text), false), l);
  }

  lemma {:induction false} MeaningIsPlain(env: Env, t: seq<Piece>, values: string -> string)
    requires AllPlain(t) && Answered(env, t, values)
    ensures '$' !in Meaning(t, values)
  {
    hide Answers;
    if t != [] {
      assert t[0] in t && forall p :: p in t[1..] ==> p in t;
      forall name | name in Names(t[1..]) ensures Answers(env, name, values(name)) && '$' !in values(name) {
        assert name in Names(t);
      }
      MeaningIsPlain(env, t[1..], values);
      if t[0].Ref? { assert t[0].name in Names(t); }
    }
  }

  lemma LeftIsText(env: Env, t: seq<Piece>, values: string -> string, calls: nat, v: Value)
    requires Left(env, t, values, calls, v) && AloneAreStrings(env, t, values)
    ensures SameNext(v, Meaning(t, values))
  {
    hide Accompanied, AnswersString, Meaning;
    if !NeverAlone(t, values) || v.Expanded? {
      var k: nat :| AloneAt(t, values, k) && LastAnswer(env, t[k].name, values, calls, v);
      StringAsked(env, t[k].name, values(t[k].name), calls - 1);
    }
  }

  /**
   Expansion is substitution. For every template whose references are answered with text without
   dollar signs, and with strings where a reference is ever all that is left: with fewer than 1000
   different references the expansion of the text and the final unescaping give its meaning, and
   otherwise they fail with too many expansions. The providers are asked for each different
   reference once, however often it occurs, in the order of the first occurrences, up to the bound.
   */
  lemma ExpansionIsSubstitution(env: Env, t: seq<Piece>, values: string -> string, l: Ledger)
    requires AllPlain(t) && Answered(env, t, values) && AloneAreStrings(env, t, values)
    ensures var (r, l') := ExpandRecursively(env, Str(Render(t)), l);
      && AllRetrieved(env, l, l', UpTo(NamesInOrder(t), 1000))
      && if |Names(t)| < 1000 then r.Finished? && Unescape(r.value) == Str(Meaning(t, values))
      else r == Aborted(TooManyExpansions)
  {
    hide ExpandRounds, Render, Names, Answered, AloneAreStrings, Left;
    OrderListsNames(t);
    if |Names(t)| < 1000 {
      var v, l' := TemplateReduces(env, t, values, MAX_ROUNDS, l);
      LeftIsText(env, t, values, l'.calls, v);
      MeaningIsPlain(env, t, values);
      var m := Meaning(t, values);
      TextIsFinal(env, v, m, MAX_ROUNDS - |Names(t)|, l');
      PassOver(m, "", "$$", "$");
      assert m + "" == m;
    } else {
      TooFewRounds(env, t, values, MAX_ROUNDS, l);
    }
  }

  /** Some literal text is company enough, whatever the answers are. */
  lemma LiteralIsCompany(env: Env, t: seq<Piece>, values: string -> string, i: nat)
    requires i < |t| && t[i].Lit? && t[i].text != ""
    ensures NeverAlone(t, values) && AloneAreStrings(env, t, values)
  {
    forall k | 0 <= k < |t| ensures Accompanied(t, values, k) {
      if t[k].Ref? { assert StillThere(t, values, k, t[i]); }
    }
  }

  /**
   What decides the type. If each reference that is ever all that is left is answered always with
   strings, or always with values that are no texts, such as numbers, lists and maps: the result is
   a text iff all these are answered with strings; otherwise it keeps the value of the reference,
   together with the meaning of the template as its text.
   */
  lemma TextIffAloneAreStrings(env: Env, t: seq<Piece>, values: string -> string, l: Ledger)
    requires AllPlain(t) && Answered(env, t, values) && AloneAreStable(env, t, values) && |Names(t)| < 1000
    ensures var r := ExpandRecursively(env, Str(Render(t)), l).0;
      && r.Finished?
      && (AloneAreStrings(env, t, values) <==> r.value == Str(Meaning(t, values)))
      && (!AloneAreStrings(env, t, values) ==>
            r.value.Expanded? && Kept(r.value.value, env.defaultScheme) && r.value.original == Meaning(t, values))
  {
    hide ExpandRounds, Render, Names, Answered, Left, Kept, Accompanied, Meaning;
    var v, l' := TemplateReduces(env, t, values, MAX_ROUNDS, l);
    MeaningIsPlain(env, t, values);
    if AloneAreStrings(env, t, values) {
      LeftIsText(env, t, values, l'.calls, v);
      TextIsFinal(env, v, Meaning(t, values), MAX_ROUNDS - |Names(t)|, l');
    } else {
      LeftIsKept(env, t, values, l'.calls, v);
      KeptIsFinal(env, v.value, v.original, MAX_ROUNDS - |Names(t)|, l');
    }
  }

  lemma LeftIsKept(env: Env, t: seq<Piece>, values: string -> string, calls: nat, v: Value)
    requires Left(env, t, values, calls, v) && AloneAreStable(env, t, values) && !AloneAreStrings(env, t, values)
    ensures v.Expanded? && v.original == Meaning(t, values) && Kept(v.value, env.defaultScheme)
  {
    hide Accompanied, AnswersString, Meaning, Kept;
    var j: nat :| AloneAt(t, values, j) && !AnswersString(env, t[j].name, values(t[j].name));
    var k: nat :| AloneAt(t, values, k) && LastAnswer(env, t[k].name, values, calls, v);
    AloneOnce(t, values, j, k);
    assert IsKept(env, env.provider(calls - 1, Asks(env, t[k].name)));
  }

  /** At most one reference is ever all that is left. */
  lemma AloneOnce(t: seq<Piece>, values: string -> string, j: nat, k: nat)
    requires AloneAt(t, values, j) && AloneAt(t, values, k)
    ensures j == k
  {
    hide Names;
    if j < k { LaterIsCompany(t, values, j, k); }
    if k < j { LaterIsCompany(t, values, k, j); }
  }

  lemma LaterIsCompany(t: seq<Piece>, values: string -> string, j: nat, k: nat)
    requires j < k < |t| && t[j].Ref? && t[k].Ref? && t[k].name !in Names(t[..k])
    ensures StillThere(t, values, j, t[k])
  {
    NameAt(t, j, t[k].name);
    NameAt(t, k, t[k].name);
  }
}
