/**
 Templates whose references are answered with templates: without cycles, expansion computes the
 text in which every reference stands for the expansion of its answer; without an end, none.
 */
module NestedTemplates {
  import opened Options
  import opened Text
  import opened UriSearch
  import opened ConfTree
  import opened Expansion
  import opened Termination
  import opened Escaping
  import opened Templates

  /** What the known names are answered with; `rank` orders them when no answer leads back to its name. */
  datatype Definitions = Definitions(known: set<string>, body: string -> seq<Piece>, rank: string -> nat) {
    /** The texts of the answers are templates over known names; the values behind them are free. */
    ghost predicate Given(env: Env) {
      forall name :: name in known ==> GivenName(env, name)
    }

    ghost predicate GivenName(env: Env, name: string) {
      && AllPlain(body(name)) && Names(body(name)) <= known
      && Answers(env, name, Render(body(name)))
    }

    /** An answer refers only to names of lower rank. */
    ghost predicate Acyclic() {
      forall name :: name in known ==> Names(body(name)) <= known && Below(body(name), rank(name))
    }

    ghost predicate Below(t: seq<Piece>, bound: nat) {
      forall name :: name in Names(t) ==> rank(name) < bound
    }

    ghost predicate Covers(t: seq<Piece>, bound: nat) { Names(t) <= known && Below(t, bound) }
  }

  /** The meaning: every reference stands for the meaning of its answer. */
  ghost function Deep(d: Definitions, t: seq<Piece>, bound: nat): string
    requires d.Acyclic() && d.Covers(t, bound)
    decreases bound, |t|
  {
    if t == [] then ""
    else
      CoversParts(d, t, bound);
      (if t[0].Lit? then t[0].text else Deep(d, d.body(t[0].name), d.rank(t[0].name))) + Deep(d, t[1..], bound)
  }

  /** How many references there are, counting those in the answers for every place they come to. */
  ghost function Size(d: Definitions, t: seq<Piece>, bound: nat): nat
    requires d.Acyclic() && d.Covers(t, bound)
    decreases bound, |t|
  {
    if t == [] then 0
    else
      CoversParts(d, t, bound);
      (if t[0].Lit? then 0 else 1 + Size(d, d.body(t[0].name), d.rank(t[0].name))) + Size(d, t[1..], bound)
  }

  lemma CoversParts(d: Definitions, t: seq<Piece>, bound: nat)
    requires d.Acyclic() && d.Covers(t, bound) && t != []
    ensures d.Covers(t[1..], bound)
    ensures t[0].Ref? ==>
      t[0].name in d.known && d.rank(t[0].name) < bound && d.Covers(d.body(t[0].name), d.rank(t[0].name))
  {
    assert t == [t[0]] + t[1..];
    NamesCons(t[0], t[1..]);
  }

  lemma {:induction false} BoundIsFree(d: Definitions, t: seq<Piece>, b1: nat, b2: nat)
    requires d.Acyclic() && d.Covers(t, b1) && d.Covers(t, b2)
    ensures Deep(d, t, b1) == Deep(d, t, b2) && Size(d, t, b1) == Size(d, t, b2)
    decreases |t|
  {
    if t != [] {
      CoversParts(d, t, b1);
      CoversParts(d, t, b2);
      BoundIsFree(d, t[1..], b1, b2);
    }
  }

  lemma NamesConcat(s: seq<Piece>, t: seq<Piece>)
    ensures Names(s + t) == Names(s) + Names(t)
  {
    assert forall p :: p in s + t <==> p in s || p in t;
  }

  lemma {:induction false} DeepConcat(d: Definitions, s: seq<Piece>, t: seq<Piece>, bound: nat)
    requires d.Acyclic() && d.Covers(s, bound) && d.Covers(t, bound)
    ensures d.Covers(s + t, bound)
    ensures Deep(d, s + t, bound) == Deep(d, s, bound) + Deep(d, t, bound)
    ensures Size(d, s + t, bound) == Size(d, s, bound) + Size(d, t, bound)
    decreases |s|
  {
    hide Names;
    NamesConcat(s, t);
    if s == [] {
      assert s + t == t;
    } else {
      assert (s + t)[1..] == s[1..] + t && (s + t)[0] == s[0];
      CoversParts(d, s, bound);
      CoversParts(d, s + t, bound);
      DeepConcat(d, s[1..], t, bound);
    }
  }

  // ---- replacing a reference by a template ----

  function Inline(t: seq<Piece>, name: string, body: seq<Piece>): seq<Piece> {
    if t == [] then [] else (if t[0] == Ref(name) then body else [t[0]]) + Inline(t[1..], name, body)
  }

  lemma {:induction false} InlineNames(t: seq<Piece>, name: string, body: seq<Piece>)
    ensures Names(Inline(t, name, body)) ==
      (Names(t) - {name}) + if name in Names(t) then Names(body) else {}
    ensures AllPlain(t) && AllPlain(body) ==> AllPlain(Inline(t, name, body))
  {
    hide Plain;
    if t != [] {
      var first, rest := if t[0] == Ref(name) then body else [t[0]], Inline(t[1..], name, body);
      assert t == [t[0]] + t[1..];
      InlineNames(t[1..], name, body);
      NamesCons(t[0], t[1..]);
      NamesConcat(first, rest);
      if t[0] != Ref(name) {
        NamesCons(t[0], []);
        assert [t[0]] + [] == [t[0]];
      }
    }
  }

  lemma {:induction false} ReplaceIsInline(t: seq<Piece>, name: string, body: seq<Piece>)
    requires AllPlain(t) && Plain(Ref(name))
    ensures ReplaceAll(Render(t), Reference(name), Render(body)) == Render(Inline(t, name, body))
  {
    hide ReplaceAll, Plain;
    if t == [] {
      EmptyReplace(Reference(name), Render(body));
    } else {
      var first, rest := if t[0] == Ref(name) then body else [t[0]], Inline(t[1..], name, body);
      assert t[0] in t && forall p :: p in t[1..] ==> p in t;
      ReplaceIsInline(t[1..], name, body);
      ReplacePiece(t[0], Render(t[1..]), name, Render(body));
      RenderConcat(first, rest);
      if t[0] != Ref(name) {
        RenderOne(t[0], []);
        assert [t[0]] + [] == [t[0]] && Written(t[0]) + "" == Written(t[0]);
      }
    }
  }

  /** Replacing a reference by its answer keeps the meaning and leaves fewer references. */
  lemma {:induction false} InlineKeepsMeaning(d: Definitions, t: seq<Piece>, name: string, bound: nat)
    requires d.Acyclic() && d.Covers(t, bound) && name in d.known && d.rank(name) < bound
    ensures var t' := Inline(t, name, d.body(name));
      && d.Covers(t', bound)
      && Deep(d, t', bound) == Deep(d, t, bound)
      && Size(d, t', bound) <= Size(d, t, bound)
      && (name in Names(t) ==> Size(d, t', bound) < Size(d, t, bound))
    decreases |t|
  {
    hide Names;
    InlineNames(t, name, d.body(name));
    if t != [] {
      var first, rest := if t[0] == Ref(name) then d.body(name) else [t[0]], Inline(t[1..], name, d.body(name));
      CoversParts(d, t, bound);
      InlineKeepsMeaning(d, t[1..], name, bound);
      assert t == [t[0]] + t[1..];
      NamesCons(t[0], t[1..]);
      FirstPart(d, t[0], name, bound);
      DeepConcat(d, first, rest, bound);
    }
  }

  lemma FirstPart(d: Definitions, p: Piece, name: string, bound: nat)
    requires d.Acyclic() && name in d.known && d.rank(name) < bound
    requires p.Ref? ==> p.name in d.known && d.rank(p.name) < bound
    ensures var first := if p == Ref(name) then d.body(name) else [p];
      && d.Covers(first, bound)
      && Deep(d, first, bound) == (if p.Lit? then p.text else Deep(d, d.body(p.name), d.rank(p.name)))
      && Size(d, first, bound) + (if p == Ref(name) then 1 else 0) ==
        (if p.Lit? then 0 else 1 + Size(d, d.body(p.name), d.rank(p.name)))
  {
    NamesCons(p, []);
    assert [p] + [] == [p] && [p][1..] == [];
    if p == Ref(name) {
      BoundIsFree(d, d.body(name), d.rank(name), bound);
    } else {
      assert Deep(d, [], bound) == "" && Size(d, [], bound) == 0;
      var text := Deep(d, [p], bound);
      assert text == (if p.Lit? then p.text else Deep(d, d.body(p.name), d.rank(p.name))) + "";
    }
  }

  // ---- rounds ----

  function FirstName(t: seq<Piece>): (name: string)
    requires Names(t) != {}
    ensures name in Names(t)
  {
    assert t == [t[0]] + t[1..] by { assert t != []; }
    NamesCons(t[0], t[1..]);
    if t[0].Ref? then t[0].name else FirstName(t[1..])
  }

  lemma {:induction false} FirstNameAt(t: seq<Piece>, k: nat, name: string)
    requires k < |t| && t[k] == Ref(name) && forall j :: 0 <= j < k ==> t[j].Lit?
    ensures Names(t) != {} && FirstName(t) == name
  {
    hide Names;
    assert t == [t[0]] + t[1..];
    NamesCons(t[0], t[1..]);
    if k > 0 { FirstNameAt(t[1..], k - 1, name); }
  }

  /**
   The names whose answers are inlined, one after the other: always the first name, wherever it
   occurs at the time. A name that later answers bring back is inlined again.
   */
  ghost function Inlined(d: Definitions, t: seq<Piece>, bound: nat): (names: seq<string>)
    requires d.Acyclic() && d.Covers(t, bound)
    ensures |names| <= Size(d, t, bound)
    decreases Size(d, t, bound)
  {
    if Names(t) == {} then []
    else
      var name := FirstName(t);
      InlineKeepsMeaning(d, t, name, bound);
      [name] + Inlined(d, Inline(t, name, d.body(name)), bound)
  }

  /** Each name of the template is among them. */
  lemma {:induction false} NamesAreInlined(d: Definitions, t: seq<Piece>, bound: nat)
    requires d.Acyclic() && d.Covers(t, bound)
    ensures |Names(t)| <= |Inlined(d, t, bound)|
    ensures forall name :: name in Names(t) ==> name in Inlined(d, t, bound)
    decreases Size(d, t, bound)
  {
    hide Inline, Names;
    if Names(t) != {} {
      var name := FirstName(t);
      var t' := Inline(t, name, d.body(name));
      InlineKeepsMeaning(d, t, name, bound);
      InlineNames(t, name, d.body(name));
      NamesAreInlined(d, t', bound);
      FewerNames(Names(t) - {name}, Names(t'));
    }
  }

  lemma FewerNames(s: set<string>, t: set<string>)
    requires s <= t
    ensures |s| <= |t|
  {
    assert t == s + (t - s);
  }

  /** One reference is all there is of the text. */
  ghost predicate Whole(t: seq<Piece>) { Names(t) != {} && Render(t) == Reference(FirstName(t)) }

  function Next(d: Definitions, t: seq<Piece>): seq<Piece>
    requires Names(t) != {}
  {
    Inline(t, FirstName(t), d.body(FirstName(t)))
  }

  ghost predicate FirstIsString(env: Env, d: Definitions, t: seq<Piece>)
    requires Names(t) != {}
  {
    AnswersString(env, FirstName(t), Render(d.body(FirstName(t))))
  }

  /** During the next `n` rounds, a reference that is all there is of the text is answered always with strings. */
  ghost predicate StringsWhereAlone(env: Env, d: Definitions, t: seq<Piece>, n: nat)
    decreases n
  {
    n > 0 && Names(t) != {} ==> (Whole(t) ==> FirstIsString(env, d, t)) && StringsWhereAlone(env, d, Next(d, t), n - 1)
  }

  /** Or the first one that is not, always with values that are no texts and that expansion leaves alone. */
  ghost predicate StableWhereAlone(env: Env, d: Definitions, t: seq<Piece>, n: nat)
    decreases n
  {
    n > 0 && Names(t) != {} ==>
      if Whole(t) && !FirstIsString(env, d, t) then AnswersKept(env, FirstName(t))
      else StableWhereAlone(env, d, Next(d, t), n - 1)
  }

  /** During the next `n` rounds, no reference is all there is of the text. */
  ghost predicate NeverWhole(d: Definitions, t: seq<Piece>, n: nat)
    decreases n
  {
    n > 0 && Names(t) != {} ==> !Whole(t) && NeverWhole(d, Next(d, t), n - 1)
  }

  /** Once a value that is no text is kept, no reference is all there is of its text. */
  ghost predicate KeepsText(env: Env, d: Definitions, t: seq<Piece>, n: nat)
    decreases n
  {
    n > 0 && Names(t) != {} ==>
      if Whole(t) && !FirstIsString(env, d, t) then NeverWhole(d, Next(d, t), n - 1)
      else KeepsText(env, d, Next(d, t), n - 1)
  }

  /** Some literal text is company enough, whatever the answers are: it stays when references are inlined. */
  lemma {:induction false} LiteralStays(env: Env, d: Definitions, t: seq<Piece>, i: nat, n: nat)
    requires i < |t| && t[i].Lit? && t[i].text != ""
    ensures StringsWhereAlone(env, d, t, n) && NeverWhole(d, t, n)
    decreases n
  {
    hide Render, Inline, Names, FirstIsString;
    if n > 0 && Names(t) != {} {
      var name := FirstName(t);
      var k := FirstReference(t);
      FirstIsFirst(t, k);
      if i < k { RenderLength(t, i, k); } else { RenderLength(t, k, i); }
      var j := InlineKeeps(t, name, d.body(name), i);
      LiteralStays(env, d, Inline(t, name, d.body(name)), j, n - 1);
    }
  }

  lemma FirstIsFirst(t: seq<Piece>, k: nat)
    requires k < |t| && t[k].Ref? && Names(t[..k]) == {}
    ensures Names(t) != {} && t[k] == Ref(FirstName(t))
  {
    FirstAfterLiterals(t, k, t[k].name);
    FirstNameAt(t, k, t[k].name);
  }

  lemma {:induction false} InlineKeeps(t: seq<Piece>, name: string, body: seq<Piece>, i: nat) returns (j: nat)
    requires i < |t| && t[i] != Ref(name)
    ensures j < |Inline(t, name, body)| && Inline(t, name, body)[j] == t[i]
  {
    if i == 0 {
      j := 0;
    } else {
      j := InlineKeeps(t[1..], name, body, i - 1);
      j := j + if t[0] == Ref(name) then |body| else 1;
    }
  }

  /**
   A round replaces the first reference by the template it is answered with, and keeps the value
   itself when that reference is the whole text.
   */
  lemma NestedRound(env: Env, d: Definitions, v: Value, t: seq<Piece>, l: Ledger) returns (name: string)
    requires d.Given(env) && AllPlain(t) && Names(t) <= d.known && Names(t) != {} && SameNext(v, Render(t))
    ensures name == FirstName(t)
    ensures var (r, l') := ExpandValue(env, v, l); var s := Render(Inline(t, name, d.body(name)));
      && r.Done? && r.changed && OneRetrieved(l, l', Asks(env, name))
      && (Render(t) != Reference(name) ==> r.value == Str(s))
      && (AnswersString(env, name, Render(d.body(name))) ==> SameNext(r.value, s))
      && (Render(t) == Reference(name) ==>
            r.value.Expanded? && r.value.original == s && Some(r.value.value) == RawAnswer(env, name, l))
  {
    hide FindUri, Render, ReplaceAll, Names, Answers, AnswersString, ExpandString, OneRetrieved, Contains, Plain,
         AllPlain, IsFirst, RawAnswer, Inline;
    forall n | n in Names(t) && env.defaultScheme == "" ensures ':' in n {
      assert d.GivenName(env, n);
      ColonNeeded(env, n, Render(d.body(n)));
    }
    var k;
    k, name := TemplateReference(t, env.defaultScheme);
    NamedPiece(t, name);
    FirstAfterLiterals(t, k, name);
    IsThere(t, k, name);
    FirstNameAt(t, k, name);
    assert d.GivenName(env, name);
    var text := Render(d.body(name));
    ReplaceIsInline(t, name, d.body(name));
    RoundOnReference(env, Render(t), name, text, l);
    if Render(t) == Reference(name) { ReplaceItself(Reference(name), text); }
    assert ExpandValue(env, v, l) == ExpandString(env, Render(t), l);
  }

  /** What the inlining of the first name is for a round. */
  lemma NextIsSame(env: Env, d: Definitions, t: seq<Piece>, bound: nat)
    requires d.Given(env) && d.Acyclic() && d.Covers(t, bound) && AllPlain(t) && Names(t) != {}
    ensures Names(t) <= d.known
    ensures AllPlain(Next(d, t)) && d.Covers(Next(d, t), bound) && Deep(d, Next(d, t), bound) == Deep(d, t, bound)
    ensures Inlined(d, t, bound) == [FirstName(t)] + Inlined(d, Next(d, t), bound)
  {
    hide Names, AllPlain, Inline, Deep, Size;
    var name := FirstName(t);
    assert d.GivenName(env, name);
    InlineNames(t, name, d.body(name));
    InlineKeepsMeaning(d, t, name, bound);
  }

  /** All rounds, with what they make of the ledger, whether they suffice or not. */
  lemma {:induction false} NestedRounds(
      env: Env, d: Definitions, v: Value, t: seq<Piece>, bound: nat, rounds: nat, l: Ledger)
    requires d.Given(env) && d.Acyclic() && d.Covers(t, bound) && AllPlain(t) && SameNext(v, Render(t))
    requires StringsWhereAlone(env, d, t, rounds)
    ensures var (r, l') := ExpandRounds(env, v, rounds, l); var names := Inlined(d, t, bound);
      && AllRetrieved(env, l, l', UpTo(names, rounds))
      && r == if |names| < rounds then Finished(Str(Deep(d, t, bound))) else Aborted(TooManyExpansions)
    decreases rounds
  {
    hide ExpandValue, Render, Names, AllPlain, Next, Deep, Size, FirstIsString, AllRetrieved, Inlined, OneRetrieved,
         UpTo, Definitions.Given, Definitions.Acyclic, Definitions.Covers, SameNext, Whole;
    if rounds == 0 {
      NoneRetrieved(env, l);
    } else if Names(t) == {} {
      NothingNested(env, d, v, t, bound, l);
      NoneRetrieved(env, l);
    } else {
      NextIsSame(env, d, t, bound);
      var next, l1 := TextRound(env, d, v, t, l);
      NestedRounds(env, d, next, Next(d, t), bound, rounds - 1, l1);
      OneThenRest(
        env, l, l1, ExpandRounds(env, v, rounds, l).1, FirstName(t), Inlined(d, Next(d, t), bound), rounds);
    }
  }

  lemma TextRound(env: Env, d: Definitions, v: Value, t: seq<Piece>, l: Ledger)
      returns (next: Value, l1: Ledger)
    requires d.Given(env) && Names(t) <= d.known && AllPlain(t) && Names(t) != {} && SameNext(v, Render(t))
    requires Whole(t) ==> FirstIsString(env, d, t)
    ensures ExpandValue(env, v, l) == (Done(next, true), l1) && OneRetrieved(l, l1, Asks(env, FirstName(t)))
    ensures SameNext(next, Render(Next(d, t)))
  {
    hide ExpandValue, Render, Names, AllPlain, Inline, AnswersString, OneRetrieved, RawAnswer;
    var name := NestedRound(env, d, v, t, l);
    next, l1 := ExpandValue(env, v, l).0.value, ExpandValue(env, v, l).1;
  }

  // ---- values that are kept ----

  /** The text of a value that is kept is expanded beside it, and dropped when it becomes a single reference. */
  lemma {:induction false} KeptRounds(
      env: Env, d: Definitions, x: Value, t: seq<Piece>, bound: nat, rounds: nat, l: Ledger)
    requires d.Given(env) && d.Acyclic() && d.Covers(t, bound) && AllPlain(t) && Kept(x, env.defaultScheme)
    ensures ExpandRounds(env, Expanded(x, Render(t)), rounds, l).0 ==
      if !NeverWhole(d, t, rounds) then Finished(x)
      else if |Inlined(d, t, bound)| < rounds then Finished(Expanded(x, Deep(d, t, bound)))
      else Aborted(TooManyExpansions)
    decreases rounds
  {
    hide ExpandValue, Render, Names, AllPlain, Next, Deep, Size, Inlined, Whole, Kept,
         Definitions.Given, Definitions.Acyclic, Definitions.Covers;
    if rounds > 0 {
      var l1 := KeptRound(env, d, x, t, bound, l);
      if Names(t) != {} && !Whole(t) {
        NextIsSame(env, d, t, bound);
        KeptRounds(env, d, x, Next(d, t), bound, rounds - 1, l1);
      }
    }
  }

  lemma KeptRound(env: Env, d: Definitions, x: Value, t: seq<Piece>, bound: nat, l: Ledger) returns (l1: Ledger)
    requires d.Given(env) && d.Acyclic() && d.Covers(t, bound) && AllPlain(t) && Kept(x, env.defaultScheme)
    ensures Names(t) == {} ==> Inlined(d, t, bound) == []
    ensures ExpandValue(env, Expanded(x, Render(t)), l) == (
      if Names(t) == {} then Done(Expanded(x, Deep(d, t, bound)), false)
      else if Whole(t) then Done(x, false)
      else Done(Expanded(x, Render(Next(d, t))), true), l1)
  {
    hide ExpandString, FindUri, Normal, Render, Names, AllPlain, Inline, AnswersString, OneRetrieved, RawAnswer, Deep;
    var s := Render(t);
    NormalIsFixed(env, x, l);
    l1 := ExpandString(env, s, l).1;
    assert ExpandValue(env, Str(s), l) == ExpandString(env, s, l);
    if Names(t) == {} {
      NothingNested(env, d, Str(s), t, bound, l);
    } else {
      var name := NestedRound(env, d, Str(s), t, l);
    }
    assert ExpandValue(env, Expanded(x, s), l) ==
      (WithOriginal(Done(x, false), ExpandString(env, s, l).0), l1);
  }

  /** What the first answer that is kept becomes, however the rounds went before. */
  lemma {:induction false} NestedTypes(
      env: Env, d: Definitions, v: Value, t: seq<Piece>, bound: nat, rounds: nat, l: Ledger)
      returns (x: Value)
    requires d.Given(env) && d.Acyclic() && d.Covers(t, bound) && AllPlain(t) && SameNext(v, Render(t))
    requires StableWhereAlone(env, d, t, rounds) && !StringsWhereAlone(env, d, t, rounds)
    ensures Kept(x, env.defaultScheme)
    ensures ExpandRounds(env, v, rounds, l).0 ==
      if !KeepsText(env, d, t, rounds) then Finished(x)
      else if |Inlined(d, t, bound)| < rounds then Finished(Expanded(x, Deep(d, t, bound)))
      else Aborted(TooManyExpansions)
    decreases rounds
  {
    hide ExpandValue, Render, Names, AllPlain, Next, Deep, Size, FirstIsString, Inlined, OneRetrieved, Kept,
         AnswersKept, Definitions.Given, Definitions.Acyclic, Definitions.Covers, SameNext, Whole;
    NextIsSame(env, d, t, bound);
    if Whole(t) && !FirstIsString(env, d, t) {
      var l1;
      x, l1 := FirstKept(env, d, v, t, l);
      KeptRounds(env, d, x, Next(d, t), bound, rounds - 1, l1);
    } else {
      var next, l1 := TextRound(env, d, v, t, l);
      x := NestedTypes(env, d, next, Next(d, t), bound, rounds - 1, l1);
    }
  }

  lemma FirstKept(env: Env, d: Definitions, v: Value, t: seq<Piece>, l: Ledger)
      returns (x: Value, l1: Ledger)
    requires d.Given(env) && Names(t) <= d.known && AllPlain(t) && SameNext(v, Render(t))
    requires Whole(t) && AnswersKept(env, FirstName(t))
    ensures Kept(x, env.defaultScheme)
    ensures ExpandValue(env, v, l) == (Done(Expanded(x, Render(Next(d, t))), true), l1)
  {
    hide ExpandValue, Render, Names, AllPlain, Inline, AnswersString, Answers, OneRetrieved, RawAnswer, Kept;
    var name := NestedRound(env, d, v, t, l);
    var r := ExpandValue(env, v, l);
    x, l1 := r.0.value.value, r.1;
    assert d.GivenName(env, name);
    AskedFor(env, name, Render(d.body(name)), l);
    assert IsKept(env, env.provider(l.calls, Asks(env, name)));
  }

  lemma NothingNested(env: Env, d: Definitions, v: Value, t: seq<Piece>, bound: nat, l: Ledger)
    requires d.Acyclic() && d.Covers(t, bound) && AllPlain(t) && Names(t) == {} && SameNext(v, Render(t))
    ensures ExpandValue(env, v, l) == (Done(Str(Deep(d, t, bound)), false), l)
    ensures '$' !in Deep(d, t, bound) && Inlined(d, t, bound) == []
  {
    hide ExpandString, Render;
    LiteralsRenderPlain(t, _ => "");
    PlainIsFixed(env, Render(t), l);
    DeepOfLiterals(d, t, bound);
    assert ExpandValue(env, v, l) == (Done(Str(Render(t)), false), l);
  }

  lemma {:induction false} DeepOfLiterals(d: Definitions, t: seq<Piece>, bound: nat)
    requires d.Acyclic() && d.Covers(t, bound) && Names(t) == {}
    ensures Deep(d, t, bound) == Render(t)
    decreases |t|
  {
    if t != [] {
      CoversParts(d, t, bound);
      assert t == [t[0]] + t[1..];
      NamesCons(t[0], t[1..]);
      DeepOfLiterals(d, t[1..], bound);
    }
  }

  lemma {:induction false} DeepIsPlain(env: Env, d: Definitions, t: seq<Piece>, bound: nat)
    requires d.Given(env) && d.Acyclic() && d.Covers(t, bound) && AllPlain(t)
    ensures '$' !in Deep(d, t, bound)
    decreases bound, |t|
  {
    hide Answers;
    if t != [] {
      CoversParts(d, t, bound);
      assert t[0] in t && forall p :: p in t[1..] ==> p in t;
      DeepIsPlain(env, d, t[1..], bound);
      if t[0].Ref? {
        assert d.GivenName(env, t[0].name);
        DeepIsPlain(env, d, d.body(t[0].name), d.rank(t[0].name));
      }
    }
  }

  /**
   Nested expansion is nested substitution. When the answers are templates that lead back to no name
   already on the way, with strings where a reference is all that is left, the result is the meaning
   if fewer than 1000 answers are inlined, and otherwise the error of too many expansions. Providers
   are asked for the inlined names in their order, up to the bound: at least for each name of the
   template, and at most as often as there are references, all levels counted.
   */
  lemma NestedExpansionIsSubstitution(env: Env, d: Definitions, t: seq<Piece>, bound: nat, l: Ledger)
    requires d.Given(env) && d.Acyclic() && d.Covers(t, bound) && AllPlain(t)
    requires StringsWhereAlone(env, d, t, 1000)
    ensures var (r, l') := ExpandRecursively(env, Str(Render(t)), l); var names := Inlined(d, t, bound);
      && AllRetrieved(env, l, l', UpTo(names, 1000))
      && if |names| < 1000 then r.Finished? && Unescape(r.value) == Str(Deep(d, t, bound))
      else r == Aborted(TooManyExpansions)
    ensures |Names(t)| <= |Inlined(d, t, bound)| <= Size(d, t, bound)
  {
    hide ExpandRounds, Render, Deep, Size, Names, StringsWhereAlone, AllRetrieved;
    NamesAreInlined(d, t, bound);
    NestedRounds(env, d, Str(Render(t)), t, bound, MAX_ROUNDS, l);
    DeepIsPlain(env, d, t, bound);
    var m := Deep(d, t, bound);
    PassOver(m, "", "$$", "$");
    assert m + "" == m;
  }

  /** A value that is kept, with the meaning as its text or without a text. */
  ghost predicate IsKeptValue(env: Env, v: Value, meaning: string, withText: bool) {
    if withText then v.Expanded? && Kept(v.value, env.defaultScheme) && v.original == meaning
    else Kept(v, env.defaultScheme)
  }

  /**
   What decides the type: the result is a text iff a reference that is all there is of the text is
   always answered with strings. Otherwise it is the first other value that such a reference is
   answered with, together with the meaning as its text, unless a single reference is ever all there
   is of that text as well: then the text is dropped.
   */
  lemma NestedTextIff(env: Env, d: Definitions, t: seq<Piece>, bound: nat, l: Ledger)
    requires d.Given(env) && d.Acyclic() && d.Covers(t, bound) && AllPlain(t)
    requires StableWhereAlone(env, d, t, 1000)
    ensures var r := ExpandRecursively(env, Str(Render(t)), l).0; var strings := StringsWhereAlone(env, d, t, 1000);
      && (r.Finished? ==> (strings <==> r.value.Str?))
      && (r.Finished? && strings ==> r.value == Str(Deep(d, t, bound)))
      && (r.Finished? && !strings ==> IsKeptValue(env, r.value, Deep(d, t, bound), KeepsText(env, d, t, 1000)))
      && (r.Finished? <==> |Inlined(d, t, bound)| < 1000 || !(strings || KeepsText(env, d, t, 1000)))
      && (!r.Finished? ==> r == Aborted(TooManyExpansions))
  {
    hide ExpandRounds, Render, Deep, Names, StringsWhereAlone, StableWhereAlone, KeepsText, AllRetrieved, Normal;
    if StringsWhereAlone(env, d, t, MAX_ROUNDS) {
      NestedRounds(env, d, Str(Render(t)), t, bound, MAX_ROUNDS, l);
    } else {
      var x := NestedTypes(env, d, Str(Render(t)), t, bound, MAX_ROUNDS, l);
    }
  }

  /** Each of these names is answered with a reference to one of them again. */
  ghost predicate Endless(d: Definitions, names: set<string>) {
    names <= d.known && forall name :: name in names ==> names * Names(d.body(name)) != {}
  }

  lemma StaysEndless(env: Env, d: Definitions, t: seq<Piece>, names: set<string>, name: string)
    requires Endless(d, names) && AllPlain(t) && Names(t) <= d.known && names * Names(t) != {}
    requires name in Names(t) && d.GivenName(env, name)
    ensures var t' := Inline(t, name, d.body(name));
      AllPlain(t') && Names(t') <= d.known && names * Names(t') != {}
  {
    hide Names, Inline, AllPlain, Answers;
    InlineNames(t, name, d.body(name));
    var t' := Inline(t, name, d.body(name));
    var from := if name in names then Names(d.body(name)) else Names(t);
    var q :| q in names * from;
    assert q in names && q in Names(t');
  }

  /**
   With a cycle, a reference that leads into it never resolves, whatever the number of rounds, and
   every round obtains one more resource to close.
   */
  lemma {:induction false} EndlessNeverResolves(
      env: Env, d: Definitions, v: Value, t: seq<Piece>, names: set<string>, rounds: nat, l: Ledger)
    requires d.Given(env) && AllPlain(t) && Names(t) <= d.known && SameNext(v, Render(t))
    requires Endless(d, names) && names * Names(t) != {} && StringsWhereAlone(env, d, t, rounds)
    ensures var (r, l') := ExpandRounds(env, v, rounds, l);
      r == Aborted(TooManyExpansions) && l'.calls == l.calls + rounds && |l'.closers| == |l.closers| + rounds
    decreases rounds
  {
    hide ExpandValue, Render, Names, AllPlain, Inline, Endless, FirstIsString, SameNext;
    if rounds > 0 {
      var next, l1 := TextRound(env, d, v, t, l);
      assert d.GivenName(env, FirstName(t));
      StaysEndless(env, d, t, names, FirstName(t));
      EndlessNeverResolves(env, d, next, Next(d, t), names, rounds - 1, l1);
    }
  }
}
