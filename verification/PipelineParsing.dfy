/**
 Which texts are pipeline identifiers, and which identifier each of them is.
 */
module PipelineParsing {
  import opened Options
  import opened Text
  import opened PipelineId

  /** What is white space at the ends of a text. */
  ghost predicate Blank(c: char) {
    var n := c as int;
    || 9 <= n <= 13 || n in {0x20, 0x85, 0xA0, 0x1680, 0x2028, 0x2029, 0x202F, 0x205F, 0x3000} || 0x2000 <= n <= 0x200A
  }

  /** `t` is `s` without the white space at its ends. */
  ghost predicate Trims(s: string, t: string) {
    exists a, b :: s == a + t + b && AllBlank(a) && AllBlank(b) && Tight(t)
  }

  ghost predicate AllBlank(s: string) { forall c :: c in s ==> Blank(c) }

  ghost predicate Tight(t: string) { t != "" ==> !Blank(t[0]) && !Blank(t[|t| - 1]) }

  lemma BlankIsSpace(c: char)
    ensures Blank(c) <==> IsSpace(c)
  {
  }

  lemma {:induction false} TrimLeftIs(s: string) returns (a: string)
    ensures s == a + TrimLeft(s) && AllBlank(a)
    ensures TrimLeft(s) != "" ==> !Blank(TrimLeft(s)[0])
    decreases |s|
  {
    hide IsSpace;
    a := "";
    if s != "" {
      BlankIsSpace(s[0]);
      if IsSpace(s[0]) {
        var rest := TrimLeftIs(s[1..]);
        a := [s[0]] + rest;
      }
    }
  }

  lemma {:induction false} TrimRightIs(s: string) returns (b: string)
    ensures s == TrimRight(s) + b && AllBlank(b)
    ensures TrimRight(s) != "" ==> !Blank(TrimRight(s)[|TrimRight(s)| - 1])
    decreases |s|
  {
    hide IsSpace;
    b := "";
    if s != "" {
      var n := |s| - 1;
      BlankIsSpace(s[n]);
      if IsSpace(s[n]) {
        var rest := TrimRightIs(s[..n]);
        b := rest + [s[n]];
        assert s == s[..n] + [s[n]];
      }
    }
  }

  lemma TrimSpaceTrims(s: string)
    ensures Trims(s, TrimSpace(s))
  {
    hide TrimLeft, TrimRight, Blank;
    var a := TrimLeftIs(s);
    var left := TrimLeft(s);
    var b := TrimRightIs(left);
    var t := TrimRight(left);
    assert t != "" ==> t[0] == left[0];
    assert s == a + t + b;
  }

  /** There is one way to trim a text. */
  lemma TrimsOneWay(s: string, t: string, t': string)
    requires Trims(s, t) && Trims(s, t')
    ensures t == t'
  {
    hide Blank, AllBlank, Tight;
    var a, b :| s == a + t + b && AllBlank(a) && AllBlank(b) && Tight(t);
    var a', b' :| s == a' + t' + b' && AllBlank(a') && AllBlank(b') && Tight(t');
    SameStart(a, t, b, a', t', b');
    SameStart(a', t', b', a, t, b);
    assert s[|a|..] == t + b && s[|a'|..] == t' + b';
    if t != "" && t' != "" {
      assert |a| == |a'|;
      SameEnd(t, b, t', b');
      SameEnd(t', b', t, b);
      assert (t + b)[..|t|] == t && (t' + b')[..|t'|] == t';
    }
  }

  lemma SameStart(a: string, t: string, b: string, a': string, t': string, b': string)
    requires a + t + b == a' + t' + b' && AllBlank(a) && AllBlank(b) && Tight(t) && AllBlank(a') && AllBlank(b')
    ensures t != "" ==> t' != "" && |a'| <= |a|
  {
    hide Blank;
    var s := a + t + b;
    assert s == a' + t' + b';
    assert forall k :: 0 <= k < |a'| ==> s[k] == a'[k] && s[k] in a';
    assert forall k :: |a'| + |t'| <= k < |s| ==> s[k] == b'[k - |a'| - |t'|] && s[k] in b';
    assert t != "" ==> s[|a|] == t[0];
  }

  lemma SameEnd(t: string, b: string, t': string, b': string)
    requires t + b == t' + b' && Tight(t) && AllBlank(b') && t != ""
    ensures |t| <= |t'|
  {
    hide Blank;
    var s := t' + b';
    assert forall k :: |t'| <= k < |s| ==> s[k] == b'[k - |t'|] && s[k] in b';
    assert (t + b)[|t| - 1] == t[|t| - 1];
  }

  // ---- names ----

  /** The bytes that a character takes up: one, and one more from each of these on. */
  ghost function Bytes(c: char): nat {
    var n := c as int;
    1 + (if n >= 0x80 then 1 else 0) + (if n >= 0x800 then 1 else 0) + (if n >= 0x10000 then 1 else 0)
  }

  ghost function Size(s: string): nat {
    if s == "" then 0 else Size(s[..|s| - 1]) + Bytes(s[|s| - 1])
  }

  /** The characters that no name may hold: separators, control characters, symbols. */
  ghost predicate Forbidden(c: char, other: char -> bool) {
    var n := c as int;
    || n < 0x20 || 0x7F <= n <= 0x9F
    || (Blank(c) && !(9 <= n <= 13) && n != 0x85)
    || c in {'$', '+', '<', '=', '>', '^', '`', '|', '~'}
    || (n > 0x9F && other(c))
  }

  /** A name has between 1 and 1024 bytes and none of these characters. */
  ghost predicate IsName(name: string, other: char -> bool) {
    1 <= Size(name) <= 1024 && forall c :: c in name ==> !Forbidden(c, other)
  }

  lemma {:induction false} SizeConcat(s: string, t: string)
    ensures Size(s + t) == Size(s) + Size(t)
    decreases |t|
  {
    if t == "" {
      assert s + t == s;
    } else {
      assert (s + t)[..|s + t| - 1] == s + t[..|t| - 1];
      SizeConcat(s, t[..|t| - 1]);
    }
  }

  lemma {:induction false} SizeIsLength(s: string)
    ensures Size(s) == Utf8Length(s) && (Size(s) == 0 <==> s == "")
  {
    if s != "" {
      SizeIsLength(s[1..]);
      assert s == [s[0]] + s[1..] && [s[0]][..0] == "";
      SizeConcat([s[0]], s[1..]);
      assert Size([s[0]]) == Bytes(s[0]) + Size("");
    }
  }

  lemma ForbiddenIs(c: char, other: char -> bool)
    ensures Forbidden(c, other) <==> !NameChar(c, other)
  {
  }

  lemma NameIs(name: string, other: char -> bool)
    ensures IsName(name, other) <==> ValidName(name, other)
  {
    hide NameChar, Forbidden;
    SizeIsLength(name);
    forall c ensures Forbidden(c, other) <==> !NameChar(c, other) { ForbiddenIs(c, other); }
  }

  // ---- identifiers ----

  ghost predicate IsSignal(s: string) { s in {"traces", "metrics", "logs", "profiles"} }

  /**
   What a text says: its signal, when it has no slash; otherwise what is before the first slash is
   its signal and what is behind it is its name. White space around both does not matter.
   */
  ghost predicate Says(text: string, id: ID, other: char -> bool) {
    && IsSignal(id.signal)
    && (if '/' in text then
          IsName(id.name, other) && exists l, r :: CutAt(text, l, r) && Trims(l, id.signal) && Trims(r, id.name)
        else id.name == "" && Trims(text, id.signal))
  }

  ghost predicate CutAt(text: string, l: string, r: string) { text == l + "/" + r && '/' !in l }

  /** A text parses iff it says an identifier, and then it parses to that one. */
  lemma ParseIs(text: string, id: ID, other: char -> bool)
    ensures Parse(text, other) == Some(id) <==> Says(text, id, other)
  {
    hide TrimSpace, ValidName, IsName, Trims;
    var cut := Index(text, '/');
    if cut < 0 {
      TrimSpaceTrims(text);
      if Says(text, id, other) { TrimsOneWay(text, id.signal, TrimSpace(text)); }
    } else {
      var l, r := text[..cut], text[cut + 1..];
      assert CutAt(text, l, r);
      TrimSpaceTrims(l);
      TrimSpaceTrims(r);
      NameIs(TrimSpace(r), other);
      forall l', r' | CutAt(text, l', r') ensures l' == l && r' == r { OneCut(text, l, r, l', r'); }
      if Says(text, id, other) {
        TrimsOneWay(l, id.signal, TrimSpace(l));
        TrimsOneWay(r, id.name, TrimSpace(r));
      }
    }
  }

  lemma OneCut(text: string, l: string, r: string, l': string, r': string)
    requires CutAt(text, l, r) && CutAt(text, l', r')
    ensures l == l' && r == r'
  {
    assert text[|l|] == '/' && text[|l'|] == '/';
    assert forall k :: 0 <= k < |l'| ==> text[k] == l'[k] && text[k] in l';
    assert forall k :: 0 <= k < |l| ==> text[k] == l[k] && text[k] in l;
    assert text[..|l|] == l && text[..|l'|] == l' && text[|l| + 1..] == r && text[|l'| + 1..] == r';
  }}
