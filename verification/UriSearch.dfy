/**
 `findURI`: the search for the first `${...}` of a string that is to be expanded.
 */
module UriSearch {
  import opened Text

  /** How many `$` stand immediately before position `i`. */
  function DollarsBefore(s: string, i: nat): (n: nat)
    requires i <= |s|
    ensures n <= i
  {
    if i > 0 && s[i - 1] == '$' then 1 + DollarsBefore(s, i - 1) else 0
  }

  /** It is the length of the longest run of `$` that ends there. */
  lemma {:induction false} DollarsBeforeIs(s: string, i: nat, n: nat)
    requires n <= i <= |s|
    ensures DollarsBefore(s, i) == n <==>
      (forall k :: i - n <= k < i ==> s[k] == '$') && (n < i ==> s[i - n - 1] != '$')
    decreases i
  {
    if i > 0 && s[i - 1] == '$' && n > 0 { DollarsBeforeIs(s, i - 1, n - 1); }
  }

  predicate OpensAt(s: string, i: nat) {
    i + 1 < |s| && s[i] == '$' && s[i + 1] == '{'
  }

  /** `strings.LastIndex` of `${` in the first `end` characters. */
  function LastOpening(s: string, end: nat): (open: int)
    requires end <= |s|
    ensures -1 <= open
    ensures open >= 0 ==> open + 2 <= end && OpensAt(s, open)
    ensures forall k: nat :: open < k && k + 2 <= end ==> !OpensAt(s, k)
  {
    if end < 2 then -1
    else if OpensAt(s, end - 2) then end - 2
    else LastOpening(s, end - 1)
  }

  /** Where the last `${` before the first closing bracket stands. */
  function OpenIndex(input: string): (open: int)
    ensures -1 <= open < |input|
  {
    LastOpening(input, Index(input, '}') + 1)
  }

  /** The first closing bracket closes nothing that could be expanded. */
  predicate Skipped(input: string, defaultScheme: string) {
    var open := OpenIndex(input);
    open < 0 || (defaultScheme == "" && ':' !in input[open..Index(input, '}') + 1])
  }

  /** The reference between two positions, or nothing when an odd number of `$` escapes it. */
  function UriBetween(s: string, open: nat, close: nat): string
    requires open <= close < |s|
  {
    if DollarsBefore(s, open) % 2 == 1 then "" else s[open..close + 1]
  }

  /** The search as the resolver performs it, one closing bracket after the other. */
  function FindUri(input: string, defaultScheme: string): (uri: string)
    decreases |input|
  {
    var closeIndex := Index(input, '}');
    var openIndex := OpenIndex(input);
    if Skipped(input, defaultScheme) then
      var remaining := input[closeIndex + 1..];
      if '}' !in remaining then "" else FindUri(remaining, defaultScheme)
    else UriBetween(input, openIndex, closeIndex)
  }

  /** The loop that counts the dollar signs in front of a reference. */
  method CountDollars(input: string, openIndex: nat) returns (count: nat)
    requires openIndex < |input|
    ensures count == DollarsBefore(input, openIndex)
  {
    var index := openIndex - 1;
    var currentRune := '$';
    count := 0;
    while index >= 0 && currentRune == '$'
      invariant -1 <= index < openIndex
      invariant DollarsBefore(input, openIndex) ==
        count + if currentRune == '$' then DollarsBefore(input, index + 1) else 0
    {
      currentRune := input[index];
      if currentRune == '$' {
        count := count + 1;
      }
      index := index - 1;
    }
  }

  /** The imperative search. */
  method SearchUri(input: string, defaultScheme: string) returns (uri: string)
    ensures uri == FindUri(input, defaultScheme)
    decreases |input|
  {
    var closeIndex := Index(input, '}');
    if Skipped(input, defaultScheme) {
      var remaining := input[closeIndex + 1..];
      if '}' !in remaining {
        return "";
      }
      uri := SearchUri(remaining, defaultScheme);
    } else {
      var count := CountDollars(input, OpenIndex(input));
      uri := if count % 2 == 1 then "" else input[OpenIndex(input)..closeIndex + 1];
    }
  }

  ghost predicate Free(s: string, c: char, from: nat, to: nat) {
    to <= |s| && forall k :: from <= k < to ==> s[k] != c
  }

  ghost predicate NoOpening(s: string, from: nat, to: nat) {
    forall k: nat :: from <= k < to ==> !OpensAt(s, k)
  }

  /**
   `s[open..close + 1]` is a reference: an opening `${`, no bracket closed and no further
   reference opened inside, then the closing bracket; and a scheme when none is given by default.
   */
  ghost predicate Candidate(s: string, defaultScheme: string, open: nat, close: nat) {
    && open + 1 < close < |s|
    && OpensAt(s, open)
    && s[close] == '}'
    && Free(s, '}', open, close)
    && NoOpening(s, open + 1, close)
    && (defaultScheme == "" ==> !Free(s, ':', open, close))
  }

  /** The candidate that closes first. */
  ghost predicate FirstCandidate(s: string, defaultScheme: string, open: nat, close: nat) {
    && Candidate(s, defaultScheme, open, close)
    && NoCandidateBefore(s, defaultScheme, close)
  }

  ghost predicate NoCandidateBefore(s: string, defaultScheme: string, end: nat) {
    forall open: nat, close: nat :: close < end ==> !Candidate(s, defaultScheme, open, close)
  }

  /**
   The search against its declarative reading: nothing is found without a candidate; with one,
   the candidate that closes first decides, and it is found iff it is not escaped, that is, iff
   an even number of `$` precede it. An escaped first candidate ends the search.
   */
  lemma FindUriIsFirstCandidate(s: string, defaultScheme: string)
    returns (found: bool, open: nat, close: nat)
    ensures !found ==> NoCandidateBefore(s, defaultScheme, |s|) && FindUri(s, defaultScheme) == ""
    ensures found ==> FirstCandidate(s, defaultScheme, open, close)
    ensures found ==> FindUri(s, defaultScheme) == UriBetween(s, open, close)
  {
    assert s[0..] == s;
    found, open, close := SearchFrom(s, defaultScheme, 0);
  }

  /** The search in the text that follows a closing bracket, read on the whole text. */
  lemma {:induction false} SearchFrom(s: string, defaultScheme: string, d: nat)
    returns (found: bool, open: nat, close: nat)
    requires d <= |s| && (d == 0 || s[d - 1] == '}')
    requires NoCandidateBefore(s, defaultScheme, d)
    ensures !found ==> NoCandidateBefore(s, defaultScheme, |s|) && FindUri(s[d..], defaultScheme) == ""
    ensures found ==> FirstCandidate(s, defaultScheme, open, close)
    ensures found ==> FindUri(s[d..], defaultScheme) == UriBetween(s, open, close)
    decreases |s| - d
  {
    hide FindUri, UriBetween, Index, OpenIndex, Skipped;
    var tail := s[d..];
    NextBracket(s, d);
    FindUriStep(s, defaultScheme, d);
    var c := Index(tail, '}');
    if c < 0 {
      return false, 0, 0;
    }
    NextCandidate(s, defaultScheme, d);
    if Skipped(tail, defaultScheme) {
      found, open, close := SearchFrom(s, defaultScheme, d + c + 1);
    } else {
      found, open, close := true, d + OpenIndex(tail), d + c;
    }
  }

  /** One step of the search in a suffix that starts after a closing bracket. */
  lemma FindUriStep(s: string, defaultScheme: string, d: nat)
    requires d <= |s| && (d == 0 || s[d - 1] == '}')
    ensures var tail := s[d..]; var c := Index(tail, '}');
      && (c < 0 ==> FindUri(tail, defaultScheme) == "")
      && (c >= 0 && Skipped(tail, defaultScheme) ==>
            FindUri(tail, defaultScheme) == FindUri(s[d + c + 1..], defaultScheme))
      && (c >= 0 && !Skipped(tail, defaultScheme) ==>
            0 <= OpenIndex(tail) < c && FindUri(tail, defaultScheme) == UriBetween(s, d + OpenIndex(tail), d + c))
  {
    hide FindUri, Index, OpenIndex, Skipped;
    var tail := s[d..];
    var c := Index(tail, '}');
    FindUriUnfolded(tail, defaultScheme);
    if c >= 0 {
      assert tail[c + 1..] == s[d + c + 1..];
      if !Skipped(tail, defaultScheme) {
        DollarsBeforeInTail(s, d, OpenIndex(tail));
        SliceOfTail(s, d, OpenIndex(tail), c + 1);
      }
    }
  }

  lemma FindUriUnfolded(t: string, defaultScheme: string)
    ensures var c := Index(t, '}');
      && (c < 0 ==> FindUri(t, defaultScheme) == "")
      && (c >= 0 && Skipped(t, defaultScheme) ==> FindUri(t, defaultScheme) == FindUri(t[c + 1..], defaultScheme))
      && (c >= 0 && !Skipped(t, defaultScheme) ==>
            0 <= OpenIndex(t) < c && FindUri(t, defaultScheme) == UriBetween(t, OpenIndex(t), c))
  {
    hide Index, OpenIndex, Skipped, UriBetween, FindUri;
    NotSkipped(t, defaultScheme);
    FindUriOnce(t, defaultScheme);
    var c := Index(t, '}');
    if c < 0 {
      NoBracketNothingFound(t, defaultScheme);
    } else if '}' !in t[c + 1..] {
      NoBracketNothingFound(t[c + 1..], defaultScheme);
    }
  }

  lemma FindUriOnce(t: string, defaultScheme: string)
    ensures FindUri(t, defaultScheme) ==
      if Skipped(t, defaultScheme) then
        var remaining := t[Index(t, '}') + 1..];
        if '}' !in remaining then "" else FindUri(remaining, defaultScheme)
      else if OpenIndex(t) <= Index(t, '}') then UriBetween(t, OpenIndex(t), Index(t, '}')) else ""
  {
    NotSkipped(t, defaultScheme);
    hide Index, OpenIndex, UriBetween;
  }

  lemma NotSkipped(t: string, defaultScheme: string)
    ensures !Skipped(t, defaultScheme) ==> 0 <= OpenIndex(t) < Index(t, '}')
  {
  }

  lemma NoBracketNothingFound(t: string, defaultScheme: string)
    requires '}' !in t
    ensures FindUri(t, defaultScheme) == ""
  {
    hide IndexFrom, LastOpening, UriBetween;
    assert Index(t, '}') == -1;
    assert Skipped(t, defaultScheme);
    assert t[0..] == t;
  }

  lemma NextBracket(s: string, d: nat)
    requires d <= |s|
    ensures var c := Index(s[d..], '}');
      if c < 0 then '}' !in s[d..] && Free(s, '}', d, |s|) else s[d + c] == '}' && Free(s, '}', d, d + c)
  {
    var tail := s[d..];
    var c := Index(tail, '}');
    if c < 0 {
      assert forall k :: d <= k < |s| ==> s[k] == tail[k - d];
    } else {
      assert forall k :: d <= k < d + c ==> s[k] == tail[k - d];
    }
  }

  /** At the next closing bracket there is a candidate iff the search does not skip it. */
  lemma NextCandidate(s: string, defaultScheme: string, d: nat)
    requires d <= |s| && (d == 0 || s[d - 1] == '}') && '}' in s[d..]
    requires NoCandidateBefore(s, defaultScheme, d)
    ensures var tail := s[d..]; var c := d + Index(tail, '}');
      && NoCandidateBefore(s, defaultScheme, c)
      && (if Skipped(tail, defaultScheme) then NoCandidateBefore(s, defaultScheme, c + 1)
          else Candidate(s, defaultScheme, d + OpenIndex(tail), c))
  {
    var tail := s[d..];
    var c := d + Index(tail, '}');
    NextBracket(s, d);
    NextOpening(s, d);
    var o := OpenIndex(tail);
    forall open: nat, close: nat | close <= c && Candidate(s, defaultScheme, open, close)
      ensures close == c && open == d + o && !Skipped(tail, defaultScheme)
    {
      assert close == c && open >= d;
      if o >= 0 { ColonInside(s, d, d + o, c); }
    }
    if !Skipped(tail, defaultScheme) {
      ColonInside(s, d, d + o, c);
    }
  }

  /** The opening that the search pairs with the next closing bracket is the last one before it. */
  lemma NextOpening(s: string, d: nat)
    requires d <= |s| && '}' in s[d..]
    ensures var o := OpenIndex(s[d..]); var c := d + Index(s[d..], '}');
      && (o >= 0 ==> d + o + 1 < c && OpensAt(s, d + o))
      && (forall k: nat :: d <= k < c && d + o < k ==> !OpensAt(s, k))
  {
    var tail := s[d..];
    assert forall k: nat :: OpensAt(tail, k) <==> OpensAt(s, d + k);
    forall k: nat | d <= k < d + Index(tail, '}') && d + OpenIndex(tail) < k
      ensures !OpensAt(s, k)
    {
      assert !OpensAt(tail, k - d);
    }
  }

  lemma ColonInside(s: string, d: nat, open: nat, close: nat)
    requires d <= open <= close < |s| && s[close] == '}'
    ensures ':' !in s[d..][open - d..close + 1 - d] <==> Free(s, ':', open, close)
  {
    var part := s[d..][open - d..close + 1 - d];
    assert forall k :: open <= k < close + 1 ==> s[k] == part[k - open];
  }

  /** Searching on in the suffix after a bracket cuts no run of dollar signs in two. */
  lemma {:induction false} DollarsBeforeInTail(s: string, d: nat, i: nat)
    requires (d == 0 || (d <= |s| && s[d - 1] == '}')) && i + d <= |s|
    ensures DollarsBefore(s, i + d) == DollarsBefore(s[d..], i)
    decreases i
  {
    if i > 0 { DollarsBeforeInTail(s, d, i - 1); }
  }

  /** The shape of a reference: `${`, then neither `}` nor `${`, then `}`. */
  ghost predicate UriShape(uri: string, defaultScheme: string) {
    && |uri| >= 3 && OpensAt(uri, 0) && uri[|uri| - 1] == '}'
    && Free(uri, '}', 0, |uri| - 1)
    && NoOpening(uri, 1, |uri|)
    && (defaultScheme == "" ==> ':' in uri)
  }

  /** A found reference occurs in the text and has the shape of one. */
  lemma FoundUri(s: string, defaultScheme: string)
    requires FindUri(s, defaultScheme) != ""
    ensures Contains(s, FindUri(s, defaultScheme)) && UriShape(FindUri(s, defaultScheme), defaultScheme)
  {
    var found, open, close := FindUriIsFirstCandidate(s, defaultScheme);
    assert OccursAt(s, s[open..close + 1], open);
    CandidateShape(s, defaultScheme, open, close);
  }

  lemma CandidateShape(s: string, defaultScheme: string, open: nat, close: nat)
    requires Candidate(s, defaultScheme, open, close)
    ensures UriShape(s[open..close + 1], defaultScheme)
  {
    var uri := s[open..close + 1];
    assert uri[0] == s[open] && uri[1] == s[open + 1];
    forall k: nat | 1 <= k < |uri| ensures !OpensAt(uri, k) {
      if k + 1 < |uri| { assert uri[k] == s[open + k] && uri[k + 1] == s[open + k + 1] && !OpensAt(s, open + k); }
    }
    if defaultScheme == "" {
      var k :| open <= k < close && s[k] == ':';
      assert uri[k - open] == ':';
    }
  }

  /** Text without an opening or without a closing bracket holds no reference. */
  lemma NoBracketNoUri(s: string, defaultScheme: string)
    requires NoOpening(s, 0, |s|) || '}' !in s
    ensures FindUri(s, defaultScheme) == ""
  {
    var found, open, close := FindUriIsFirstCandidate(s, defaultScheme);
  }

  /** A reference in a text opens and closes in it. */
  lemma ReferenceInText(s: string, uri: string)
    requires Contains(s, uri) && |uri| >= 3 && uri[0] == '$' && uri[1] == '{' && uri[|uri| - 1] == '}'
    ensures (exists k: nat :: k < |s| && OpensAt(s, k)) && '}' in s
  {
    var i: nat :| OccursAt(s, uri, i);
    var part := s[i..i + |uri|];
    assert s[i] == part[0] && s[i + 1] == part[1] && s[i + |uri| - 1] == part[|uri| - 1];
    assert OpensAt(s, i);
  }
}
