/** What strtok computes, on plain strings (section 7.21.5.8 of ISO C99). */
module Tokens {

  /** A C string without its terminator; characters are byte values, never 0. */
  type Str = seq<int>

  predicate Clean(s: Str) {
    forall i :: 0 <= i < |s| ==> s[i] != 0
  }

  /** `s` without its leading delimiters. */
  function Skip(s: Str, delim: Str): (r: Str)
    ensures |r| <= |s|
  {
    if s == [] || s[0] !in delim then s else Skip(s[1..], delim)
  }

  /** The length of the longest prefix of `s` without a delimiter. */
  function Span(s: Str, delim: Str): (n: nat)
    ensures n <= |s|
  {
    if s == [] || s[0] in delim then 0 else 1 + Span(s[1..], delim)
  }

  /** The first token and what is left, spelled out: delimiters, then the token, then a delimiter
      or the end. */
  lemma {:induction false} SkipShape(s: Str, delim: Str)
    ensures var r := Skip(s, delim);
            && r == s[|s| - |r|..] && (r != [] ==> r[0] !in delim)
            && forall i :: 0 <= i < |s| - |r| ==> s[i] in delim
  {
    if s != [] && s[0] in delim {
      SkipShape(s[1..], delim);
    }
  }

  lemma {:induction false} SpanShape(s: Str, delim: Str)
    ensures var n := Span(s, delim);
            (n < |s| ==> s[n] in delim) && forall i :: 0 <= i < n ==> s[i] !in delim
  {
    if s != [] && s[0] !in delim {
      SpanShape(s[1..], delim);
    }
  }

  /** One call of strtok scans from `s`: no token, or a token and what it leaves to scan. */
  datatype Scan = NoToken | Token(token: Str, rest: Str)

  function Next(s: Str, delim: Str): (r: Scan)
    ensures r.Token? ==> |r.rest| < |s|
  {
    var t := Skip(s, delim);
    if t == [] then NoToken
    else
      var n := Span(t, delim);
      Token(t[..n], if n == |t| then [] else t[n + 1..])
  }

  /** All the tokens repeated calls return. */
  function AllTokens(s: Str, delim: Str): seq<Str>
    decreases |s|
  {
    match Next(s, delim)
    case NoToken => []
    case Token(t, rest) => [t] + AllTokens(rest, delim)
  }

  // ---------------------------------------------------------------- the reference

  /** The pieces between delimiters, empty ones included. */
  function Split(s: Str, delim: Str): (r: seq<Str>)
    ensures r != []
  {
    if s == [] then [[]]
    else
      var r := Split(s[1..], delim);
      if s[0] in delim then [[]] + r else [[s[0]] + r[0]] + r[1..]
  }

  function NonEmpty(ps: seq<Str>): seq<Str> {
    if ps == [] then [] else (if ps[0] == [] then [] else [ps[0]]) + NonEmpty(ps[1..])
  }

  lemma {:induction false} SplitSpan(s: Str, delim: Str)
    ensures var n := Span(s, delim);
            Split(s, delim) == [s[..n]] + (if n == |s| then [] else Split(s[n + 1..], delim))
  {
    if s != [] && s[0] !in delim {
      var n := Span(s[1..], delim);
      SplitSpan(s[1..], delim);
      assert s[..n + 1] == [s[0]] + s[1..][..n];
      assert n < |s[1..]| ==> s[1..][n + 1..] == s[n + 2..];
    } else if s != [] {
      assert s[..0] == [];
    }
  }

  lemma {:induction false} SplitSkip(s: Str, delim: Str)
    ensures NonEmpty(Split(s, delim)) == NonEmpty(Split(Skip(s, delim), delim))
  {
    if s != [] && s[0] in delim {
      SplitSkip(s[1..], delim);
      assert ([[]] + Split(s[1..], delim))[1..] == Split(s[1..], delim);
    }
  }

  lemma NonEmptyCons(p: Str, ps: seq<Str>)
    ensures NonEmpty([p] + ps) == (if p == [] then [] else [p]) + NonEmpty(ps)
  {
    assert ([p] + ps)[1..] == ps;
  }

  lemma NoSegments(delim: Str)
    ensures NonEmpty(Split([], delim)) == []
  {
    var none: seq<Str> := [[]];
    assert Split([], delim) == none && none[1..] == [];
  }

  /** Repeated strtok returns exactly the maximal delimiter-free segments, in order. */
  lemma {:induction false} TokensAreSegments(s: Str, delim: Str)
    ensures AllTokens(s, delim) == NonEmpty(Split(s, delim))
    decreases |s|
  {
    hide Split, Span, Skip, NonEmpty;
    var t := Skip(s, delim);
    var n := Span(t, delim);
    var rest := if n == |t| then [] else t[n + 1..];
    SplitSkip(s, delim);
    SplitSpan(t, delim);
    NoSegments(delim);
    SkipShape(s, delim);
    SpanShape(t, delim);
    if t != [] {
      TokensAreSegments(rest, delim);
      NonEmptyCons(t[..n], if n == |t| then [] else Split(rest, delim));
      NonEmptyEmpty();
    }
  }

  lemma NonEmptyEmpty()
    ensures NonEmpty([]) == []
  {
  }
}
