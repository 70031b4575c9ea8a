/** strtok of lib/string.c, with its static cursor, on string buffers it cuts up in place. */
module Strtok {
  import opened Tokens

  /** The C string that starts at index `i` of a buffer. */
  function StrAt(b: seq<int>, i: nat): (s: Str)
    requires i <= |b|
    ensures i + |s| <= |b|
    decreases |b| - i
  {
    if i == |b| || b[i] == 0 then [] else [b[i]] + StrAt(b, i + 1)
  }

  /** The string at `i` ends inside the buffer. */
  predicate Terminated(b: seq<int>, i: nat) {
    i <= |b| && i + |StrAt(b, i)| < |b|
  }

  lemma {:induction false} StrChar(b: seq<int>, i: nat, n: nat)
    requires Terminated(b, i) && n <= |StrAt(b, i)|
    ensures var s := StrAt(b, i);
            b[i + n] == (if n < |s| then s[n] else 0) && (n < |s| ==> s[n] != 0)
    decreases n
  {
    if n > 0 {
      StrChar(b, i + 1, n - 1);
    }
  }

  lemma StrStep(b: seq<int>, i: nat)
    requires Terminated(b, i)
    ensures i < |b| && (StrAt(b, i) == [] <==> b[i] == 0)
    ensures b[i] != 0 ==> Terminated(b, i + 1) && StrAt(b, i) == [b[i]] + StrAt(b, i + 1) && StrAt(b, i)[1..] == StrAt(b, i + 1)
  {
  }

  lemma {:induction false} StrIs(b: seq<int>, i: nat, s: Str)
    requires i + |s| < |b| && b[i + |s|] == 0 && Clean(s) && forall k :: 0 <= k < |s| ==> s[k] == b[i + k]
    ensures StrAt(b, i) == s && Terminated(b, i)
    decreases |s|
  {
    if s != [] {
      StrIs(b, i + 1, s[1..]);
      assert b[i] == s[0];
    }
  }

  lemma SkipStep(s: Str, delim: Str)
    requires s != []
    ensures s[0] in delim ==> Skip(s, delim) == Skip(s[1..], delim)
    ensures s[0] !in delim ==> Skip(s, delim) == s
  {
  }

  /** `for (i = 0; i < len; i++) if (c == delim[i]) break;` */
  method FindDelimiter(c: int, delim: Str) returns (i: nat)
    ensures i <= |delim| && (i < |delim| <==> c in delim)
  {
    i := 0;
    while i < |delim|
      invariant i <= |delim| && c !in delim[..i]
    {
      if c == delim[i] {
        return;
      }
      i := i + 1;
    }
  }

  class Tokenizer {
    var sp: array?<int>   // the buffer the static cursor points into, or null
    var at: nat           // and where

    ghost predicate Valid()
      reads this, sp
    {
      sp != null ==> Terminated(sp[..], at)
    }

    /** What the cursor has left to scan, if a scan is pending. */
    ghost function Rest(): Str
      requires Valid() && sp != null
      reads this, sp
    {
      StrAt(sp[..], at)
    }

    constructor ()
      ensures sp == null
    {
      sp, at := null, 0;
    }

    /** The first loop: from `at` past leading delimiters. */
    method SkipDelimiters(delim: Str)
      requires Valid() && sp != null && Clean(delim)
      modifies this`at
      ensures Valid() && Rest() == Skip(old(Rest()), delim) && at >= old(at)
    {
      hide StrAt, Skip;
      ghost var b := sp[..];
      var p := at;
      while true
        invariant sp[..] == b && Terminated(b, p) && at == old(at) <= p
        invariant Skip(StrAt(b, p), delim) == Skip(StrAt(b, at), delim)
        decreases |b| - p
      {
        StrStep(b, p);
        var i := FindDelimiter(sp[p], delim);
        if i == |delim| {
          if sp[p] != 0 {
            SkipStep(StrAt(b, p), delim);
          } else {
            SkipNone(delim);
          }
          at := p;
          assert sp[..] == b;
          break;
        }
        SkipStep(StrAt(b, p), delim);
        p := p + 1;
      }
    }

    lemma SkipNone(delim: Str)
      ensures Skip([], delim) == []
    {
    }

    /** The second loop: to the end of the token, cutting it off there. */
    method CutToken(delim: Str)
      requires Valid() && sp != null && Clean(delim) && Rest() != []
      modifies this`at, sp
      ensures Valid() && sp == old(sp) && sp != null
      ensures var s := old(Rest()); var n := Span(s, delim);
              && old(at) <= sp.Length && Terminated(sp[..], old(at)) && StrAt(sp[..], old(at)) == s[..n]
              && Rest() == if n == |s| then [] else s[n + 1..]
      ensures forall k :: 0 <= k < old(at) ==> sp[k] == old(sp[k])
    {
      hide StrAt, Span;
      ghost var b, start, s := sp[..], at, Rest();
      StrChar(b, start, 0);
      while sp[at] != 0
        invariant start <= at <= start + |s| && sp[..] == b
        invariant forall k :: 0 <= k < at - start ==> s[k] !in delim
        decreases start + |s| - at
      {
        StrChar(b, start, at - start);
        var i := FindDelimiter(sp[at], delim);
        if i < |delim| {
          sp[at] := 0;
          CutFacts(b, start, at - start);
          SpanIs(s, delim, at - start);
          assert sp[..] == b[at := 0];
        }
        at := at + 1;
        if i < |delim| {
          return;
        }
      }
      StrChar(b, start, at - start);
      EndFacts(b, start);
      SpanIs(s, delim, |s|);
      assert s[..|s|] == s;
    }

    /** strtok(str, delim): the buffer and index of the token, or null. A pending scan goes on and
        `str` is ignored. */
    method Strtok(str: array?<int>, delim: Str) returns (tok: array?<int>, p: nat)
      requires Valid() && Clean(delim) && (str != null ==> Terminated(str[..], 0))
      modifies this, if sp != null then {sp} else {}, if str != null then {str} else {}
      ensures Valid()
      ensures old(sp) != null && str != null && str != old(sp) ==> str[..] == old(str[..])
      ensures delim == [] || (str == null && old(sp) == null) ==>
                tok == null && sp == old(sp) && at == old(at)
                && (sp != null ==> sp[..] == old(sp[..])) && (str != null ==> str[..] == old(str[..]))
      ensures delim != [] && (str != null || old(sp) != null) ==>
                var s := if old(sp) != null then old(Rest()) else old(StrAt(str[..], 0));
                match Next(s, delim)
                case NoToken => tok == null && sp == null
                case Token(t, rest) =>
                  && tok != null && tok == (if old(sp) != null then old(sp) else str) && tok == sp && p <= tok.Length
                  && Terminated(tok[..], p) && StrAt(tok[..], p) == t && Rest() == rest
    {
      hide StrAt, Skip, Span;
      p := 0;
      if |delim| == 0 {
        return null, 0;
      }
      if str == null && sp == null {
        return null, 0;
      }
      if str != null && sp == null {
        sp := str;
        at := 0;
      }
      SkipDelimiters(delim);
      ghost var t := Rest();
      StrChar(sp[..], at, 0);
      if sp[at] == 0 {
        sp := null;
        return null, 0;
      }
      p := at;
      CutToken(delim);
      tok := sp;
    }
  }

  lemma {:induction false} SpanIs(s: Str, delim: Str, n: nat)
    requires n <= |s| && (n < |s| ==> s[n] in delim) && forall k :: 0 <= k < n ==> s[k] !in delim
    ensures Span(s, delim) == n
  {
    if n > 0 {
      SpanIs(s[1..], delim, n - 1);
    }
  }

  /** Cutting a string at its `n`th character leaves the two halves. */
  lemma CutFacts(b: seq<int>, start: nat, n: nat)
    requires Terminated(b, start) && n < |StrAt(b, start)|
    ensures var s, b' := StrAt(b, start), b[start + n := 0];
            && Terminated(b', start) && StrAt(b', start) == s[..n]
            && Terminated(b', start + n + 1) && StrAt(b', start + n + 1) == s[n + 1..]
  {
    var s, b' := StrAt(b, start), b[start + n := 0];
    forall k: nat | k <= |s| ensures b[start + k] == (if k < |s| then s[k] else 0) && (k < |s| ==> s[k] != 0) {
      StrChar(b, start, k);
    }
    forall k: nat | k < n ensures s[..n][k] == b'[start + k] && s[k] != 0 {
      assert b[start + k] == s[k];
    }
    StrIs(b', start, s[..n]);
    var t := s[n + 1..];
    forall k | 0 <= k < |t| ensures t[k] == b'[start + n + 1 + k] && t[k] != 0 {
      assert b[start + (n + 1 + k)] == s[n + 1 + k];
    }
    StrChar(b, start, |s|);
    StrIs(b', start + n + 1, t);
  }

  lemma EndFacts(b: seq<int>, start: nat)
    requires Terminated(b, start)
    ensures var e := start + |StrAt(b, start)|; Terminated(b, e) && StrAt(b, e) == []
  {
    StrChar(b, start, |StrAt(b, start)|);
    StrIs(b, start + |StrAt(b, start)|, []);
  }
}
