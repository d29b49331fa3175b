/**
 Character-class helpers over C text: whether a string is drawn entirely from
 (or entirely outside) a set of delimiter characters, the two spans that
 `strspn` and `strcspn` compute, deletion of a character class, and
 concatenation of a list of strings.
 */
module Text {

  /** Every character of `s` is in `d`. */
  predicate AllIn(s: string, d: set<char>) {
    forall i :: 0 <= i < |s| ==> s[i] in d
  }

  /** No character of `s` is in `d`. */
  predicate NoneIn(s: string, d: set<char>) {
    forall i :: 0 <= i < |s| ==> s[i] !in d
  }

  /** Length of the longest prefix of `s` made of characters in `d` (`strspn`). */
  function SpanIn(s: string, d: set<char>): (n: nat)
    ensures n <= |s|
    ensures forall i :: 0 <= i < n ==> s[i] in d
    ensures n < |s| ==> s[n] !in d
  {
    if s == [] || s[0] !in d then 0 else 1 + SpanIn(s[1..], d)
  }

  /** Length of the longest prefix of `s` made of characters outside `d` (`strcspn`). */
  function SpanOut(s: string, d: set<char>): (n: nat)
    ensures n <= |s|
    ensures forall i :: 0 <= i < n ==> s[i] !in d
    ensures n < |s| ==> s[n] in d
  {
    if s == [] || s[0] in d then 0 else 1 + SpanOut(s[1..], d)
  }

  /** A delimiter run followed by something that does not start with a delimiter spans exactly the run. */
  lemma {:induction false} SpanInOf(g: string, x: string, d: set<char>)
    requires AllIn(g, d)
    requires x == [] || x[0] !in d
    ensures SpanIn(g + x, d) == |g|
  {
    if g == [] {
      assert g + x == x;
    } else {
      assert (g + x)[0] == g[0];
      assert (g + x)[1..] == g[1..] + x;
      SpanInOf(g[1..], x, d);
    }
  }

  /** A delimiter-free run followed by nothing or by a delimiter spans exactly the run. */
  lemma {:induction false} SpanOutOf(t: string, x: string, d: set<char>)
    requires NoneIn(t, d)
    requires x == [] || x[0] in d
    ensures SpanOut(t + x, d) == |t|
  {
    if t == [] {
      assert t + x == x;
    } else {
      assert (t + x)[0] == t[0];
      assert (t + x)[1..] == t[1..] + x;
      SpanOutOf(t[1..], x, d);
    }
  }

  /** Cutting `s` after `m` characters and its remainder after `n` more gives three pieces that rejoin to `s`. */
  lemma Slices(s: string, m: nat, n: nat)
    requires m + n <= |s|
    ensures s == s[..m] + s[m..][..n] + s[m..][n..]
  {
    assert s[m..] == s[m..][..n] + s[m..][n..];
    assert s == s[..m] + s[m..];
  }

  /** Both halves of a string avoid what the whole avoids. */
  lemma NoneInParts(a: string, b: string, d: set<char>)
    requires NoneIn(a + b, d)
    ensures NoneIn(a, d) && NoneIn(b, d)
  {
    assert forall i :: 0 <= i < |a| ==> a[i] == (a + b)[i];
    assert forall i :: 0 <= i < |b| ==> b[i] == (a + b)[|a| + i];
  }

  /** Concatenation is associative. */
  lemma AppendAssoc<T>(a: seq<T>, b: seq<T>, c: seq<T>)
    ensures a + (b + c) == (a + b) + c
  {
  }

  /** `s` with every character of `d` deleted. */
  function Remove(s: string, d: set<char>): (r: string)
    ensures NoneIn(r, d)
  {
    if s == [] then []
    else (if s[0] in d then [] else [s[0]]) + Remove(s[1..], d)
  }

  lemma {:induction false} RemoveAppend(a: string, b: string, d: set<char>)
    ensures Remove(a + b, d) == Remove(a, d) + Remove(b, d)
  {
    if a == [] {
      assert a + b == b;
    } else {
      assert (a + b)[0] == a[0];
      assert (a + b)[1..] == a[1..] + b;
      RemoveAppend(a[1..], b, d);
    }
  }

  lemma {:induction false} RemoveAllIn(s: string, d: set<char>)
    requires AllIn(s, d)
    ensures Remove(s, d) == []
  {
    if s != [] {
      RemoveAllIn(s[1..], d);
    }
  }

  lemma {:induction false} RemoveNoneIn(s: string, d: set<char>)
    requires NoneIn(s, d)
    ensures Remove(s, d) == s
  {
    if s != [] {
      RemoveNoneIn(s[1..], d);
    }
  }

  /** The strings of `ss` joined end to end. */
  function Concat(ss: seq<string>): string {
    if ss == [] then [] else ss[0] + Concat(ss[1..])
  }
}
