/**
 The C library's `strtok` over a mutable character buffer, as the shell
 uses it: each call skips the delimiters at the saved position, returns the
 run of non-delimiters found there (or NULL), overwrites the delimiter just
 after that run with NUL, and saves the position after it. A buffer is a
 `seq<char>`; the C string it holds is everything before its first NUL.
 */
module Strtok {
  import opened Nullable
  import opened Text
  import opened Split

  const NUL: char := '\0'

  /** MAX_ARGS: the number of slots in every token array the shell fills, NULL terminator included. */
  const MaxArgs: nat := 100

  /** The C string a buffer holds: its characters before the first NUL. */
  function View(buf: seq<char>): (v: string)
    ensures |v| <= |buf| && v == buf[..|v|]
    ensures NUL !in v
    ensures |v| < |buf| ==> buf[|v|] == NUL
  {
    var n := SpanOut(buf, {NUL});
    assert forall i :: 0 <= i < n ==> buf[..n][i] != NUL;
    buf[..n]
  }

  /** A C string is determined by the three facts `View` promises. */
  lemma ViewUnique(buf: seq<char>, v: string)
    requires |v| <= |buf| && v == buf[..|v|] && NUL !in v
    requires |v| < |buf| ==> buf[|v|] == NUL
    ensures View(buf) == v
  {
  }

  /** A buffer holding a C string (no NUL inside) reads back as that string. */
  lemma ViewOfString(s: string)
    requires NUL !in s
    ensures View(s) == s
  {
    ViewUnique(s, s);
  }

  /** Reading from position `k` of a buffer, inside its string, gives the rest of that string. */
  lemma ViewFrom(buf: seq<char>, k: nat)
    requires k <= |View(buf)|
    ensures View(buf[k..]) == View(buf)[k..]
  {
    var v := View(buf);
    ViewUnique(buf[k..], v[k..]);
  }

  /** Writing NUL at position `k` inside the string cuts the string at `k`. */
  lemma ViewCut(buf: seq<char>, k: nat)
    requires k < |View(buf)|
    ensures View(buf[k := NUL]) == View(buf)[..k]
  {
    var v := View(buf);
    ViewUnique(buf[k := NUL], v[..k]);
  }

  /** Writing beyond the terminating NUL leaves the string unchanged. */
  lemma ViewBeyond(buf: seq<char>, k: nat, c: char)
    requires |View(buf)| < k < |buf|
    ensures View(buf[k := c]) == View(buf)
  {
    var v := View(buf);
    ViewUnique(buf[k := c], v);
  }

  /** The result of one `strtok` call: the token (None for NULL), the buffer afterwards, and the saved position. */
  datatype Step = Step(token: Option<string>, buf: seq<char>, save: nat)

  /**
   One call `strtok(p, d)` with `p` the buffer position `save` (the first
   call of a pass has save = 0, later ones continue at the saved position).
   */
  function Call(buf: seq<char>, save: nat, d: set<char>): (r: Step)
    requires save <= |buf|
    ensures |r.buf| == |buf| && save <= r.save <= |buf|
    ensures r.token.Some? ==> save < r.save && r.token.value != [] && NoneIn(r.token.value, d)
    ensures r.token.None? ==> r.buf == buf
  {
    var rest := View(buf[save..]);
    var p := SpanIn(rest, d);
    if p == |rest| then Step(None, buf, save + p)
    else
      var n := SpanOut(rest[p..], d);
      if p + n == |rest| then Step(Some(rest[p..]), buf, save + p + n)
      else Step(Some(rest[p..p + n]), buf[save + p + n := NUL], save + p + n + 1)
  }

  /** The call at `save` finds nothing when only delimiters are left. */
  lemma CallNone(buf: seq<char>, save: nat, d: set<char>, v: string)
    requires save <= |v| && save <= |buf| && View(buf[save..]) == v[save..]
    requires var x := v[save..]; SpanIn(x, d) == |x|
    ensures Segments(v[save..], d) == []
    ensures Call(buf, save, d) == Step(None, buf, |v|)
  {
    var x := v[save..];
    assert x[SpanIn(x, d)..] == [];
  }

  /** The call at `save` returns the last segment, which runs to the end of the string. */
  lemma CallLast(buf: seq<char>, save: nat, d: set<char>, v: string)
    requires save <= |v| && save <= |buf| && View(buf[save..]) == v[save..]
    requires var x := v[save..]; var p := SpanIn(x, d); p < |x| && p + SpanOut(x[p..], d) == |x|
    ensures var x := v[save..]; var segs := Segments(x, d);
      && |segs| == 1 && |Truncate(x, d)| == |x|
      && Call(buf, save, d) == Step(Some(segs[0]), buf, |v|)
  {
    var x := v[save..];
    var p := SpanIn(x, d);
    var n := SpanOut(x[p..], d);
    SegmentsAt(x, d, p, n);
    assert x[p + n..] == [];
    assert x[p..p + n] == x[p..];
  }

  /** A segment that ends inside the string: the pass cuts the buffer right after it. */
  lemma TruncateAtRun(x: string, d: set<char>, p: nat, n: nat)
    requires p == SpanIn(x, d) && p < |x| && n == SpanOut(x[p..], d)
    ensures |Truncate(x, d)| == p + n
  {
  }

  /** A segment followed by a delimiter: the segments after it start behind that delimiter. */
  lemma SegmentThenDelimiter(x: string, d: set<char>, p: nat, n: nat)
    requires p == SpanIn(x, d) && p < |x| && n == SpanOut(x[p..], d) && p + n < |x|
    ensures Segments(x, d) == [x[p..p + n]] + Segments(x[p + n + 1..], d)
  {
    SegmentsAt(x, d, p, n);
    DelimiterAfterRun(x, d, p, n);
    SkipDelimiterAt(x, d, p, n);
  }

  /** The run of non-delimiters from `p` ends on a delimiter when it ends inside `x`. */
  lemma DelimiterAfterRun(x: string, d: set<char>, p: nat, n: nat)
    requires p <= |x| && n == SpanOut(x[p..], d) && p + n < |x|
    ensures x[p + n] in d
  {
    assert x[p..][n] == x[p + n];
  }

  /** The call at `save` in the position terms of its string `x`, when a delimiter follows the segment. */
  lemma CallAt(buf: seq<char>, save: nat, d: set<char>, x: string, p: nat, n: nat, e: nat)
    requires save <= |buf| && x == View(buf[save..])
    requires p == SpanIn(x, d) && p < |x| && n == SpanOut(x[p..], d) && p + n < |x| && e == save + p + n
    ensures Call(buf, save, d) == Step(Some(x[p..p + n]), buf[e := NUL], e + 1)
  {
  }

  /** The segments of the rest `x` of `v` from `save`, when the first of them is followed by a delimiter at `e`. */
  lemma SegmentsAfterCut(v: string, save: nat, d: set<char>, x: string, p: nat, n: nat, e: nat)
    requires save <= |v| && x == v[save..]
    requires p == SpanIn(x, d) && p < |x| && n == SpanOut(x[p..], d) && p + n < |x| && e == save + p + n
    ensures save < e < |v|
    ensures Segments(x, d) == [x[p..p + n]] + Segments(v[e + 1..], d)
  {
    calc {
      Segments(x, d);
    == { SegmentThenDelimiter(x, d, p, n); }
      [x[p..p + n]] + Segments(x[p + n + 1..], d);
    == { assert x[p + n + 1..] == v[e + 1..]; }
      [x[p..p + n]] + Segments(v[e + 1..], d);
    }
  }

  /** The call at `save` returns a segment followed by a delimiter, which it overwrites with NUL. */
  lemma CallCut(buf: seq<char>, save: nat, d: set<char>, v: string, e: nat)
    requires save <= |v| && save <= |buf| && View(buf[save..]) == v[save..]
    requires var x := v[save..]; var p := SpanIn(x, d); p < |x| && p + SpanOut(x[p..], d) < |x|
    requires e == save + |Truncate(v[save..], d)|
    ensures var segs := Segments(v[save..], d);
      && segs != [] && save < e < |v|
      && segs == [segs[0]] + Segments(v[e + 1..], d)
      && Call(buf, save, d) == Step(Some(segs[0]), buf[e := NUL], e + 1)
  {
    var x := v[save..];
    var p := SpanIn(x, d);
    var n := SpanOut(x[p..], d);
    TruncateAtRun(x, d, p, n);
    SegmentsAfterCut(v, save, d, x, p, n, e);
    CallAt(buf, save, d, x, p, n, e);
  }

  /**
   One call, described by the string `v` the pass started on: when the buffer
   from `save` on holds the rest of `v`, the call returns NULL exactly when
   no segment is left (and the pass is at the end of `v`); otherwise it
   returns the next segment, which ends at `e`. If that is the end of `v`
   it was the last segment and the buffer is untouched; if not, the
   delimiter at `e` is overwritten with NUL, the pass resumes after it, and
   the segments from there are the remaining ones.
   */
  lemma CallStep(buf: seq<char>, save: nat, d: set<char>, v: string, e: nat)
    requires save <= |v| && save <= |buf| && View(buf[save..]) == v[save..]
    requires e == save + |Truncate(v[save..], d)|
    ensures var segs := Segments(v[save..], d);
      && (segs == [] ==> Call(buf, save, d) == Step(None, buf, |v|))
      && (segs != [] ==> save < e <= |v|)
      && (segs != [] && e == |v| ==> |segs| == 1 && Call(buf, save, d) == Step(Some(segs[0]), buf, |v|))
      && (segs != [] && e < |v| ==>
            && segs == [segs[0]] + Segments(v[e + 1..], d)
            && Call(buf, save, d) == Step(Some(segs[0]), buf[e := NUL], e + 1))
  {
    var x := v[save..];
    var p := SpanIn(x, d);
    if p == |x| {
      CallNone(buf, save, d, v);
    } else if p + SpanOut(x[p..], d) == |x| {
      CallLast(buf, save, d, v);
    } else {
      CallCut(buf, save, d, v, e);
    }
  }

  /** The tokens a pass has returned: the ones stored so far, then the one just returned, if any. */
  function Found(segs: seq<string>, token: Option<string>): seq<string> {
    if token.Some? then segs + [token.value] else segs
  }

  /**
   What holds between two calls of a pass over `input`: the tokens found so
   far followed by the segments of the rest of the string are all the
   segments; the buffer from `save` on is still the input; and once a token
   has been returned the buffer holds the truncated string.
   */
  predicate PassState(input: seq<char>, d: set<char>, buf: seq<char>, save: nat, token: Option<string>, segs: seq<string>) {
    && |buf| == |input| && save <= |View(input)|
    && buf[save..] == input[save..]
    && (token.None? ==> save == |View(input)|)
    && Segments(View(input), d) == Found(segs, token) + Segments(View(input)[save..], d)
    && View(buf) == (if Found(segs, token) == [] then View(input) else Truncate(View(input), d))
    && (Found(segs, token) != [] ==> |Truncate(View(input), d)| < save || save == |View(input)|)
  }

  /** Nothing is left at the end of the string. */
  lemma NothingAtEnd(v: string, d: set<char>)
    ensures Segments(v[|v|..], d) == []
  {
    assert v[|v|..] == [];
    assert v[|v|..][SpanIn(v[|v|..], d)..] == [];
  }

  /** The truncated string is the prefix of its own length. */
  lemma TruncateIsPrefix(v: string, d: set<char>, e: nat)
    requires e == |Truncate(v, d)|
    ensures e <= |v| && Truncate(v, d) == v[..e]
  {
    TruncatePrefix(v, d);
  }

  /** Two buffers that agree from `i` on agree from any later `j` on. */
  lemma DropSame(a: seq<char>, b: seq<char>, i: nat, j: nat)
    requires i <= j <= |a| && |a| == |b| && a[i..] == b[i..]
    ensures a[j..] == b[j..]
  {
    assert a[j..] == a[i..][j - i..];
    assert b[j..] == b[i..][j - i..];
  }

  /** Writing at `k` leaves the buffer from any later `j` on unchanged. */
  lemma DropUpdate(a: seq<char>, k: nat, c: char, j: nat)
    requires k < j <= |a|
    ensures a[k := c][j..] == a[j..]
  {
  }

  /** The call facts a pass needs at its start. */
  lemma FirstCall(input: seq<char>, d: set<char>, e: nat)
    requires e == |Truncate(View(input), d)|
    ensures var v := View(input); var segs := Segments(v, d); var r := Call(input, 0, d);
      && (segs == [] ==> r == Step(None, input, |v|))
      && (segs != [] ==> 0 < e <= |v|)
      && (segs != [] && e == |v| ==> |segs| == 1 && r == Step(Some(segs[0]), input, |v|))
      && (segs != [] && e < |v| ==>
            && segs == [segs[0]] + Segments(v[e + 1..], d)
            && r == Step(Some(segs[0]), input[e := NUL], e + 1))
  {
    var v := View(input);
    assert v[0..] == v && input[0..] == input;
    CallStep(input, 0, d, v, e);
  }

  /** The first call finds nothing. */
  lemma FirstNone(input: seq<char>, d: set<char>)
    requires Segments(View(input), d) == []
    ensures var c := Call(input, 0, d); PassState(input, d, c.buf, c.save, c.token, [])
  {
    var v := View(input);
    FirstCall(input, d, |Truncate(v, d)|);
    NothingAtEnd(v, d);
  }

  /** The first call returns the only segment, which runs to the end. */
  lemma FirstLast(input: seq<char>, d: set<char>)
    requires var v := View(input); Segments(v, d) != [] && |Truncate(v, d)| == |v|
    ensures var c := Call(input, 0, d); PassState(input, d, c.buf, c.save, c.token, [])
  {
    var v := View(input);
    var segs := Segments(v, d);
    FirstCall(input, d, |v|);
    NothingAtEnd(v, d);
    TruncateIsPrefix(v, d, |v|);
    assert v[..|v|] == v;
    assert segs == [segs[0]];
    assert Found([], Some(segs[0])) == [segs[0]];
  }

  /** The first call returns a segment and writes NUL over the delimiter at `e`. */
  lemma FirstCut(input: seq<char>, d: set<char>, e: nat)
    requires var v := View(input); Segments(v, d) != [] && e == |Truncate(v, d)| < |v|
    ensures var c := Call(input, 0, d); PassState(input, d, c.buf, c.save, c.token, [])
  {
    var v := View(input);
    var segs := Segments(v, d);
    FirstCall(input, d, e);
    ViewCut(input, e);
    TruncateIsPrefix(v, d, e);
    assert input[e := NUL][e + 1..] == input[e + 1..];
    assert Found([], Some(segs[0])) == [segs[0]];
  }

  /** The first call of a pass, `strtok(buf, d)`, starts the pass in a `PassState`. */
  lemma PassFirst(input: seq<char>, d: set<char>)
    ensures var c := Call(input, 0, d); PassState(input, d, c.buf, c.save, c.token, [])
  {
    var v := View(input);
    var e := |Truncate(v, d)|;
    if Segments(v, d) == [] {
      FirstNone(input, d);
    } else if e == |v| {
      FirstLast(input, d);
    } else {
      FirstCut(input, d, e);
    }
  }

  /** The call facts a pass needs at its saved position. */
  lemma NextCall(input: seq<char>, d: set<char>, buf: seq<char>, save: nat, token: Option<string>, segs: seq<string>, e: nat)
    requires PassState(input, d, buf, save, token, segs)
    requires e == save + |Truncate(View(input)[save..], d)|
    ensures var v := View(input); var rest := Segments(v[save..], d); var r := Call(buf, save, d);
      && save <= |buf|
      && (rest == [] ==> r == Step(None, buf, |v|))
      && (rest != [] ==> save < e <= |v|)
      && (rest != [] && e == |v| ==> |rest| == 1 && r == Step(Some(rest[0]), buf, |v|))
      && (rest != [] && e < |v| ==>
            && rest == [rest[0]] + Segments(v[e + 1..], d)
            && r == Step(Some(rest[0]), buf[e := NUL], e + 1))
  {
    var v := View(input);
    ViewFrom(input, save);
    CallStep(buf, save, d, v, e);
  }

  /** A further call finds nothing: the pass ends. */
  lemma NextNone(input: seq<char>, d: set<char>, buf: seq<char>, save: nat, token: Option<string>, segs: seq<string>, r: Step)
    requires PassState(input, d, buf, save, token, segs) && token.Some?
    requires Segments(View(input)[save..], d) == []
    requires r == Step(None, buf, |View(input)|)
    ensures PassState(input, d, r.buf, r.save, r.token, segs + [token.value])
  {
    var v := View(input);
    NothingAtEnd(v, d);
    assert buf[|v|..] == buf[save..][|v| - save..];
    assert input[|v|..] == input[save..][|v| - save..];
  }

  /** A further call returns the last segment, which runs to the end. */
  lemma NextLast(input: seq<char>, d: set<char>, buf: seq<char>, save: nat, token: Option<string>, segs: seq<string>, last: string, r: Step)
    requires PassState(input, d, buf, save, token, segs) && token.Some?
    requires Segments(View(input)[save..], d) == [last]
    requires r == Step(Some(last), buf, |View(input)|)
    ensures PassState(input, d, r.buf, r.save, r.token, segs + [token.value])
  {
    var v := View(input);
    NothingAtEnd(v, d);
    assert buf[|v|..] == buf[save..][|v| - save..];
    assert input[|v|..] == input[save..][|v| - save..];
    assert segs + [token.value] + [last] + [] == segs + [token.value] + [last];
  }

  /** A further call returns a segment and writes NUL over the delimiter at `e`, beyond the string's end. */
  lemma NextCut(input: seq<char>, d: set<char>, buf: seq<char>, save: nat, token: Option<string>, segs: seq<string>, e: nat, next: string, r: Step)
    requires PassState(input, d, buf, save, token, segs) && token.Some?
    requires save < e < |View(input)|
    requires Segments(View(input)[save..], d) == [next] + Segments(View(input)[e + 1..], d)
    requires r == Step(Some(next), buf[e := NUL], e + 1)
    ensures PassState(input, d, r.buf, r.save, r.token, segs + [token.value])
  {
    var v := View(input);
    var F := segs + [token.value];
    assert Found(segs, token) == F;
    CutBuffer(input, d, buf, save, e, r);
    CutSegments(v, d, save, e, F, next, r);
  }

  /** The buffer half of `NextCut`: the new NUL lies beyond the string the buffer holds. */
  lemma CutBuffer(input: seq<char>, d: set<char>, buf: seq<char>, save: nat, e: nat, r: Step)
    requires |buf| == |input| && |Truncate(View(input), d)| < save < e < |View(input)|
    requires buf[save..] == input[save..] && View(buf) == Truncate(View(input), d)
    requires r.buf == buf[e := NUL] && r.save == e + 1
    ensures |r.buf| == |input| && r.buf[r.save..] == input[r.save..] && View(r.buf) == Truncate(View(input), d)
  {
    ViewBeyond(buf, e, NUL);
    DropUpdate(buf, e, NUL, e + 1);
    DropSame(buf, input, save, e + 1);
  }

  /** The segment half of `NextCut`: the segment found moves from the rest to the tokens. */
  lemma CutSegments(v: string, d: set<char>, save: nat, e: nat, F: seq<string>, next: string, r: Step)
    requires save <= e < |v|
    requires Segments(v, d) == F + Segments(v[save..], d)
    requires Segments(v[save..], d) == [next] + Segments(v[e + 1..], d)
    requires r.save == e + 1 && r.token == Some(next)
    ensures Segments(v, d) == Found(F, r.token) + Segments(v[r.save..], d)
  {
    AppendAssoc(F, [next], Segments(v[e + 1..], d));
  }

  /** A further call, `strtok(NULL, d)`, keeps the pass in a `PassState`. */
  lemma PassNext(input: seq<char>, d: set<char>, buf: seq<char>, save: nat, token: Option<string>, segs: seq<string>) returns (r: Step)
    requires PassState(input, d, buf, save, token, segs) && token.Some?
    ensures save <= |buf| && r == Call(buf, save, d)
    ensures PassState(input, d, r.buf, r.save, r.token, segs + [token.value])
  {
    var v := View(input);
    var e := save + |Truncate(v[save..], d)|;
    var rest := Segments(v[save..], d);
    NextCall(input, d, buf, save, token, segs, e);
    r := Call(buf, save, d);
    if rest == [] {
      NextNone(input, d, buf, save, token, segs, r);
    } else if e == |v| {
      NextLast(input, d, buf, save, token, segs, rest[0], r);
    } else {
      NextCut(input, d, buf, save, token, segs, e, rest[0], r);
    }
  }

  /**
   A complete pass `tok = strtok(buf, d); while (tok) { slots[k++] = tok; tok = strtok(NULL, d); }`
   storing into an array of `MaxArgs` slots followed by a NULL entry. It
   yields exactly the segments of the string the buffer holds, and leaves
   the buffer holding `Truncate` of that string.
   */
  method Pass(input: seq<char>, d: set<char>) returns (segs: seq<string>, buf: seq<char>)
    requires |Segments(View(input), d)| < MaxArgs
    ensures segs == Segments(View(input), d)
    ensures |buf| == |input|
    ensures View(buf) == Truncate(View(input), d)
  {
    PassFirst(input, d);
    var step := Call(input, 0, d);
    buf, segs := step.buf, [];
    var save, token := step.save, step.token;
    while token.Some?
      invariant PassState(input, d, buf, save, token, segs)
      decreases |input| - save + (if token.Some? then 1 else 0)
    {
      assert |segs| < MaxArgs by {
        assert |Segments(View(input), d)| == |segs| + 1 + |Segments(View(input)[save..], d)|;
      }
      ghost var r := PassNext(input, d, buf, save, token, segs);
      step := Call(buf, save, d);
      segs := segs + [token.value];
      buf, save, token := step.buf, step.save, step.token;
    }
    ghost var v := View(input);
    NothingAtEnd(v, d);
    TruncatePrefix(v, d);
  }
}
