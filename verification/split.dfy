/**
 What a complete `strtok` pass over a C string computes, as a value: the
 segments (maximal runs of non-delimiters, in order) and the string the
 buffer still holds afterwards. `Segments` follows the scan; `IsSplit`
 is the independent description every law here is proved against: the
 string is a weave of delimiter gaps and segments, and that weave is unique.
 */
module Split {
  import opened Text

  /** The segments a `strtok` pass with delimiter set `d` yields for `s`. */
  function Segments(s: string, d: set<char>): (r: seq<string>)
    ensures forall k :: 0 <= k < |r| ==> r[k] != [] && NoneIn(r[k], d)
    decreases |s|
  {
    var t := s[SpanIn(s, d)..];
    if t == [] then []
    else
      var n := SpanOut(t, d);
      [t[..n]] + Segments(t[n..], d)
  }

  /** The delimiter runs around and between the segments of `s`. */
  function Gaps(s: string, d: set<char>): (g: seq<string>)
    ensures |g| == |Segments(s, d)| + 1
    decreases |s|
  {
    var m := SpanIn(s, d);
    var t := s[m..];
    if t == [] then [s]
    else
      var n := SpanOut(t, d);
      [s[..m]] + Gaps(t[n..], d)
  }

  /** gaps[0] + segs[0] + gaps[1] + ... + segs[k-1] + gaps[k]. */
  function Weave(gaps: seq<string>, segs: seq<string>): string
    requires |gaps| == |segs| + 1
    decreases |segs|
  {
    if segs == [] then gaps[0] else gaps[0] + segs[0] + Weave(gaps[1..], segs[1..])
  }

  /**
   `s` is the weave of `gaps` and `segs`, where every gap is a (possibly
   empty) run of delimiters, every gap between two segments is non-empty,
   and every segment is a non-empty run of non-delimiters.
   */
  predicate IsSplit(s: string, d: set<char>, gaps: seq<string>, segs: seq<string>) {
    && |gaps| == |segs| + 1
    && (forall k :: 0 <= k < |gaps| ==> AllIn(gaps[k], d))
    && (forall k :: 0 < k < |segs| ==> gaps[k] != [])
    && (forall k :: 0 <= k < |segs| ==> segs[k] != [] && NoneIn(segs[k], d))
    && Weave(gaps, segs) == s
  }

  /** Dropping the first gap and segment of a split leaves a split of the rest. */
  lemma SplitTail(s: string, d: set<char>, gaps: seq<string>, segs: seq<string>)
    requires IsSplit(s, d, gaps, segs) && segs != []
    ensures IsSplit(Weave(gaps[1..], segs[1..]), d, gaps[1..], segs[1..])
  {
    var g, t := gaps[1..], segs[1..];
    forall k | 0 < k < |t| ensures g[k] != [] {
      assert g[k] == gaps[k + 1];
    }
  }

  /** The rest of a split after its first segment is empty or starts with a delimiter. */
  lemma AfterSegment(s: string, d: set<char>, gaps: seq<string>, segs: seq<string>)
    requires IsSplit(s, d, gaps, segs) && segs != []
    ensures var r := Weave(gaps[1..], segs[1..]); r == [] || r[0] in d
  {
    var r := Weave(gaps[1..], segs[1..]);
    if |segs| == 1 {
      assert r == gaps[1];
    } else {
      assert gaps[1] != [];
      assert r == gaps[1] + segs[1] + Weave(gaps[2..], segs[2..]);
      assert r[0] == gaps[1][0];
    }
  }

  /** A split whose first segment is known: the scan finds exactly that segment first. */
  lemma SplitHead(s: string, d: set<char>, gaps: seq<string>, segs: seq<string>)
    requires IsSplit(s, d, gaps, segs) && segs != []
    ensures SpanIn(s, d) == |gaps[0]|
    ensures s[SpanIn(s, d)..] == segs[0] + Weave(gaps[1..], segs[1..])
    ensures SpanOut(s[SpanIn(s, d)..], d) == |segs[0]|
  {
    var r := Weave(gaps[1..], segs[1..]);
    assert s == gaps[0] + (segs[0] + r);
    SpanInOf(gaps[0], segs[0] + r, d);
    assert s[|gaps[0]|..] == segs[0] + r;
    AfterSegment(s, d, gaps, segs);
    SpanOutOf(segs[0], r, d);
  }

  /** One step of the scan: skip the delimiter run, take the segment after it, continue behind it. */
  lemma Unfold(s: string, d: set<char>)
    requires s[SpanIn(s, d)..] != []
    ensures var m := SpanIn(s, d); var t := s[m..]; var n := SpanOut(t, d);
      && 0 < n
      && Segments(s, d) == [t[..n]] + Segments(t[n..], d)
      && Gaps(s, d) == [s[..m]] + Gaps(t[n..], d)
  {
  }

  /** The first gap is the leading delimiter run. */
  lemma GapsHead(s: string, d: set<char>)
    ensures Gaps(s, d)[0] == s[..SpanIn(s, d)]
  {
    if s[SpanIn(s, d)..] == [] {
      assert s[..SpanIn(s, d)] == s;
    }
  }

  /** Putting a delimiter run and a segment in front of a split gives a split. */
  lemma ConsSplit(s: string, d: set<char>, g0: string, t0: string, rest: string, gaps: seq<string>, segs: seq<string>)
    requires IsSplit(rest, d, gaps, segs)
    requires AllIn(g0, d) && t0 != [] && NoneIn(t0, d)
    requires segs != [] ==> gaps[0] != []
    requires s == g0 + t0 + rest
    ensures IsSplit(s, d, [g0] + gaps, [t0] + segs)
  {
    var g, t := [g0] + gaps, [t0] + segs;
    assert g[1..] == gaps && t[1..] == segs;
    forall k | 0 <= k < |g| ensures AllIn(g[k], d) {
      if k > 0 { assert g[k] == gaps[k - 1]; }
    }
    forall k | 0 < k < |t| ensures g[k] != [] {
      assert g[k] == gaps[k - 1];
    }
    forall k | 0 <= k < |t| ensures t[k] != [] && NoneIn(t[k], d) {
      if k > 0 { assert t[k] == segs[k - 1]; }
    }
  }

  /** Every string has a split: its gaps and its segments. */
  lemma {:induction false} SplitExists(s: string, d: set<char>)
    ensures IsSplit(s, d, Gaps(s, d), Segments(s, d))
    decreases |s|
  {
    var m := SpanIn(s, d);
    var t := s[m..];
    if t == [] {
      assert s[..m] == s;
      assert Gaps(s, d) == [s];
    } else {
      var rest := t[SpanOut(t, d)..];
      SplitExists(rest, d);
      SplitStep(s, d);
    }
  }

  /** The inductive step of `SplitExists`: a split of what follows the first segment extends to `s`. */
  lemma SplitStep(s: string, d: set<char>)
    requires s[SpanIn(s, d)..] != []
    requires var t := s[SpanIn(s, d)..]; var rest := t[SpanOut(t, d)..];
      IsSplit(rest, d, Gaps(rest, d), Segments(rest, d))
    ensures IsSplit(s, d, Gaps(s, d), Segments(s, d))
  {
    var m := SpanIn(s, d);
    var t := s[m..];
    var n := SpanOut(t, d);
    var rest := t[n..];
    SplitFront(s, d, m, n);
    Unfold(s, d);
  }

  /** The split of `s` that `SplitStep` builds, before it is matched with the scan's own. */
  lemma SplitFront(s: string, d: set<char>, m: nat, n: nat)
    requires m == SpanIn(s, d) && m < |s| && n == SpanOut(s[m..], d)
    requires var rest := s[m..][n..]; IsSplit(rest, d, Gaps(rest, d), Segments(rest, d))
    ensures var t := s[m..]; var rest := t[n..];
      IsSplit(s, d, [s[..m]] + Gaps(rest, d), [t[..n]] + Segments(rest, d))
  {
    var t := s[m..];
    var rest := t[n..];
    FrontParts(s, d, m, n);
    GapFront(t, d, n);
    ConsSplit(s, d, s[..m], t[..n], rest, Gaps(rest, d), Segments(rest, d));
  }

  /** The leading delimiter run and the first segment, cut off the front of `s`. */
  lemma FrontParts(s: string, d: set<char>, m: nat, n: nat)
    requires m == SpanIn(s, d) && m < |s| && n == SpanOut(s[m..], d)
    ensures var t := s[m..]; AllIn(s[..m], d) && t[..n] != [] && NoneIn(t[..n], d) && s == s[..m] + t[..n] + t[n..]
  {
    Slices(s, m, n);
  }

  /** What follows a maximal run of non-delimiters starts with a delimiter, so its first gap is not empty. */
  lemma GapFront(t: string, d: set<char>, n: nat)
    requires n == SpanOut(t, d)
    ensures Segments(t[n..], d) != [] ==> Gaps(t[n..], d)[0] != []
  {
    var rest := t[n..];
    if Segments(rest, d) != [] {
      assert rest != [] && rest[0] in d;
      GapsHead(rest, d);
    }
  }

  /** The split of a string is unique, and it is the one the scan computes. */
  lemma {:induction false} SplitUnique(s: string, d: set<char>, gaps: seq<string>, segs: seq<string>)
    requires IsSplit(s, d, gaps, segs)
    ensures segs == Segments(s, d)
    ensures gaps == Gaps(s, d)
    decreases |segs|
  {
    if segs == [] {
      assert s == gaps[0];
      assert s[SpanIn(s, d)..] == [];
    } else {
      var r := Weave(gaps[1..], segs[1..]);
      SplitTail(s, d, gaps, segs);
      SplitUnique(r, d, gaps[1..], segs[1..]);
      UniqueStep(s, d, gaps, segs);
    }
  }

  /** The inductive step of `SplitUnique`: the scan's first step takes the split's first gap and segment. */
  lemma UniqueStep(s: string, d: set<char>, gaps: seq<string>, segs: seq<string>)
    requires IsSplit(s, d, gaps, segs) && segs != []
    requires var r := Weave(gaps[1..], segs[1..]); segs[1..] == Segments(r, d) && gaps[1..] == Gaps(r, d)
    ensures segs == Segments(s, d)
    ensures gaps == Gaps(s, d)
  {
    var r := Weave(gaps[1..], segs[1..]);
    SplitHead(s, d, gaps, segs);
    var m := SpanIn(s, d);
    var t := s[m..];
    Unfold(s, d);
    assert t == segs[0] + r;
    assert t[..|segs[0]|] == segs[0] && t[|segs[0]|..] == r;
    assert s == gaps[0] + t;
    assert s[..m] == gaps[0];
    assert segs == [segs[0]] + segs[1..];
    assert gaps == [gaps[0]] + gaps[1..];
  }

  /** A leading delimiter does not change the segments. */
  lemma SkipDelimiter(s: string, d: set<char>)
    requires s != [] && s[0] in d
    ensures Segments(s, d) == Segments(s[1..], d)
  {
    assert s[SpanIn(s, d)..] == s[1..][SpanIn(s[1..], d)..];
  }

  /** The scan's first step in positions: the first segment starts at `p` and is `n` long. */
  lemma SegmentsAt(s: string, d: set<char>, p: nat, n: nat)
    requires p == SpanIn(s, d) && p < |s| && n == SpanOut(s[p..], d)
    ensures Segments(s, d) == [s[p..p + n]] + Segments(s[p + n..], d)
  {
    assert s[p..][..n] == s[p..p + n];
    assert s[p..][n..] == s[p + n..];
  }

  /** A delimiter at position `p + n`: the segments from there on are those from one further on. */
  lemma SkipDelimiterAt(s: string, d: set<char>, p: nat, n: nat)
    requires p + n < |s| && s[p + n] in d
    ensures Segments(s[p + n..], d) == Segments(s[p + n + 1..], d)
  {
    SkipDelimiter(s[p + n..], d);
    assert s[p + n..][1..] == s[p + n + 1..];
  }

  /** A pass finds no segment exactly when the string is all delimiters. */
  lemma NoSegmentsIff(s: string, d: set<char>)
    ensures Segments(s, d) == [] <==> AllIn(s, d)
  {
    SplitExists(s, d);
    var g, t := Gaps(s, d), Segments(s, d);
    if t == [] {
      assert s == g[0];
    } else {
      SplitHead(s, d, g, t);
    }
  }

  /** Joining the segments gives back the string with every delimiter removed. */
  lemma {:induction false} WeaveRemove(s: string, d: set<char>, gaps: seq<string>, segs: seq<string>)
    requires IsSplit(s, d, gaps, segs)
    ensures Remove(s, d) == Concat(segs)
    decreases |segs|
  {
    if segs == [] {
      RemoveAllIn(gaps[0], d);
    } else {
      var r := Weave(gaps[1..], segs[1..]);
      SplitTail(s, d, gaps, segs);
      WeaveRemove(r, d, gaps[1..], segs[1..]);
      RemoveFront(gaps[0], segs[0], r, d);
    }
  }

  /** Removing the delimiters from a gap, a segment and a rest keeps the segment and the rest's remainder. */
  lemma RemoveFront(g: string, t: string, r: string, d: set<char>)
    requires AllIn(g, d) && NoneIn(t, d)
    ensures Remove(g + t + r, d) == t + Remove(r, d)
  {
    calc {
      Remove(g + t + r, d);
    == { RemoveAppend(g + t, r, d); }
      Remove(g + t, d) + Remove(r, d);
    == { RemoveAppend(g, t, d); RemoveAllIn(g, d); RemoveNoneIn(t, d); }
      t + Remove(r, d);
    }
  }

  /** A character missing from `s` is missing from every segment of `s`. */
  lemma SegmentsAvoid(s: string, d: set<char>, c: char)
    requires NoneIn(s, {c})
    ensures forall k :: 0 <= k < |Segments(s, d)| ==> NoneIn(Segments(s, d)[k], {c})
  {
    SplitExists(s, d);
    WeaveAvoid(Gaps(s, d), Segments(s, d), {c});
  }

  /** Characters absent from a weave are absent from each of its segments. */
  lemma {:induction false} WeaveAvoid(gaps: seq<string>, segs: seq<string>, e: set<char>)
    requires |gaps| == |segs| + 1 && NoneIn(Weave(gaps, segs), e)
    ensures forall k :: 0 <= k < |segs| ==> NoneIn(segs[k], e)
    decreases |segs|
  {
    if segs != [] {
      NoneInParts(gaps[0] + segs[0], Weave(gaps[1..], segs[1..]), e);
      NoneInParts(gaps[0], segs[0], e);
      WeaveAvoid(gaps[1..], segs[1..], e);
      forall k | 0 < k < |segs| ensures NoneIn(segs[k], e) {
        assert segs[k] == segs[1..][k - 1];
      }
    }
  }

  /** Rejoin law: the segments, concatenated, are the string with its delimiters deleted. */
  lemma SegmentsRejoin(s: string, d: set<char>)
    ensures Concat(Segments(s, d)) == Remove(s, d)
  {
    SplitExists(s, d);
    WeaveRemove(s, d, Gaps(s, d), Segments(s, d));
  }

  /** Some delimiter of `s` has a non-delimiter before it and another after it. */
  predicate InnerDelimiter(s: string, d: set<char>) {
    exists i, j, k :: 0 <= i < j < k < |s| && s[i] !in d && s[j] in d && s[k] !in d
  }

  /** A pass finds more than one segment exactly when some delimiter lies between two non-delimiters. */
  lemma SeveralSegmentsIff(s: string, d: set<char>)
    ensures |Segments(s, d)| > 1 <==> InnerDelimiter(s, d)
  {
    SplitExists(s, d);
    var g, t := Gaps(s, d), Segments(s, d);
    if |t| > 1 {
      var r := Weave(g[1..], t[1..]);
      assert s == g[0] + t[0] + r;
      assert r == g[1] + t[1] + Weave(g[2..], t[2..]);
      TwoRuns(s, d, g[0], t[0], r, g[1], t[1], Weave(g[2..], t[2..]));
    } else if t == [] {
      assert AllIn(s, d);
    } else {
      assert s == g[0] + t[0] + g[1] by {
        assert Weave(g[1..], t[1..]) == g[1];
      }
      OneRun(s, d, g[0], t[0], g[1]);
    }
  }

  /** Two runs of non-delimiters with delimiters between them: a delimiter lies between two non-delimiters. */
  lemma TwoRuns(s: string, d: set<char>, a: string, b: string, r: string, c: string, e: string, rest: string)
    requires s == a + b + r && r == c + e + rest
    requires b != [] && NoneIn(b, d) && c != [] && AllIn(c, d) && e != [] && NoneIn(e, d)
    ensures InnerDelimiter(s, d)
  {
    var i := |a|;
    var j := i + |b|;
    var k := j + |c|;
    assert s[i] == b[0];
    assert s[j] == r[0] == c[0];
    assert s[k] == r[|c|] == e[0];
  }

  /** A delimiter run, a run of non-delimiters, a delimiter run: no delimiter lies between two non-delimiters. */
  lemma OneRun(s: string, d: set<char>, a: string, b: string, c: string)
    requires s == a + b + c && AllIn(a, d) && NoneIn(b, d) && AllIn(c, d)
    ensures !InnerDelimiter(s, d)
  {
    assert forall x :: 0 <= x < |s| ==> (s[x] !in d <==> |a| <= x < |a| + |b|) by {
      forall x | 0 <= x < |s| ensures s[x] !in d <==> |a| <= x < |a| + |b| {
        if x < |a| {
          assert s[x] == a[x];
        } else if x < |a| + |b| {
          assert s[x] == b[x - |a|];
        } else {
          assert s[x] == c[x - |a| - |b|];
        }
      }
    }
  }

  /**
   The C string left in a buffer after a full `strtok` pass over `s`: the
   pass writes a NUL just past the first segment, so the string now ends
   there; with no segment at all nothing is written.
   */
  function Truncate(s: string, d: set<char>): string {
    var m := SpanIn(s, d);
    var t := s[m..];
    if t == [] then s else s[..m + SpanOut(t, d)]
  }

  /** After a pass, the buffer holds the leading delimiter run and the first segment, or is untouched if there is none. */
  lemma TruncateSplit(s: string, d: set<char>, gaps: seq<string>, segs: seq<string>)
    requires IsSplit(s, d, gaps, segs)
    ensures segs == [] ==> Truncate(s, d) == s
    ensures segs != [] ==> Truncate(s, d) == gaps[0] + segs[0]
  {
    if segs == [] {
      assert s == gaps[0];
      assert s[SpanIn(s, d)..] == [];
    } else {
      SplitHead(s, d, gaps, segs);
      assert s == gaps[0] + segs[0] + Weave(gaps[1..], segs[1..]);
      assert s[..|gaps[0]| + |segs[0]|] == gaps[0] + segs[0];
    }
  }

  /**
   The truncated buffer is a prefix of the line that keeps every leading
   delimiter, is the whole line when the pass found nothing, and otherwise
   ends with the last character of the first segment.
   */
  lemma TruncatePrefix(s: string, d: set<char>)
    ensures Truncate(s, d) <= s
    ensures SpanIn(s, d) <= |Truncate(s, d)|
    ensures Segments(s, d) == [] ==> Truncate(s, d) == s
    ensures Segments(s, d) != [] ==> Truncate(s, d)[|Truncate(s, d)| - 1] !in d
  {
    var m := SpanIn(s, d);
    var t := s[m..];
    if t != [] {
      var n := SpanOut(t, d);
      assert s[m + n - 1] == t[..n][n - 1];
    }
  }

  /**
   When a pass finds exactly one segment, only trailing delimiters are cut:
   the line is the truncated buffer followed by delimiters, and a pass over
   the truncated buffer finds that same single segment.
   */
  lemma TruncateOne(s: string, d: set<char>)
    requires |Segments(s, d)| == 1
    ensures s == Truncate(s, d) + s[|Truncate(s, d)|..]
    ensures AllIn(s[|Truncate(s, d)|..], d)
    ensures Segments(Truncate(s, d), d) == Segments(s, d)
  {
    SplitExists(s, d);
    var g, t := Gaps(s, d), Segments(s, d);
    TruncateSplit(s, d, g, t);
    var c := Truncate(s, d);
    assert Weave(g[1..], t[1..]) == g[1];
    assert s == c + g[1];
    assert s[|c|..] == g[1];
    assert Weave([g[0], []], t) == c by {
      assert Weave([g[0], []][1..], t[1..]) == [];
    }
    assert IsSplit(c, d, [g[0], []], t);
    SplitUnique(c, d, [g[0], []], t);
  }

  /** After its leading delimiters, the truncated buffer holds no delimiter. */
  lemma TruncateRun(s: string, d: set<char>)
    ensures forall k :: SpanIn(s, d) <= k < |Truncate(s, d)| ==> s[k] !in d
  {
    var m := SpanIn(s, d);
    var t := s[m..];
    if t != [] {
      var n := SpanOut(t, d);
      assert |Truncate(s, d)| == m + n;
      forall k | m <= k < m + n
        ensures s[k] !in d
      {
        assert s[k] == t[k - m];
      }
    }
  }

  /**
   A character outside the delimiters survives a pass that finds at most one
   segment, and so does the run of non-delimiters around it: everything the
   buffer keeps after its leading delimiters is free of them.
   */
  lemma TruncateKeeps(s: string, d: set<char>, i: nat)
    requires i < |s| && s[i] !in d && |Segments(s, d)| <= 1
    ensures SpanIn(s, d) <= i < |Truncate(s, d)|
    ensures forall k :: SpanIn(s, d) <= k < |Truncate(s, d)| ==> s[k] !in d
  {
    assert |Segments(s, d)| == 1 by {
      NoSegmentsIff(s, d);
      assert !AllIn(s, d) by { assert s[i] !in d; }
    }
    TruncateOne(s, d);
    var c := Truncate(s, d);
    forall j | |c| <= j < |s|
      ensures s[j] in d
    {
      assert s[j] == s[|c|..][j - |c|];
    }
    TruncateRun(s, d);
  }
}
