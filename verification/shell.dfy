/**
 `process_input(input)`: three `strtok` passes over the same buffer decide
 how a line runs. More than one `|`-segment makes a pipeline. Otherwise
 the buffer, now cut after its first `|`-segment, is split on `#`, and more
 than one segment runs those commands one after the other. Otherwise it is
 cut again and split on `&`, and more than one segment runs those commands
 in parallel children. Otherwise what is left of the buffer runs as a
 single command.
 */
module Shell {
  import opened Nullable
  import opened Text
  import opened Split
  import opened Strtok
  import opened Events
  import opened Command
  import opened Pipeline

  const Bar: set<char> := {'|'}
  const Hash: set<char> := {'#'}
  const Amp: set<char> := {'&'}

  /** How `process_input` runs a line, with the commands it runs. */
  datatype Mode =
    | Piped(cmds: seq<string>)       // execute_pipeline(pipeline_cmds, num_pipes)
    | Sequential(cmds: seq<string>)  // execute_command on each, in order
    | Parallel(cmds: seq<string>)    // a child per command, then the waits
    | Single(cmd: string)            // execute_command(input)

  /** The mode of a line, from the three passes in the order the code makes them. */
  function Classify(line: string): (m: Mode)
    ensures m.Piped? || m.Sequential? || m.Parallel? ==> |m.cmds| > 1
  {
    var pipes := Segments(line, Bar);
    if |pipes| > 1 then Piped(pipes) else AfterPipes(Truncate(line, Bar))
  }

  /** The mode once the `|` pass found at most one segment and left `rest` in the buffer. */
  function AfterPipes(rest: string): (m: Mode)
    ensures !m.Piped?
    ensures m.Sequential? || m.Parallel? ==> |m.cmds| > 1
  {
    var seqs := Segments(rest, Hash);
    if |seqs| > 1 then Sequential(seqs) else AfterSeqs(Truncate(rest, Hash))
  }

  /** The mode once the `#` pass found at most one segment and left `rest` in the buffer. */
  function AfterSeqs(rest: string): (m: Mode)
    ensures m.Parallel? || m.Single?
    ensures m.Parallel? ==> |m.cmds| > 1
  {
    var pars := Segments(rest, Amp);
    if |pars| > 1 then Parallel(pars) else Single(Truncate(rest, Amp))
  }

  /**
   The sequential loop: each command runs to completion before the next;
   a command that calls `exit` ends the shell, so nothing after it runs.
   */
  function SeqRun(cmds: seq<string>): seq<Event>
    decreases |cmds|
  {
    if cmds == [] then []
    else
      var t := Execute(cmds[0]);
      if Halts(t) then t else t + SeqRun(cmds[1..])
  }

  /** A parallel child: it runs the command and then calls `exit(0)`, unless the command already exited. */
  function ChildRun(cmd: string): seq<Event> {
    var t := Execute(cmd);
    if Halts(t) then t else t + [Exit(0)]
  }

  /** One `fork` per parallel command, each child running `ChildRun`. */
  function ForkChildren(cmds: seq<string>): (t: seq<Event>)
    ensures |t| == |cmds|
    ensures forall i :: 0 <= i < |cmds| ==> t[i] == Fork(ChildRun(cmds[i]))
  {
    seq(|cmds|, i requires 0 <= i < |cmds| => Fork(ChildRun(cmds[i])))
  }

  /** The parallel loops: fork every child, then wait once per child. */
  function ParRun(cmds: seq<string>): seq<Event> {
    ForkChildren(cmds) + Waits(|cmds|)
  }

  /** The shell's history for one line. */
  function Respond(line: string): seq<Event> {
    match Classify(line)
    case Piped(cmds) => ExecutePipeline(cmds)
    case Sequential(cmds) => SeqRun(cmds)
    case Parallel(cmds) => ParRun(cmds)
    case Single(cmd) => Execute(cmd)
  }

  /**
   Every command `execute_command` receives leaves room for the NULL in its
   argument array. A sequential chain never parses the commands after its
   first `exit`, so they are not bounded.
   */
  predicate CommandsFit(m: Mode) {
    match m
    case Piped(_) => true
    case Sequential(cmds) => forall i :: 0 <= i < |cmds| && i <= FirstExit(cmds) ==> |Words(cmds[i])| < MaxArgs
    case Parallel(cmds) => forall i :: 0 <= i < |cmds| ==> |Words(cmds[i])| < MaxArgs
    case Single(cmd) => |Words(cmd)| < MaxArgs
  }

  /**
   The arrays of `process_input` and `execute_command` hold `MaxArgs`
   entries and nothing checks the bound: every pass that runs must leave
   room for its NULL.
   */
  predicate Fits(line: string) {
    var afterPipes := Truncate(line, Bar);
    var afterSeqs := Truncate(afterPipes, Hash);
    && |Segments(line, Bar)| < MaxArgs
    && (|Segments(line, Bar)| <= 1 ==> |Segments(afterPipes, Hash)| < MaxArgs)
    && (|Segments(line, Bar)| <= 1 && |Segments(afterPipes, Hash)| <= 1 ==> |Segments(afterSeqs, Amp)| < MaxArgs)
    && CommandsFit(Classify(line))
  }

  /** `execute_command` on a command string, which holds no NUL. */
  method RunCommand(cmd: string) returns (t: seq<Event>)
    requires NoneIn(cmd, {NUL}) && |Words(cmd)| < MaxArgs
    ensures t == Execute(cmd)
  {
    assert NUL !in cmd;
    ViewOfString(cmd);
    t := ExecuteCommand(cmd);
  }

  /** The sequential loop, calling `execute_command` on each `#`-segment until one of them exits. */
  method RunSequential(cmds: seq<string>) returns (trace: seq<Event>)
    requires forall i :: 0 <= i < |cmds| ==> NoneIn(cmds[i], {NUL})
    requires forall i :: 0 <= i < |cmds| && i <= FirstExit(cmds) ==> |Words(cmds[i])| < MaxArgs
    ensures trace == SeqRun(cmds)
  {
    trace := [];
    var i := 0;
    while i < |cmds|
      invariant 0 <= i <= FirstExit(cmds)
      invariant SeqRun(cmds) == trace + SeqRun(cmds[i..])
    {
      var t := RunCommand(cmds[i]);
      SeqStep(cmds, i, trace, t);
      trace := trace + t;
      if Halts(t) {
        return;
      }
      i := i + 1;
    }
  }

  /** One step of the sequential loop: the command at `i` either ends the chain or hands on to `i + 1`, which is still no later than the first `exit`. */
  lemma SeqStep(cmds: seq<string>, i: nat, trace: seq<Event>, t: seq<Event>)
    requires i < |cmds| && i <= FirstExit(cmds) && t == Execute(cmds[i])
    requires SeqRun(cmds) == trace + SeqRun(cmds[i..])
    ensures Halts(t) ==> SeqRun(cmds) == trace + t
    ensures !Halts(t) ==> SeqRun(cmds) == (trace + t) + SeqRun(cmds[i + 1..]) && i + 1 <= FirstExit(cmds)
  {
    SeqRunFrom(cmds, i, t);
    if !Halts(t) {
      HaltsIffExit(cmds[i]);
      PastExit(cmds, i);
      AppendAssoc(trace, t, SeqRun(cmds[i + 1..]));
    }
  }

  lemma SeqRunFrom(cmds: seq<string>, i: nat, t: seq<Event>)
    requires i < |cmds| && t == Execute(cmds[i])
    ensures SeqRun(cmds[i..]) == if Halts(t) then t else t + SeqRun(cmds[i + 1..])
  {
    assert cmds[i..][1..] == cmds[i + 1..];
  }

  /** A command before the first `exit` that is not itself `exit` leaves the next one no later than it. */
  lemma PastExit(cmds: seq<string>, i: nat)
    requires i < |cmds| && i <= FirstExit(cmds) && !ExitCommand(cmds[i])
    ensures i + 1 <= FirstExit(cmds)
  {
  }

  /** The parallel loops: fork a child per `&`-segment, then wait as many times. */
  method RunParallel(cmds: seq<string>) returns (trace: seq<Event>)
    requires forall i :: 0 <= i < |cmds| ==> NoneIn(cmds[i], {NUL}) && |Words(cmds[i])| < MaxArgs
    ensures trace == ParRun(cmds)
  {
    trace := [];
    var i := 0;
    while i < |cmds|
      invariant 0 <= i <= |cmds|
      invariant trace == ForkChildren(cmds)[..i]
    {
      var child := RunCommand(cmds[i]);
      if !Halts(child) {
        child := child + [Exit(0)];
      }
      ForkNext(cmds, i, child);
      trace := trace + [Fork(child)];
      i := i + 1;
    }
    assert ForkChildren(cmds)[..i] == ForkChildren(cmds);
    ghost var forks := trace;
    i := 0;
    while i < |cmds|
      invariant 0 <= i <= |cmds|
      invariant trace == forks + Waits(i)
    {
      trace := trace + [Wait];
      i := i + 1;
    }
  }

  /** One step of the fork loop: the next child runs the next command. */
  lemma ForkNext(cmds: seq<string>, i: nat, child: seq<Event>)
    requires i < |cmds| && child == ChildRun(cmds[i])
    ensures ForkChildren(cmds)[..i + 1] == ForkChildren(cmds)[..i] + [Fork(child)]
  {
    var f := ForkChildren(cmds);
    assert f[i] == Fork(child);
    assert f[..i + 1] == f[..i] + [f[i]];
  }

  /**
   `process_input(input)`, pass by pass on one buffer: each pass sees the
   C string the previous one left, and the first pass with more than one
   segment decides the mode.
   */
  method ProcessInput(input: seq<char>) returns (trace: seq<Event>)
    requires Fits(View(input))
    ensures trace == Respond(View(input))
  {
    var pipes, buf := Pass(input, Bar);
    if |pipes| > 1 {
      PipedBranch(View(input), pipes);
      trace := RunPipeline(pipes);
      return;
    }
    trace := ProcessAfterPipes(buf, View(input));
  }

  /** The rest of `process_input` once the `|` pass found at most one segment and left the buffer `buf`. */
  method ProcessAfterPipes(buf: seq<char>, ghost line: string) returns (trace: seq<Event>)
    requires Fits(line) && |Segments(line, Bar)| <= 1 && View(buf) == Truncate(line, Bar)
    ensures trace == Respond(line)
  {
    FitsAfterPipes(line);
    var seqs, buf' := Pass(buf, Hash);
    if |seqs| > 1 {
      SequentialBranch(line, seqs);
      assert NoneIn(View(buf), {NUL});
      SegmentsAvoid(View(buf), Hash, NUL);
      trace := RunSequential(seqs);
      return;
    }
    trace := ProcessAfterSeqs(buf', line);
  }

  /** The rest of `process_input` once the `#` pass too found at most one segment and left the buffer `buf`. */
  method ProcessAfterSeqs(buf: seq<char>, ghost line: string) returns (trace: seq<Event>)
    requires Fits(line) && |Segments(line, Bar)| <= 1 && |Segments(Truncate(line, Bar), Hash)| <= 1
    requires View(buf) == Truncate(Truncate(line, Bar), Hash)
    ensures trace == Respond(line)
  {
    FitsAfterSeqs(line);
    ghost var rest := View(buf);
    assert NoneIn(rest, {NUL});
    var pars, buf' := Pass(buf, Amp);
    if |pars| > 1 {
      ParallelBranch(line, pars);
      SegmentsAvoid(rest, Amp, NUL);
      trace := RunParallel(pars);
    } else {
      SingleBranch(line, View(buf'));
      trace := ExecuteCommand(buf');
    }
  }

  /** The `|` pass found several segments: the line runs as their pipeline. */
  lemma PipedBranch(line: string, pipes: seq<string>)
    requires pipes == Segments(line, Bar) && |pipes| > 1
    ensures Respond(line) == ExecutePipeline(pipes)
  {
  }

  /** Once the `|` pass found at most one segment, the line's mode and bounds are those of what it left. */
  lemma FitsAfterPipes(line: string)
    requires Fits(line) && |Segments(line, Bar)| <= 1
    ensures Classify(line) == AfterPipes(Truncate(line, Bar))
    ensures |Segments(Truncate(line, Bar), Hash)| < MaxArgs
  {
  }

  /** The `#` pass found several segments: they run one after the other, and those up to the first `exit` fit. */
  lemma SequentialBranch(line: string, seqs: seq<string>)
    requires Fits(line) && |Segments(line, Bar)| <= 1
    requires seqs == Segments(Truncate(line, Bar), Hash) && |seqs| > 1
    ensures Respond(line) == SeqRun(seqs)
    ensures forall i :: 0 <= i < |seqs| && i <= FirstExit(seqs) ==> |Words(seqs[i])| < MaxArgs
  {
    assert Classify(line) == Sequential(seqs);
  }

  /** Once the `#` pass found at most one segment too, the mode and bounds are those of what that pass left. */
  lemma FitsAfterSeqs(line: string)
    requires Fits(line) && |Segments(line, Bar)| <= 1 && |Segments(Truncate(line, Bar), Hash)| <= 1
    ensures Classify(line) == AfterSeqs(Truncate(Truncate(line, Bar), Hash))
    ensures |Segments(Truncate(Truncate(line, Bar), Hash), Amp)| < MaxArgs
  {
  }

  /** The `&` pass found several segments: each runs in its own child, and each fits. */
  lemma ParallelBranch(line: string, pars: seq<string>)
    requires Fits(line) && |Segments(line, Bar)| <= 1 && |Segments(Truncate(line, Bar), Hash)| <= 1
    requires pars == Segments(Truncate(Truncate(line, Bar), Hash), Amp) && |pars| > 1
    ensures Respond(line) == ParRun(pars)
    ensures forall i :: 0 <= i < |pars| ==> |Words(pars[i])| < MaxArgs
  {
    assert Classify(line) == Parallel(pars);
  }

  /** No pass found several segments: what the `&` pass left runs as one command, and it fits. */
  lemma SingleBranch(line: string, cmd: string)
    requires Fits(line) && |Segments(line, Bar)| <= 1 && |Segments(Truncate(line, Bar), Hash)| <= 1
    requires |Segments(Truncate(Truncate(line, Bar), Hash), Amp)| <= 1
    requires cmd == Truncate(Truncate(Truncate(line, Bar), Hash), Amp)
    ensures Respond(line) == Execute(cmd)
    ensures |Words(cmd)| < MaxArgs
  {
    assert Classify(line) == Single(cmd);
  }

  /** The operator characters `process_input` splits on. */
  const Operators: set<char> := Bar + Hash + Amp

  /**
   Priority: a line is a pipeline exactly when some `|` has a non-`|`
   character on each side, whatever `#` and `&` it holds; its commands then
   rejoin to the line without its `|` characters, and none holds a `|`.
   */
  lemma PipedLaw(line: string)
    ensures Classify(line).Piped? <==> InnerDelimiter(line, Bar)
    ensures Classify(line).Piped? ==> Concat(Classify(line).cmds) == Remove(line, Bar)
    ensures Classify(line).Piped? ==> forall i :: 0 <= i < |Classify(line).cmds| ==> NoneIn(Classify(line).cmds[i], Bar)
  {
    SeveralSegmentsIff(line, Bar);
    SegmentsRejoin(line, Bar);
  }

  /**
   A line runs sequentially exactly when the `|` pass finds no inner `|`
   and, in what that pass left in the buffer (the line less its trailing
   `|` characters), some `#` lies between two other characters. The
   commands rejoin to that string without its `#` characters.
   */
  lemma SequentialLaw(line: string)
    ensures !InnerDelimiter(line, Bar) ==>
      Truncate(line, Bar) <= line && AllIn(line[|Truncate(line, Bar)|..], Bar)
    ensures Classify(line).Sequential? <==>
      !InnerDelimiter(line, Bar) && InnerDelimiter(Truncate(line, Bar), Hash)
    ensures Classify(line).Sequential? ==>
      Concat(Classify(line).cmds) == Remove(Truncate(line, Bar), Hash)
  {
    SeveralSegmentsIff(line, Bar);
    if !InnerDelimiter(line, Bar) {
      TrailingCut(line, Bar, Bar);
    }
    SeveralSegmentsIff(Truncate(line, Bar), Hash);
    SegmentsRejoin(Truncate(line, Bar), Hash);
  }

  /**
   A line runs in parallel exactly when neither the `|` pass nor the `#`
   pass finds an inner delimiter and, in what the `#` pass left, some `&`
   lies between two other characters. The commands rejoin to that string
   without its `&` characters.
   */
  lemma ParallelLaw(line: string)
    ensures var rest := Truncate(Truncate(line, Bar), Hash);
      Classify(line).Parallel? <==>
        && !InnerDelimiter(line, Bar)
        && !InnerDelimiter(Truncate(line, Bar), Hash)
        && InnerDelimiter(rest, Amp)
    ensures Classify(line).Parallel? ==>
      Concat(Classify(line).cmds) == Remove(Truncate(Truncate(line, Bar), Hash), Amp)
  {
    SeveralSegmentsIff(line, Bar);
    SeveralSegmentsIff(Truncate(line, Bar), Hash);
    SeveralSegmentsIff(Truncate(Truncate(line, Bar), Hash), Amp);
    SegmentsRejoin(Truncate(Truncate(line, Bar), Hash), Amp);
  }

  /** Without a `|`, the `#` pass sees the whole line: it runs sequentially exactly when a `#` lies between two other characters. */
  lemma SequentialPlainLaw(line: string)
    requires NoneIn(line, Bar)
    ensures Classify(line).Sequential? <==> InnerDelimiter(line, Hash)
    ensures Classify(line).Sequential? ==> Concat(Classify(line).cmds) == Remove(line, Hash)
  {
    Untouched(line, Bar);
    SeveralSegmentsIff(line, Bar);
    SequentialLaw(line);
  }

  /** Without `|` or `#`, the `&` pass sees the whole line: it runs in parallel exactly when an `&` lies between two other characters. */
  lemma ParallelPlainLaw(line: string)
    requires NoneIn(line, Bar) && NoneIn(line, Hash)
    ensures Classify(line).Parallel? <==> InnerDelimiter(line, Amp)
    ensures Classify(line).Parallel? ==> Concat(Classify(line).cmds) == Remove(line, Amp)
  {
    Untouched(line, Bar);
    Untouched(line, Hash);
    SeveralSegmentsIff(line, Bar);
    SeveralSegmentsIff(line, Hash);
    ParallelLaw(line);
  }

  /** A line without any of `|`, `#` and `&` runs as one command, unchanged. */
  lemma PlainLine(line: string)
    requires NoneIn(line, Operators)
    ensures Classify(line) == Single(line)
  {
    assert NoneIn(line, Bar) && NoneIn(line, Hash) && NoneIn(line, Amp);
    Untouched(line, Bar);
    Untouched(line, Hash);
    Untouched(line, Amp);
  }

  /** A pass over a line without its delimiter finds at most one segment and leaves the line as it was. */
  lemma Untouched(line: string, d: set<char>)
    requires NoneIn(line, d)
    ensures |Segments(line, d)| <= 1
    ensures Truncate(line, d) == line
  {
    if line == [] {
      NoSegmentsIff(line, d);
    } else {
      assert Weave([[], []], [line]) == line by {
        assert Weave([[], []][1..], [line][1..]) == [];
      }
      assert IsSplit(line, d, [[], []], [line]);
      SplitUnique(line, d, [[], []], [line]);
      TruncateSplit(line, d, [[], []], [line]);
    }
  }

  /** A pass finding at most one segment only cuts trailing delimiters. */
  lemma TrailingCut(s: string, d: set<char>, ops: set<char>)
    requires d <= ops && |Segments(s, d)| <= 1
    ensures Truncate(s, d) <= s && AllIn(s[|Truncate(s, d)|..], ops)
  {
    TruncatePrefix(s, d);
    if |Segments(s, d)| == 1 {
      TruncateOne(s, d);
    }
  }

  /** Two cuts of trailing operators make one. */
  lemma CutChain(l: string, a: string, c: string, ops: set<char>)
    requires a <= l && AllIn(l[|a|..], ops)
    requires c <= a && AllIn(a[|c|..], ops)
    ensures c <= l && AllIn(l[|c|..], ops)
  {
    assert l[|c|..] == a[|c|..] + l[|a|..];
  }

  lemma SingleAfterSeqs(rest: string)
    requires AfterSeqs(rest).Single?
    ensures AfterSeqs(rest).cmd <= rest && AllIn(rest[|AfterSeqs(rest).cmd|..], Operators)
  {
    TrailingCut(rest, Amp, Operators);
  }

  lemma SingleAfterPipes(rest: string)
    requires AfterPipes(rest).Single?
    ensures AfterPipes(rest).cmd <= rest && AllIn(rest[|AfterPipes(rest).cmd|..], Operators)
  {
    var a := Truncate(rest, Hash);
    TrailingCut(rest, Hash, Operators);
    SingleAfterSeqs(a);
    CutChain(rest, a, AfterSeqs(a).cmd, Operators);
  }

  /**
   A single command is what is left of the line once trailing operator
   characters are cut: a prefix of the line, followed only by `|`, `#` and
   `&`. Leading operator characters stay part of the command.
   */
  lemma SingleLaw(line: string)
    requires Classify(line).Single?
    ensures Classify(line).cmd <= line
    ensures AllIn(line[|Classify(line).cmd|..], Operators)
    ensures (exists i :: 0 <= i < |line| && line[i] !in Operators) ==>
      Classify(line).cmd != [] && Classify(line).cmd[|Classify(line).cmd| - 1] !in Operators
  {
    var a := Truncate(line, Bar);
    TrailingCut(line, Bar, Operators);
    SingleAfterPipes(a);
    CutChain(line, a, AfterPipes(a).cmd, Operators);
    if i :| 0 <= i < |line| && line[i] !in Operators {
      SingleKeeps(line, i);
    }
  }

  /**
   A character of the line that is not an operator survives all three
   passes, and the command then ends on a character that is not an operator
   either: only trailing operators are cut.
   */
  lemma SingleKeeps(line: string, i: nat)
    requires Classify(line).Single? && i < |line| && line[i] !in Operators
    ensures Classify(line).cmd != [] && Classify(line).cmd[|Classify(line).cmd| - 1] !in Operators
  {
    var a := Truncate(line, Bar);
    var b := Truncate(a, Hash);
    var c := Truncate(b, Amp);
    assert |Segments(line, Bar)| <= 1 && |Segments(a, Hash)| <= 1 && |Segments(b, Amp)| <= 1
      && Classify(line).cmd == c;
    KeepPass(line, Bar, i);
    KeepPass(a, Hash, i);
    KeepPass(b, Amp, i);
    KeepEnd(line, a, b, c, i);
  }

  /** A pass finding at most one segment keeps `s[i]` and everything up to the cut, all free of the delimiter. */
  lemma KeepPass(s: string, d: set<char>, i: nat)
    requires i < |s| && s[i] !in d && |Segments(s, d)| <= 1
    ensures Truncate(s, d) <= s && i < |Truncate(s, d)|
    ensures forall k :: i <= k < |Truncate(s, d)| ==> s[k] !in d
  {
    TruncatePrefix(s, d);
    TruncateKeeps(s, d, i);
  }

  /** Three cuts, each free of its own delimiter from position `i` on, end on a character that is none of them. */
  lemma KeepEnd(line: string, a: string, b: string, c: string, i: nat)
    requires a <= line && b <= a && c <= b && i < |c|
    requires forall k :: i <= k < |a| ==> line[k] !in Bar
    requires forall k :: i <= k < |b| ==> a[k] !in Hash
    requires forall k :: i <= k < |c| ==> b[k] !in Amp
    ensures c[|c| - 1] !in Operators
  {
    var p := |c| - 1;
    assert c[p] == b[p] && b[p] == a[p] && a[p] == line[p];
    assert c[p] !in Amp && c[p] !in Hash && c[p] !in Bar;
  }

  /** The strlen check of `execute_pipeline` never fires for a line: its commands are never empty. */
  lemma PipedNeverEmpty(line: string)
    requires Classify(line).Piped?
    ensures !HasEmpty(Classify(line).cmds)
    ensures Report(NullCommandNearPipe) !in Respond(line)
  {
    var cmds := Classify(line).cmds;
    assert !HasEmpty(cmds);
    assert Respond(line) == ExecutePipeline(cmds);
    ValidatedPipeline(cmds);
  }

  /** The histories of `cmds`, one after the other, as if none of them ended the shell. */
  function Chain(cmds: seq<string>): seq<Event> {
    if cmds == [] then [] else Execute(cmds[0]) + Chain(cmds[1..])
  }

  /** The position of the first `exit` command, or the count when there is none. */
  function FirstExit(cmds: seq<string>): (k: nat)
    ensures k <= |cmds|
    ensures forall j :: 0 <= j < k ==> !ExitCommand(cmds[j])
    ensures k < |cmds| ==> ExitCommand(cmds[k])
  {
    if cmds == [] || ExitCommand(cmds[0]) then 0 else 1 + FirstExit(cmds[1..])
  }

  /**
   Sequential execution runs the commands in order up to and including the
   first `exit`, and nothing after it.
   */
  lemma {:induction false} SequenceStops(cmds: seq<string>)
    ensures var k := FirstExit(cmds);
      SeqRun(cmds) == (if k < |cmds| then Chain(cmds[..k + 1]) else Chain(cmds))
  {
    if cmds != [] {
      var k := FirstExit(cmds);
      SeqRunHead(cmds);
      if ExitCommand(cmds[0]) {
        assert k == 0;
        ChainHead(cmds, 1);
        assert cmds[1..][..0] == [];
      } else {
        var r := cmds[1..];
        assert k == 1 + FirstExit(r);
        SequenceStops(r);
        if FirstExit(r) < |r| {
          ChainHead(cmds, k + 1);
        } else {
          assert Chain(cmds) == Execute(cmds[0]) + Chain(r);
        }
      }
    }
  }

  /** The chain of the first `j` commands starts with the first command's history. */
  lemma ChainHead(cmds: seq<string>, j: nat)
    requires 1 <= j <= |cmds|
    ensures Chain(cmds[..j]) == Execute(cmds[0]) + Chain(cmds[1..][..j - 1])
  {
    assert cmds[..j][0] == cmds[0];
    assert cmds[..j][1..] == cmds[1..][..j - 1];
  }

  /** The sequential loop's first step, in terms of whether the first command is `exit`. */
  lemma SeqRunHead(cmds: seq<string>)
    requires cmds != []
    ensures SeqRun(cmds) == if ExitCommand(cmds[0]) then Execute(cmds[0]) else Execute(cmds[0]) + SeqRun(cmds[1..])
  {
    HaltsIffExit(cmds[0]);
  }

  /** Sequential execution ends the shell exactly when some command is an `exit`. */
  lemma {:induction false} SequenceHalts(cmds: seq<string>)
    ensures Halts(SeqRun(cmds)) <==> FirstExit(cmds) < |cmds|
  {
    if cmds != [] {
      HaltsIffExit(cmds[0]);
      if !ExitCommand(cmds[0]) {
        SequenceHalts(cmds[1..]);
        HaltsAppend(Execute(cmds[0]), SeqRun(cmds[1..]));
      }
    }
  }

  /** A trace made of two parts halts exactly when one of them does. */
  lemma HaltsAppend(a: seq<Event>, b: seq<Event>)
    ensures Halts(a + b) <==> Halts(a) || Halts(b)
  {
    if Halts(a + b) {
      var i :| 0 <= i < |a + b| && (a + b)[i].Exit?;
      if i >= |a| {
        assert b[i - |a|].Exit?;
      }
    }
    if Halts(a) {
      var i :| 0 <= i < |a| && a[i].Exit?;
      assert (a + b)[i].Exit?;
    }
    if Halts(b) {
      var i :| 0 <= i < |b| && b[i].Exit?;
      assert (a + b)[|a| + i].Exit?;
    }
  }

  /** Every `fork` of the trace is directly followed by the `wait` for that child. */
  predicate WaitsAtOnce(t: seq<Event>) {
    forall j :: 0 <= j < |t| && t[j].Fork? ==> j + 1 < |t| && t[j + 1] == Wait
  }

  lemma WaitsAtOnceAppend(a: seq<Event>, b: seq<Event>)
    requires WaitsAtOnce(a) && WaitsAtOnce(b)
    ensures WaitsAtOnce(a + b)
  {
    forall j | 0 <= j < |a + b| && (a + b)[j].Fork?
      ensures j + 1 < |a + b| && (a + b)[j + 1] == Wait
    {
      if j >= |a| {
        assert b[j - |a|].Fork?;
      }
    }
  }

  /** One command's history waits for its child at once. */
  lemma CommandWaits(cmd: string)
    ensures WaitsAtOnce(Execute(cmd))
  {
    var w := Words(cmd);
    var t := Execute(cmd);
    if w == [] || w[0] == "exit" || w[0] == "cd" {
      assert |t| <= 1 && (t != [] ==> !t[0].Fork?);
    } else {
      assert |t| == 2 && !t[1].Fork? && t[1] == Wait;
    }
  }

  /**
   Strict order: in sequential execution the shell waits for each child
   before it does anything else, so no two commands' children overlap.
   */
  lemma {:induction false} SequenceWaits(cmds: seq<string>)
    ensures WaitsAtOnce(SeqRun(cmds))
  {
    if cmds != [] {
      CommandWaits(cmds[0]);
      if !Halts(Execute(cmds[0])) {
        SequenceWaits(cmds[1..]);
        WaitsAtOnceAppend(Execute(cmds[0]), SeqRun(cmds[1..]));
      }
    }
  }

  /**
   A parallel child ends with `exit(0)` and with nothing else exiting
   before: either the command was `exit`, or it ran the command's whole
   history first.
   */
  lemma ChildLaw(cmd: string)
    ensures var t := ChildRun(cmd);
      && |t| >= 1 && t[|t| - 1] == Exit(0)
      && (forall j :: 0 <= j < |t| - 1 ==> !t[j].Exit?)
      && t[..|t| - 1] == (if ExitCommand(cmd) then [] else Execute(cmd))
  {
    HaltsIffExit(cmd);
    var t := ChildRun(cmd);
    if !ExitCommand(cmd) {
      assert t[..|t| - 1] == Execute(cmd);
    }
  }

  /**
   Parallel execution forks every child before the first wait, waits once
   per child, and the shell itself neither exits nor changes directory:
   `exit` and `cd` in a parallel command act in the child only.
   */
  lemma ParallelRun(cmds: seq<string>)
    ensures var t := ParRun(cmds);
      && Count(t, IsFork) == |cmds|
      && Count(t, IsWait) == |cmds|
      && (forall a, b :: 0 <= a < b < |t| && t[a].Wait? ==> t[b].Wait?)
      && !Halts(t)
      && (forall j :: 0 <= j < |t| ==> !t[j].Chdir?)
  {
    var F, W := ForkChildren(cmds), Waits(|cmds|);
    CountAppend(F, W, IsFork);
    CountAll(F, IsFork);
    CountNone(W, IsFork);
    CountAppend(F, W, IsWait);
    CountNone(F, IsWait);
    CountAll(W, IsWait);
    var t := ParRun(cmds);
    assert forall j :: 0 <= j < |t| ==> (t[j].Wait? <==> j >= |F|);
  }

  /** `ls|wc` is a two-stage pipeline of `ls` and `wc`. */
  lemma PipelineExample()
    ensures Classify("ls|wc") == Piped(["ls", "wc"])
  {
    assert "ls|wc" == "ls" + ['|'] + "wc";
    TwoSegments("ls", "wc", Bar, '|');
  }

  /** The one-word command `exit`. */
  lemma ExitWord(e: string)
    requires e == "exit"
    ensures Execute(e) == [Exit(0)]
  {
    assert NoneIn(e, Blanks);
    OneWord(e);
  }

  /** Two delimiter-free words joined by one delimiter are the two segments of a pass. */
  lemma TwoSegments(a: string, b: string, d: set<char>, c: char)
    requires c in d && a != [] && b != [] && NoneIn(a, d) && NoneIn(b, d)
    ensures Segments(a + [c] + b, d) == [a, b]
  {
    var g, t := ["", [c], ""], [a, b];
    assert Weave(g, t) == a + [c] + b by {
      assert Weave(g[1..], t[1..]) == [c] + b;
    }
    assert IsSplit(a + [c] + b, d, g, t);
    SplitUnique(a + [c] + b, d, g, t);
  }

  lemma SequenceExampleSegments(s: string)
    requires s == "exit#ls"
    ensures Segments(s, Hash) == ["exit", "ls"]
  {
    assert s == "exit" + ['#'] + "ls";
    TwoSegments("exit", "ls", Hash, '#');
  }

  lemma SequenceExampleSplit(s: string)
    requires s == "exit#ls"
    ensures Classify(s) == Sequential(["exit", "ls"])
  {
    assert NoneIn(s, Bar);
    Untouched(s, Bar);
    SequenceExampleSegments(s);
  }

  /** In `exit#ls` the shell exits and `ls` never runs. */
  lemma SequenceExample(s: string)
    requires s == "exit#ls"
    ensures Classify(s) == Sequential(["exit", "ls"])
    ensures Respond(s) == [Exit(0)]
  {
    SequenceExampleSplit(s);
    var cmds := Classify(s).cmds;
    ExitWord(cmds[0]);
    assert Halts(Execute(cmds[0])) by {
      assert Execute(cmds[0])[0].Exit?;
    }
  }

  lemma TrailingBarPass(s: string, r: string)
    requires s == "a#b|" && r == "a#b"
    ensures |Segments(s, Bar)| == 1 && Truncate(s, Bar) == r
  {
    var g, t := ["", "|"], [r];
    assert NoneIn(r, Bar);
    assert Weave(g, t) == s by {
      assert Weave(g[1..], t[1..]) == "|";
    }
    assert IsSplit(s, Bar, g, t);
    SplitUnique(s, Bar, g, t);
    TruncateSplit(s, Bar, g, t);
  }

  /**
   In `a#b|` the `|` pass finds one segment and cuts the buffer before the
   `|`, so the `#` pass sees `a#b`: the commands are `a` and `b`, not `b|`.
   */
  lemma TrailingBarExample(s: string)
    requires s == "a#b|"
    ensures Classify(s) == Sequential(["a", "b"])
  {
    var r := "a#b";
    TrailingBarPass(s, r);
    assert r == "a" + ['#'] + "b";
    TwoSegments("a", "b", Hash, '#');
  }

  lemma BlankStageSegments(s: string)
    requires s == "ls | | wc"
    ensures Segments(s, Bar) == ["ls ", " ", " wc"]
  {
    var g, t := ["", "|", "|", ""], ["ls ", " ", " wc"];
    assert NoneIn(t[0], Bar) && NoneIn(t[1], Bar) && NoneIn(t[2], Bar);
    assert Weave(g, t) == s by {
      assert Weave(g[2..], t[2..]) == "| wc";
      assert Weave(g[1..], t[1..]) == "| | wc";
    }
    assert IsSplit(s, Bar, g, t);
    SplitUnique(s, Bar, g, t);
  }

  /**
   `ls | | wc` is a three-stage pipeline whose middle stage is a blank:
   the strlen check lets it through and its child executes no words.
   */
  lemma BlankStageLine(s: string)
    requires s == "ls | | wc"
    ensures Classify(s) == Piped(["ls ", " ", " wc"])
    ensures Fork(StageEvents(3, 1, [])) in Respond(s)
  {
    BlankStageSegments(s);
    BlankStageExample(["ls ", " ", " wc"]);
  }

  /** One delimiter followed by a non-empty delimiter-free string is one segment, and the pass leaves the buffer whole. */
  lemma LeadingDelimiter(c: char, t: string, d: set<char>)
    requires c in d && t != [] && NoneIn(t, d)
    ensures Segments([c] + t, d) == [t] && Truncate([c] + t, d) == [c] + t
  {
    var s := [c] + t;
    assert Weave([[c], []], [t]) == s by {
      assert Weave([[c], []][1..], [t][1..]) == [];
    }
    assert IsSplit(s, d, [[c], []], [t]);
    SplitUnique(s, d, [[c], []], [t]);
    TruncateSplit(s, d, [[c], []], [t]);
  }

  lemma LeadingBarSplit(s: string)
    requires s == "|ls"
    ensures Classify(s) == Single(s)
  {
    assert s == ['|'] + "ls" && NoneIn("ls", Bar);
    LeadingDelimiter('|', "ls", Bar);
    assert NoneIn(s, Hash) && NoneIn(s, Amp);
    Untouched(s, Hash);
    Untouched(s, Amp);
  }

  /** `|ls` finds one `|`-segment, so it is a single command: the program named `|ls`. */
  lemma LeadingBarExample(s: string)
    requires s == "|ls"
    ensures Classify(s) == Single(s)
    ensures Respond(s) == [Fork([Exec([s])]), Wait]
  {
    LeadingBarSplit(s);
    assert NoneIn(s, Blanks);
    OneWordCommand(s);
  }

  lemma OperatorsOnlyAmp(s: string)
    requires s == "|&"
    ensures |Segments(s, Amp)| == 1 && Truncate(s, Amp) == "|"
  {
    assert IsSplit(s, Amp, ["", "&"], ["|"]) by {
      assert NoneIn("|", Amp);
    }
    SplitUnique(s, Amp, ["", "&"], ["|"]);
    TruncateSplit(s, Amp, ["", "&"], ["|"]);
  }

  lemma OperatorsOnlySplit(s: string)
    requires s == "|&"
    ensures Classify(s) == Single("|")
  {
    assert s == ['|'] + "&" && NoneIn("&", Bar);
    LeadingDelimiter('|', "&", Bar);
    assert NoneIn(s, Hash);
    Untouched(s, Hash);
    OperatorsOnlyAmp(s);
  }

  /**
   `|&` is made only of operators. The `|` pass keeps it whole, having found
   the one segment `&`; the `&` pass then cuts it to `|`, which runs as the
   program named `|`.
   */
  lemma OperatorsOnlyExample(s: string)
    requires s == "|&"
    ensures Classify(s) == Single("|")
    ensures Respond(s) == [Fork([Exec(["|"])]), Wait]
  {
    OperatorsOnlySplit(s);
    assert NoneIn("|", Blanks);
    OneWordCommand("|");
  }
}
