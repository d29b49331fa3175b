/**
 `execute_pipeline(commands, n)`: after checking that no command is empty,
 the shell makes n - 1 pipes in one flat descriptor array of 2(n - 1)
 slots (pipe p owns slot 2p, its read end, and slot 2p + 1, its write
 end), forks one child per stage, closes every slot itself and waits n times.
 Stage i reads from slot 2(i - 1) when it has a predecessor, writes to slot
 2i + 1 when it has a successor, closes every slot and executes its words.
 */
module Pipeline {
  import opened Text
  import opened Split
  import opened Events
  import opened Command

  /** The size of `pipefd` for `n` stages. */
  function SlotCount(n: nat): nat
    requires n >= 1
  {
    2 * (n - 1)
  }

  /** The slot stage `i` reads from: `pipefd[(i-1)*2]`. */
  function ReadSlot(i: nat): nat
    requires i >= 1
  {
    2 * (i - 1)
  }

  /** The slot stage `i` writes to: `pipefd[i*2 + 1]`. */
  function WriteSlot(i: nat): nat {
    2 * i + 1
  }

  /** `close(pipefd[j])` for every slot, in order. */
  function CloseAll(m: nat): (t: seq<Event>)
    ensures |t| == m && forall j :: 0 <= j < m ==> t[j] == Close(j)
  {
    seq(m, j requires 0 <= j => Close(j))
  }

  /** `pipe(pipefd + i*2)` for the first `k` pipes, in order. */
  function MakePipes(k: nat): (t: seq<Event>)
    ensures |t| == k && forall j :: 0 <= j < k ==> t[j] == MakePipe(j)
  {
    seq(k, j requires 0 <= j => MakePipe(j))
  }

  /** One `fork` per stage, each child running its stage. */
  function ForkStages(cmds: seq<string>): (t: seq<Event>)
    ensures |t| == |cmds|
    ensures forall i :: 0 <= i < |cmds| ==> t[i] == Fork(StageEvents(|cmds|, i, Words(cmds[i])))
  {
    seq(|cmds|, i requires 0 <= i < |cmds| => Fork(StageEvents(|cmds|, i, Words(cmds[i]))))
  }

  /** `wait(NULL)`, `n` times. */
  function Waits(n: nat): (t: seq<Event>)
    ensures |t| == n && forall j :: 0 <= j < n ==> t[j] == Wait
  {
    seq(n, j => Wait)
  }

  /** The history of the child running stage `i` of `n`, whose command has `words`. */
  function StageEvents(n: nat, i: nat, words: seq<string>): seq<Event>
    requires i < n
  {
    (if i > 0 then [Dup2(ReadSlot(i), Stdin)] else [])
    + (if i < n - 1 then [Dup2(WriteSlot(i), Stdout)] else [])
    + CloseAll(SlotCount(n))
    + [Exec(words)]
  }

  /** The validation loop rejects the pipeline: some command is the empty string. */
  predicate HasEmpty(cmds: seq<string>) {
    exists i :: 0 <= i < |cmds| && cmds[i] == []
  }

  /** The history of the shell process while `execute_pipeline` runs the `n = |cmds|` stages. */
  function ExecutePipeline(cmds: seq<string>): seq<Event>
    requires |cmds| >= 1
  {
    var n := |cmds|;
    if HasEmpty(cmds) then [Report(NullCommandNearPipe)]
    else
      MakePipes(n - 1) + ForkStages(cmds) + CloseAll(SlotCount(n)) + Waits(n)
  }

  /** The loop `for (j = 0; j < 2*(num_cmds-1); j++) close(pipefd[j]);`, run by each child and by the parent. */
  method CloseSlots(n: nat) returns (t: seq<Event>)
    requires n >= 1
    ensures t == CloseAll(SlotCount(n))
  {
    t := [];
    var j := 0;
    while j < 2 * (n - 1)
      invariant 0 <= j <= 2 * (n - 1)
      invariant t == CloseAll(j)
    {
      t := t + [Close(j)];
      j := j + 1;
    }
  }

  /** The child of stage `i`: redirect its ends, close every slot, execute its words. */
  method RunStage(n: nat, i: nat, words: seq<string>) returns (t: seq<Event>)
    requires i < n
    ensures t == StageEvents(n, i, words)
  {
    t := [];
    if i > 0 {
      t := t + [Dup2((i - 1) * 2, Stdin)];
    }
    if i < n - 1 {
      t := t + [Dup2(i * 2 + 1, Stdout)];
    }
    var closes := CloseSlots(n);
    t := t + closes + [Exec(words)];
  }

  /**
   `execute_pipeline(commands, num_cmds)` loop by loop: validate every
   command, make the pipes, fork the stages, close every slot, wait for
   every child.
   */
  method RunPipeline(cmds: seq<string>) returns (trace: seq<Event>)
    requires |cmds| >= 1
    ensures trace == ExecutePipeline(cmds)
  {
    var n := |cmds|;
    var i := 0;
    while i < n
      invariant 0 <= i <= n
      invariant forall k :: 0 <= k < i ==> cmds[k] != []
    {
      if |cmds[i]| == 0 {
        return [Report(NullCommandNearPipe)];
      }
      i := i + 1;
    }
    trace := [];
    i := 0;
    while i < n - 1
      invariant 0 <= i <= n - 1
      invariant trace == MakePipes(i)
    {
      trace := trace + [MakePipe(i)];
      i := i + 1;
    }
    i := 0;
    while i < n
      invariant 0 <= i <= n
      invariant trace == MakePipes(n - 1) + ForkStages(cmds)[..i]
    {
      var child := RunStage(n, i, Words(cmds[i]));
      assert ForkStages(cmds)[..i + 1] == ForkStages(cmds)[..i] + [Fork(child)];
      trace := trace + [Fork(child)];
      i := i + 1;
    }
    assert ForkStages(cmds)[..n] == ForkStages(cmds);
    var closes := CloseSlots(n);
    trace := trace + closes;
    i := 0;
    ghost var front := trace;
    while i < n
      invariant 0 <= i <= n
      invariant trace == front + Waits(i)
    {
      trace := trace + [Wait];
      i := i + 1;
    }
  }

  /** The stage that redirects slot `s`: the writer of pipe `s / 2` for odd `s`, its reader for even `s`. */
  function StageOf(s: nat): nat {
    if s % 2 == 1 then s / 2 else s / 2 + 1
  }

  /** Stage `i` redirects slot `s` onto one of its standard streams. */
  predicate Redirects(n: nat, i: nat, s: nat)
    requires i < n
  {
    Dup2(s, Stdin) in StageEvents(n, i, []) || Dup2(s, Stdout) in StageEvents(n, i, [])
  }

  /** The redirections of a stage do not depend on its command's words. */
  lemma StageDup2(n: nat, i: nat, words: seq<string>, s: nat, o: Stream)
    requires i < n
    ensures Dup2(s, o) in StageEvents(n, i, words) <==> Dup2(s, o) in StageEvents(n, i, [])
  {
    var pre := (if i > 0 then [Dup2(ReadSlot(i), Stdin)] else []) + (if i < n - 1 then [Dup2(WriteSlot(i), Stdout)] else []);
    var c := CloseAll(SlotCount(n));
    assert StageEvents(n, i, words) == pre + c + [Exec(words)];
    assert StageEvents(n, i, []) == pre + c + [Exec([])];
    assert Dup2(s, o) !in c;
  }

  /**
   Wiring: stage `i` redirects stdin from exactly slot 2(i - 1), and only
   when `i > 0`; it redirects stdout to exactly slot 2i + 1, and only when
   `i < n - 1`. So stage 0 keeps the shell's stdin and stage n - 1 its stdout.
   */
  lemma Wiring(n: nat, i: nat, words: seq<string>, s: nat)
    requires i < n
    ensures Dup2(s, Stdin) in StageEvents(n, i, words) <==> i > 0 && s == 2 * (i - 1)
    ensures Dup2(s, Stdout) in StageEvents(n, i, words) <==> i < n - 1 && s == 2 * i + 1
  {
    var pre := (if i > 0 then [Dup2(ReadSlot(i), Stdin)] else []) + (if i < n - 1 then [Dup2(WriteSlot(i), Stdout)] else []);
    var c := CloseAll(SlotCount(n));
    assert StageEvents(n, i, words) == pre + c + [Exec(words)];
    assert Dup2(s, Stdin) !in c && Dup2(s, Stdout) !in c;
  }

  /** Every slot a stage redirects or closes lies inside `pipefd`. */
  lemma SlotsInRange(n: nat, i: nat, words: seq<string>)
    requires i < n
    ensures forall e :: e in StageEvents(n, i, words) && (e.Dup2? || e.Close?) ==> e.slot < SlotCount(n)
  {
    var pre := (if i > 0 then [Dup2(ReadSlot(i), Stdin)] else []) + (if i < n - 1 then [Dup2(WriteSlot(i), Stdout)] else []);
    var c := CloseAll(SlotCount(n));
    assert StageEvents(n, i, words) == pre + c + [Exec(words)];
    forall e | e in StageEvents(n, i, words) && (e.Dup2? || e.Close?)
      ensures e.slot < SlotCount(n)
    {
      if e in c {
        var j :| 0 <= j < |c| && c[j] == e;
      }
    }
  }

  /** Each slot is redirected by exactly one stage, the one `StageOf` names. */
  lemma ExactlyOnce(n: nat, i: nat, s: nat)
    requires i < n
    ensures Redirects(n, i, s) <==> s < SlotCount(n) && i == StageOf(s)
  {
    Wiring(n, i, [], s);
  }

  /** Pipe `p` connects stage `p`, which writes into slot 2p + 1, to stage `p + 1`, which reads slot 2p. */
  lemma PipeEnds(n: nat, p: nat, w: seq<string>, w': seq<string>)
    requires p < n - 1
    ensures Dup2(2 * p + 1, Stdout) in StageEvents(n, p, w)
    ensures Dup2(2 * p, Stdin) in StageEvents(n, p + 1, w')
  {
    Wiring(n, p, w, 2 * p + 1);
    Wiring(n, p + 1, w', 2 * p);
  }

  /** A stage closes every slot before it executes, and executing is the last thing it does. */
  lemma ClosesBeforeExec(n: nat, i: nat, words: seq<string>)
    requires i < n
    ensures var t := StageEvents(n, i, words);
      && t[|t| - 1] == Exec(words)
      && (forall k :: 0 <= k < |t| - 1 ==> !t[k].Exec?)
      && (forall s :: 0 <= s < SlotCount(n) ==> Close(s) in t[..|t| - 1])
  {
    var pre := (if i > 0 then [Dup2(ReadSlot(i), Stdin)] else []) + (if i < n - 1 then [Dup2(WriteSlot(i), Stdout)] else []);
    var c := CloseAll(SlotCount(n));
    var t := StageEvents(n, i, words);
    assert t == (pre + c) + [Exec(words)];
    assert t[..|t| - 1] == pre + c;
    forall s | 0 <= s < SlotCount(n) ensures Close(s) in t[..|t| - 1] {
      assert c[s] == Close(s);
    }
  }

  /** Counting over the four phases of the parent separately. */
  lemma {:induction false} PhaseCount(P: seq<Event>, F: seq<Event>, C: seq<Event>, W: seq<Event>, p: Event -> bool)
    ensures Count(P + F + C + W, p) == Count(P, p) + Count(F, p) + Count(C, p) + Count(W, p)
  {
    CountAppend(P + F + C, W, p);
    CountAppend(P + F, C, p);
    CountAppend(P, F, p);
  }

  /** The parent closes slot `s` itself exactly when `s` is a slot of `pipefd`. */
  lemma ParentCloses(cmds: seq<string>, s: nat)
    requires |cmds| >= 1 && !HasEmpty(cmds)
    ensures Close(s) in ExecutePipeline(cmds) <==> s < SlotCount(|cmds|)
  {
    var n := |cmds|;
    var P, F, C, W := MakePipes(n - 1), ForkStages(cmds), CloseAll(SlotCount(n)), Waits(n);
    assert ExecutePipeline(cmds) == P + F + C + W;
    assert Close(s) !in P && Close(s) !in F && Close(s) !in W;
    if s < SlotCount(n) {
      assert C[s] == Close(s);
    }
  }

  /**
   The parent's lifecycle when no command is empty: it forks n children,
   closes each of the 2(n - 1) slots of `pipefd` and no other, and waits n times.
   */
  lemma LifecycleCounts(cmds: seq<string>)
    requires |cmds| >= 1 && !HasEmpty(cmds)
    ensures Count(ExecutePipeline(cmds), IsFork) == |cmds|
    ensures Count(ExecutePipeline(cmds), IsClose) == SlotCount(|cmds|)
    ensures forall s: nat :: Close(s) in ExecutePipeline(cmds) <==> s < SlotCount(|cmds|)
    ensures Count(ExecutePipeline(cmds), IsWait) == |cmds|
  {
    forall s: nat ensures Close(s) in ExecutePipeline(cmds) <==> s < SlotCount(|cmds|) {
      ParentCloses(cmds, s);
    }
    var n := |cmds|;
    var P, F, C, W := MakePipes(n - 1), ForkStages(cmds), CloseAll(SlotCount(n)), Waits(n);
    PhaseCount(P, F, C, W, IsFork);
    CountNone(P, IsFork);
    CountAll(F, IsFork);
    CountNone(C, IsFork);
    CountNone(W, IsFork);
    PhaseCount(P, F, C, W, IsClose);
    CountNone(P, IsClose);
    CountNone(F, IsClose);
    CountAll(C, IsClose);
    CountNone(W, IsClose);
    PhaseCount(P, F, C, W, IsWait);
    CountNone(P, IsWait);
    CountNone(F, IsWait);
    CountNone(C, IsWait);
    CountAll(W, IsWait);
  }

  /**
   The parent's order: every pipe is made before the first fork, every
   slot is closed after the last fork, and the waits come last.
   */
  lemma LifecycleOrder(cmds: seq<string>)
    requires |cmds| >= 1 && !HasEmpty(cmds)
    ensures var t := ExecutePipeline(cmds);
      && (forall a, b :: 0 <= a < b < |t| && t[b].MakePipe? ==> t[a].MakePipe?)
      && (forall a, b :: 0 <= a < b < |t| && t[a].Close? ==> !t[b].Fork?)
      && (forall a, b :: 0 <= a < b < |t| && t[a].Wait? ==> t[b].Wait?)
  {
    var n := |cmds|;
    var P, F, C, W := MakePipes(n - 1), ForkStages(cmds), CloseAll(SlotCount(n)), Waits(n);
    var t := ExecutePipeline(cmds);
    assert t == P + F + C + W;
    assert forall a :: 0 <= a < |t| ==> (t[a].MakePipe? <==> a < |P|);
    assert forall a :: 0 <= a < |t| ==> (t[a].Fork? <==> |P| <= a < |P| + |F|);
    assert forall a :: 0 <= a < |t| ==> (t[a].Close? <==> |P| + |F| <= a < |P| + |F| + |C|);
    assert forall a :: 0 <= a < |t| ==> (t[a].Wait? <==> |P| + |F| + |C| <= a);
  }

  /** Once every command passed the validation loop, the shell reports nothing. */
  lemma ValidatedPipeline(cmds: seq<string>)
    requires |cmds| >= 1 && !HasEmpty(cmds)
    ensures forall j :: 0 <= j < |ExecutePipeline(cmds)| ==> !ExecutePipeline(cmds)[j].Report?
  {
    var n := |cmds|;
    var P, F, C, W := MakePipes(n - 1), ForkStages(cmds), CloseAll(SlotCount(n)), Waits(n);
    var t := ExecutePipeline(cmds);
    assert t == P + F + C + W;
  }

  /**
   A stage of blanks passes the validation loop, which only rejects the
   empty string: among the stages `ls `, ` ` and ` wc` the middle stage's
   child executes an empty argument vector.
   */
  lemma BlankStageExample(cmds: seq<string>)
    requires cmds == ["ls ", " ", " wc"]
    ensures !HasEmpty(cmds)
    ensures Fork(StageEvents(3, 1, [])) in ExecutePipeline(cmds)
  {
    assert cmds[0] != [] && cmds[1] != [] && cmds[2] != [];
    assert AllIn(cmds[1], Blanks);
    NoSegmentsIff(cmds[1], Blanks);
    assert ExecutePipeline(cmds)[2 + 1] == ForkStages(cmds)[1];
  }
}
