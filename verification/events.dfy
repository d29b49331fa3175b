/**
 The shell's effects on the operating system, as an abstract trace. Each
 system call the shell makes becomes one event; a forked child's own
 events are nested inside the `Fork` that creates it, so a trace is the
 history of one process. Whether a call succeeds, what a program does once
 it is executed, and how children are scheduled are the system's business
 and are not modelled.
 */
module Events {
  /** The two standard streams a child may have redirected. */
  datatype Stream = Stdin | Stdout

  /** The three messages the shell itself writes to stderr. */
  datatype Diagnostic = CdNeedsArgument | NoFileAfterRedirect | NullCommandNearPipe

  datatype Event =
    | Fork(child: seq<Event>)          // fork(); the child's history
    | Wait                             // wait(NULL)
    | Exit(status: int)                // exit(status)
    | Chdir(path: string)              // chdir(path)
    | Report(diagnostic: Diagnostic)   // fprintf(stderr, ...)
    | RedirectStdout(path: string)     // open(path, O_WRONLY|O_CREAT|O_TRUNC), dup2 onto stdout, close
    | MakePipe(pipe: nat)              // pipe(pipefd + 2 * pipe)
    | Dup2(slot: nat, onto: Stream)    // dup2(pipefd[slot], onto)
    | Close(slot: nat)                 // close(pipefd[slot])
    | Exec(argv: seq<string>)          // execvp(argv[0], argv)

  /** The process ends within this trace: `exit` is called at its own level. */
  predicate Halts(t: seq<Event>) {
    exists i :: 0 <= i < |t| && t[i].Exit?
  }

  /** How many events of the trace (at its own level) satisfy `p`. */
  function Count(t: seq<Event>, p: Event -> bool): (n: nat)
    ensures n <= |t|
  {
    if t == [] then 0 else (if p(t[0]) then 1 else 0) + Count(t[1..], p)
  }

  lemma {:induction false} CountAppend(a: seq<Event>, b: seq<Event>, p: Event -> bool)
    ensures Count(a + b, p) == Count(a, p) + Count(b, p)
  {
    if a != [] {
      assert (a + b)[1..] == a[1..] + b;
      CountAppend(a[1..], b, p);
    } else {
      assert a + b == b;
    }
  }

  /** Every event satisfies `p`: the count is the length. */
  lemma {:induction false} CountAll(t: seq<Event>, p: Event -> bool)
    requires forall i :: 0 <= i < |t| ==> p(t[i])
    ensures Count(t, p) == |t|
  {
    if t != [] {
      CountAll(t[1..], p);
    }
  }

  /** No event satisfies `p`: the count is zero. */
  lemma {:induction false} CountNone(t: seq<Event>, p: Event -> bool)
    requires forall i :: 0 <= i < |t| ==> !p(t[i])
    ensures Count(t, p) == 0
  {
    if t != [] {
      CountNone(t[1..], p);
    }
  }

  predicate IsFork(e: Event) { e.Fork? }
  predicate IsWait(e: Event) { e.Wait? }
  predicate IsClose(e: Event) { e.Close? }
}
