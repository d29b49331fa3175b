/**
 One command: `parse_command` splits it into words on spaces and tabs, and
 `execute_command` dispatches on the words — nothing for no words, the
 `exit` and `cd` built-ins, and otherwise a child that applies the first
 standalone `>` redirection and executes what comes before it.
 */
module Command {
  import opened Nullable
  import opened Text
  import opened Split
  import opened Strtok
  import opened Events

  /** The delimiters `parse_command` hands to `strtok`. */
  const Blanks: set<char> := {' ', '\t'}

  /** The words of a command: its maximal runs of characters other than space and tab. */
  function Words(cmd: string): seq<string> {
    Segments(cmd, Blanks)
  }

  /** The NULL-terminated argument array holding `words`. */
  function CArgs(words: seq<string>): (args: seq<Option<string>>)
    ensures |args| == |words| + 1 && args[|words|] == None
    ensures forall i :: 0 <= i < |words| ==> args[i] == Some(words[i])
  {
    if words == [] then [None] else [Some(words[0])] + CArgs(words[1..])
  }

  /** What `execvp` receives from an argument array: the entries before the first NULL. */
  function Argv(args: seq<Option<string>>): seq<string> {
    if args == [] || args[0].None? then [] else [args[0].value] + Argv(args[1..])
  }

  /** Reading back the array of `words` up to its NULL gives `words`. */
  lemma {:induction false} ArgvOfCArgs(words: seq<string>)
    ensures Argv(CArgs(words)) == words
  {
    if words != [] {
      assert CArgs(words)[1..] == CArgs(words[1..]);
      ArgvOfCArgs(words[1..]);
    }
  }

  /** Putting NULL in place of entry `k` ends the array there: `execvp` sees the first `k` words. */
  lemma {:induction false} ArgvOfCut(words: seq<string>, k: nat)
    requires k < |words|
    ensures Argv(CArgs(words)[k := None]) == words[..k]
  {
    if k > 0 {
      var r := CArgs(words[1..]);
      assert CArgs(words) == [Some(words[0])] + r;
      UpdateCons(Some(words[0]), r, k, None);
      var a := [Some(words[0])] + r[k - 1 := None];
      assert a[1..] == r[k - 1 := None];
      ArgvOfCut(words[1..], k - 1);
      assert words[..k] == [words[0]] + words[1..][..k - 1];
    }
  }

  lemma UpdateCons<T>(x: T, r: seq<T>, k: nat, v: T)
    requires 0 < k <= |r|
    ensures ([x] + r)[k := v] == [x] + r[k - 1 := v]
  {
  }

  /**
   `parse_command(cmd, args)`: the `strtok` loop on spaces and tabs stores
   every word of the command into `args`, in order, and a NULL after the
   last. `cmd` is the buffer from the command's first character on; the
   command is the C string it holds. The array has `MaxArgs` entries and the
   loop does not check that bound, so the words must leave room for the NULL.
   */
  method ParseCommand(cmd: seq<char>) returns (args: seq<Option<string>>)
    requires |Words(View(cmd))| < MaxArgs
    ensures 1 <= |args| <= MaxArgs && args[|args| - 1] == None
    ensures forall i :: 0 <= i < |args| - 1 ==> args[i].Some? && args[i].value != [] && NoneIn(args[i].value, Blanks)
    ensures Argv(args) == Words(View(cmd)) && args == CArgs(Argv(args))
  {
    var words, buf := Pass(cmd, Blanks);
    args := CArgs(words);
    ArgvOfCArgs(words);
  }

  /** The position of the first standalone `>` word, or the word count when there is none. */
  function FirstRedirect(words: seq<string>): (k: nat)
    ensures k <= |words|
    ensures forall j :: 0 <= j < k ==> words[j] != ">"
    ensures k < |words| ==> words[k] == ">"
  {
    if words == [] || words[0] == ">" then 0 else 1 + FirstRedirect(words[1..])
  }

  /** What the child does with its arguments before `execvp`. */
  datatype Setup =
    | Plain(args: seq<Option<string>>)                  // no `>`: the array as it is
    | Redirect(path: string, args: seq<Option<string>>) // stdout to `path`, array cut at the `>`
    | MissingTarget                                     // `>` is the last word

  /** The setup the redirection scan produces for the child of a command with `words`. */
  function RedirectSetup(words: seq<string>): Setup {
    var k := FirstRedirect(words);
    if k == |words| then Plain(CArgs(words))
    else if k + 1 == |words| then MissingTarget
    else Redirect(words[k + 1], CArgs(words)[k := None])
  }

  /**
   The child's loop `for (i = 0; args[i] != NULL; i++) if (strcmp(args[i], ">") == 0) ...`:
   it stops at the first `>`, fails when no word follows it, and otherwise
   sets that entry to NULL after redirecting to the next word.
   */
  method ScanRedirect(args: seq<Option<string>>, ghost words: seq<string>) returns (setup: Setup)
    requires args == CArgs(words)
    ensures setup == RedirectSetup(words)
  {
    var i := 0;
    while args[i].Some?
      invariant 0 <= i <= |words|
      invariant forall j :: 0 <= j < i ==> words[j] != ">"
      decreases |words| - i
    {
      assert i < |words| by { assert args[|words|].None?; }
      if args[i].value == ">" {
        assert FirstRedirect(words) == i;
        if args[i + 1].None? {
          return MissingTarget;
        }
        return Redirect(args[i + 1].value, args[i := None]);
      }
      i := i + 1;
    }
    assert FirstRedirect(words) == |words|;
    return Plain(args);
  }

  /** The child's history once its setup is known. */
  function SetupEvents(setup: Setup): seq<Event> {
    match setup
    case Plain(args) => [Exec(Argv(args))]
    case Redirect(path, args) => [RedirectStdout(path), Exec(Argv(args))]
    case MissingTarget => [Report(NoFileAfterRedirect), Exit(1)]
  }

  /** The history of the shell process while `execute_command` runs `cmd`. */
  function Execute(cmd: string): seq<Event> {
    var w := Words(cmd);
    if w == [] then []
    else if w[0] == "exit" then [Exit(0)]
    else if w[0] == "cd" then (if |w| == 1 then [Report(CdNeedsArgument)] else [Chdir(w[1])])
    else [Fork(SetupEvents(RedirectSetup(w))), Wait]
  }

  /**
   `execute_command(cmd)`: parse the words with `strtok`, then dispatch on
   the array the way the C code checks it, entry by entry.
   */
  method ExecuteCommand(cmd: seq<char>) returns (trace: seq<Event>)
    requires |Words(View(cmd))| < MaxArgs
    ensures trace == Execute(View(cmd))
  {
    var args := ParseCommand(cmd);
    ghost var words := Words(View(cmd));
    if args[0].None? {
      return [];
    }
    if args[0].value == "exit" {
      return [Exit(0)];
    }
    if args[0].value == "cd" {
      if args[1].None? {
        return [Report(CdNeedsArgument)];
      }
      return [Chdir(args[1].value)];
    }
    var setup := ScanRedirect(args, words);
    trace := [Fork(SetupEvents(setup)), Wait];
  }

  /** A command whose first word is `exit`: the built-in that ends the shell. */
  predicate ExitCommand(cmd: string) {
    Words(cmd) != [] && Words(cmd)[0] == "exit"
  }

  /**
   Dispatch: a command without words does nothing; first word `exit` ends
   the shell with status 0 and nothing else; `cd` alone reports an error,
   `cd p` changes directory to `p`, and neither forks; only every other
   command reaches `fork`, and then the shell waits for that child.
   */
  lemma DispatchLaw(cmd: string)
    ensures Execute(cmd) == [] <==> Words(cmd) == []
    ensures Halts(Execute(cmd)) <==> ExitCommand(cmd)
    ensures Halts(Execute(cmd)) ==> Execute(cmd) == [Exit(0)]
    ensures Execute(cmd) == [Report(CdNeedsArgument)] <==> Words(cmd) == ["cd"]
    ensures forall p :: Execute(cmd) == [Chdir(p)] <==> |Words(cmd)| >= 2 && Words(cmd)[0] == "cd" && p == Words(cmd)[1]
    ensures Count(Execute(cmd), IsFork) <= 1
    ensures Count(Execute(cmd), IsFork) == 1 <==> Words(cmd) != [] && Words(cmd)[0] != "exit" && Words(cmd)[0] != "cd"
    ensures Count(Execute(cmd), IsFork) == 1 ==> |Execute(cmd)| == 2 && Execute(cmd)[0].Fork? && Execute(cmd)[1] == Wait
  {
    var w := Words(cmd);
    HaltsIffExit(cmd);
    ForksIff(cmd);
    if w != [] && w[0] == "cd" && |w| == 1 {
      assert w == ["cd"];
    }
  }

  /** A command ends the shell exactly when its first word is `exit`. */
  lemma HaltsIffExit(cmd: string)
    ensures Halts(Execute(cmd)) <==> ExitCommand(cmd)
  {
    var w := Words(cmd);
    var t := Execute(cmd);
    if w == [] {
      assert t == [];
    } else if w[0] == "exit" {
      assert t[0].Exit?;
    } else if w[0] == "cd" {
      assert |t| == 1 && !t[0].Exit?;
    } else {
      assert |t| == 2 && !t[0].Exit? && !t[1].Exit?;
    }
  }

  /** A command forks at most once, exactly when it is not a built-in, and its trace is then the fork and the wait. */
  lemma ForksIff(cmd: string)
    ensures Count(Execute(cmd), IsFork) <= 1
    ensures Count(Execute(cmd), IsFork) == 1 <==> Words(cmd) != [] && Words(cmd)[0] != "exit" && Words(cmd)[0] != "cd"
    ensures Count(Execute(cmd), IsFork) == 1 ==> |Execute(cmd)| == 2 && Execute(cmd)[0].Fork? && Execute(cmd)[1] == Wait
  {
    var w := Words(cmd);
    var t := Execute(cmd);
    if w == [] {
      assert t == [];
    } else if w[0] == "exit" || w[0] == "cd" {
      assert |t| == 1 && !IsFork(t[0]) && t[1..] == [];
    } else {
      assert t[1..] == [Wait] && [Wait][1..] == [];
    }
  }

  /** A command made only of spaces and tabs does nothing. */
  lemma BlankCommand(cmd: string)
    ensures Execute(cmd) == [] <==> AllIn(cmd, Blanks)
  {
    NoSegmentsIff(cmd, Blanks);
  }

  /**
   Redirection: only a standalone `>` word counts, and only the first. With
   no word after it the child reports and exits with status 1; otherwise its
   stdout goes to the next word and it executes exactly the words before the
   `>`, whatever follows the file name. Without a `>` word it executes all words.
   */
  lemma RedirectLaw(words: seq<string>)
    ensures ">" !in words <==> SetupEvents(RedirectSetup(words)) == [Exec(words)]
    ensures SetupEvents(RedirectSetup(words)) == [Report(NoFileAfterRedirect), Exit(1)] <==>
      ">" in words && ">" !in words[..|words| - 1]
    ensures forall k, p :: 0 <= k < |words| - 1 ==>
      (SetupEvents(RedirectSetup(words)) == [RedirectStdout(p), Exec(words[..k])] <==>
        words[k] == ">" && ">" !in words[..k] && p == words[k + 1])
  {
    var k := FirstRedirect(words);
    if k == |words| {
      ArgvOfCArgs(words);
      assert ">" !in words by {
        forall j | 0 <= j < |words| ensures words[j] != ">" { }
      }
    } else {
      assert ">" in words;
      assert ">" !in words[..k] by {
        forall j | 0 <= j < k ensures words[..k][j] != ">" { }
      }
      if k + 1 < |words| {
        ArgvOfCut(words, k);
        assert ">" in words[..|words| - 1] by { assert words[..|words| - 1][k] == ">"; }
      }
      forall k': nat | k' < |words| - 1 && words[k'] == ">" && ">" !in words[..k']
        ensures k' == k
      {
      }
    }
  }

  /** A string without blanks is one word. */
  lemma OneWord(w: string)
    requires w != [] && NoneIn(w, Blanks)
    ensures Words(w) == [w]
  {
    assert IsSplit(w, Blanks, ["", ""], [w]);
    SplitUnique(w, Blanks, ["", ""], [w]);
  }

  /** A one-word command other than `exit`, `cd` and `>` forks a child that executes that word as a program. */
  lemma OneWordCommand(w: string)
    requires w != [] && NoneIn(w, Blanks) && w != "exit" && w != "cd" && w != ">"
    ensures Execute(w) == [Fork([Exec([w])]), Wait]
  {
    OneWord(w);
    assert FirstRedirect([w]) == 1 by {
      assert [w][1..] == [];
    }
    ArgvOfCArgs([w]);
  }

  /** `ls>out` is one word: no redirection, the child executes it as a program name. */
  lemma GluedRedirectIsAWord(s: string)
    requires s == "ls>out"
    ensures Execute(s) == [Fork([Exec([s])]), Wait]
  {
    assert NoneIn(s, Blanks);
    OneWordCommand(s);
  }

  /** The words of `ls > out.txt`. */
  lemma RedirectExampleWords(s: string)
    requires s == "ls > out.txt"
    ensures Words(s) == ["ls", ">", "out.txt"]
  {
    var g, t := ["", " ", " ", ""], ["ls", ">", "out.txt"];
    assert AllIn(g[1], Blanks) && AllIn(g[2], Blanks);
    assert NoneIn(t[0], Blanks) && NoneIn(t[1], Blanks) && NoneIn(t[2], Blanks);
    assert Weave(g, t) == s by {
      assert Weave(g[3..], t[3..]) == "";
      assert Weave(g[2..], t[2..]) == " out.txt";
      assert Weave(g[1..], t[1..]) == " > out.txt";
    }
    assert IsSplit(s, Blanks, g, t);
    SplitUnique(s, Blanks, g, t);
  }

  /** `ls > out.txt`: the child sends stdout to `out.txt` and executes `ls`. */
  lemma RedirectExample(s: string)
    requires s == "ls > out.txt"
    ensures Execute(s) == [Fork([RedirectStdout("out.txt"), Exec(["ls"])]), Wait]
  {
    var t := ["ls", ">", "out.txt"];
    RedirectExampleWords(s);
    assert FirstRedirect(t) == 1 by {
      assert t[1..] == [">", "out.txt"];
    }
    ArgvOfCut(t, 1);
    assert t[..1] == ["ls"];
  }
}
