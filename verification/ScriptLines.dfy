/** What each kind of shell line does to the walk of ScriptWalk, line by line: which lines set variables and to what,
    which ones bring another script in, and which do nothing. Lines act in turn, so the laws hold anywhere in a script. */
module ScriptLines {
  import opened ScriptWalk
  import opened Wrappers

  /** The line `words` with the assignments `assigns` in front of it. */
  function Line(assigns: seq<(string, string)>, words: seq<string>): Action {
    Run(Simple(assigns, words))
  }

  /** What one line does. */
  ghost function LineDone(w: World, g: Global, line: Action, l: Local): Result {
    Body(w, g, [line], l)
  }

  lemma {:induction false} BodyConcat(w: World, g: Global, a: seq<Action>, b: seq<Action>, l: Local)
    ensures var first := Body(w, g, a, l); Body(w, g, a + b, l) == Body(w, first.g, b, first.l)
    decreases |a|
  {
    hide EffectOfAction, Act;
    if a == [] {
      assert a + b == b;
    } else {
      BodyOnce(w, g, a, l);
      BodyOnce(w, g, a + b, l);
      assert (a + b)[0] == a[0] && (a + b)[1..] == a[1..] + b;
      var first := Act(w, g, EffectOfAction(w, a[0], l.vars, l.funcs), l);
      BodyConcat(w, first.g, a[1..], b, first.l);
    }
  }

  /** Lines act in turn: the lines after one find what it has left. */
  lemma LinesActInTurn(w: World, g: Global, before: seq<Action>, line: Action, after: seq<Action>, l: Local)
    ensures var first := Body(w, g, before, l);
            var done := LineDone(w, first.g, line, first.l);
            Body(w, g, before + [line] + after, l) == Body(w, done.g, after, done.l)
  {
    BodyConcat(w, g, before + [line], after, l);
    BodyConcat(w, g, before, [line], l);
  }

  lemma OneLine(w: World, g: Global, line: Action, l: Local)
    ensures LineDone(w, g, line, l) == Act(w, g, EffectOfAction(w, line, l.vars, l.funcs), l)
  {
    hide EffectOfAction, Act;
    BodyOnce(w, g, [line], l);
    assert [line][1..] == [];
  }

  // ---------------------------------------------------------------------------------------------------------
  // Lines that set variables

  lemma {:induction false} AssignedKeeps(w: World, vars: Vars, assigns: seq<(string, string)>, scope: Vars, x: string)
    requires forall i | 0 <= i < |assigns| :: assigns[i].0 != x
    ensures var out := Assigned(w, vars, assigns, scope);
            (x in out <==> x in vars) && (x in vars ==> out[x] == vars[x])
    decreases |assigns|
  {
    if assigns != [] {
      assert assigns[0].0 != x;
      AssignedKeeps(w, vars[assigns[0].0 := w.expand(assigns[0].1, scope)], assigns[1..], scope, x);
    }
  }

  lemma {:induction false} AssignedSets(w: World, vars: Vars, assigns: seq<(string, string)>, scope: Vars, i: nat)
    requires i < |assigns| && forall j | i < j < |assigns| :: assigns[j].0 != assigns[i].0
    ensures var x, out := assigns[i].0, Assigned(w, vars, assigns, scope);
            x in out && out[x] == w.expand(assigns[i].1, scope)
    decreases |assigns|
  {
    var vars1 := vars[assigns[0].0 := w.expand(assigns[0].1, scope)];
    if i == 0 {
      AssignedKeeps(w, vars1, assigns[1..], scope, assigns[0].0);
    } else {
      assert assigns[1..][i - 1] == assigns[i];
      AssignedSets(w, vars1, assigns[1..], scope, i - 1);
    }
  }

  /** A line of assignments alone gives each variable the value of its last one, expanded under the variables before the
      line, and does nothing else. */
  lemma AssignmentLineSets(w: World, g: Global, assigns: seq<(string, string)>, l: Local, i: nat)
    requires i < |assigns| && forall j | i < j < |assigns| :: assigns[j].0 != assigns[i].0
    ensures var x, done := assigns[i].0, LineDone(w, g, Line(assigns, []), l);
            && done.g == g && done.l.funcs == l.funcs
            && x in done.l.vars && done.l.vars[x] == w.expand(assigns[i].1, l.vars)
  {
    OneLine(w, g, Line(assigns, []), l);
    hide Assigned;
    AssignedSets(w, l.vars, assigns, l.vars, i);
  }

  /** All other variables stay as they were. */
  lemma AssignmentLineKeeps(w: World, g: Global, assigns: seq<(string, string)>, l: Local, x: string)
    requires forall i | 0 <= i < |assigns| :: assigns[i].0 != x
    ensures var done := LineDone(w, g, Line(assigns, []), l);
            && done.g == g && done.l.funcs == l.funcs
            && (x in done.l.vars <==> x in l.vars) && (x in l.vars ==> done.l.vars[x] == l.vars[x])
  {
    OneLine(w, g, Line(assigns, []), l);
    hide Assigned;
    AssignedKeeps(w, l.vars, assigns, l.vars, x);
  }

  /** Assignments in front of a command are for that command and leave no trace in the walk. */
  lemma AssignmentsBeforeCommand(w: World, g: Global, assigns: seq<(string, string)>, words: seq<string>, l: Local)
    requires words != []
    ensures LineDone(w, g, Line(assigns, words), l) == LineDone(w, g, Line([], words), l)
  {
    OneLine(w, g, Line(assigns, words), l);
    OneLine(w, g, Line([], words), l);
    hide Act, Exported, ScriptArg;
  }

  /** export x=v sets x to v expanded; a word that spells no assignment sets nothing. */
  lemma ExportLine(w: World, g: Global, word: string, l: Local)
    ensures LineDone(w, g, Line([], ["export", word]), l)
         == match w.assignment(word)
            case None => Result(g, l)
            case Some(a) => Result(g, l.(vars := l.vars[a.0 := w.expand(a.1, l.vars)]))
  {
    OneLine(w, g, Line([], ["export", word]), l);
    assert ["export", word][1..] == [word];
    ExportedOne(w, l.vars, word);
  }

  lemma ExportedOne(w: World, vars: Vars, word: string)
    ensures Exported(w, vars, [word])
         == match w.assignment(word) case None => vars case Some(a) => vars[a.0 := w.expand(a.1, vars)]
  {
    assert [word][1..] == [];
  }

  /** Several words after export are exported one after the other, each under the variables the ones before it leave. */
  lemma ExportsInTurn(w: World, g: Global, word: string, more: seq<string>, l: Local)
    ensures LineDone(w, g, Line([], ["export", word] + more), l)
         == (var first := LineDone(w, g, Line([], ["export", word]), l);
             LineDone(w, first.g, Line([], ["export"] + more), first.l))
    ensures LineDone(w, g, Line([], ["export"]), l) == Result(g, l)
  {
    ExportLine(w, g, word, l);
    var first := LineDone(w, g, Line([], ["export", word]), l);
    OneLine(w, g, Line([], ["export", word] + more), l);
    OneLine(w, first.g, Line([], ["export"] + more), first.l);
    OneLine(w, g, Line([], ["export"]), l);
    assert (["export", word] + more)[1..] == [word] + more && ([word] + more)[1..] == more;
    assert (["export"] + more)[1..] == more && ["export"][1..] == [];
  }

  // ---------------------------------------------------------------------------------------------------------
  // Lines that bring in another script

  /** Another script walked with a copy of the variables and no functions, its caller as before; nothing if the word led
      nowhere. */
  ghost function Launched(w: World, g: Global, path: Option<Path>, l: Local): Result {
    if path.None? then Result(g, l) else Result(Walk(w, g, path.value, Local(l.vars, {})).g, l)
  }

  /** Once launched, a script that can be read has been expanded. */
  lemma LaunchedIsExpanded(w: World, g: Global, path: Path, l: Local)
    requires ReadScript(w, path).Some?
    ensures ReadScript(w, path).value in Launched(w, g, Some(path), l).g.seen
  {
    SourcingImportsFuncs(w, g, path, Local(l.vars, {}));
  }

  /** . word and source word walk the script they lead to with the caller's own variables and functions. */
  lemma SourceLine(w: World, g: Global, assigns: seq<(string, string)>, cmd: string, word: string, more: seq<string>,
                   l: Local)
    requires cmd in {".", "source"}
    ensures LineDone(w, g, Line(assigns, [cmd, word] + more), l)
         == match w.source(word, l.vars)
            case None => Result(g, l)
            case Some(path) => Walk(w, g, path, l)
  {
    OneLine(w, g, Line(assigns, [cmd, word] + more), l);
    assert ([cmd, word] + more)[1..] == [word] + more;
    hide Walk, Exported, ScriptArg;
  }

  /** A word that is no function and looks like a program's name. */
  predicate IsProgram(w: World, word: string, l: Local) {
    word !in l.funcs && w.programLike(word)
  }

  /** exec prog .. launches prog. */
  lemma ExecLine(w: World, g: Global, assigns: seq<(string, string)>, prog: string, more: seq<string>, l: Local)
    ensures LineDone(w, g, Line(assigns, ["exec", prog] + more), l)
         == Launched(w, g, if IsProgram(w, prog, l) then w.launch(Exec, prog, l.vars) else None, l)
  {
    OneLine(w, g, Line(assigns, ["exec", prog] + more), l);
    assert (["exec", prog] + more)[1..] == [prog] + more;
    assert "exec"[2] == 'e' && "export"[2] == 'p';
    hide Walk, Exported, ScriptArg;
  }

  /** Words that may name a script for an interpreter: options do not. */
  predicate NamesScript(w: World, word: string, l: Local) {
    !("-" <= word) && IsProgram(w, word, l)
  }

  lemma {:induction false} ScriptArgIs(w: World, args: seq<string>, l: Local, i: nat)
    requires i <= |args| && forall j | 0 <= j < i :: !NamesScript(w, args[j], l)
    ensures i < |args| && NamesScript(w, args[i], l) ==> ScriptArg(w, args, l.funcs) == Some(args[i])
    ensures i == |args| ==> ScriptArg(w, args, l.funcs) == None
    decreases i
  {
    if i > 0 {
      assert !NamesScript(w, args[0], l);
      ScriptArgIs(w, args[1..], l, i - 1);
    }
  }

  lemma InterpIsNoOther(cmd: string)
    requires cmd in {"sh", "bash", "ash", "dash"}
    ensures cmd in INTERP && cmd !in {"export", ".", "source", "exec"}
  {
    assert "exec"[0] == 'e' && "bash"[0] == 'b' && "dash"[0] == 'd';
  }

  /** sh [options] script .. launches the first word that names a script, whichever of the interpreters it is. */
  lemma InterpreterLine(w: World, g: Global, assigns: seq<(string, string)>, cmd: string, args: seq<string>, l: Local,
                        i: nat)
    requires cmd in {"sh", "bash", "ash", "dash"}
    requires i <= |args| && forall j | 0 <= j < i :: !NamesScript(w, args[j], l)
    requires i < |args| ==> NamesScript(w, args[i], l)
    ensures LineDone(w, g, Line(assigns, [cmd] + args), l)
         == Launched(w, g, if i < |args| then w.launch(Interp, args[i], l.vars) else None, l)
  {
    InterpIsNoOther(cmd);
    OneLine(w, g, Line(assigns, [cmd] + args), l);
    assert ([cmd] + args)[1..] == args;
    ScriptArgIs(w, args, l, i);
    hide Walk, Exported, ScriptArg, NamesScript;
  }

  /** Any other word launches the program of its name, unless it is a builtin. */
  lemma ProgramLine(w: World, g: Global, assigns: seq<(string, string)>, cmd: string, args: seq<string>, l: Local)
    requires cmd !in {"export", ".", "source", "exec", "sh", "bash", "ash", "dash"}
    ensures LineDone(w, g, Line(assigns, [cmd] + args), l)
         == Launched(w, g, if cmd !in BUILTINS && IsProgram(w, cmd, l) then w.launch(Exec, cmd, l.vars) else None, l)
  {
    OneLine(w, g, Line(assigns, [cmd] + args), l);
    assert cmd !in INTERP;
    hide Walk, Exported, ScriptArg;
  }

  /** So a builtin and a defined function lead nowhere. */
  lemma BuiltinsLeadNowhere(w: World, g: Global, assigns: seq<(string, string)>, cmd: string, args: seq<string>, l: Local)
    requires cmd !in {"export", ".", "source", "exec", "sh", "bash", "ash", "dash"}
    requires cmd in {"cd", "echo", "set", "read", "test", "[", "return", "exit", "eval", "local"} || cmd in l.funcs
    ensures LineDone(w, g, Line(assigns, [cmd] + args), l) == Result(g, l)
  {
    hide EffectOfAction, Body, LineDone;
    ProgramLine(w, g, assigns, cmd, args, l);
  }

  /** The command word of a substitution is launched as a program, and so is an interpreter or exec there. */
  lemma SubstitutionLaunches(w: World, g: Global, word: string, l: Local)
    ensures LineDone(w, g, Subst(word), l)
         == Launched(w, g, if word !in BUILTINS && IsProgram(w, word, l) then w.launch(Exec, word, l.vars) else None, l)
  {
    OneLine(w, g, Subst(word), l);
    hide Walk;
  }

  /** A for or case header does nothing. */
  lemma HeadersDoNothing(w: World, g: Global, l: Local)
    ensures LineDone(w, g, Run(Header), l) == Result(g, l)
  {
    OneLine(w, g, Run(Header), l);
  }

  /** A variable set by one line is in force for the next: after x=v a program is looked up with the new value, and found
      there has been expanded. */
  lemma AssignmentReachesLaunch(w: World, g: Global, x: string, v: string, cmd: string, args: seq<string>, l: Local)
    requires cmd !in {"export", ".", "source", "exec", "sh", "bash", "ash", "dash"} && cmd !in BUILTINS
    requires IsProgram(w, cmd, l)
    ensures var vars := l.vars[x := w.expand(v, l.vars)];
            var path := w.launch(Exec, cmd, vars);
            var done := Body(w, g, [Line([(x, v)], []), Line([], [cmd] + args)], l);
            && done.l == Local(vars, l.funcs)
            && (path.Some? && ReadScript(w, path.value).Some? ==> ReadScript(w, path.value).value in done.g.seen)
  {
    var vars := l.vars[x := w.expand(v, l.vars)];
    var first, second := Line([(x, v)], []), Line([], [cmd] + args);
    var done := LineDone(w, g, first, l);
    AssignmentLineSets(w, g, [(x, v)], l, 0);
    forall y | y != x ensures (y in done.l.vars <==> y in l.vars) && (y in l.vars ==> done.l.vars[y] == l.vars[y]) {
      AssignmentLineKeeps(w, g, [(x, v)], l, y);
    }
    assert done.l.vars == vars;
    BodyConcat(w, g, [first], [second], l);
    assert [first] + [second] == [first, second];
    hide EffectOfAction, ReadScript;
    var path := w.launch(Exec, cmd, vars);
    ProgramLine(w, g, [], cmd, args, Local(vars, l.funcs));
    if path.Some? && ReadScript(w, path.value).Some? {
      LaunchedIsExpanded(w, g, path.value, Local(vars, l.funcs));
    }
  }
}
