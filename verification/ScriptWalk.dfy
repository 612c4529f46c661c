/** The boot simulator's script walker: it reads a script, resolves every command the script sources or launches, and
    walks the scripts among them in turn. Sourced scripts share the variables and functions of their caller; launched
    ones get a copy of the variables and no functions. */
module ScriptWalk {
  import opened Wrappers

  type Path = string

  /** The canonical location of a script. */
  type Real = string

  type Vars = map<string, string>

  /** A simple command after leading keywords have been dropped: its variable assignments and its words. A for or case
      header is data and launches nothing. */
  datatype Segment = Header | Simple(assigns: seq<(string, string)>, words: seq<string>)

  /** What a logical line contributes, in order: the command words of its substitutions, then its segments. */
  datatype Action = Subst(word: string) | Run(segment: Segment)

  /** A script as read from disk. */
  datatype Script = Script(funcs: set<string>, body: seq<Action>)

  datatype How = Exec | Interp

  /** The file system and the text processing that the walk relies on: which script a path leads to, if it can be read;
      where a word sourced or launched under some variables leads; whether a word looks like a program's name; the
      assignment a word spells; and the expansion of a value. */
  datatype World = World(
    scripts: map<Real, Script>,
    read: Path -> Option<Real>,
    source: (string, Vars) -> Option<Path>,
    launch: (How, string, Vars) -> Option<Path>,
    programLike: string -> bool,
    assignment: string -> Option<(string, string)>,
    expand: (string, Vars) -> string)

  const BUILTINS: set<string> := {
    "cd", "export", "unset", "echo", "printf", "read", "local", "set", "shift", "return", "exit", "break", "continue",
    "eval", "trap", "wait", "umask", "ulimit", "true", "false", ":", "test", "[", "alias", "unalias", "type", "hash",
    "pwd", "readonly", "getopts", "let", "declare", "typeset", "times", "fg", "bg", "jobs", "logout", "help", "enable",
    "builtin", "printenv"}

  const INTERP: set<string> := {"sh", "bash", "ash", "dash"}

  predicate Launchable(w: World, word: string, funcs: set<string>) {
    word !in funcs && w.programLike(word)
  }

  /** The first word that names a script for an interpreter. */
  function ScriptArg(w: World, words: seq<string>, funcs: set<string>): Option<string> {
    if words == [] then None
    else if !("-" <= words[0]) && Launchable(w, words[0], funcs) then Some(words[0])
    else ScriptArg(w, words[1..], funcs)
  }

  function Assigned(w: World, vars: Vars, assigns: seq<(string, string)>, scope: Vars): Vars
    decreases |assigns|
  {
    if assigns == [] then vars
    else Assigned(w, vars[assigns[0].0 := w.expand(assigns[0].1, scope)], assigns[1..], scope)
  }

  function Exported(w: World, vars: Vars, words: seq<string>): Vars
    decreases |words|
  {
    if words == [] then vars
    else match w.assignment(words[0])
      case None => Exported(w, vars, words[1..])
      case Some(a) => Exported(w, vars[a.0 := w.expand(a.1, vars)], words[1..])
  }

  /** What a segment asks for. */
  datatype Effect = Nothing | SetVars(vars: Vars) | Source(path: Path) | Launch(path: Path)

  function LaunchOf(path: Option<Path>): Effect {
    if path.None? then Nothing else Launch(path.value)
  }

  /** The branches of _parse_segment, in their order. */
  function EffectOf(w: World, segment: Segment, vars: Vars, funcs: set<string>): Effect {
    if segment.Header? then Nothing
    else if segment.words == [] then SetVars(Assigned(w, vars, segment.assigns, vars))
    else
      var cmd, args := segment.words[0], segment.words[1..];
      if cmd == "export" then SetVars(Exported(w, vars, args))
      else if cmd == "." || cmd == "source" then
        if args == [] then Nothing
        else
          var path := w.source(args[0], vars);
          if path.None? then Nothing else Source(path.value)
      else if cmd == "exec" then
        if args == [] || !Launchable(w, args[0], funcs) then Nothing else LaunchOf(w.launch(Exec, args[0], vars))
      else if cmd in INTERP then
        var script := ScriptArg(w, args, funcs);
        if script.None? then Nothing else LaunchOf(w.launch(Interp, script.value, vars))
      else if cmd in BUILTINS || !Launchable(w, cmd, funcs) then Nothing
      else LaunchOf(w.launch(Exec, cmd, vars))
  }

  /** A substituted command is launched like any other; builtins and functions are passed over. */
  function EffectOfAction(w: World, action: Action, vars: Vars, funcs: set<string>): Effect {
    match action
    case Run(segment) => EffectOf(w, segment, vars, funcs)
    case Subst(word) =>
      if word in BUILTINS || !Launchable(w, word, funcs) then Nothing else LaunchOf(w.launch(Exec, word, vars))
  }

  // ---------------------------------------------------------------------------------------------------------
  // The walk as a function

  /** What one script works on. */
  datatype Local = Local(vars: Vars, funcs: set<string>)

  /** A line of the report, with the variables and functions that a script is, or would be, expanded with. */
  datatype Visit =
    | Expanded(file: Real, entry: Local)
    | AlreadyExpanded(file: Real, entry: Local)
    | CannotRead(path: Path)

  /** What the whole walk shares: the scripts expanded so far and the report. */
  datatype Global = Global(seen: set<Real>, log: seq<Visit>)

  datatype Result = Result(g: Global, l: Local)

  function Unseen(w: World, g: Global): set<Real> {
    w.scripts.Keys - g.seen
  }

  lemma UnseenShrinks(w: World, g: Global, g': Global)
    requires g.seen <= g'.seen
    ensures |Unseen(w, g')| <= |Unseen(w, g)|
    ensures forall r | r in w.scripts && r !in g.seen && r in g'.seen :: |Unseen(w, g')| < |Unseen(w, g)|
  {
    var a, b := Unseen(w, g'), Unseen(w, g);
    assert b == a + (b - a);
    forall r | r in w.scripts && r !in g.seen && r in g'.seen ensures |a| < |b| {
      assert r in b - a;
      assert |b - a| > 0;
    }
  }

  /** The script a path leads to, if it can be read. */
  function ReadScript(w: World, path: Path): (r: Option<Real>)
    ensures r.Some? ==> r.value in w.scripts
  {
    var r := w.read(path);
    if r.Some? && r.value in w.scripts then r else None
  }

  /** Walking one script. Its functions are imported before the check for an earlier expansion. */
  function Walk(w: World, g: Global, path: Path, l: Local): (out: Result)
    ensures g.seen <= out.g.seen
    decreases |Unseen(w, g)|, 0
  {
    match ReadScript(w, path)
    case None => Result(g.(log := g.log + [CannotRead(path)]), l)
    case Some(file) =>
      var script := w.scripts[file];
      var l1 := l.(funcs := l.funcs + script.funcs);
      if file in g.seen then Result(g.(log := g.log + [AlreadyExpanded(file, l1)]), l1)
      else
        var g1 := Global(g.seen + {file}, g.log + [Expanded(file, l1)]);
        UnseenShrinks(w, g, g1); Body(w, g1, script.body, l1)
  }

  function Body(w: World, g: Global, body: seq<Action>, l: Local): (out: Result)
    ensures g.seen <= out.g.seen
    decreases |Unseen(w, g)|, 2 + |body|
  {
    if body == [] then Result(g, l)
    else
      var first := Act(w, g, EffectOfAction(w, body[0], l.vars, l.funcs), l);
      UnseenShrinks(w, g, first.g); Body(w, first.g, body[1..], first.l)
  }

  function Act(w: World, g: Global, effect: Effect, l: Local): (out: Result)
    ensures g.seen <= out.g.seen
    decreases |Unseen(w, g)|, 1
  {
    match effect
    case Nothing => Result(g, l)
    case SetVars(vars) => Result(g, l.(vars := vars))
    case Source(path) => Walk(w, g, path, l)
    case Launch(path) => Result(Walk(w, g, path, Local(l.vars, {})).g, l)
  }

  // ---------------------------------------------------------------------------------------------------------
  // The walk with the tables that scripts share

  class VarTable {
    var vars: Vars

    constructor (vars: Vars)
      ensures this.vars == vars
    {
      this.vars := vars;
    }
  }

  class FuncTable {
    var names: set<string>

    constructor ()
      ensures names == {}
    {
      names := {};
    }
  }

  class Walker {
    const world: World
    var seen: set<Real>
    var log: seq<Visit>

    constructor (world: World)
      ensures this.world == world && Shared() == Global({}, [])
    {
      this.world, seen, log := world, {}, [];
    }

    ghost function Shared(): Global
      reads this
    {
      Global(seen, log)
    }

    /** A sourced script is given its caller's two tables; a launched one gets a copy of the variables. */
    method WalkScript(path: Path, callerVars: VarTable, sourced: bool, callerFuncs: FuncTable?)
      requires sourced <==> callerFuncs != null
      modifies this, callerVars, callerFuncs
      ensures !sourced ==> callerVars.vars == old(callerVars.vars)
      ensures !sourced ==> Shared() == Walk(world, old(Shared()), path, Local(old(callerVars.vars), {})).g
      ensures sourced ==>
                Walk(world, old(Shared()), path, Local(old(callerVars.vars), old(callerFuncs.names)))
                == Result(Shared(), Local(callerVars.vars, callerFuncs.names))
      decreases |Unseen(world, Shared())|, 0
    {
      var file := ReadScript(world, path);
      if file.None? {
        log := log + [CannotRead(path)];
        return;
      }
      var script := world.scripts[file.value];
      var funcs: FuncTable;
      if callerFuncs != null {
        funcs := callerFuncs;
      } else {
        funcs := new FuncTable();
      }
      funcs.names := funcs.names + script.funcs;
      if file.value in seen {
        log := log + [AlreadyExpanded(file.value, Local(callerVars.vars, funcs.names))];
        return;
      }
      UnseenShrinks(world, Shared(), Global(seen + {file.value}, log));
      seen := seen + {file.value};
      log := log + [Expanded(file.value, Local(callerVars.vars, funcs.names))];
      var vars := callerVars;
      if !sourced {
        vars := new VarTable(callerVars.vars);
      }
      WalkBody(script.body, vars, funcs);
    }

    /** A boot scenario: the entry points in turn, each with its own copy of the initial variables. */
    method WalkScenario(roots: seq<Path>, vars: Vars)
      modifies this
      ensures Shared() == Scenario(world, old(Shared()), roots, vars)
    {
      var i := 0;
      while i < |roots|
        invariant 0 <= i <= |roots|
        invariant Scenario(world, old(Shared()), roots, vars) == Scenario(world, Shared(), roots[i..], vars)
      {
        assert roots[i..][0] == roots[i] && roots[i..][1..] == roots[i + 1..];
        var env := new VarTable(vars);
        WalkScript(roots[i], env, false, null);
        i := i + 1;
      }
    }

    method WalkBody(body: seq<Action>, vars: VarTable, funcs: FuncTable)
      modifies this, vars, funcs
      ensures Result(Shared(), Local(vars.vars, funcs.names))
           == Body(world, old(Shared()), body, Local(old(vars.vars), old(funcs.names)))
      decreases |Unseen(world, Shared())|, 2 + |body|
    {
      ghost var g0, l0 := Shared(), Local(vars.vars, funcs.names);
      var i := 0;
      while i < |body|
        invariant 0 <= i <= |body|
        invariant |Unseen(world, Shared())| <= |Unseen(world, g0)|
        invariant Body(world, g0, body, l0) == Body(world, Shared(), body[i..], Local(vars.vars, funcs.names))
      {
        var effect := EffectOfAction(world, body[i], vars.vars, funcs.names);
        ghost var g1, l1 := Shared(), Local(vars.vars, funcs.names);
        BodyOnce(world, g1, body[i..], l1);
        UnseenShrinks(world, g1, Act(world, g1, effect, l1).g);
        Perform(effect, vars, funcs);
        i := i + 1;
      }
    }

    method Perform(effect: Effect, vars: VarTable, funcs: FuncTable)
      modifies this, vars, funcs
      ensures Result(Shared(), Local(vars.vars, funcs.names))
           == Act(world, old(Shared()), effect, Local(old(vars.vars), old(funcs.names)))
      decreases |Unseen(world, Shared())|, 1
    {
      match effect {
        case Nothing =>
        case SetVars(new') => vars.vars := new';
        case Source(path) => WalkScript(path, vars, true, funcs);
        case Launch(path) => WalkScript(path, vars, false, null);
      }
    }
  }

  lemma BodyOnce(w: World, g: Global, body: seq<Action>, l: Local)
    requires body != []
    ensures var first := Act(w, g, EffectOfAction(w, body[0], l.vars, l.funcs), l);
            Body(w, g, body, l) == Body(w, first.g, body[1..], first.l)
  {
  }

  // ---------------------------------------------------------------------------------------------------------
  // What a walk guarantees

  predicate IsExpansion(v: Visit, file: Real) {
    v.Expanded? && v.file == file
  }

  /** How often a script has been expanded. */
  function Expansions(log: seq<Visit>, file: Real): nat {
    if log == [] then 0
    else Expansions(log[..|log| - 1], file) + if IsExpansion(log[|log| - 1], file) then 1 else 0
  }

  lemma ExpansionsAppend(log: seq<Visit>, v: Visit, file: Real)
    ensures Expansions(log + [v], file) == Expansions(log, file) + if IsExpansion(v, file) then 1 else 0
  {
    assert (log + [v])[..|log|] == log;
  }

  /** The scripts marked as seen have been expanded once, all others not at all. */
  ghost predicate OncePerScript(g: Global) {
    forall file: Real :: Expansions(g.log, file) == if file in g.seen then 1 else 0
  }

  lemma LogKeepsOnce(g: Global, v: Visit)
    requires OncePerScript(g) && (v.Expanded? ==> v.file !in g.seen)
    ensures OncePerScript(Global(if v.Expanded? then g.seen + {v.file} else g.seen, g.log + [v]))
  {
    forall file: Real
      ensures Expansions(g.log + [v], file) == Expansions(g.log, file) + if IsExpansion(v, file) then 1 else 0
    {
      ExpansionsAppend(g.log, v, file);
    }
  }

  /** However scripts source and launch each other, the walk ends, and it expands each script at most once. */
  lemma {:induction false} WalkExpandsOnce(w: World, g: Global, path: Path, l: Local)
    requires OncePerScript(g)
    ensures OncePerScript(Walk(w, g, path, l).g)
    decreases |Unseen(w, g)|, 0
  {
    hide OncePerScript;
    match ReadScript(w, path)
    case None => LogKeepsOnce(g, CannotRead(path));
    case Some(file) =>
      var l1 := l.(funcs := l.funcs + w.scripts[file].funcs);
      if file in g.seen {
        LogKeepsOnce(g, AlreadyExpanded(file, l1));
      } else {
        var g1 := Global(g.seen + {file}, g.log + [Expanded(file, l1)]);
        UnseenShrinks(w, g, g1);
        LogKeepsOnce(g, Expanded(file, l1));
        BodyExpandsOnce(w, g1, w.scripts[file].body, l1);
      }
  }

  lemma {:induction false} BodyExpandsOnce(w: World, g: Global, body: seq<Action>, l: Local)
    requires OncePerScript(g)
    ensures OncePerScript(Body(w, g, body, l).g)
    decreases |Unseen(w, g)|, 2 + |body|
  {
    hide OncePerScript, EffectOfAction;
    if body != [] {
      var effect := EffectOfAction(w, body[0], l.vars, l.funcs);
      ActExpandsOnce(w, g, effect, l);
      var first := Act(w, g, effect, l);
      UnseenShrinks(w, g, first.g);
      BodyExpandsOnce(w, first.g, body[1..], first.l);
    }
  }

  lemma {:induction false} ActExpandsOnce(w: World, g: Global, effect: Effect, l: Local)
    requires OncePerScript(g)
    ensures OncePerScript(Act(w, g, effect, l).g)
    decreases |Unseen(w, g)|, 1
  {
    hide OncePerScript;
    match effect
    case Nothing =>
    case SetVars(_) =>
    case Source(path) => WalkExpandsOnce(w, g, path, l);
    case Launch(path) => WalkExpandsOnce(w, g, path, Local(l.vars, {}));
  }

  /** Functions are only ever added. */
  lemma {:induction false} BodyKeepsFuncs(w: World, g: Global, body: seq<Action>, l: Local)
    ensures l.funcs <= Body(w, g, body, l).l.funcs
    decreases |Unseen(w, g)|, 2 + |body|
  {
    hide EffectOfAction;
    if body != [] {
      var effect := EffectOfAction(w, body[0], l.vars, l.funcs);
      var first := Act(w, g, effect, l);
      if effect.Source? { SourcingImportsFuncs(w, g, effect.path, l); }
      UnseenShrinks(w, g, first.g);
      BodyKeepsFuncs(w, first.g, body[1..], first.l);
    }
  }

  /** A script that can be read has been expanded once it is walked, and a caller that sources it gets its functions,
      whether or not it had been expanded before. If it had, that is all the caller gets. */
  lemma {:induction false} SourcingImportsFuncs(w: World, g: Global, path: Path, l: Local)
    ensures var out := Walk(w, g, path, l);
            && l.funcs <= out.l.funcs
            && (ReadScript(w, path).Some? ==>
                  var file := ReadScript(w, path).value;
                  var l1 := Local(l.vars, l.funcs + w.scripts[file].funcs);
                  && file in out.g.seen
                  && l1.funcs <= out.l.funcs
                  && (file in g.seen ==> out == Result(Global(g.seen, g.log + [AlreadyExpanded(file, l1)]), l1)))
    decreases |Unseen(w, g)|, 0
  {
    match ReadScript(w, path)
    case None =>
    case Some(file) =>
      if file !in g.seen {
        var l1 := l.(funcs := l.funcs + w.scripts[file].funcs);
        var g1 := Global(g.seen + {file}, g.log + [Expanded(file, l1)]);
        UnseenShrinks(w, g, g1);
        BodyKeepsFuncs(w, g1, w.scripts[file].body, l1);
      }
  }

  /** Whatever the variables and functions, the action sources this path. */
  ghost predicate AlwaysSources(w: World, action: Action, path: Path) {
    forall vars: Vars, funcs: set<string> :: EffectOfAction(w, action, vars, funcs) == Source(path)
  }

  lemma {:induction false} BodyImportsSourced(w: World, g: Global, body: seq<Action>, l: Local,
                                              i: nat, path: Path, inner: Real)
    requires i < |body| && AlwaysSources(w, body[i], path) && ReadScript(w, path) == Some(inner)
    ensures w.scripts[inner].funcs <= Body(w, g, body, l).l.funcs
    decreases |body|
  {
    hide EffectOfAction, ReadScript, Walk;
    var effect := EffectOfAction(w, body[0], l.vars, l.funcs);
    var first := Act(w, g, effect, l);
    BodyOnce(w, g, body, l);
    if i == 0 {
      SourcingImportsFuncs(w, g, path, l);
      BodyKeepsFuncs(w, first.g, body[1..], first.l);
    } else {
      assert body[1..][i - 1] == body[i];
      BodyImportsSourced(w, first.g, body[1..], first.l, i - 1, path, inner);
    }
  }

  /** What a script sources in turn is not imported a second time: of any script that always sources another somewhere
      in its body, a caller gets the other's functions exactly when the script had not been expanded before, or when
      the caller or the script itself defines them anyway. */
  lemma NestedFunctionsImportedOnce(w: World, g: Global, path: Path, l: Local,
                                    outer: Real, i: nat, innerPath: Path, inner: Real)
    requires ReadScript(w, path) == Some(outer) && i < |w.scripts[outer].body|
    requires AlwaysSources(w, w.scripts[outer].body[i], innerPath) && ReadScript(w, innerPath) == Some(inner)
    ensures w.scripts[inner].funcs <= Walk(w, g, path, l).l.funcs
       <==> outer !in g.seen || w.scripts[inner].funcs <= l.funcs + w.scripts[outer].funcs
  {
    SourcingImportsFuncs(w, g, path, l);
    if outer !in g.seen {
      var l1 := l.(funcs := l.funcs + w.scripts[outer].funcs);
      var g1 := Global(g.seen + {outer}, g.log + [Expanded(outer, l1)]);
      BodyImportsSourced(w, g1, w.scripts[outer].body, l1, i, innerPath, inner);
    }
  }

  /** A boot scenario: each entry point in turn, with its own copy of the initial variables. */
  function Scenario(w: World, g: Global, roots: seq<Path>, vars: Vars): (g': Global)
    ensures g.seen <= g'.seen
    decreases |roots|
  {
    if roots == [] then g else Scenario(w, Walk(w, g, roots[0], Local(vars, {})).g, roots[1..], vars)
  }

  /** Every scenario over a finite set of scripts ends; it has expanded every entry point that can be read, each script
      it has met exactly once, and no other. */
  lemma {:induction false} ScenarioExpandsOnce(w: World, g: Global, roots: seq<Path>, vars: Vars)
    requires OncePerScript(g)
    ensures OncePerScript(Scenario(w, g, roots, vars))
    ensures forall i | 0 <= i < |roots| && ReadScript(w, roots[i]).Some? ::
              ReadScript(w, roots[i]).value in Scenario(w, g, roots, vars).seen
    decreases |roots|
  {
    hide OncePerScript, Walk, ReadScript;
    if roots != [] {
      WalkExpandsOnce(w, g, roots[0], Local(vars, {}));
      SourcingImportsFuncs(w, g, roots[0], Local(vars, {}));
      var g1 := Walk(w, g, roots[0], Local(vars, {})).g;
      ScenarioExpandsOnce(w, g1, roots[1..], vars);
      forall i | 0 <= i < |roots| && ReadScript(w, roots[i]).Some?
        ensures ReadScript(w, roots[i]).value in Scenario(w, g, roots, vars).seen
      {
        if i > 0 { assert roots[i] == roots[1..][i - 1]; }
      }
    }
  }
}
