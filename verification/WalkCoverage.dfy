/** Which scripts a walk of ScriptWalk reaches. Every script is expanded once only, with the variables and functions of
    the first visit; a later visit is collapsed. The lemmas say what a scenario is sure to have followed up, and
    exactly when a collapsed visit hides a script. */
module WalkCoverage {
  import opened ScriptWalk
  import opened Wrappers

  // ---------------------------------------------------------------------------------------------------------
  // Every expansion is followed up

  /** If the action sources or launches a script that can be read, then one of `seen`. */
  predicate Followed(w: World, action: Action, l: Local, seen: set<Real>) {
    var effect := EffectOfAction(w, action, l.vars, l.funcs);
    (effect.Source? || effect.Launch?) && ReadScript(w, effect.path).Some? ==>
      ReadScript(w, effect.path).value in seen
  }

  /** So do all actions of a body, each with the variables and functions that the walk from `g` and `l` has when it
      comes to it. */
  ghost predicate BodyFollowed(w: World, g: Global, body: seq<Action>, l: Local, seen: set<Real>) {
    forall i | 0 <= i < |body| :: Followed(w, body[i], Body(w, g, body[..i], l).l, seen)
  }

  /** The scripts expanded according to a report. */
  function Files(log: seq<Visit>): set<Real> {
    set v | v in log && v.Expanded? :: v.file
  }

  ghost predicate Consistent(g: Global) {
    g.seen == Files(g.log)
  }

  /** The walk's state when the script of the report's k-th line has just been marked as expanded. */
  ghost function StateAt(log: seq<Visit>, k: nat): Global
    requires k < |log|
  {
    Global(Files(log[..k + 1]), log[..k + 1])
  }

  /** What the expansion in the report's k-th line comes to, of `seen`. */
  ghost predicate LineFollowed(w: World, log: seq<Visit>, k: nat, seen: set<Real>)
    requires k < |log|
  {
    log[k].Expanded? ==>
      && log[k].file in w.scripts
      && BodyFollowed(w, StateAt(log, k), w.scripts[log[k].file].body, log[k].entry, seen)
  }

  /** Every expansion reported from line `from` on has been followed up. */
  ghost predicate Traced(w: World, from: nat, g: Global) {
    forall k: nat | from <= k < |g.log| :: LineFollowed(w, g.log, k, g.seen)
  }

  lemma FilesAppend(log: seq<Visit>, v: Visit)
    ensures Files(log + [v]) == Files(log) + if v.Expanded? then {v.file} else {}
  {
    assert forall u :: u in log + [v] <==> u in log || u == v;
    if v.Expanded? { assert v in log + [v]; }
  }

  lemma FollowedGrows(w: World, g: Global, body: seq<Action>, l: Local, seen: set<Real>, more: set<Real>)
    requires BodyFollowed(w, g, body, l, seen) && seen <= more
    ensures BodyFollowed(w, g, body, l, more)
  {
    hide EffectOfAction, ReadScript, Body;
  }

  /** What has been followed up in one stretch of a walk and in the next has been in both together. */
  lemma TracedTwice(w: World, from: nat, g: Global, g': Global)
    requires g.log <= g'.log && g.seen <= g'.seen && from <= |g.log|
    requires Traced(w, from, g) && Traced(w, |g.log|, g')
    ensures Traced(w, from, g')
  {
    hide BodyFollowed, Files;
    forall k: nat | from <= k < |g'.log| ensures LineFollowed(w, g'.log, k, g'.seen) {
      if k < |g.log| {
        assert LineFollowed(w, g.log, k, g.seen);
        assert g'.log[k] == g.log[k] && g'.log[..k + 1] == g.log[..k + 1];
        if g.log[k].Expanded? {
          FollowedGrows(w, StateAt(g.log, k), w.scripts[g.log[k].file].body, g.log[k].entry, g.seen, g'.seen);
        }
      }
    }
  }

  /** One more line, which is no expansion. */
  lemma PlainLine(w: World, g: Global, v: Visit)
    requires Consistent(g) && !v.Expanded?
    ensures var g' := Global(g.seen, g.log + [v]); Consistent(g') && Traced(w, |g.log|, g')
  {
    FilesAppend(g.log, v);
  }

  lemma {:induction false} WalkTraced(w: World, g: Global, path: Path, l: Local)
    requires Consistent(g)
    ensures var g' := Walk(w, g, path, l).g; g.log <= g'.log && Consistent(g') && Traced(w, |g.log|, g')
    decreases |Unseen(w, g)|, 0
  {
    hide Consistent, Traced, Files;
    match ReadScript(w, path)
    case None => PlainLine(w, g, CannotRead(path));
    case Some(file) =>
      var l1 := l.(funcs := l.funcs + w.scripts[file].funcs);
      if file in g.seen {
        PlainLine(w, g, AlreadyExpanded(file, l1));
      } else {
        var g1 := Global(g.seen + {file}, g.log + [Expanded(file, l1)]);
        UnseenShrinks(w, g, g1);
        FirstLine(w, g, file, l1);
        BodyTraced(w, g1, w.scripts[file].body, l1);
        ExpansionTraced(w, g, file, l1, Body(w, g1, w.scripts[file].body, l1).g);
      }
  }

  lemma FirstLine(w: World, g: Global, file: Real, l: Local)
    requires Consistent(g)
    ensures Consistent(Global(g.seen + {file}, g.log + [Expanded(file, l)]))
  {
    FilesAppend(g.log, Expanded(file, l));
  }

  /** The line of an expansion is followed up when its body has been. */
  lemma ExpansionTraced(w: World, g: Global, file: Real, l: Local, g': Global)
    requires file in w.scripts
    requires var g1 := Global(g.seen + {file}, g.log + [Expanded(file, l)]);
             && Consistent(g1) && g1.log <= g'.log && Traced(w, |g1.log|, g')
             && BodyFollowed(w, g1, w.scripts[file].body, l, g'.seen)
    ensures Traced(w, |g.log|, g')
  {
    hide BodyFollowed, Files;
    var g1 := Global(g.seen + {file}, g.log + [Expanded(file, l)]);
    assert g'.log[..|g.log| + 1] == g1.log && g'.log[|g.log|] == Expanded(file, l);
    assert StateAt(g'.log, |g.log|) == g1;
    assert LineFollowed(w, g'.log, |g.log|, g'.seen);
  }

  lemma {:induction false} ActTraced(w: World, g: Global, effect: Effect, l: Local)
    requires Consistent(g)
    ensures var g' := Act(w, g, effect, l).g; g.log <= g'.log && Consistent(g') && Traced(w, |g.log|, g')
    ensures (effect.Source? || effect.Launch?) && ReadScript(w, effect.path).Some? ==>
              ReadScript(w, effect.path).value in Act(w, g, effect, l).g.seen
    decreases |Unseen(w, g)|, 1
  {
    hide Consistent, LineFollowed;
    match effect
    case Nothing =>
    case SetVars(_) =>
    case Source(path) =>
      WalkTraced(w, g, path, l);
      SourcingImportsFuncs(w, g, path, l);
    case Launch(path) =>
      WalkTraced(w, g, path, Local(l.vars, {}));
      SourcingImportsFuncs(w, g, path, Local(l.vars, {}));
  }

  lemma {:induction false} BodyTraced(w: World, g: Global, body: seq<Action>, l: Local)
    requires Consistent(g)
    ensures var g' := Body(w, g, body, l).g; g.log <= g'.log && Consistent(g') && Traced(w, |g.log|, g')
    ensures BodyFollowed(w, g, body, l, Body(w, g, body, l).g.seen)
    decreases |Unseen(w, g)|, 2 + |body|
  {
    hide Consistent, LineFollowed, EffectOfAction, ReadScript, BodyFollowed;
    if body == [] {
      NothingToFollow(w, g, l, g.seen);
    } else {
      var effect := EffectOfAction(w, body[0], l.vars, l.funcs);
      var first, out := Act(w, g, effect, l), Body(w, g, body, l);
      BodyOnce(w, g, body, l);
      ActTraced(w, g, effect, l);
      UnseenShrinks(w, g, first.g);
      BodyTraced(w, first.g, body[1..], first.l);
      TracedTwice(w, |g.log|, first.g, out.g);
      FollowedFirst(w, g, body, l, out.g.seen);
    }
  }

  lemma NothingToFollow(w: World, g: Global, l: Local, seen: set<Real>)
    ensures BodyFollowed(w, g, [], l, seen)
  {
  }

  lemma FollowedFirst(w: World, g: Global, body: seq<Action>, l: Local, seen: set<Real>)
    requires body != [] && Followed(w, body[0], l, seen)
    requires var first := Act(w, g, EffectOfAction(w, body[0], l.vars, l.funcs), l);
             BodyFollowed(w, first.g, body[1..], first.l, seen)
    ensures BodyFollowed(w, g, body, l, seen)
  {
    hide EffectOfAction, Followed, Act;
    var first := Act(w, g, EffectOfAction(w, body[0], l.vars, l.funcs), l);
    forall i | 0 <= i < |body| ensures Followed(w, body[i], Body(w, g, body[..i], l).l, seen) {
      if i == 0 {
        assert body[..0] == [];
      } else {
        BodyOnce(w, g, body[..i], l);
        assert body[..i][1..] == body[1..][..i - 1] && body[i] == body[1..][i - 1];
        assert Followed(w, body[1..][i - 1], Body(w, first.g, body[1..][..i - 1], first.l).l, seen);
      }
    }
  }

  const START := Global({}, [])

  /** In every scenario, whatever any script sources or launches, with the variables and functions that the walk has
      when it comes to that place in it, has been expanded, if it can be read. */
  lemma ScenarioFollowsEveryExpansion(w: World, roots: seq<Path>, vars: Vars)
    ensures Traced(w, 0, Scenario(w, START, roots, vars))
    ensures Consistent(Scenario(w, START, roots, vars))
  {
    ScenarioTraced(w, START, roots, vars);
  }

  lemma {:induction false} ScenarioTraced(w: World, g: Global, roots: seq<Path>, vars: Vars)
    requires Consistent(g)
    ensures var g' := Scenario(w, g, roots, vars); g.log <= g'.log && Consistent(g') && Traced(w, |g.log|, g')
    decreases |roots|
  {
    hide Consistent, LineFollowed, Walk;
    if roots != [] {
      var g1 := Walk(w, g, roots[0], Local(vars, {})).g;
      WalkTraced(w, g, roots[0], Local(vars, {}));
      ScenarioTraced(w, g1, roots[1..], vars);
      TracedTwice(w, |g.log|, g1, Scenario(w, g, roots, vars));
    }
  }

  // ---------------------------------------------------------------------------------------------------------
  // What is followed up whatever the visit

  /** Every name that any script defines as a function. */
  ghost predicate Defined(w: World, funcs: set<string>) {
    forall f | f in funcs :: exists file :: file in w.scripts && f in w.scripts[file].funcs
  }

  /** Whatever the variables, and whichever of the scripts' functions are known, the action sources or launches this
      path. */
  ghost predicate Unconditional(w: World, action: Action, path: Path) {
    forall vars: Vars, funcs: set<string> | Defined(w, funcs) ::
      EffectOfAction(w, action, vars, funcs) == Source(path) || EffectOfAction(w, action, vars, funcs) == Launch(path)
  }

  /** A line that just runs a program. */
  function Command(cmd: string): Action {
    Run(Simple([], [cmd]))
  }

  predicate Special(cmd: string) {
    cmd in INTERP || cmd in BUILTINS || cmd == "." || cmd == "source" || cmd == "exec"
  }

  lemma CommandEffect(w: World, cmd: string, vars: Vars, funcs: set<string>)
    requires !Special(cmd)
    ensures EffectOfAction(w, Command(cmd), vars, funcs)
         == if Launchable(w, cmd, funcs) then LaunchOf(w.launch(Exec, cmd, vars)) else Nothing
  {
  }

  /** A program that no script defines as a function is launched unconditionally. */
  lemma LaunchIsUnconditional(w: World, cmd: string, path: Path)
    requires !Special(cmd) && w.programLike(cmd) && !Defined(w, {cmd})
    requires forall vars: Vars :: w.launch(Exec, cmd, vars) == Some(path)
    ensures Unconditional(w, Command(cmd), path)
  {
    hide EffectOfAction, Special;
    forall vars: Vars, funcs: set<string> | Defined(w, funcs)
      ensures EffectOfAction(w, Command(cmd), vars, funcs) == Launch(path)
    {
      CommandEffect(w, cmd, vars, funcs);
    }
  }

  lemma DefinedWithOwn(w: World, funcs: set<string>, file: Real)
    requires Defined(w, funcs) && file in w.scripts
    ensures Defined(w, funcs + w.scripts[file].funcs)
  {
  }

  /** All functions known in a walk are some script's. */
  ghost predicate EntriesDefined(w: World, log: seq<Visit>) {
    forall v | v in log && v.Expanded? :: Defined(w, v.entry.funcs)
  }

  lemma {:induction false} WalkDefined(w: World, g: Global, path: Path, l: Local)
    requires EntriesDefined(w, g.log) && Defined(w, l.funcs)
    ensures EntriesDefined(w, Walk(w, g, path, l).g.log) && Defined(w, Walk(w, g, path, l).l.funcs)
    decreases |Unseen(w, g)|, 0
  {
    hide Defined;
    match ReadScript(w, path)
    case None =>
    case Some(file) =>
      var l1 := l.(funcs := l.funcs + w.scripts[file].funcs);
      DefinedWithOwn(w, l.funcs, file);
      if file !in g.seen {
        var g1 := Global(g.seen + {file}, g.log + [Expanded(file, l1)]);
        UnseenShrinks(w, g, g1);
        BodyDefined(w, g1, w.scripts[file].body, l1);
      }
  }

  lemma {:induction false} ActDefined(w: World, g: Global, effect: Effect, l: Local)
    requires EntriesDefined(w, g.log) && Defined(w, l.funcs)
    ensures EntriesDefined(w, Act(w, g, effect, l).g.log) && Defined(w, Act(w, g, effect, l).l.funcs)
    decreases |Unseen(w, g)|, 1
  {
    hide EntriesDefined;
    match effect
    case Nothing =>
    case SetVars(_) =>
    case Source(path) => WalkDefined(w, g, path, l);
    case Launch(path) => WalkDefined(w, g, path, Local(l.vars, {}));
  }

  lemma {:induction false} BodyDefined(w: World, g: Global, body: seq<Action>, l: Local)
    requires EntriesDefined(w, g.log) && Defined(w, l.funcs)
    ensures EntriesDefined(w, Body(w, g, body, l).g.log) && Defined(w, Body(w, g, body, l).l.funcs)
    decreases |Unseen(w, g)|, 2 + |body|
  {
    hide EntriesDefined, Defined, EffectOfAction;
    if body != [] {
      var effect := EffectOfAction(w, body[0], l.vars, l.funcs);
      var first := Act(w, g, effect, l);
      BodyOnce(w, g, body, l);
      ActDefined(w, g, effect, l);
      UnseenShrinks(w, g, first.g);
      BodyDefined(w, first.g, body[1..], first.l);
    }
  }

  lemma {:induction false} ScenarioDefined(w: World, g: Global, roots: seq<Path>, vars: Vars)
    requires EntriesDefined(w, g.log)
    ensures EntriesDefined(w, Scenario(w, g, roots, vars).log)
    decreases |roots|
  {
    hide EntriesDefined, Walk;
    if roots != [] {
      WalkDefined(w, g, roots[0], Local(vars, {}));
      ScenarioDefined(w, Walk(w, g, roots[0], Local(vars, {})).g, roots[1..], vars);
    }
  }

  /** The scripts a scenario has met are closed under what they source or launch unconditionally. */
  lemma ScenarioCloses(w: World, roots: seq<Path>, vars: Vars, file: Real)
    requires file in Scenario(w, START, roots, vars).seen
    ensures file in w.scripts
    ensures forall i, path: Path | 0 <= i < |w.scripts[file].body| && ReadScript(w, path).Some?
                                   && Unconditional(w, w.scripts[file].body[i], path) ::
              ReadScript(w, path).value in Scenario(w, START, roots, vars).seen
  {
    hide Scenario, Unconditional, Defined, BodyFollowed, ReadScript, EffectOfAction, Body;
    var g := Scenario(w, START, roots, vars);
    ScenarioFollowsEveryExpansion(w, roots, vars);
    ScenarioDefined(w, START, roots, vars);
    var v :| v in g.log && v.Expanded? && v.file == file;
    var k: nat :| k < |g.log| && g.log[k] == v;
    assert LineFollowed(w, g.log, k, g.seen);
    var body := w.scripts[file].body;
    forall i, path: Path | 0 <= i < |body| && ReadScript(w, path).Some? && Unconditional(w, body[i], path)
      ensures ReadScript(w, path).value in g.seen
    {
      EntryFollowed(w, StateAt(g.log, k), body, v.entry, i, path, g.seen);
    }
  }

  lemma EntryFollowed(w: World, g: Global, body: seq<Action>, entry: Local, i: nat, path: Path, seen: set<Real>)
    requires i < |body| && Unconditional(w, body[i], path) && ReadScript(w, path).Some?
    requires EntriesDefined(w, g.log) && Defined(w, entry.funcs) && BodyFollowed(w, g, body, entry, seen)
    ensures ReadScript(w, path).value in seen
  {
    hide EffectOfAction, ReadScript, Body, Defined, EntriesDefined;
    var l := Body(w, g, body[..i], entry).l;
    BodyDefined(w, g, body[..i], entry);
    assert Followed(w, body[i], l, seen);
    assert EffectOfAction(w, body[i], l.vars, l.funcs) == Source(path)
        || EffectOfAction(w, body[i], l.vars, l.funcs) == Launch(path);
  }

  // ---------------------------------------------------------------------------------------------------------
  // What a collapsed visit hides

  /** The first script not in `seen` that a body sources or launches under `l`. Up to there every visit is collapsed, so
      a sourced script contributes its own functions and a launched one nothing, and no other script's body matters. */
  function FirstNew(w: World, seen: set<Real>, body: seq<Action>, l: Local): Option<Real>
    decreases |body|
  {
    if body == [] then None
    else
      match EffectOfAction(w, body[0], l.vars, l.funcs)
      case Nothing => FirstNew(w, seen, body[1..], l)
      case SetVars(vars) => FirstNew(w, seen, body[1..], l.(vars := vars))
      case Source(path) =>
        var file := ReadScript(w, path);
        if file.None? then FirstNew(w, seen, body[1..], l)
        else if file.value !in seen then file
        else FirstNew(w, seen, body[1..], l.(funcs := l.funcs + w.scripts[file.value].funcs))
      case Launch(path) =>
        var file := ReadScript(w, path);
        if file.None? || file.value in seen then FirstNew(w, seen, body[1..], l) else file
  }

  /** An effect that leads to no new script leaves `seen` alone, and the locals as FirstNew has them. */
  lemma ActOnSeen(w: World, g: Global, effect: Effect, l: Local)
    ensures var out := Act(w, g, effect, l);
            match effect
            case Nothing => out == Result(g, l)
            case SetVars(vars) => out == Result(g, l.(vars := vars))
            case Source(path) =>
              if ReadScript(w, path).None? then out.g.seen == g.seen && out.l == l
              else if ReadScript(w, path).value in g.seen then
                out.g.seen == g.seen && out.l == l.(funcs := l.funcs + w.scripts[ReadScript(w, path).value].funcs)
              else ReadScript(w, path).value in out.g.seen
            case Launch(path) =>
              if ReadScript(w, path).None? || ReadScript(w, path).value in g.seen then
                out.g.seen == g.seen && out.l == l
              else ReadScript(w, path).value in out.g.seen
  {
    if effect.Source? {
      SourcingImportsFuncs(w, g, effect.path, l);
    } else if effect.Launch? {
      SourcingImportsFuncs(w, g, effect.path, Local(l.vars, {}));
    }
  }

  /** Expanding a body meets new scripts exactly when it has a first one. */
  lemma {:induction false} BodyMeetsFirstNew(w: World, g: Global, body: seq<Action>, l: Local)
    ensures Body(w, g, body, l).g.seen == g.seen <==> FirstNew(w, g.seen, body, l).None?
    ensures FirstNew(w, g.seen, body, l).Some? ==>
              && FirstNew(w, g.seen, body, l).value !in g.seen
              && FirstNew(w, g.seen, body, l).value in Body(w, g, body, l).g.seen
    decreases |body|
  {
    hide EffectOfAction, ReadScript, Act;
    if body != [] {
      var effect := EffectOfAction(w, body[0], l.vars, l.funcs);
      var first := Act(w, g, effect, l);
      BodyOnce(w, g, body, l);
      ActOnSeen(w, g, effect, l);
      if first.g.seen == g.seen {
        BodyMeetsFirstNew(w, first.g, body[1..], first.l);
      }
    }
  }

  /** What expanding a script again would come to. */
  ghost function Reexpanded(w: World, g: Global, file: Real, entry: Local): set<Real>
    requires file in w.scripts
  {
    Body(w, g, w.scripts[file].body, entry).g.seen
  }

  /** A visit to an expanded script is collapsed and meets nothing; it hides scripts, which expanding again would meet,
      exactly when the script's body has a first new one under the visit's variables and functions. */
  lemma CollapsedVisitHides(w: World, g: Global, path: Path, l: Local, file: Real)
    requires ReadScript(w, path) == Some(file) && file in g.seen
    ensures var entry := l.(funcs := l.funcs + w.scripts[file].funcs);
            var out := Walk(w, g, path, l).g;
            && out == Global(g.seen, g.log + [AlreadyExpanded(file, entry)])
            && (Reexpanded(w, g, file, entry) != out.seen <==> FirstNew(w, g.seen, w.scripts[file].body, entry).Some?)
  {
    SourcingImportsFuncs(w, g, path, l);
    BodyMeetsFirstNew(w, g, w.scripts[file].body, l.(funcs := l.funcs + w.scripts[file].funcs));
  }

  /** No visit collapsed in a report hides a script that the walk has not met anywhere. */
  ghost predicate NothingHidden(w: World, g: Global) {
    forall v | v in g.log && v.AlreadyExpanded? && v.file in w.scripts :: Reexpanded(w, g, v.file, v.entry) == g.seen
  }

  /** For a whole walk: nothing is hidden exactly when no collapsed visit in its report has a first new script. */
  lemma HiddenExactly(w: World, g: Global)
    ensures NothingHidden(w, g)
       <==> forall v | v in g.log && v.AlreadyExpanded? && v.file in w.scripts ::
              FirstNew(w, g.seen, w.scripts[v.file].body, v.entry).None?
  {
    hide FirstNew, Body;
    forall v | v in g.log && v.AlreadyExpanded? && v.file in w.scripts
      ensures Reexpanded(w, g, v.file, v.entry) == g.seen
         <==> FirstNew(w, g.seen, w.scripts[v.file].body, v.entry).None?
    {
      BodyMeetsFirstNew(w, g, w.scripts[v.file].body, v.entry);
    }
  }

  // ---------------------------------------------------------------------------------------------------------
  // A scenario in which a collapsed visit hides a script

  /** Entry point r1 defines a function send_status and sources a script whose only line is send_status; entry point r2
      launches that script. Without the function, send_status is a program. */
  const HIDING := World(
    map["r1" := Script({"send_status"}, [Run(Simple([], [".", "/bin/poll.sh"]))]),
        "r2" := Script({}, [Command("/bin/poll.sh")]),
        "/bin/poll.sh" := Script({}, [Command("send_status")]),
        "/bin/send_status" := Script({}, [])],
    p => Some(p),
    (word, vars) => Some(word),
    (how, word, vars) => Some(if word == "send_status" then "/bin/send_status" else word),
    word => true,
    word => None,
    (value, vars) => value)

  lemma BodyOfOne(w: World, g: Global, action: Action, l: Local)
    ensures Body(w, g, [action], l) == Act(w, g, EffectOfAction(w, action, l.vars, l.funcs), l)
  {
    hide EffectOfAction, Act;
    BodyOnce(w, g, [action], l);
    assert [action][1..] == [];
  }

  lemma SpecialsAreShort(cmd: string)
    requires Special(cmd)
    ensures |cmd| <= 8
  {
  }

  lemma NotSpecial()
    ensures !Special("/bin/poll.sh") && !Special("send_status")
  {
    hide Special;
    if Special("/bin/poll.sh") { SpecialsAreShort("/bin/poll.sh"); }
    if Special("send_status") { SpecialsAreShort("send_status"); }
  }

  /** What the four lines in question do. */
  lemma EffectsInHiding(vars: Vars)
    ensures EffectOfAction(HIDING, Run(Simple([], [".", "/bin/poll.sh"])), vars, {"send_status"})
         == Source("/bin/poll.sh")
    ensures EffectOfAction(HIDING, Command("/bin/poll.sh"), vars, {}) == Launch("/bin/poll.sh")
    ensures EffectOfAction(HIDING, Command("send_status"), vars, {"send_status"}) == Nothing
    ensures EffectOfAction(HIDING, Command("send_status"), vars, {}) == Launch("/bin/send_status")
  {
    SourceEffect(vars);
    hide EffectOfAction, Special;
    NotSpecial();
    CommandEffect(HIDING, "/bin/poll.sh", vars, {});
    CommandEffect(HIDING, "send_status", vars, {});
    CommandEffect(HIDING, "send_status", vars, {"send_status"});
  }

  lemma SourceEffect(vars: Vars)
    ensures EffectOfAction(HIDING, Run(Simple([], [".", "/bin/poll.sh"])), vars, {"send_status"})
         == Source("/bin/poll.sh")
  {
    assert [".", "/bin/poll.sh"][1..] == ["/bin/poll.sh"];
  }

  /** A script that is new and can be read is expanded under its caller's variables. */
  lemma WalkOfNew(w: World, g: Global, path: Path, l: Local, file: Real, action: Action)
    requires ReadScript(w, path) == Some(file) && file !in g.seen && w.scripts[file].body == [action]
    ensures var l1 := l.(funcs := l.funcs + w.scripts[file].funcs);
            Walk(w, g, path, l) == Act(w, Global(g.seen + {file}, g.log + [Expanded(file, l1)]),
                                       EffectOfAction(w, action, l1.vars, l1.funcs), l1)
  {
    hide EffectOfAction, Act;
    var l1 := l.(funcs := l.funcs + w.scripts[file].funcs);
    BodyOfOne(w, Global(g.seen + {file}, g.log + [Expanded(file, l1)]), action, l1);
  }

  lemma FirstRootOfHiding(vars: Vars)
    ensures Walk(HIDING, START, "r1", Local(vars, {})).g.seen == {"r1", "/bin/poll.sh"}
  {
    hide EffectOfAction, Body;
    EffectsInHiding(vars);
    var none, l := Local(vars, {}), Local(vars, {"send_status"});
    assert none.funcs + {"send_status"} == l.funcs && l.funcs + {} == l.funcs;
    WalkOfNew(HIDING, START, "r1", none, "r1", Run(Simple([], [".", "/bin/poll.sh"])));
    var g1 := Global(START.seen + {"r1"}, START.log + [Expanded("r1", l)]);
    assert g1.seen == {"r1"};
    WalkOfNew(HIDING, g1, "/bin/poll.sh", l, "/bin/poll.sh", Command("send_status"));
  }

  lemma SecondRootOfHiding(g: Global, vars: Vars)
    requires g.seen == {"r1", "/bin/poll.sh"}
    ensures Walk(HIDING, g, "r2", Local(vars, {})).g.seen == {"r1", "/bin/poll.sh", "r2"}
    ensures AlreadyExpanded("/bin/poll.sh", Local(vars, {})) in Walk(HIDING, g, "r2", Local(vars, {})).g.log
  {
    hide EffectOfAction, Body;
    EffectsInHiding(vars);
    var l := Local(vars, {});
    assert l.funcs + {} == l.funcs;
    WalkOfNew(HIDING, g, "r2", l, "r2", Command("/bin/poll.sh"));
    var g1 := Global(g.seen + {"r2"}, g.log + [Expanded("r2", l)]);
    SourcingImportsFuncs(HIDING, g1, "/bin/poll.sh", l);
  }

  /** The scenario expands both entry points and, for the first, the script they share. It collapses the second visit to
      that script, the only one that launches the program, which is never expanded. */
  lemma CollapsedVisitCanHide(vars: Vars)
    ensures var g := Scenario(HIDING, START, ["r1", "r2"], vars);
            && g.seen == {"r1", "/bin/poll.sh", "r2"}
            && !NothingHidden(HIDING, g)
            && "/bin/send_status" in Reexpanded(HIDING, g, "/bin/poll.sh", Local(vars, {}))
  {
    hide Walk, FirstNew, EffectOfAction;
    FirstRootOfHiding(vars);
    var g1 := Walk(HIDING, START, "r1", Local(vars, {})).g;
    SecondRootOfHiding(g1, vars);
    var g := Walk(HIDING, g1, "r2", Local(vars, {})).g;
    assert ["r1", "r2"][1..] == ["r2"] && ["r2"][1..] == [];
    assert Scenario(HIDING, START, ["r1", "r2"], vars) == g;
    EffectsInHiding(vars);
    BodyOfOne(HIDING, g, Command("send_status"), Local(vars, {}));
    SourcingImportsFuncs(HIDING, g, "/bin/send_status", Local(vars, {}));
  }

  // ---------------------------------------------------------------------------------------------------------
  // A scenario in which the second caller lacks functions

  function SourceLine(path: Path): Action {
    Run(Simple([], [".", path]))
  }

  /** Two entry points source one script, and that sources another, which defines a function. */
  const NESTED := World(
    map["r1" := Script({}, [SourceLine("/lib/outer.sh")]),
        "r2" := Script({}, [SourceLine("/lib/outer.sh")]),
        "/lib/outer.sh" := Script({}, [SourceLine("/lib/inner.sh")]),
        "/lib/inner.sh" := Script({"send_status"}, [])],
    p => Some(p),
    (word, vars) => Some(word),
    (how, word, vars) => None,
    word => true,
    word => None,
    (value, vars) => value)

  lemma SourceLineSources(path: Path, vars: Vars, funcs: set<string>)
    ensures EffectOfAction(NESTED, SourceLine(path), vars, funcs) == Source(path)
  {
    assert [".", path][1..] == [path];
  }

  /** The first entry point knows the function after sourcing the outer script, the second does not. */
  lemma SecondCallerLacksFunctions(vars: Vars)
    ensures var first := Walk(NESTED, START, "r1", Local(vars, {}));
            && "send_status" in first.l.funcs
            && "send_status" !in Walk(NESTED, first.g, "r2", Local(vars, {})).l.funcs
  {
    hide EffectOfAction, Body, Walk, SourceLine;
    var none := Local(vars, {});
    assert none.funcs + {} == none.funcs;
    SourceLineSources("/lib/outer.sh", vars, {});
    SourceLineSources("/lib/inner.sh", vars, {});
    WalkOfNew(NESTED, START, "r1", none, "r1", SourceLine("/lib/outer.sh"));
    var g1 := Global(START.seen + {"r1"}, START.log + [Expanded("r1", none)]);
    WalkOfNew(NESTED, g1, "/lib/outer.sh", none, "/lib/outer.sh", SourceLine("/lib/inner.sh"));
    var g2 := Global(g1.seen + {"/lib/outer.sh"}, g1.log + [Expanded("/lib/outer.sh", none)]);
    SourcingImportsFuncs(NESTED, g2, "/lib/inner.sh", none);
    var g := Walk(NESTED, START, "r1", none).g;
    InnerHasNoBody(g2, none);
    WalkOfNew(NESTED, g, "r2", none, "r2", SourceLine("/lib/outer.sh"));
    SourcingImportsFuncs(NESTED, Global(g.seen + {"r2"}, g.log + [Expanded("r2", none)]), "/lib/outer.sh", none);
  }

  lemma InnerHasNoBody(g: Global, l: Local)
    requires "/lib/inner.sh" !in g.seen
    ensures Walk(NESTED, g, "/lib/inner.sh", l).g.seen == g.seen + {"/lib/inner.sh"}
  {
  }
}
