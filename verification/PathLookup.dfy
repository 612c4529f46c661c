/** The boot simulator's two ways of finding a command on a PATH: a first-hit lookup that skips dangling links, and a
    full scan that also judges shadowing and duplicates. */
module PathLookup {
  import opened ImageFs
  import opened Wrappers

  /** A candidate of the full scan: directory, what it resolves to, and whether it can be executed. */
  datatype Cand = Cand(dir: Path, kind: Kind, exec: bool)

  predicate Real(kind: Kind) {
    !kind.Dangling?
  }

  /** is_exec: an archive is taken to expand to an executable file. */
  predicate IsExec(fs: FS, kind: Kind) {
    match kind
    case Compressed(_) => true
    case File(loc) => loc in fs.nodes && fs.nodes[loc].Plain? && fs.nodes[loc].executable
    case Dangling(_) => false
  }

  /** Something by that name ships in the directory, as it is or as an archive. */
  predicate Present(fs: FS, cand: Path) {
    match ToImage(fs.payload, cand)
    case None => false
    case Some(loc) => loc in fs.nodes || loc in fs.archived
  }

  /** What the first-hit lookup returns: the directory and target found, and the dangling links skipped before it. */
  datatype Lookup = Lookup(found: Option<(Path, Kind)>, skipped: seq<(Path, Path)>)

  method ResolveCmd(fs: FS, cmd: string, dirs: seq<Path>) returns (r: Lookup)
    ensures r == Found(fs, cmd, dirs, [])
  {
    hide Resolve, ToImage;
    var skipped: seq<(Path, Path)> := [];
    var i := 0;
    while i < |dirs|
      invariant 0 <= i <= |dirs|
      invariant Found(fs, cmd, dirs, []) == Found(fs, cmd, dirs[i..], skipped)
    {
      var d := dirs[i];
      var cand := d + [cmd];
      var loc := ToImage(fs.payload, cand);
      if loc.None? || loc.value !in fs.nodes {
        if loc.Some? && loc.value in fs.archived {
          return Lookup(Some((d, Compressed(loc.value))), skipped);
        }
      } else {
        var kind := RealTarget(fs, cand);
        if Real(kind) {
          return Lookup(Some((d, kind)), skipped);
        }
        skipped := skipped + [(d, kind.at)];
      }
      i := i + 1;
    }
    return Lookup(None, skipped);
  }

  function Found(fs: FS, cmd: string, dirs: seq<Path>, skipped: seq<(Path, Path)>): Lookup {
    if dirs == [] then Lookup(None, skipped)
    else
      var d := dirs[0];
      var loc := ToImage(fs.payload, d + [cmd]);
      if loc.None? || loc.value !in fs.nodes then
        if loc.Some? && loc.value in fs.archived then Lookup(Some((d, Compressed(loc.value))), skipped)
        else Found(fs, cmd, dirs[1..], skipped)
      else
        var kind := Resolve(fs, d + [cmd], {});
        if Real(kind) then Lookup(Some((d, kind)), skipped)
        else Found(fs, cmd, dirs[1..], skipped + [(d, kind.at)])
  }

  // ---------------------------------------------------------------------------------------------------------
  // The full scan

  datatype Outcome = NotFound | Ok | NonExec

  datatype Matrix = Matrix(cands: seq<Cand>, effective: Option<Cand>, outcome: Outcome, shadow: bool, dup: bool)

  /** All candidates on the PATH, in order. */
  function Cands(fs: FS, cmd: string, dirs: seq<Path>): seq<Cand> {
    if dirs == [] then []
    else
      var cand := dirs[0] + [cmd];
      (if Present(fs, cand) then
         var kind := Resolve(fs, cand, {});
         [Cand(dirs[0], kind, IsExec(fs, kind))]
       else []) + Cands(fs, cmd, dirs[1..])
  }

  /** The candidates that satisfy a test, in order. */
  function Select(cs: seq<Cand>, p: Cand -> bool): (r: seq<Cand>)
    ensures |r| <= |cs|
  {
    if cs == [] then [] else (if p(cs[0]) then [cs[0]] else []) + Select(cs[1..], p)
  }

  const IS_REAL: Cand -> bool := (c: Cand) => Real(c.kind)
  const IS_EXEC: Cand -> bool := (c: Cand) => c.exec

  function IndexOf(cs: seq<Cand>, c: Cand): (i: nat)
    requires c in cs
    ensures i < |cs| && cs[i] == c && forall j | 0 <= j < i :: cs[j] != c
  {
    if cs[0] == c then 0 else 1 + IndexOf(cs[1..], c)
  }

  /** The base name of what was found; that of an archive has its suffix. */
  predicate IsBusybox(kind: Kind) {
    kind.File? && kind.loc.parts != [] && kind.loc.parts[|kind.loc.parts| - 1] == "busybox"
  }

  function Target(kind: Kind): Loc
    requires Real(kind)
  {
    kind.loc
  }

  /** The distinct files behind some candidates, `realpath` being the host's. */
  function Distinct(execs: seq<Cand>, realpath: Loc -> Loc): set<Loc> {
    set c | c in execs && Real(c.kind) :: realpath(Target(c.kind))
  }

  method ResolveMatrix(fs: FS, cmd: string, dirs: seq<Path>, realpath: Loc -> Loc) returns (m: Matrix)
    ensures m == Judge(Cands(fs, cmd, dirs), realpath)
  {
    hide Resolve, Judge, ToImage, IsExec;
    var cands: seq<Cand> := [];
    var i := 0;
    while i < |dirs|
      invariant 0 <= i <= |dirs|
      invariant cands + Cands(fs, cmd, dirs[i..]) == Cands(fs, cmd, dirs)
    {
      var cand := dirs[i] + [cmd];
      ghost var rest := dirs[i..];
      assert rest[0] == dirs[i] && rest[1..] == dirs[i + 1..];
      if Present(fs, cand) {
        var kind := RealTarget(fs, cand);
        var c := Cand(dirs[i], kind, IsExec(fs, kind));
        assert cands + ([c] + Cands(fs, cmd, rest[1..])) == cands + [c] + Cands(fs, cmd, rest[1..]);
        cands := cands + [c];
      } else {
        assert [] + Cands(fs, cmd, rest[1..]) == Cands(fs, cmd, rest[1..]);
      }
      i := i + 1;
    }
    assert cands + [] == cands;
    m := Judge(cands, realpath);
  }

  function Judge(cands: seq<Cand>, realpath: Loc -> Loc): Matrix {
    var reals := Select(cands, IS_REAL);
    var execs := Select(reals, IS_EXEC);
    if reals == [] then Matrix(cands, None, NotFound, false, false)
    else if execs != [] then
      SelectedAreElements(reals, IS_EXEC);
      var eff := execs[0];
      var busybox := IsBusybox(eff.kind);
      Matrix(cands, Some(eff), Ok, IndexOf(reals, eff) > 0 && !busybox, |Distinct(execs, realpath)| > 1 && !busybox)
    else Matrix(cands, Some(reals[0]), NonExec, false, false)
  }

  lemma {:induction false} SelectedAreElements(cs: seq<Cand>, p: Cand -> bool)
    ensures forall c :: c in Select(cs, p) <==> c in cs && p(c)
  {
    if cs != [] { SelectedAreElements(cs[1..], p); }
  }

  // ---------------------------------------------------------------------------------------------------------
  // The two against each other

  /** The position of the first candidate that satisfies a test, or the number of candidates. */
  function First(cs: seq<Cand>, p: Cand -> bool): (k: nat)
    ensures k <= |cs|
    ensures forall j | 0 <= j < k :: !p(cs[j])
    ensures k < |cs| ==> p(cs[k])
  {
    if cs == [] || p(cs[0]) then 0 else 1 + First(cs[1..], p)
  }

  lemma {:induction false} SelectStartsAtFirst(cs: seq<Cand>, p: Cand -> bool)
    ensures Select(cs, p) == [] <==> First(cs, p) == |cs|
    ensures First(cs, p) < |cs| ==> Select(cs, p)[0] == cs[First(cs, p)]
  {
    if cs != [] && !p(cs[0]) {
      SelectStartsAtFirst(cs[1..], p);
      assert Select(cs, p) == Select(cs[1..], p);
    }
  }

  /** Directory and broken target of each candidate. */
  function Skipped(cs: seq<Cand>): seq<(Path, Path)>
    requires forall c | c in cs :: c.kind.Dangling?
  {
    seq(|cs|, i requires 0 <= i < |cs| => (cs[i].dir, cs[i].kind.at))
  }

  /** A place that exists only as an archive resolves to it. */
  lemma ArchiveResolves(fs: FS, cand: Path, loc: Loc)
    requires ToImage(fs.payload, cand) == Some(loc) && loc !in fs.nodes && loc in fs.archived
    ensures Resolve(fs, cand, {}) == Compressed(loc)
  {
  }

  /** What a lookup that finds `k` as first real candidate among `cs` returns. */
  function LookupOf(cs: seq<Cand>, skipped: seq<(Path, Path)>): Lookup {
    var k := First(cs, IS_REAL);
    Lookup(if k == |cs| then None else Some((cs[k].dir, cs[k].kind)), skipped + Skipped(cs[..k]))
  }

  lemma LookupStep(c: Cand, cs: seq<Cand>, skipped: seq<(Path, Path)>)
    ensures Real(c.kind) ==> LookupOf([c] + cs, skipped) == Lookup(Some((c.dir, c.kind)), skipped)
    ensures !Real(c.kind) ==> LookupOf([c] + cs, skipped) == LookupOf(cs, skipped + [(c.dir, c.kind.at)])
  {
    var all := [c] + cs;
    assert all[1..] == cs;
    if Real(c.kind) {
      assert Skipped(all[..0]) == [] && skipped + [] == skipped;
    } else {
      var k := First(cs, IS_REAL);
      assert First(all, IS_REAL) == k + 1;
      assert all[..k + 1] == [c] + cs[..k];
      assert Skipped(all[..k + 1]) == [(c.dir, c.kind.at)] + Skipped(cs[..k]);
      assert skipped + ([(c.dir, c.kind.at)] + Skipped(cs[..k])) == skipped + [(c.dir, c.kind.at)] + Skipped(cs[..k]);
    }
  }

  /** The lookup returns the scan's first real candidate, if there is one, having skipped exactly the dangling ones
      before it. */
  lemma {:induction false} LookupAgreesWithScan(fs: FS, cmd: string, dirs: seq<Path>, skipped: seq<(Path, Path)>)
    ensures Found(fs, cmd, dirs, skipped) == LookupOf(Cands(fs, cmd, dirs), skipped)
    decreases |dirs|
  {
    hide Resolve, LookupOf;
    if dirs == [] {
      LookupOfNone(skipped);
    } else {
      var cand := dirs[0] + [cmd];
      var rest := Cands(fs, cmd, dirs[1..]);
      var kind := Resolve(fs, cand, {});
      LookupStep(Cand(dirs[0], kind, IsExec(fs, kind)), rest, skipped);
      match ToImage(fs.payload, cand)
      case None =>
        assert [] + rest == rest;
        LookupAgreesWithScan(fs, cmd, dirs[1..], skipped);
      case Some(loc) =>
        if loc in fs.nodes {
          if !Real(kind) { LookupAgreesWithScan(fs, cmd, dirs[1..], skipped + [(dirs[0], kind.at)]); }
        } else if loc in fs.archived {
          ArchiveResolves(fs, cand, loc);
        } else {
          assert [] + rest == rest;
          LookupAgreesWithScan(fs, cmd, dirs[1..], skipped);
        }
    }
  }

  lemma LookupOfNone(skipped: seq<(Path, Path)>)
    ensures LookupOf([], skipped) == Lookup(None, skipped)
  {
    assert skipped + [] == skipped;
  }

  lemma {:induction false} CandsAreJudged(fs: FS, cmd: string, dirs: seq<Path>)
    ensures forall c | c in Cands(fs, cmd, dirs) :: c.exec == IsExec(fs, c.kind)
  {
    if dirs != [] { CandsAreJudged(fs, cmd, dirs[1..]); }
  }

  predicate RealBefore(cands: seq<Cand>, k: nat)
    requires k <= |cands|
  {
    exists j :: 0 <= j < k && Real(cands[j].kind)
  }

  /** Two executable candidates are different files on the host. */
  ghost predicate TwoFiles(cands: seq<Cand>, realpath: Loc -> Loc)
    requires forall c | c in cands && c.exec :: Real(c.kind)
  {
    exists c, d :: c in cands && d in cands && c.exec && d.exec && realpath(Target(c.kind)) != realpath(Target(d.kind))
  }

  /** The scan runs the first executable among the real candidates; `shadow` says that a real one that cannot be
      executed comes before it, and `dup` that two executables are different files, busybox apart in both. */
  lemma ScanJudgesShadowsAndDuplicates(cands: seq<Cand>, realpath: Loc -> Loc)
    requires forall c | c in cands && c.exec :: Real(c.kind)
    requires First(cands, IS_EXEC) < |cands|
    ensures Judge(cands, realpath).outcome == Ok
    ensures Judge(cands, realpath).effective == Some(cands[First(cands, IS_EXEC)])
    ensures Judge(cands, realpath).shadow
       <==> !IsBusybox(cands[First(cands, IS_EXEC)].kind) && RealBefore(cands, First(cands, IS_EXEC))
    ensures Judge(cands, realpath).dup
       <==> !IsBusybox(cands[First(cands, IS_EXEC)].kind) && TwoFiles(cands, realpath)
  {
    hide Select, IndexOf, First, Distinct, IsBusybox, RealBefore, TwoFiles;
    var reals := Select(cands, IS_REAL);
    var execs := Select(reals, IS_EXEC);
    SelectedAreElements(cands, IS_REAL);
    SelectedAreElements(reals, IS_EXEC);
    ExecPosition(cands);
    DistinctFiles(cands, execs, realpath);
  }

  /** With no executable candidate the scan falls back on the first real one, and without any it finds nothing. */
  lemma ScanWithoutExecutables(cands: seq<Cand>, realpath: Loc -> Loc)
    requires First(cands, IS_EXEC) == |cands|
    ensures var m, k := Judge(cands, realpath), First(cands, IS_REAL);
            && m.effective == (if k < |cands| then Some(cands[k]) else None)
            && m.outcome == (if k < |cands| then NonExec else NotFound)
            && !m.shadow && !m.dup
  {
    hide Select, First, IndexOf, Distinct, IsBusybox;
    var reals := Select(cands, IS_REAL);
    SelectStartsAtFirst(cands, IS_REAL);
    SelectedAreElements(cands, IS_REAL);
    SelectedAreElements(reals, IS_EXEC);
  }

  /** For every file system and PATH list: the full scan's judgement in terms of its own candidates. */
  lemma ScanOfPath(fs: FS, cmd: string, dirs: seq<Path>, realpath: Loc -> Loc)
    ensures forall c | c in Cands(fs, cmd, dirs) :: c.exec == IsExec(fs, c.kind) && (c.exec ==> Real(c.kind))
    ensures var cands := Cands(fs, cmd, dirs);
            var m, e, r := Judge(cands, realpath), First(cands, IS_EXEC), First(cands, IS_REAL);
            if e < |cands| then
              && m.outcome == Ok && m.effective == Some(cands[e])
              && (m.shadow <==> !IsBusybox(cands[e].kind) && RealBefore(cands, e))
              && (m.dup <==> !IsBusybox(cands[e].kind) && TwoFiles(cands, realpath))
            else
              && m.effective == (if r < |cands| then Some(cands[r]) else None)
              && m.outcome == (if r < |cands| then NonExec else NotFound)
              && !m.shadow && !m.dup
  {
    hide Judge, First, IsBusybox, RealBefore, TwoFiles, Cands;
    var cands := Cands(fs, cmd, dirs);
    CandsAreJudged(fs, cmd, dirs);
    if First(cands, IS_EXEC) < |cands| {
      ScanJudgesShadowsAndDuplicates(cands, realpath);
    } else {
      ScanWithoutExecutables(cands, realpath);
    }
  }

  /** The lookup succeeds exactly when the scan finds a real candidate; if it does, the two settle on the same directory
      and target exactly when what the lookup found can be executed, or nothing on the PATH can. */
  lemma EffectiveTargetsAgree(fs: FS, cmd: string, dirs: seq<Path>, realpath: Loc -> Loc)
    ensures var m, r := Judge(Cands(fs, cmd, dirs), realpath), Found(fs, cmd, dirs, []);
            && (r.found.None? <==> m.outcome.NotFound?)
            && (r.found.None? <==> m.effective.None?)
            && (r.found.Some? ==>
                  ((m.effective.value.dir, m.effective.value.kind) == r.found.value
                   <==> IsExec(fs, r.found.value.1) || m.outcome.NonExec?))
  {
    hide Judge, Cands, Found, IsExec, RealBefore, TwoFiles, IsBusybox, First;
    var cs := Cands(fs, cmd, dirs);
    LookupAgreesWithScan(fs, cmd, dirs, []);
    ScanOfPath(fs, cmd, dirs, realpath);
    var e, k := First(cs, IS_EXEC), First(cs, IS_REAL);
    if e < |cs| && cs[k].exec {
      assert !(k < e) && !(e < k);
    }
  }

  /** The command as found in a directory: a file that is there, under its own name or at the end of links. */
  predicate FoundAs(fs: FS, dir: Path, cmd: string, loc: Loc, executable: bool) {
    && Present(fs, dir + [cmd]) && Resolve(fs, dir + [cmd], {}) == File(loc)
    && loc in fs.nodes && fs.nodes[loc] == Plain(executable)
  }

  lemma OneDirectory(fs: FS, dir: Path, cmd: string, loc: Loc, executable: bool)
    requires FoundAs(fs, dir, cmd, loc, executable)
    ensures Cands(fs, cmd, [dir]) == [Cand(dir, File(loc), executable)]
  {
    hide Present, Resolve;
    assert [dir][1..] == [];
    var c := Cand(dir, File(loc), executable);
    assert [c] + [] == [c];
  }

  lemma {:induction false} CandsConcat(fs: FS, cmd: string, a: seq<Path>, b: seq<Path>)
    ensures Cands(fs, cmd, a + b) == Cands(fs, cmd, a) + Cands(fs, cmd, b)
  {
    hide Present, Resolve, IsExec;
    if a == [] {
      assert a + b == b && [] + Cands(fs, cmd, b) == Cands(fs, cmd, b);
    } else {
      assert (a + b)[1..] == a[1..] + b;
      CandsConcat(fs, cmd, a[1..], b);
    }
  }

  /** A single directory with a file of that name in it: the scan finds it, and whether it can be run is the file's own
      permission. */
  lemma PermissionDecides(fs: FS, dir: Path, cmd: string, loc: Loc, executable: bool, realpath: Loc -> Loc)
    requires FoundAs(fs, dir, cmd, loc, executable)
    ensures var m := Judge(Cands(fs, cmd, [dir]), realpath);
            && m.effective == Some(Cand(dir, File(loc), executable))
            && m.outcome == (if executable then Ok else NonExec) && !m.shadow && !m.dup
  {
    OneDirectory(fs, dir, cmd, loc, executable);
    hide FoundAs, Cands;
    var c := Cand(dir, File(loc), executable);
    assert [c][1..] == [];
    SingleCandidate(c, realpath);
  }

  lemma SingleCandidate(c: Cand, realpath: Loc -> Loc)
    requires c.kind.File?
    ensures var m := Judge([c], realpath);
            && m.effective == Some(c) && m.outcome == (if c.exec then Ok else NonExec) && !m.shadow && !m.dup
  {
    assert [c][1..] == [];
    if c.exec {
      ScanJudgesShadowsAndDuplicates([c], realpath);
    } else {
      ScanWithoutExecutables([c], realpath);
    }
  }

  /** An archive is taken to expand to a file that can be run. */
  lemma ArchiveCanRun(fs: FS, dir: Path, cmd: string, loc: Loc, realpath: Loc -> Loc)
    requires ToImage(fs.payload, dir + [cmd]) == Some(loc) && loc !in fs.nodes && loc in fs.archived
    ensures var m := Judge(Cands(fs, cmd, [dir]), realpath);
            m.effective == Some(Cand(dir, Compressed(loc), true)) && m.outcome == Ok && !m.shadow && !m.dup
  {
    ArchiveResolves(fs, dir + [cmd], loc);
    assert Present(fs, dir + [cmd]);
    hide ToImage, Resolve, Present;
    assert [dir][1..] == [];
    var c := Cand(dir, Compressed(loc), true);
    assert [c] + [] == [c] && [c][1..] == [];
    assert Cands(fs, cmd, [dir]) == [c];
    hide Cands;
    assert forall a, b | a in [c] && b in [c] :: a == b;
    ScanJudgesShadowsAndDuplicates([c], realpath);
  }

  /** Two directories, the first with a file that cannot be run: the second is run, and shadowed unless it is busybox,
      the name of its file being what counts. */
  lemma ShadowedUnlessBusybox(fs: FS, first: Path, second: Path, cmd: string, loc: Loc, loc': Loc, realpath: Loc -> Loc)
    requires FoundAs(fs, first, cmd, loc, false) && FoundAs(fs, second, cmd, loc', true)
    ensures var m := Judge(Cands(fs, cmd, [first, second]), realpath);
            && m.outcome == Ok && m.effective == Some(Cand(second, File(loc'), true)) && !m.dup
            && (m.shadow <==> !(exists d :: loc'.parts == d + ["busybox"]))
  {
    OneDirectory(fs, first, cmd, loc, false);
    OneDirectory(fs, second, cmd, loc', true);
    CandsConcat(fs, cmd, [first], [second]);
    assert [first] + [second] == [first, second];
    var c, c' := Cand(first, File(loc), false), Cand(second, File(loc'), true);
    assert [c] + [c'] == [c, c'];
    hide FoundAs, Cands;
    SecondIsRun(c, c', realpath);
    BusyboxByName(loc');
  }

  lemma SecondIsRun(c: Cand, c': Cand, realpath: Loc -> Loc)
    requires c.kind.File? && !c.exec && c'.kind.File? && c'.exec
    ensures var m := Judge([c, c'], realpath);
            m.outcome == Ok && m.effective == Some(c') && !m.dup && (m.shadow <==> !IsBusybox(c'.kind))
  {
    assert [c, c'][1..] == [c'] && [c'][1..] == [];
    assert First([c, c'], IS_EXEC) == 1;
    ScanJudgesShadowsAndDuplicates([c, c'], realpath);
    assert Real([c, c'][0].kind);
  }

  lemma BusyboxByName(loc: Loc)
    ensures IsBusybox(File(loc)) <==> exists d :: loc.parts == d + ["busybox"]
  {
    if IsBusybox(File(loc)) {
      var n := |loc.parts| - 1;
      assert loc.parts == loc.parts[..n] + ["busybox"];
    }
  }

  lemma {:induction false} ExecsAreReal(cands: seq<Cand>)
    requires forall c | c in cands && c.exec :: Real(c.kind)
    ensures Select(Select(cands, IS_REAL), IS_EXEC) == Select(cands, IS_EXEC)
  {
    if cands != [] {
      var c, rest := cands[0], Select(cands[1..], IS_REAL);
      ExecsAreReal(cands[1..]);
      if Real(c.kind) {
        assert Select(cands, IS_REAL) == [c] + rest;
        assert ([c] + rest)[1..] == rest;
      } else {
        assert Select(cands, IS_REAL) == rest;
      }
    }
  }

  /** The first executable among the real candidates is the first among all, and it comes first among the real ones
      exactly when no real one precedes it. */
  lemma ExecPosition(cands: seq<Cand>)
    requires forall c | c in cands && c.exec :: Real(c.kind)
    requires First(cands, IS_EXEC) < |cands|
    ensures var k, reals := First(cands, IS_EXEC), Select(cands, IS_REAL);
            && Select(reals, IS_EXEC) != [] && Select(reals, IS_EXEC)[0] == cands[k]
            && cands[k] in reals
            && (IndexOf(reals, cands[k]) > 0 <==> RealBefore(cands, k))
  {
    hide Select, IndexOf, First;
    var k := First(cands, IS_EXEC);
    ExecsAreReal(cands);
    SelectStartsAtFirst(cands, IS_EXEC);
    SelectStartsAtFirst(cands, IS_REAL);
    SelectedAreElements(cands, IS_REAL);
    assert cands[k] in cands && IS_REAL(cands[k]);
    var k0 := First(cands, IS_REAL);
    assert Select(cands, IS_REAL)[0] == cands[k0];
    if k0 < k {
      assert Real(cands[k0].kind) && !IS_EXEC(cands[k0]);
    }
  }

  lemma MoreThanOne(s: set<Loc>)
    ensures |s| > 1 <==> exists a, b :: a in s && b in s && a != b
  {
    if a :| a in s {
      if b :| b in s && b != a {
        assert s == {a, b} + (s - {a, b});
        assert |{a, b}| == 2;
      } else {
        assert s == {a};
      }
    }
  }

  lemma DistinctFiles(cands: seq<Cand>, execs: seq<Cand>, realpath: Loc -> Loc)
    requires forall c | c in cands && c.exec :: Real(c.kind)
    requires forall c :: c in execs <==> c in cands && c.exec
    ensures |Distinct(execs, realpath)| > 1 <==> TwoFiles(cands, realpath)
  {
    var s := Distinct(execs, realpath);
    MoreThanOne(s);
    if a, b :| a in s && b in s && a != b {
      var c :| c in execs && Real(c.kind) && realpath(Target(c.kind)) == a;
      var d :| d in execs && Real(d.kind) && realpath(Target(d.kind)) == b;
      assert c in cands && d in cands && c.exec && d.exec;
    }
    if c, d :| c in cands && d in cands && c.exec && d.exec && realpath(Target(c.kind)) != realpath(Target(d.kind)) {
      assert realpath(Target(c.kind)) in s && realpath(Target(d.kind)) in s;
    }
  }
}
