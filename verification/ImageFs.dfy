/** The boot simulator's view of the camera's file system: absolute camera paths are mapped to places in the packaged
    image trees, and symbolic links are followed through that mapping. */
module ImageFs {
  import opened Wrappers

  /** The components of an absolute path as it is written, so with any "", "." and ".." still in it. */
  type Path = seq<string>

  datatype Tree = Payload | Home | Rootfs

  /** A place in one of the image trees. */
  datatype Loc = Loc(tree: Tree, parts: seq<string>)

  datatype Target = Absolute(path: Path) | Relative(path: Path)

  datatype Node = Plain(executable: bool) | Link(target: Target)

  /** `payload`: whether the payload is mounted. `nodes`: what exists in the trees, by name; a name with a slash at its end
      has its own entry, for the directory it leads to. `archived`: the places whose file ships as a .7z next to it. */
  datatype FS = FS(payload: bool, nodes: map<Loc, Node>, archived: set<Loc>)

  // ---------------------------------------------------------------------------------------------------------
  // Paths

  function Push(p: Path, c: string): Path {
    if c == "" || c == "." then p
    else if c == ".." then if p == [] then [] else p[..|p| - 1]
    else p + [c]
  }

  /** os.path.normpath of an absolute path. */
  function Normalise(p: Path): Path {
    if p == [] then [] else Push(Normalise(p[..|p| - 1]), p[|p| - 1])
  }

  function Dirname(p: Path): Path {
    if p == [] then [] else p[..|p| - 1]
  }

  const EXTRA: Path := ["home", "yi-hack", "extra"]
  const WWW: Path := ["home", "yi-hack", "www"]

  predicate RuntimeArea(p: Path) {
    |p| >= 2 && p[0] in {"tmp", "dev", "proc", "sys", "var", "run"}
  }

  /** os.path.join of a directory with what is left of a path: with nothing left the place's name ends in a slash, which
      makes it a different name for the directory. */
  function Rest(p: Path): Path {
    if p == [] then [""] else p
  }

  const WWW_MIN: Path := ["yi-hack", "base", "www-min"]

  /** The place of a normalised path, unless it is not mounted or only exists at run time. */
  function Placed(payload: bool, p: Path): Option<Loc> {
    if EXTRA <= p then if payload then Some(Loc(Payload, Rest(p[3..]))) else None
    else if WWW <= p then
      if payload then Some(Loc(Payload, ["www"] + Rest(p[3..]))) else Some(Loc(Home, WWW_MIN + Rest(p[3..])))
    else if |p| >= 1 && p[0] == "home" then Some(Loc(Home, p[1..]))
    else if RuntimeArea(p) then None
    else Some(Loc(Rootfs, Rest(p)))
  }

  function ToImage(payload: bool, abspath: Path): Option<Loc> {
    Placed(payload, Normalise(abspath))
  }

  /** A component that names something. */
  predicate Ordinary(c: string) {
    c != "" && c != "." && c != ".."
  }

  predicate Plainly(p: Path) {
    forall i | 0 <= i < |p| :: Ordinary(p[i])
  }

  lemma NormaliseAppend(p: Path, c: string)
    ensures Normalise(p + [c]) == Push(Normalise(p), c)
  {
    assert (p + [c])[..|p|] == p;
  }

  /** Only the normal form of what comes before matters for what comes after. */
  lemma {:induction false} NormaliseFront(a: Path, a': Path, b: Path)
    requires Normalise(a) == Normalise(a')
    ensures Normalise(a + b) == Normalise(a' + b)
    decreases |b|
  {
    if b == [] {
      assert a + b == a && a' + b == a';
    } else {
      hide Push, Normalise;
      var n := |b| - 1;
      NormaliseFront(a, a', b[..n]);
      assert a + b == a + b[..n] + [b[n]] && a' + b == a' + b[..n] + [b[n]];
      NormaliseAppend(a + b[..n], b[n]);
      NormaliseAppend(a' + b[..n], b[n]);
    }
  }

  /** A path of ordinary components is normal already. */
  lemma {:induction false} PlainPathsAreNormal(p: Path)
    requires Plainly(p)
    ensures Normalise(p) == p
  {
    if p != [] {
      var n := |p| - 1;
      PlainPathsAreNormal(p[..n]);
      assert p == p[..n] + [p[n]] && Ordinary(p[n]);
    }
  }

  /** "" and "." make no difference; ".." takes back the component before it, and nothing at the root. */
  lemma DotsInPaths(a: Path, c: string, b: Path)
    ensures Normalise(a + [""] + b) == Normalise(a + ["."] + b) == Normalise(a + b)
    ensures Ordinary(c) ==> Normalise(a + [c] + [".."] + b) == Normalise(a + b)
    ensures Normalise([".."] + b) == Normalise(b)
  {
    NormaliseAppend(a, "");
    NormaliseAppend(a, ".");
    NormaliseFront(a + [""], a, b);
    NormaliseFront(a + ["."], a, b);
    if Ordinary(c) {
      NormaliseAppend(a, c);
      NormaliseAppend(a + [c], "..");
      assert (Normalise(a) + [c])[..|Normalise(a)|] == Normalise(a);
      NormaliseFront(a + [c] + [".."], a, b);
    }
    NormaliseAppend([], "..");
    assert [] + [".."] == [".."] && [] + b == b;
    NormaliseFront([".."], [], b);
  }

  lemma LongNamesAreOrdinary(c: string)
    requires |c| > 2
    ensures Ordinary(c)
  {
  }

  lemma PlainConcat(a: Path, b: Path)
    requires Plainly(a) && Plainly(b)
    ensures Plainly(a + b) && Normalise(a + b) == a + b
  {
    hide Ordinary;
    PlainPathsAreNormal(a + b);
  }

  lemma PlainRoots()
    ensures Plainly(["home"]) && Plainly(EXTRA) && Plainly(WWW)
  {
    hide Ordinary;
    LongNamesAreOrdinary("home");
    LongNamesAreOrdinary("yi-hack");
    LongNamesAreOrdinary("extra");
    LongNamesAreOrdinary("www");
  }

  /** Below its directory the payload's tree is the payload's, if it is mounted. */
  lemma PlacesInPayload(payload: bool, r: Path)
    requires Plainly(r) && r != []
    ensures ToImage(payload, ["home", "yi-hack", "extra"] + r) == if payload then Some(Loc(Payload, r)) else None
  {
    hide Normalise, Plainly, Placed;
    PlainRoots();
    PlainConcat(EXTRA, r);
    assert (EXTRA + r)[3..] == r;
    BelowExtra(payload, EXTRA + r);
  }

  lemma BelowExtra(payload: bool, p: Path)
    requires EXTRA <= p && p[3..] != []
    ensures Placed(payload, p) == if payload then Some(Loc(Payload, p[3..])) else None
  {
  }

  /** The www view leads into the payload, or to the rescue pages if it is not mounted. */
  lemma PlacesInView(payload: bool, r: Path)
    requires Plainly(r) && r != []
    ensures ToImage(payload, ["home", "yi-hack", "www"] + r)
         == Some(if payload then Loc(Payload, ["www"] + r) else Loc(Home, ["yi-hack", "base", "www-min"] + r))
  {
    hide Normalise, Plainly, Placed;
    PlainRoots();
    PlainConcat(WWW, r);
    assert (WWW + r)[3..] == r;
    BelowView(payload, WWW + r);
  }

  lemma BelowView(payload: bool, p: Path)
    requires WWW <= p && p[3..] != []
    ensures Placed(payload, p)
         == Some(if payload then Loc(Payload, ["www"] + p[3..]) else Loc(Home, ["yi-hack", "base", "www-min"] + p[3..]))
  {
    assert p[2] == "www" && "extra"[0] == 'e' && "www"[0] == 'w';
  }

  /** The rest of /home is the home tree's. */
  lemma PlacesInHome(payload: bool, r: Path)
    requires Plainly(r) && !(["yi-hack", "extra"] <= r) && !(["yi-hack", "www"] <= r)
    ensures ToImage(payload, ["home"] + r) == Some(Loc(Home, r))
  {
    hide Normalise, Plainly, Placed;
    PlainRoots();
    PlainConcat(["home"], r);
    PrefixBehind("home", ["yi-hack", "extra"], r);
    PrefixBehind("home", ["yi-hack", "www"], r);
    assert EXTRA == ["home"] + ["yi-hack", "extra"] && WWW == ["home"] + ["yi-hack", "www"];
    assert (["home"] + r)[1..] == r;
    RestOfHome(payload, ["home"] + r);
  }

  lemma PrefixBehind(c: string, a: Path, r: Path)
    ensures [c] + a <= [c] + r ==> a <= r
  {
    assert ([c] + a)[1..] == a && ([c] + r)[1..] == r;
  }

  lemma RestOfHome(payload: bool, p: Path)
    requires p != [] && p[0] == "home" && !(EXTRA <= p) && !(WWW <= p)
    ensures Placed(payload, p) == Some(Loc(Home, p[1..]))
  {
  }

  /** Outside /home: nothing below the directories that exist at run time only, and the root file system's tree. */
  lemma PlacesOutsideHome(payload: bool, first: string, r: Path)
    requires Plainly([first] + r) && first != "home"
    ensures ToImage(payload, [first] + r)
         == if r != [] && first in {"tmp", "dev", "proc", "sys", "var", "run"} then None
            else Some(Loc(Rootfs, [first] + r))
  {
    var p := [first] + r;
    PlainPathsAreNormal(p);
    hide Normalise, Plainly;
    assert p[0] == first && EXTRA[0] == "home" && WWW[0] == "home";
  }

  predicate NoEmptyName(p: Path) {
    forall i | 0 <= i < |p| :: p[i] != ""
  }

  lemma {:induction false} NormalPathsHaveNames(p: Path)
    ensures NoEmptyName(Normalise(p))
  {
    if p != [] {
      NormalPathsHaveNames(p[..|p| - 1]);
    }
  }

  /** What a path below the www view, but not the view's own path, is another name for. */
  function OtherName(payload: bool, p: Path): Path
    requires WWW <= p
  {
    (if payload then EXTRA + ["www"] else ["home"] + WWW_MIN) + p[3..]
  }

  predicate Alias(payload: bool, p: Path, q: Path) {
    WWW < p && q == OtherName(payload, p)
  }

  /** Two paths share a place exactly when they are the same after normalisation, or one lies below the www view and the
      other is the same file's name outside it. */
  lemma AliasesGoThroughWww(payload: bool, a: Path, b: Path)
    requires ToImage(payload, a).Some? && ToImage(payload, b).Some?
    ensures ToImage(payload, a) == ToImage(payload, b)
       <==> Normalise(a) == Normalise(b) || Alias(payload, Normalise(a), Normalise(b))
            || Alias(payload, Normalise(b), Normalise(a))
  {
    NormalPathsHaveNames(a);
    NormalPathsHaveNames(b);
    hide Normalise;
    SamePlace(payload, Normalise(a), Normalise(b));
  }

  lemma SamePlace(payload: bool, p: Path, q: Path)
    requires Placed(payload, p).Some? && Placed(payload, q).Some? && NoEmptyName(p) && NoEmptyName(q)
    ensures Placed(payload, p) == Placed(payload, q) <==> p == q || Alias(payload, p, q) || Alias(payload, q, p)
  {
    if WWW <= p && !(WWW <= q) {
      ViewAndOutside(payload, p, q);
    } else if WWW <= q && !(WWW <= p) {
      ViewAndOutside(payload, q, p);
    } else if WWW <= p {
      SameRest(if payload then ["www"] else WWW_MIN, p[3..], q[3..]);
      assert p == WWW + p[3..] && q == WWW + q[3..];
      OutsideTheView(payload, p);
      OutsideTheView(payload, q);
    } else {
      BothOutside(payload, p, q);
    }
  }

  lemma SameRest(front: Path, a: Path, b: Path)
    requires NoEmptyName(a) && NoEmptyName(b)
    ensures front + Rest(a) == front + Rest(b) <==> a == b
    ensures Rest(a) == Rest(b) <==> a == b
  {
    if front + Rest(a) == front + Rest(b) {
      assert (front + Rest(a))[|front|..] == Rest(a) && (front + Rest(b))[|front|..] == Rest(b);
    }
    if a == [] && b != [] { assert Rest(b)[0] != "" && Rest(a)[0] == ""; }
    if b == [] && a != [] { assert Rest(a)[0] != "" && Rest(b)[0] == ""; }
  }

  /** The other name of a path below the view is not below it. */
  lemma OutsideTheView(payload: bool, p: Path)
    requires WWW <= p
    ensures !(WWW <= OtherName(payload, p))
  {
    assert OtherName(payload, p)[2] == if payload then "extra" else "base";
    assert "extra"[0] == 'e' && "base"[0] == 'b' && "www"[0] == 'w';
  }

  lemma BothOutside(payload: bool, p: Path, q: Path)
    requires Placed(payload, p).Some? && Placed(payload, q).Some? && NoEmptyName(p) && NoEmptyName(q)
    requires !(WWW <= p) && !(WWW <= q)
    ensures Placed(payload, p) == Placed(payload, q) <==> p == q
  {
    if EXTRA <= p && EXTRA <= q {
      SameRest([], p[3..], q[3..]);
      assert p == EXTRA + p[3..] && q == EXTRA + q[3..];
    } else if |p| >= 1 && p[0] == "home" && |q| >= 1 && q[0] == "home" {
      assert p == ["home"] + p[1..] && q == ["home"] + q[1..];
    } else {
      SameRest([], p, q);
    }
  }

  /** A path below the view and one that is not. */
  lemma ViewAndOutside(payload: bool, p: Path, q: Path)
    requires Placed(payload, p).Some? && Placed(payload, q).Some? && NoEmptyName(p) && NoEmptyName(q)
    requires WWW <= p && !(WWW <= q)
    ensures Placed(payload, p) == Placed(payload, q) <==> Alias(payload, p, q)
  {
    var r := p[3..];
    assert p == WWW + r;
    if payload {
      ViewWithPayload(r, q);
    } else {
      ViewWithoutPayload(r, q);
    }
  }

  /** What is left of a path outside the view, if it shares a place with one below it. */
  lemma RestOutside(front: Path, a: Path, r: Path)
    requires NoEmptyName(a) && NoEmptyName(r) && front != []
    ensures Rest(a) == front + Rest(r) <==> r != [] && a == front + r
    ensures a == front + Rest(r) <==> r != [] && a == front + r
  {
    var whole := front + Rest(r);
    assert whole[|front|] == Rest(r)[0];
    if a == [] { assert |Rest(a)| == 1 && |whole| >= 2; }
  }

  lemma ViewWithPayload(r: Path, q: Path)
    requires NoEmptyName(r) && NoEmptyName(q) && !(WWW <= q)
    ensures Placed(true, q) == Some(Loc(Payload, ["www"] + Rest(r))) <==> r != [] && q == EXTRA + ["www"] + r
  {
    if EXTRA <= q {
      assert EXTRA + ["www"] + r == EXTRA + (["www"] + r);
      hide Rest, NoEmptyName;
      Parts(EXTRA, q, ["www"] + r);
      PartHasNames(q, 3);
      RestOutside(["www"], q[3..], r);
    }
  }

  lemma PartHasNames(p: Path, from: nat)
    requires NoEmptyName(p) && from <= |p|
    ensures NoEmptyName(p[from..])
  {
  }

  lemma Parts(front: Path, q: Path, rest: Path)
    requires front <= q
    ensures q == front + rest <==> q[|front|..] == rest
  {
    assert q == front + q[|front|..];
  }

  lemma ViewWithoutPayload(r: Path, q: Path)
    requires NoEmptyName(r) && NoEmptyName(q) && !(WWW <= q) && !(EXTRA <= q)
    ensures Placed(false, q) == Some(Loc(Home, WWW_MIN + Rest(r))) <==> r != [] && q == ["home"] + WWW_MIN + r
  {
    assert ["home"] + WWW_MIN + r == ["home"] + (WWW_MIN + r);
    if ["home"] <= q {
      hide Rest, NoEmptyName;
      Parts(["home"], q, WWW_MIN + r);
      PartHasNames(q, 1);
      RestOutside(WWW_MIN, q[1..], r);
    }
  }

  // ---------------------------------------------------------------------------------------------------------
  // Following links

  datatype Kind = File(loc: Loc) | Compressed(loc: Loc) | Dangling(at: Path)

  /** os.path.islink: a name with a slash at its end is never a link. */
  predicate IsLink(fs: FS, loc: Loc) {
    loc in fs.nodes && fs.nodes[loc].Link? && (loc.parts == [] || loc.parts[|loc.parts| - 1] != "")
  }

  /** The path a link at `abspath` leads to. A relative target is joined to the directory of the path as written. */
  function Follow(abspath: Path, target: Target): Path {
    match target
    case Absolute(p) => p
    case Relative(p) => Normalise(Dirname(abspath) + p)
  }

  /** What a path that is not a link stands for. */
  function End(fs: FS, abspath: Path): Kind {
    match ToImage(fs.payload, abspath)
    case None => Dangling(abspath)
    case Some(loc) =>
      if loc in fs.nodes then File(loc) else if loc in fs.archived then Compressed(loc) else Dangling(abspath)
  }

  /** One hop along a link; None where the chain ends. */
  function Hop(fs: FS, abspath: Path): Option<Path> {
    match ToImage(fs.payload, abspath)
    case None => None
    case Some(loc) => if IsLink(fs, loc) then Some(Follow(abspath, fs.nodes[loc].target)) else None
  }

  /** The links not visited yet. */
  function Unseen(fs: FS, seen: set<Loc>): set<Loc> {
    fs.nodes.Keys - seen
  }

  /** The loop's result from some path on, having visited `seen`. */
  function Resolve(fs: FS, abspath: Path, seen: set<Loc>): Kind
    decreases |Unseen(fs, seen)|
  {
    match ToImage(fs.payload, abspath)
    case None => Dangling(abspath)
    case Some(loc) =>
      if loc in seen then Dangling(abspath)
      else if IsLink(fs, loc) then
        OneFewer(fs, seen, loc); Resolve(fs, Follow(abspath, fs.nodes[loc].target), seen + {loc})
      else End(fs, abspath)
  }

  lemma OneFewer(fs: FS, seen: set<Loc>, loc: Loc)
    requires loc in fs.nodes && loc !in seen
    ensures |Unseen(fs, seen + {loc})| < |Unseen(fs, seen)|
  {
    assert Unseen(fs, seen) == Unseen(fs, seen + {loc}) + {loc};
  }

  method RealTarget(fs: FS, abspath: Path) returns (kind: Kind)
    ensures kind == Resolve(fs, abspath, {})
  {
    var loc := ToImage(fs.payload, abspath);
    if loc.None? {
      return Dangling(abspath);
    }
    var seen: set<Loc> := {};
    var curAbs, curLoc := abspath, loc.value;
    while true
      invariant ToImage(fs.payload, curAbs) == Some(curLoc)
      invariant Resolve(fs, abspath, {}) == Resolve(fs, curAbs, seen)
      decreases |Unseen(fs, seen)|
    {
      if curLoc in seen {
        return Dangling(curAbs);
      }
      if !IsLink(fs, curLoc) {
        if curLoc in fs.nodes {
          return File(curLoc);
        }
        if curLoc in fs.archived {
          return Compressed(curLoc);
        }
        return Dangling(curAbs);
      }
      OneFewer(fs, seen, curLoc);
      seen := seen + {curLoc};
      curAbs := Follow(curAbs, fs.nodes[curLoc].target);
      var next := ToImage(fs.payload, curAbs);
      if next.None? {
        return Dangling(curAbs);
      }
      curLoc := next.value;
    }
  }

  // ---------------------------------------------------------------------------------------------------------
  // The loop against the chain itself

  /** The path after n hops, if the chain is that long. */
  ghost function Nth(fs: FS, abspath: Path, n: nat): Option<Path> {
    if n == 0 then Some(abspath)
    else match Nth(fs, abspath, n - 1)
      case None => None
      case Some(p) => Hop(fs, p)
  }

  /** The chain ends after n hops, at `p`. */
  ghost predicate EndsAt(fs: FS, abspath: Path, n: nat, p: Path) {
    Nth(fs, abspath, n) == Some(p) && Hop(fs, p).None?
  }

  lemma {:induction false} NthShift(fs: FS, abspath: Path, n: nat)
    requires Hop(fs, abspath).Some?
    ensures Nth(fs, abspath, n + 1) == Nth(fs, Hop(fs, abspath).value, n)
  {
    hide Hop;
    if n > 0 { NthShift(fs, abspath, n - 1); }
  }

  lemma {:induction false} NthPrefix(fs: FS, abspath: Path, n: nat, i: nat)
    requires i <= n && Nth(fs, abspath, n).Some?
    ensures Nth(fs, abspath, i).Some?
    ensures i < n ==> Hop(fs, Nth(fs, abspath, i).value).Some?
  {
    hide Hop;
    if i < n { NthPrefix(fs, abspath, n - 1, i); }
  }

  /** The place visited after i hops. */
  ghost function LocAt(fs: FS, abspath: Path, i: nat): Option<Loc> {
    match Nth(fs, abspath, i)
    case None => None
    case Some(p) => ToImage(fs.payload, p)
  }

  /** No place is visited twice within n hops, and none of `seen` is. */
  ghost predicate Fresh(fs: FS, abspath: Path, n: nat, seen: set<Loc>) {
    && (forall i: nat | i <= n && LocAt(fs, abspath, i).Some? :: LocAt(fs, abspath, i).value !in seen)
    && (forall i: nat, j: nat | i < j <= n && LocAt(fs, abspath, i).Some? ::
          LocAt(fs, abspath, i) != LocAt(fs, abspath, j))
  }

  /** A chain is fresh when its first place is and the rest of it is, the first place counting as visited. */
  lemma FreshShift(fs: FS, abspath: Path, loc: Loc, q: Path, n: nat, seen: set<Loc>)
    requires n > 0 && ToImage(fs.payload, abspath) == Some(loc) && Hop(fs, abspath) == Some(q)
    ensures Fresh(fs, abspath, n, seen) <==> loc !in seen && Fresh(fs, q, n - 1, seen + {loc})
  {
    assert LocAt(fs, abspath, 0) == Some(loc);
    forall i: nat ensures LocAt(fs, abspath, i + 1) == LocAt(fs, q, i) { NthShift(fs, abspath, i); }
    hide Nth, Hop, LocAt, ToImage;
    if Fresh(fs, abspath, n, seen) {
      forall i: nat | i <= n - 1 && LocAt(fs, q, i).Some? ensures LocAt(fs, q, i).value !in seen + {loc} {
        assert LocAt(fs, abspath, i + 1) == LocAt(fs, q, i);
      }
      forall i: nat, j: nat | i < j <= n - 1 && LocAt(fs, q, i).Some? ensures LocAt(fs, q, i) != LocAt(fs, q, j) {
        assert LocAt(fs, abspath, i + 1) == LocAt(fs, q, i) && LocAt(fs, abspath, j + 1) == LocAt(fs, q, j);
      }
    }
    if loc !in seen && Fresh(fs, q, n - 1, seen + {loc}) {
      forall i: nat | i <= n && LocAt(fs, abspath, i).Some? ensures LocAt(fs, abspath, i).value !in seen {
        if i > 0 { assert LocAt(fs, abspath, (i - 1) + 1) == LocAt(fs, q, i - 1); }
      }
      forall i: nat, j: nat | i < j <= n && LocAt(fs, abspath, i).Some?
        ensures LocAt(fs, abspath, i) != LocAt(fs, abspath, j)
      {
        assert LocAt(fs, abspath, (j - 1) + 1) == LocAt(fs, q, j - 1);
        if i > 0 { assert LocAt(fs, abspath, (i - 1) + 1) == LocAt(fs, q, i - 1); }
      }
    }
  }

  lemma EndIsFresh(fs: FS, p: Path, seen: set<Loc>)
    requires Hop(fs, p).None?
    ensures Fresh(fs, p, 0, seen) <==> ToImage(fs.payload, p).None? || ToImage(fs.payload, p).value !in seen
  {
    assert LocAt(fs, p, 0) == ToImage(fs.payload, p);
  }

  /** Where the chain ends, the loop reports what is there exactly when no place was visited twice on the way; otherwise
      it reports a dangling link. */
  lemma {:induction false} ResolveFollowsChain(fs: FS, abspath: Path, n: nat, p: Path, seen: set<Loc>)
    requires EndsAt(fs, abspath, n, p)
    ensures Fresh(fs, abspath, n, seen) ==> Resolve(fs, abspath, seen) == End(fs, p)
    ensures !Fresh(fs, abspath, n, seen) ==> Resolve(fs, abspath, seen).Dangling?
    decreases n
  {
    hide Fresh, Placed, Normalise;
    if n == 0 {
      EndIsFresh(fs, p, seen);
    } else {
      NthPrefix(fs, abspath, n, 0);
      var loc, q := ToImage(fs.payload, abspath).value, Hop(fs, abspath).value;
      FreshShift(fs, abspath, loc, q, n, seen);
      NthShift(fs, abspath, n - 1);
      if loc !in seen {
        ResolveFollowsChain(fs, q, n - 1, p, seen + {loc});
      }
    }
  }

  /** Whatever the loop reports other than a dangling link is what the chain ends at. */
  lemma {:induction false} ResolveIsSound(fs: FS, abspath: Path, seen: set<Loc>) returns (n: nat, p: Path)
    requires !Resolve(fs, abspath, seen).Dangling?
    ensures EndsAt(fs, abspath, n, p) && Resolve(fs, abspath, seen) == End(fs, p)
    decreases |Unseen(fs, seen)|
  {
    hide Placed, Normalise, ToImage, Follow;
    var loc := ToImage(fs.payload, abspath).value;
    if IsLink(fs, loc) {
      OneFewer(fs, seen, loc);
      var q := Hop(fs, abspath).value;
      var m;
      m, p := ResolveIsSound(fs, q, seen + {loc});
      n := m + 1;
      NthShift(fs, abspath, m);
    } else {
      n, p := 0, abspath;
    }
  }

  /** What is reported is there: a file under its own name, and no link; an archive in the place of a file that is not. */
  lemma ReportedIsThere(fs: FS, abspath: Path)
    ensures match Resolve(fs, abspath, {})
            case File(loc) => loc in fs.nodes
            case Compressed(loc) => loc !in fs.nodes && loc in fs.archived
            case Dangling(_) => true
  {
    if !Resolve(fs, abspath, {}).Dangling? {
      var n, p := ResolveIsSound(fs, abspath, {});
    }
  }

  /** A relative link is followed from the directory it lies in, an absolute one from the root. */
  lemma LinksFromTheirDirectory(fs: FS, d: Path, name: string, loc: Loc, t: Path)
    requires Plainly(d) && Plainly(t) && ToImage(fs.payload, d + [name]) == Some(loc) && IsLink(fs, loc)
    ensures fs.nodes[loc].target == Relative(t) ==> Hop(fs, d + [name]) == Some(d + t)
    ensures fs.nodes[loc].target == Relative([".."] + t) ==> Hop(fs, d + [name]) == Some(Dirname(d) + t)
    ensures fs.nodes[loc].target == Absolute(t) ==> Hop(fs, d + [name]) == Some(t)
  {
    hide ToImage, IsLink;
    JoinedToDirectory(d, name, t);
  }

  /** The roots of payload and view are named with a slash at their end, so no link is ever seen there. */
  lemma RootsAreNoLinks(fs: FS)
    ensures Hop(fs, ["home", "yi-hack", "extra"]) == None && Hop(fs, ["home", "yi-hack", "www"]) == None
  {
    HomePaths();
    hide Normalise;
    assert "extra"[0] == 'e' && "www"[0] == 'w';
    assert WWW[3..] == [] && EXTRA[3..] == [];
  }

  lemma JoinedToDirectory(d: Path, name: string, t: Path)
    requires Plainly(d) && Plainly(t)
    ensures Follow(d + [name], Relative(t)) == d + t && Follow(d + [name], Relative([".."] + t)) == Dirname(d) + t
  {
    assert Dirname(d + [name]) == d;
    PlainPathsAreNormal(d + t);
    JoinedToParent(d, t);
    hide Normalise, Plainly;
  }

  lemma JoinedToParent(d: Path, t: Path)
    requires Plainly(d) && Plainly(t)
    ensures Normalise(d + ([".."] + t)) == Dirname(d) + t
  {
    if d == [] {
      PlainPathsAreNormal(t);
      hide Normalise;
      DotsInPaths([], "", t);
      assert [] + ([".."] + t) == [".."] + t && [] + t == t;
    } else {
      var front, last := d[..|d| - 1], d[|d| - 1];
      PlainPathsAreNormal(front + t);
      assert Ordinary(last);
      hide Normalise;
      DotsInPaths(front, last, t);
      assert d + ([".."] + t) == front + [last] + [".."] + t;
    }
  }

  /** On the chain of a path, a place is reached by one path only. */
  ghost predicate Unaliased(fs: FS, abspath: Path) {
    forall i: nat, j: nat | LocAt(fs, abspath, i).Some? && LocAt(fs, abspath, i) == LocAt(fs, abspath, j) ::
      Nth(fs, abspath, i) == Nth(fs, abspath, j)
  }

  lemma {:induction false} RepeatsForever(fs: FS, abspath: Path, i: nat, j: nat, k: nat)
    requires Nth(fs, abspath, i) == Nth(fs, abspath, j)
    ensures Nth(fs, abspath, i + k) == Nth(fs, abspath, j + k)
  {
    hide Hop;
    if k > 0 {
      RepeatsForever(fs, abspath, i, j, k - 1);
      assert Nth(fs, abspath, i + k - 1) == Nth(fs, abspath, j + k - 1);
    }
  }

  /** A chain that ends never comes back to a path: it would repeat for ever. */
  lemma NoReturn(fs: FS, abspath: Path, n: nat, p: Path, i: nat, j: nat)
    requires EndsAt(fs, abspath, n, p) && i < j <= n
    ensures Nth(fs, abspath, i) != Nth(fs, abspath, j)
  {
    hide Hop;
    if Nth(fs, abspath, i) == Nth(fs, abspath, j) {
      RepeatsForever(fs, abspath, i, j, n - j);
      NthPrefix(fs, abspath, n, i + (n - j));
      assert false;
    }
  }

  lemma EndingChainIsFresh(fs: FS, abspath: Path, n: nat, p: Path)
    requires EndsAt(fs, abspath, n, p) && Unaliased(fs, abspath)
    ensures Fresh(fs, abspath, n, {})
  {
    hide LocAt, Nth, EndsAt;
    forall i: nat, j: nat | i < j <= n && LocAt(fs, abspath, i).Some?
      ensures LocAt(fs, abspath, i) != LocAt(fs, abspath, j)
    {
      NoReturn(fs, abspath, n, p, i, j);
    }
  }

  /** Without aliases the loop reports a file or an archive exactly when following the links ends at it, and a dangling
      link in all other cases: a missing target, an unmounted area, a cycle. */
  lemma RealTargetIsTheChainsEnd(fs: FS, abspath: Path)
    requires Unaliased(fs, abspath)
    ensures forall kind: Kind | !kind.Dangling? ::
              Resolve(fs, abspath, {}) == kind
              <==> exists n: nat, p: Path :: EndsAt(fs, abspath, n, p) && End(fs, p) == kind
  {
    forall kind: Kind | !kind.Dangling?
      ensures Resolve(fs, abspath, {}) == kind
         <==> exists n: nat, p: Path :: EndsAt(fs, abspath, n, p) && End(fs, p) == kind
    {
      hide Resolve, End;
      if Resolve(fs, abspath, {}) == kind {
        var n, p := ResolveIsSound(fs, abspath, {});
        assert EndsAt(fs, abspath, n, p);
      } else if n: nat, p: Path :| EndsAt(fs, abspath, n, p) && End(fs, p) == kind {
        EndingChainIsFresh(fs, abspath, n, p);
        ResolveFollowsChain(fs, abspath, n, p, {});
      }
    }
  }

  // ---------------------------------------------------------------------------------------------------------
  // The www view breaks the assumption

  const HOME_LINK: Path := ["home", "yi-hack", "t"]

  /** www/a leads to ../t, /home/yi-hack/t leads back to the same file as extra/www/a, and from there ../t is a file. */
  const ALIASED := FS(true,
                      map[Loc(Payload, ["www", "a"]) := Link(Relative(["..", "t"])),
                          Loc(Home, ["yi-hack", "t"]) := Link(Absolute(EXTRA + ["www", "a"])),
                          Loc(Payload, ["t"]) := Plain(true)],
                      {})

  lemma NormalisePlain(p: Path, c: string)
    requires Normalise(p) == p && c != "" && c != "." && c != ".."
    ensures Normalise(p + [c]) == p + [c]
  {
    hide Normalise;
    NormaliseAppend(p, c);
  }

  lemma HomePaths()
    ensures Normalise(WWW) == WWW && Normalise(EXTRA) == EXTRA && Normalise(HOME_LINK) == HOME_LINK
  {
    var base := ["home", "yi-hack"];
    assert Normalise(base) == base by {
      assert Normalise([]) == [];
      hide Normalise;
      NormalisePlain([], "home");
      NormalisePlain([] + ["home"], "yi-hack");
      assert [] + ["home"] + ["yi-hack"] == base;
    }
    hide Normalise;
    NormalisePlain(base, "www");
    NormalisePlain(base, "extra");
    assert "t"[0] == 't' && "."[0] == '.';
    NormalisePlain(base, "t");
    assert base + ["www"] == WWW && base + ["extra"] == EXTRA && base + ["t"] == HOME_LINK;
  }

  lemma FirstHop()
    ensures ToImage(true, WWW + ["a"]) == Some(Loc(Payload, ["www", "a"]))
    ensures Hop(ALIASED, WWW + ["a"]) == Some(HOME_LINK)
  {
    HomePaths();
    hide Normalise;
    NormaliseAppend(WWW, "a");
    NormaliseAppend(WWW, "..");
    NormaliseAppend(WWW + [".."], "t");
    var p := WWW + ["a"];
    assert WWW[..2] == ["home", "yi-hack"] && ["home", "yi-hack"] + ["t"] == HOME_LINK;
    assert WWW + [".."] + ["t"] == WWW + ["..", "t"];
    assert !(EXTRA <= p) by { assert p[2] == "www" && EXTRA[2] == "extra"; }
    assert p[3..] == ["a"] && ["www"] + ["a"] == ["www", "a"];
    assert Dirname(p) + ["..", "t"] == WWW + ["..", "t"];
  }

  lemma SecondHop()
    ensures ToImage(true, HOME_LINK) == Some(Loc(Home, ["yi-hack", "t"]))
    ensures Hop(ALIASED, HOME_LINK) == Some(EXTRA + ["www", "a"])
  {
    HomePaths();
    hide Normalise;
    var p := HOME_LINK;
    assert !(EXTRA <= p) && !(WWW <= p) by { assert p[2] == "t" && EXTRA[2] == "extra" && WWW[2] == "www"; }
    assert p[1..] == ["yi-hack", "t"];
  }

  lemma ThirdHop()
    ensures ToImage(true, EXTRA + ["www", "a"]) == Some(Loc(Payload, ["www", "a"]))
    ensures Hop(ALIASED, EXTRA + ["www", "a"]) == Some(EXTRA + ["t"])
  {
    HomePaths();
    hide Normalise;
    NormaliseAppend(EXTRA, "www");
    NormaliseAppend(EXTRA + ["www"], "a");
    NormaliseAppend(EXTRA + ["www"], "..");
    NormaliseAppend(EXTRA + ["www"] + [".."], "t");
    var p := EXTRA + ["www", "a"];
    assert (EXTRA + ["www"])[..3] == EXTRA;
    assert EXTRA + ["www"] + ["a"] == p && p[3..] == ["www", "a"];
    assert EXTRA + ["www"] + [".."] + ["t"] == EXTRA + ["www", "..", "t"];
    assert Dirname(p) + ["..", "t"] == EXTRA + ["www", "..", "t"];
  }

  lemma LastStop()
    ensures ToImage(true, EXTRA + ["t"]) == Some(Loc(Payload, ["t"]))
    ensures Hop(ALIASED, EXTRA + ["t"]).None? && End(ALIASED, EXTRA + ["t"]) == File(Loc(Payload, ["t"]))
  {
    HomePaths();
    hide Normalise;
    NormaliseAppend(EXTRA, "t");
    assert (EXTRA + ["t"])[3..] == ["t"];
  }

  /** With that alias the links do end at a file, but the loop takes the second visit to the place for a cycle. */
  lemma AliasTakenForCycle()
    ensures EndsAt(ALIASED, WWW + ["a"], 3, EXTRA + ["t"])
    ensures End(ALIASED, EXTRA + ["t"]) == File(Loc(Payload, ["t"]))
    ensures Resolve(ALIASED, WWW + ["a"], {}).Dangling?
  {
    hide Hop, ToImage, End, Resolve;
    FirstHop();
    SecondHop();
    ThirdHop();
    LastStop();
    var p0 := WWW + ["a"];
    assert Nth(ALIASED, p0, 1) == Some(HOME_LINK);
    assert Nth(ALIASED, p0, 2) == Some(EXTRA + ["www", "a"]);
    assert Nth(ALIASED, p0, 3) == Some(EXTRA + ["t"]);
    assert LocAt(ALIASED, p0, 0) == LocAt(ALIASED, p0, 2);
    assert !Fresh(ALIASED, p0, 3, {});
    ResolveFollowsChain(ALIASED, p0, 3, EXTRA + ["t"], {});
  }
}
