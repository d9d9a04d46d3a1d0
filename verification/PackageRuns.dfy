/** Runs of install and uninstall commands: what holds between commands and at every state on the way. */
module PackageRuns {
  import opened Common
  import opened ArchivePaths
  import opened FileTree
  import opened Staging
  import opened Commands
  import opened Packages
  import M = Manifest

  // ----- the packages a run is about

  /** The directories `ensureTree` makes in the root. */
  const SKELETON: set<string> := {"platforms", "build-tools", "platform-tools", "ndk", "cmake", "licenses", ".apex"}

  function Home(root: Path, p: string): Path {
    var d := PkgDir(root, p);
    if d.Some? then d.value else []
  }

  /** Neither the package nor its staging directory is the root or above it, and the package does not lie
      where the installer keeps its own files. */
  predicate Admissible(root: Path, p: string) {
    var d := Home(root, p);
    PkgDir(root, p).Some? && !(d <= root) && !(TmpOf(d) <= root) && !(Under(root, [".apex"]) <= d)
  }

  ghost predicate Housed(root: Path, ps: set<string>) {
    forall p :: p in ps ==> Admissible(root, p)
  }

  /** No package lies in another one, nor in the staging directory of one. */
  ghost predicate Independent(root: Path, ps: set<string>) {
    && (forall p, q :: p in ps && q in ps && p != q ==> !(Home(root, p) <= Home(root, q)))
    && (forall p, q :: p in ps && q in ps ==> !(TmpOf(Home(root, p)) <= Home(root, q)))
  }

  predicate StepOver(ps: set<string>, step: Step) {
    match step
    case Ensure(name) => name in SKELETON
    case Install(req) => req.path in ps
    case Uninstall(path) => path in ps
  }

  predicate StepsOver(ps: set<string>, steps: seq<Step>) {
    forall i :: 0 <= i < |steps| ==> StepOver(ps, steps[i])
  }

  lemma HomesApart(root: Path, ps: set<string>, p: string, q: string)
    requires Independent(root, ps) && p in ps && q in ps && p != q
    ensures Apart(Home(root, p), Home(root, q))
  {
  }

  /** What is above the staging directory of `d` is above `d`. */
  lemma AboveTmp(e: Path, d: Path)
    requires d != [] && e <= TmpOf(d) && |e| < |d|
    ensures e <= d
  {
    TmpOfBeside(d);
    assert e == TmpOf(d)[..|e|] == Parent(TmpOf(d))[..|e|] == Parent(d)[..|e|] == d[..|e|];
  }

  lemma HomeTmpApart(root: Path, ps: set<string>, p: string, q: string)
    requires Housed(root, ps) && Independent(root, ps) && p in ps && q in ps
    ensures Apart(Home(root, p), TmpOf(Home(root, q)))
  {
    var d, e := Home(root, p), Home(root, q);
    TmpOfBeside(e);
    if d <= TmpOf(e) && |d| < |e| {
      AboveTmp(d, e);
    }
  }

  lemma TmpsApart(root: Path, ps: set<string>, p: string, q: string)
    requires Housed(root, ps) && Independent(root, ps) && p in ps && q in ps && p != q
    ensures !(TmpOf(Home(root, p)) <= TmpOf(Home(root, q)))
  {
    var d, e := Home(root, p), Home(root, q);
    TmpOfBeside(d);
    TmpOfBeside(e);
    if TmpOf(d) <= TmpOf(e) {
      if |d| < |e| {
        AboveTmp(TmpOf(d), e);
      } else {
        TmpOfInjective(d, e);
      }
    }
  }

  // ----- the invariant

  /** Distinct manifest paths, and each entry's directory exists. */
  ghost predicate Sound(root: Path, s: Store) {
    && M.Distinct(s.entries)
    && (forall e {:trigger e in s.entries} :: e in s.entries ==>
          PkgDir(root, e.path).Some? && Look(s.tree, Home(root, e.path)) == Some(Dir))
  }

  /** Nothing is staged for any package of the run. */
  ghost predicate NoStaging(root: Path, ps: set<string>, t: Tree) {
    forall p :: p in ps ==> Holds(t, TmpOf(Home(root, p)), map[])
  }

  /** Where there is no package directory there is nothing below it. */
  ghost predicate Rooted(root: Path, ps: set<string>, t: Tree) {
    forall p :: p in ps && Look(t, Home(root, p)).None? ==> Holds(t, Home(root, p), map[])
  }

  ghost predicate EntriesIn(ps: set<string>, s: Store) {
    forall e :: e in s.entries ==> e.path in ps
  }

  ghost predicate Good(root: Path, ps: set<string>, s: Store) {
    Sound(root, s) && EntriesIn(ps, s) && NoStaging(root, ps, s.tree) && Rooted(root, ps, s.tree)
  }

  /** Where an installation starts. */
  lemma FreshIsGood(root: Path, ps: set<string>)
    ensures Good(root, ps, Store(map[], []))
  {
  }

  // ----- what a state may hold

  /** What step number `i` may have left at the directory of `p`. A skeleton directory is made only where
      there was nothing: nothing at the start, or since an earlier step that uninstalled `p`. */
  ghost predicate LeftBy(root: Path, t: Tree, t': Tree, steps: seq<Step>, i: nat, p: string)
    requires i < |steps|
  {
    match steps[i]
    case Ensure(name) =>
      && Under(root, [name]) == Home(root, p) && Holds(t', Home(root, p), EMPTY)
      && (Holds(t, Home(root, p), map[]) || Uninstall(p) in steps[..i])
    case Install(req) => req.path == p && Complete(t', Home(root, p), req)
    case Uninstall(path) => path == p && Holds(t', Home(root, p), map[])
  }

  /** What steps may leave at the directory of `p`: the tree from before, or what one of them left. */
  ghost predicate Left(root: Path, t: Tree, t': Tree, steps: seq<Step>, p: string) {
    Untouched(t, t', Home(root, p)) || exists i :: 0 <= i < |steps| && LeftBy(root, t, t', steps, i, p)
  }

  predicate Installs(steps: seq<Step>, p: string) {
    exists i :: 0 <= i < |steps| && steps[i].Install? && steps[i].req.path == p
  }

  /** What a state on the way may hold there: also nothing, while one of them installs `p`. */
  ghost predicate Proper(root: Path, t: Tree, t': Tree, steps: seq<Step>, p: string) {
    Left(root, t, t', steps, p) || (Installs(steps, p) && Holds(t', Home(root, p), map[]))
  }

  ghost predicate AllProper(root: Path, t: Tree, states: seq<Tree>, steps: seq<Step>, p: string) {
    && (forall i :: 0 <= i < |states| ==> Proper(root, t, states[i], steps, p))
    && Left(root, t, Last(t, states), steps, p)
  }

  // ----- the skeleton

  lemma SkeletonName(name: string)
    requires name in SKELETON
    ensures name != "" && name[|name| - 1] != 'p'
  {
  }

  /** No staging directory is a skeleton directory, or above one. */
  lemma TmpNotSkeleton(root: Path, p: string, name: string)
    requires Admissible(root, p) && name in SKELETON
    ensures !(TmpOf(Home(root, p)) <= Under(root, [name]))
  {
    var d, top := Home(root, p), Under(root, [name]);
    var tmp := TmpOf(d);
    TmpOfBeside(d);
    SkeletonName(name);
    var last := d[|d| - 1] + ".tmp";
    assert tmp[|tmp| - 1] == last && last[|last| - 1] == 'p';
    assert top[|top| - 1] == name;
    AtOrAbove(root, name, tmp);
  }

  /** What is at or above a skeleton directory is that directory, or the root or above it. */
  lemma AtOrAbove(root: Path, name: string, d: Path)
    ensures d <= Under(root, [name]) <==> d == Under(root, [name]) || d <= root
  {
    var top := Under(root, [name]);
    assert |d| <= |root| ==> top[..|d|] == root[..|d|];
  }

  lemma MadeUntouched(t: Tree, t': Tree, top: Path, d: Path)
    requires Made(t, top, t') && !(d <= top)
    ensures Untouched(t, t', d)
  {
    forall r ensures Look(t, Under(d, r)) == Look(t', Under(d, r)) {
      if Under(d, r) <= top {
        PrefixTransitive(d, Under(d, r), top);
      }
    }
  }

  /** Making a directory that is there changes nothing below it. */
  lemma MadeAgain(t: Tree, t': Tree, top: Path)
    requires Made(t, top, t') && Look(t, top) == Some(Dir)
    ensures Untouched(t, t', top)
  {
    forall r ensures Look(t, Under(top, r)) == Look(t', Under(top, r)) {
      assert Under(top, r) <= top ==> Under(top, r) == top;
    }
  }

  /** Making a skeleton directory leaves each package directory alone, unless there is nothing at the one of
      that name: then it is empty. */
  lemma EnsureLeaves(root: Path, ps: set<string>, t: Tree, name: string, p: string)
    requires Housed(root, ps) && Rooted(root, ps, t) && p in ps && name in SKELETON
    requires !FileOnPath(t, Under(root, [name]))
    ensures Left(root, t, MkdirAll(t, Under(root, [name])).value, [Ensure(name)], p)
  {
    var top, d := Under(root, [name]), Home(root, p);
    var t' := MkdirAll(t, top).value;
    MkdirMade(t, top);
    if d == top {
      if Look(t, top).Some? {
        PrefixesOf(top, top);
        MadeAgain(t, t', top);
      } else {
        MadeEmpty(t, t', top);
        assert LeftBy(root, t, t', [Ensure(name)], 0, p);
      }
    } else {
      AtOrAbove(root, name, d);
      MadeUntouched(t, t', top, d);
    }
  }

  lemma UntouchedAt(t: Tree, t': Tree, d: Path)
    requires Untouched(t, t', d)
    ensures Look(t, d) == Look(t', d)
  {
    assert Under(d, []) == d;
  }

  lemma EnsureKeeps(root: Path, ps: set<string>, s: Store, name: string)
    requires Housed(root, ps) && Good(root, ps, s) && name in SKELETON && !FileOnPath(s.tree, Under(root, [name]))
    ensures Good(root, ps, Store(MkdirAll(s.tree, Under(root, [name])).value, s.entries))
  {
    var top := Under(root, [name]);
    var t' := MkdirAll(s.tree, top).value;
    MkdirMade(s.tree, top);
    forall p | p in ps ensures Holds(t', TmpOf(Home(root, p)), map[]) {
      TmpNotSkeleton(root, p, name);
      MadeUntouched(s.tree, t', top, TmpOf(Home(root, p)));
      UntouchedHolds(s.tree, t', TmpOf(Home(root, p)), map[]);
    }
    forall p | p in ps && Look(t', Home(root, p)).None? ensures Holds(t', Home(root, p), map[]) {
      MadeUntouched(s.tree, t', top, Home(root, p));
      UntouchedHolds(s.tree, t', Home(root, p), map[]);
    }
  }

  // ----- installing and uninstalling

  /** Nothing else in the run notices an installation. */
  lemma KeepsOthers(root: Path, ps: set<string>, t: Tree, t': Tree, p: string, q: string)
    requires Housed(root, ps) && Independent(root, ps) && p in ps && q in ps && p != q
    requires Keeps(t, t', Home(root, p), TmpOf(Home(root, p)))
    ensures Untouched(t, t', Home(root, q)) && Untouched(t, t', TmpOf(Home(root, q)))
  {
    HomesApart(root, ps, q, p);
    HomeTmpApart(root, ps, q, p);
    KeepsUntouched(t, t', Home(root, p), TmpOf(Home(root, p)), Home(root, q));
    HomeTmpApart(root, ps, p, q);
    TmpsApart(root, ps, p, q);
    TmpsApart(root, ps, q, p);
    KeepsUntouched(t, t', Home(root, p), TmpOf(Home(root, p)), TmpOf(Home(root, q)));
  }

  lemma SettledNoStaging(root: Path, ps: set<string>, t: Tree, t': Tree, p: string)
    requires Housed(root, ps) && Independent(root, ps) && p in ps && NoStaging(root, ps, t)
    requires Settled(t, t', Home(root, p), TmpOf(Home(root, p)))
    ensures NoStaging(root, ps, t')
  {
    forall q | q in ps ensures Holds(t', TmpOf(Home(root, q)), map[]) {
      if q != p {
        KeepsOthers(root, ps, t, t', p, q);
        UntouchedHolds(t, t', TmpOf(Home(root, q)), map[]);
      }
    }
  }

  lemma SettledRooted(root: Path, ps: set<string>, t: Tree, t': Tree, p: string)
    requires Housed(root, ps) && Independent(root, ps) && p in ps && Rooted(root, ps, t)
    requires Settled(t, t', Home(root, p), TmpOf(Home(root, p)))
    ensures Rooted(root, ps, t')
  {
    forall q | q in ps && Look(t', Home(root, q)).None? ensures Holds(t', Home(root, q), map[]) {
      if q != p {
        KeepsOthers(root, ps, t, t', p, q);
      }
      assert Home(root, q) <= Home(root, q);
      if Untouched(t, t', Home(root, q)) {
        UntouchedAt(t, t', Home(root, q));
        UntouchedHolds(t, t', Home(root, q), map[]);
      }
    }
  }

  lemma SettledSound(root: Path, ps: set<string>, s: Store, t': Tree, p: string)
    requires Housed(root, ps) && Independent(root, ps) && p in ps && Sound(root, s) && EntriesIn(ps, s)
    requires Settled(s.tree, t', Home(root, p), TmpOf(Home(root, p)))
    ensures Sound(root, Store(t', s.entries))
  {
    forall e | e in s.entries ensures Look(t', Home(root, e.path)) == Some(Dir) {
      var q := e.path;
      if q != p {
        KeepsOthers(root, ps, s.tree, t', p, q);
      }
      if Untouched(s.tree, t', Home(root, q)) {
        UntouchedAt(s.tree, t', Home(root, q));
      } else {
        assert Home(root, q) <= Home(root, q);
      }
    }
  }

  lemma AddSound(root: Path, s: Store, e: M.Entry)
    requires Sound(root, s) && PkgDir(root, e.path).Some? && Look(s.tree, Home(root, e.path)) == Some(Dir)
    ensures Sound(root, Store(s.tree, M.Added(s.entries, e)))
    ensures forall x :: x in M.Added(s.entries, e) ==> x in s.entries || x == e
  {
    M.AddKeepsDistinct(s.entries, e);
    forall x | x in M.Added(s.entries, e) ensures x in s.entries || x == e {
      M.AddMembers(s.entries, e, x);
    }
  }

  lemma InstallKeeps(root: Path, ps: set<string>, s: Store, req: Request)
    requires Housed(root, ps) && Independent(root, ps) && Good(root, ps, s) && req.path in ps
    ensures Good(root, ps, After(s, InstallOne(root, s, req)))
  {
    var e, d := InstallOne(root, s, req), Home(root, req.path);
    var t' := Last(s.tree, e.states);
    InstallMidway(root, s, req, d);
    SettledNoStaging(root, ps, s.tree, t', req.path);
    SettledRooted(root, ps, s.tree, t', req.path);
    SettledSound(root, ps, s, t', req.path);
    if e.entries != s.entries {
      assert d <= d;
      AddSound(root, Store(t', s.entries), NewEntry(req));
    }
  }

  /** Nothing else in the run notices a removal. */
  lemma RemovalUntouched(t: Tree, dir: Path, d: Path)
    requires Apart(d, dir)
    ensures Untouched(t, RemoveAll(t, dir), d)
  {
    forall r ensures Look(t, Under(d, r)) == Look(RemoveAll(t, dir), Under(d, r)) {
      ApartBelow(d, dir, r);
    }
  }

  lemma UninstallKeeps(root: Path, ps: set<string>, s: Store, path: string)
    requires Housed(root, ps) && Independent(root, ps) && Good(root, ps, s) && path in ps
    ensures Good(root, ps, After(s, UninstallOne(root, s, path)))
  {
    var dir := Home(root, path);
    if Look(s.tree, dir).Some? {
      var t' := RemoveAll(s.tree, dir);
      RemoveOutside(s.tree, dir);
      M.RemoveKeepsDistinct(s.entries, path);
      forall p | p in ps ensures Holds(t', TmpOf(Home(root, p)), map[]) {
        HomeTmpApart(root, ps, path, p);
        RemovalUntouched(s.tree, dir, TmpOf(Home(root, p)));
        UntouchedHolds(s.tree, t', TmpOf(Home(root, p)), map[]);
      }
      forall p | p in ps && Look(t', Home(root, p)).None? ensures Holds(t', Home(root, p), map[]) {
        if p != path {
          HomesApart(root, ps, p, path);
          RemovalUntouched(s.tree, dir, Home(root, p));
          UntouchedAt(s.tree, t', Home(root, p));
          UntouchedHolds(s.tree, t', Home(root, p), map[]);
        }
      }
      forall e | e in M.Removed(s.entries, path) ensures Look(t', Home(root, e.path)) == Some(Dir) {
        HomesApart(root, ps, e.path, path);
        RemovalUntouched(s.tree, dir, Home(root, e.path));
        UntouchedAt(s.tree, t', Home(root, e.path));
      }
    }
  }

  lemma StepKeeps(root: Path, ps: set<string>, s: Store, step: Step)
    requires Housed(root, ps) && Independent(root, ps) && Good(root, ps, s) && StepOver(ps, step)
    ensures Good(root, ps, After(s, StepOne(root, s, step)))
  {
    match step
    case Ensure(name) =>
      if MkdirAll(s.tree, Under(root, [name])).Some? {
        EnsureKeeps(root, ps, s, name);
      }
    case Install(req) => InstallKeeps(root, ps, s, req);
    case Uninstall(path) => UninstallKeeps(root, ps, s, path);
  }

  lemma UnpackedIsDir(base: Tree, es: seq<Entry>)
    requires Look(base, []) == Some(Dir)
    ensures Look(Last(base, UnpackAll(base, [], es).states), []) == Some(Dir)
  {
    assert Holds(base, [], base) && Standing(base, []);
    UnpackAllInside(base, [], base, es);
    var states := UnpackAll(base, [], es).states;
    if states != [] {
      var i := |states| - 1;
      assert Grafted(base, states[i], [], states[i]);
      assert Standing(states[i], []);
    }
  }

  lemma FinishedIsDir(inner: Tree, props: string, xml: string, f: Tree)
    requires Look(inner, []) == Some(Dir) && f in Finish(inner, [], props, xml).states
    ensures Look(f, []) == Some(Dir)
  {
  }

  lemma HeldIsDir(t: Tree, d: Path, inner: Tree)
    requires Holds(t, d, inner) && Look(inner, []) == Some(Dir)
    ensures Look(t, d) == Some(Dir)
  {
    assert Under(d, []) == d;
  }

  /** A whole archive is a directory. */
  lemma CompleteIsDir(t: Tree, d: Path, req: Request)
    requires Complete(t, d, req)
    ensures Look(t, d) == Some(Dir)
  {
    var inner := Unpacked(req.archive.value).value;
    UnpackedIsDir(EMPTY, req.archive.value.entries);
    if Holds(t, d, inner) {
      HeldIsDir(t, d, inner);
    } else {
      var f :| f in Finish(inner, [], req.props, req.xml).states && Holds(t, d, f);
      FinishedIsDir(inner, req.props, req.xml, f);
      HeldIsDir(t, d, f);
    }
  }

  lemma InstallProper(root: Path, ps: set<string>, s: Store, req: Request, p: string)
    requires Housed(root, ps) && Independent(root, ps) && Good(root, ps, s) && req.path in ps && p in ps
    ensures AllProper(root, s.tree, InstallOne(root, s, req).states, [Install(req)], p)
  {
    var states, d := InstallOne(root, s, req).states, Home(root, req.path);
    InstallMidway(root, s, req, d);
    forall i | 0 <= i < |states| ensures Proper(root, s.tree, states[i], [Install(req)], p) {
      MidwayProper(root, ps, s.tree, states[i], req, p);
    }
    SettledLeaves(root, ps, s.tree, Last(s.tree, states), req, p);
  }

  lemma SettledLeaves(root: Path, ps: set<string>, t: Tree, t': Tree, req: Request, p: string)
    requires Housed(root, ps) && Independent(root, ps) && req.path in ps && p in ps
    requires t' == t || Midway(t, t', req, Home(root, req.path), TmpOf(Home(root, req.path)))
    requires Settled(t, t', Home(root, req.path), TmpOf(Home(root, req.path)))
    ensures Left(root, t, t', [Install(req)], p)
  {
    var d := Home(root, req.path);
    assert Under(d, []) == d && Look(map[], []).None?;
    if p != req.path {
      KeepsOthers(root, ps, t, t', req.path, p);
    } else if Complete(t', d, req) {
      assert LeftBy(root, t, t', [Install(req)], 0, p);
    } else if Holds(t', d, map[]) {
      assert Look(t', d).None?;
    }
  }

  lemma MidwayProper(root: Path, ps: set<string>, t: Tree, t': Tree, req: Request, p: string)
    requires Housed(root, ps) && Independent(root, ps) && req.path in ps && p in ps
    requires Midway(t, t', req, Home(root, req.path), TmpOf(Home(root, req.path)))
    ensures Proper(root, t, t', [Install(req)], p)
  {
    if p == req.path {
      assert Installs([Install(req)], p) by {
        assert [Install(req)][0].req.path == p;
      }
      assert Complete(t', Home(root, p), req) ==> LeftBy(root, t, t', [Install(req)], 0, p);
    } else {
      KeepsOthers(root, ps, t, t', req.path, p);
    }
  }

  lemma UninstallLeaves(root: Path, ps: set<string>, t: Tree, path: string, p: string)
    requires Independent(root, ps) && path in ps && p in ps
    ensures Left(root, t, RemoveAll(t, Home(root, path)), [Uninstall(path)], p)
  {
    var t' := RemoveAll(t, Home(root, path));
    RemoveOutside(t, Home(root, path));
    if p == path {
      assert LeftBy(root, t, t', [Uninstall(path)], 0, p);
    } else {
      HomesApart(root, ps, p, path);
      RemovalUntouched(t, Home(root, path), Home(root, p));
    }
  }

  lemma StepProper(root: Path, ps: set<string>, s: Store, step: Step, p: string)
    requires Housed(root, ps) && Independent(root, ps) && Good(root, ps, s) && StepOver(ps, step) && p in ps
    ensures AllProper(root, s.tree, StepOne(root, s, step).states, [step], p)
  {
    match step
    case Ensure(name) =>
      if MkdirAll(s.tree, Under(root, [name])).Some? {
        EnsureLeaves(root, ps, s.tree, name, p);
      }
    case Install(req) => InstallProper(root, ps, s, req, p);
    case Uninstall(path) => UninstallLeaves(root, ps, s.tree, path, p);
  }

  // ----- a command, and a run of commands

  function Round(root: Path): (Store, Step) -> Effect {
    (s, step) => StepOne(root, s, step)
  }

  /** One command. */
  function RunCommand(root: Path, s: Store, steps: seq<Step>): Effect {
    Run(Round(root), s, steps)
  }

  /** One command takes the store from `s` to `s'`. */
  ghost predicate Follows(root: Path, s: Store, steps: seq<Step>, s': Store) {
    s' == After(s, RunCommand(root, s, steps))
  }

  /** The stores between the commands of a run. */
  ghost predicate RunOf(root: Path, run: seq<seq<Step>>, stores: seq<Store>) {
    && |stores| == |run| + 1
    && (forall n {:trigger run[n]} :: 0 <= n < |run| ==> Follows(root, stores[n], run[n], stores[n + 1]))
  }

  ghost predicate RunOver(ps: set<string>, run: seq<seq<Step>>) {
    forall c :: 0 <= c < |run| ==> StepsOver(ps, run[c])
  }

  lemma UntouchedTwice(t: Tree, t1: Tree, t2: Tree, d: Path)
    requires Untouched(t, t1, d) && Untouched(t1, t2, d)
    ensures Untouched(t, t2, d)
  {
    forall r ensures Look(t, Under(d, r)) == Look(t2, Under(d, r)) {
      assert Look(t, Under(d, r)) == Look(t1, Under(d, r));
    }
  }

  lemma UntouchedComplete(t: Tree, t': Tree, d: Path, req: Request)
    requires Untouched(t, t', d) && Complete(t, d, req)
    ensures Complete(t', d, req)
  {
    var inner := Unpacked(req.archive.value).value;
    UntouchedHolds(t, t', d, inner);
    forall f | f in Finish(inner, [], req.props, req.xml).states
      ensures Holds(t, d, f) <==> Holds(t', d, f)
    {
      UntouchedHolds(t, t', d, f);
    }
  }

  /** What a step left stays while later steps leave the directory alone. */
  lemma LeftByStays(root: Path, t: Tree, t1: Tree, t2: Tree, first: seq<Step>, second: seq<Step>, i: nat, p: string)
    requires i < |first| && LeftBy(root, t, t1, first, i, p) && Untouched(t1, t2, Home(root, p))
    ensures LeftBy(root, t, t2, first + second, i, p)
  {
    var d := Home(root, p);
    assert (first + second)[i] == first[i] && (first + second)[..i] == first[..i];
    UntouchedHolds(t1, t2, d, map[]);
    UntouchedHolds(t1, t2, d, EMPTY);
    if first[i].Install? {
      UntouchedComplete(t1, t2, d, first[i].req);
    }
  }

  /** Only an uninstallation leaves nothing. */
  lemma LeftByIsDir(root: Path, t: Tree, t': Tree, steps: seq<Step>, i: nat, p: string)
    requires i < |steps| && LeftBy(root, t, t', steps, i, p) && !steps[i].Uninstall?
    ensures Look(t', Home(root, p)) == Some(Dir)
  {
    var d := Home(root, p);
    assert Under(d, []) == d && Look(EMPTY, []) == Some(Dir);
    if steps[i].Install? {
      CompleteIsDir(t', d, steps[i].req);
    }
  }

  /** Where steps leave nothing there was nothing before, or one of them uninstalled the package. */
  lemma LeftNothing(root: Path, t: Tree, t': Tree, steps: seq<Step>, p: string)
    requires Left(root, t, t', steps, p) && Holds(t', Home(root, p), map[])
    ensures Holds(t, Home(root, p), map[]) || Uninstall(p) in steps
  {
    var d := Home(root, p);
    assert Under(d, []) == d && Look(map[], []).None?;
    if Untouched(t, t', d) {
      UntouchedHolds(t, t', d, map[]);
    } else {
      var i :| 0 <= i < |steps| && LeftBy(root, t, t', steps, i, p);
      if !steps[i].Uninstall? {
        LeftByIsDir(root, t, t', steps, i, p);
      }
    }
  }

  lemma LeftByLater(root: Path, t: Tree, t1: Tree, t2: Tree, first: seq<Step>, second: seq<Step>, i: nat, p: string)
    requires Left(root, t, t1, first, p) && i < |second| && LeftBy(root, t1, t2, second, i, p)
    ensures LeftBy(root, t, t2, first + second, |first| + i, p)
  {
    var steps, n := first + second, |first| + i;
    assert steps[n] == second[i] && steps[..n] == first + second[..i];
    if second[i].Ensure? && Uninstall(p) !in second[..i] {
      LeftNothing(root, t, t1, first, p);
    }
  }

  lemma LeftTwice(root: Path, t: Tree, t1: Tree, t2: Tree, first: seq<Step>, second: seq<Step>, p: string)
    requires Left(root, t, t1, first, p) && Left(root, t1, t2, second, p)
    ensures Left(root, t, t2, first + second, p)
  {
    var d := Home(root, p);
    if !Untouched(t1, t2, d) {
      var i :| 0 <= i < |second| && LeftBy(root, t1, t2, second, i, p);
      LeftByLater(root, t, t1, t2, first, second, i, p);
    } else if Untouched(t, t1, d) {
      UntouchedTwice(t, t1, t2, d);
    } else {
      var i :| 0 <= i < |first| && LeftBy(root, t, t1, first, i, p);
      LeftByStays(root, t, t1, t2, first, second, i, p);
    }
  }

  lemma InstallsMore(first: seq<Step>, second: seq<Step>, p: string)
    requires Installs(first, p) || Installs(second, p)
    ensures Installs(first + second, p)
  {
    if i :| 0 <= i < |first| && first[i].Install? && first[i].req.path == p {
      assert (first + second)[i] == first[i];
    } else {
      var i :| 0 <= i < |second| && second[i].Install? && second[i].req.path == p;
      assert (first + second)[|first| + i] == second[i];
    }
  }

  lemma ProperTwice(root: Path, t: Tree, t1: Tree, t2: Tree, first: seq<Step>, second: seq<Step>, p: string)
    requires Left(root, t, t1, first, p) && Proper(root, t1, t2, second, p)
    ensures Proper(root, t, t2, first + second, p)
  {
    if Left(root, t1, t2, second, p) {
      LeftTwice(root, t, t1, t2, first, second, p);
    } else {
      InstallsMore(first, second, p);
    }
  }

  lemma LeftMore(root: Path, t: Tree, t': Tree, first: seq<Step>, second: seq<Step>, p: string)
    requires Left(root, t, t', first, p)
    ensures Left(root, t, t', first + second, p)
  {
    assert Left(root, t', t', second, p);
    LeftTwice(root, t, t', t', first, second, p);
  }

  lemma ProperMore(root: Path, t: Tree, t': Tree, first: seq<Step>, second: seq<Step>, p: string)
    requires Proper(root, t, t', first, p)
    ensures Proper(root, t, t', first + second, p)
  {
    if Left(root, t, t', first, p) {
      LeftMore(root, t, t', first, second, p);
    } else {
      InstallsMore(first, second, p);
    }
  }

  /** The first round of a command, and the rest. */
  lemma CommandHead(root: Path, s: Store, steps: seq<Step>)
    requires steps != []
    ensures var e := StepOne(root, s, steps[0]);
            RunCommand(root, s, steps) == Then(e, RunCommand(root, After(s, e), steps[1..]))
  {
    RunHead(Round(root), s, steps);
  }

  /** A command keeps the invariant. */
  lemma {:induction false} CommandKeeps(root: Path, ps: set<string>, s: Store, steps: seq<Step>)
    requires Housed(root, ps) && Independent(root, ps) && Good(root, ps, s)
    requires StepsOver(ps, steps)
    ensures Good(root, ps, After(s, RunCommand(root, s, steps)))
    decreases |steps|
  {
    if steps != [] {
      var e := StepOne(root, s, steps[0]);
      CommandHead(root, s, steps);
      StepKeeps(root, ps, s, steps[0]);
      if e.ok {
        CommandKeeps(root, ps, After(s, e), steps[1..]);
        AfterThen(s, e, RunCommand(root, After(s, e), steps[1..]));
      }
    }
  }

  /** Every state a command passes through is proper, and so is what it leaves. */
  lemma {:induction false} CommandProper(root: Path, ps: set<string>, s: Store, steps: seq<Step>, p: string)
    requires Housed(root, ps) && Independent(root, ps) && Good(root, ps, s)
    requires p in ps && StepsOver(ps, steps)
    ensures AllProper(root, s.tree, RunCommand(root, s, steps).states, steps, p)
    decreases |steps|
  {
    if steps != [] {
      var e := StepOne(root, s, steps[0]);
      CommandHead(root, s, steps);
      StepProper(root, ps, s, steps[0], p);
      if e.ok {
        StepKeeps(root, ps, s, steps[0]);
        CommandProper(root, ps, After(s, e), steps[1..], p);
      }
      ThenProper(root, s, e, RunCommand(root, After(s, e), steps[1..]), RunCommand(root, s, steps), steps, p);
    }
  }

  lemma ThenProper(root: Path, s: Store, e: Effect, f: Effect, whole: Effect, steps: seq<Step>, p: string)
    requires steps != [] && whole == Then(e, f) && AllProper(root, s.tree, e.states, [steps[0]], p)
    requires e.ok ==> AllProper(root, After(s, e).tree, f.states, steps[1..], p)
    ensures AllProper(root, s.tree, whole.states, steps, p)
  {
    assert steps == [steps[0]] + steps[1..];
    if e.ok {
      AllProperAfter(root, s.tree, e.states, f.states, [steps[0]], steps[1..], p);
    } else {
      AllProperMore(root, s.tree, e.states, [steps[0]], steps[1..], p);
    }
  }

  lemma AllProperMore(root: Path, t: Tree, states: seq<Tree>, first: seq<Step>, second: seq<Step>, p: string)
    requires AllProper(root, t, states, first, p)
    ensures AllProper(root, t, states, first + second, p)
  {
    forall i | 0 <= i < |states| ensures Proper(root, t, states[i], first + second, p) {
      ProperMore(root, t, states[i], first, second, p);
    }
    LeftMore(root, t, Last(t, states), first, second, p);
  }

  lemma AllProperAfter(root: Path, t: Tree, a: seq<Tree>, b: seq<Tree>, first: seq<Step>, second: seq<Step>, p: string)
    requires AllProper(root, t, a, first, p) && AllProper(root, Last(t, a), b, second, p)
    ensures AllProper(root, t, a + b, first + second, p)
  {
    AllProperMore(root, t, a, first, second, p);
    forall i | 0 <= i < |b| ensures Proper(root, t, b[i], first + second, p) {
      ProperTwice(root, t, Last(t, a), b[i], first, second, p);
    }
    LastConcat(t, a, b);
    LeftTwice(root, t, Last(t, a), Last(t, a + b), first, second, p);
  }

  function StepsBefore(run: seq<seq<Step>>, n: nat): seq<Step>
    requires n <= |run|
  {
    if n == 0 then [] else StepsBefore(run, n - 1) + run[n - 1]
  }

  lemma FollowsKeeps(root: Path, ps: set<string>, s: Store, steps: seq<Step>, s': Store)
    requires Housed(root, ps) && Independent(root, ps) && Good(root, ps, s)
    requires StepsOver(ps, steps) && Follows(root, s, steps, s')
    ensures Good(root, ps, s')
  {
    CommandKeeps(root, ps, s, steps);
  }

  lemma FollowsLeaves(root: Path, ps: set<string>, s: Store, steps: seq<Step>, s': Store, p: string)
    requires Housed(root, ps) && Independent(root, ps) && Good(root, ps, s)
    requires StepsOver(ps, steps) && Follows(root, s, steps, s') && p in ps
    ensures Left(root, s.tree, s'.tree, steps, p)
  {
    CommandProper(root, ps, s, steps, p);
  }

  /** Main result: after any run of commands the manifest's paths are distinct, every entry's directory
      exists and nothing is staged. */
  lemma {:induction false} RunKeeps(root: Path, ps: set<string>, run: seq<seq<Step>>, stores: seq<Store>, n: nat)
    requires Housed(root, ps) && Independent(root, ps)
    requires RunOf(root, run, stores) && RunOver(ps, run) && n <= |run| && Good(root, ps, stores[0])
    ensures Good(root, ps, stores[n])
    decreases n
  {
    if n > 0 {
      RunKeeps(root, ps, run, stores, n - 1);
      FollowsKeeps(root, ps, stores[n - 1], run[n - 1], stores[n]);
    }
  }

  /** What each command leaves adds up. */
  lemma {:induction false} LeavesAddUp(root: Path, run: seq<seq<Step>>, stores: seq<Store>, n: nat, p: string)
    requires |stores| == |run| + 1 && n <= |run|
    requires forall k :: 0 <= k < n ==> Left(root, stores[k].tree, stores[k + 1].tree, run[k], p)
    ensures Left(root, stores[0].tree, stores[n].tree, StepsBefore(run, n), p)
    decreases n
  {
    if n > 0 {
      LeavesAddUp(root, run, stores, n - 1, p);
      LeftTwice(root, stores[0].tree, stores[n - 1].tree, stores[n].tree, StepsBefore(run, n - 1), run[n - 1], p);
    }
  }

  /** Main result, between commands: each package's directory is as it was at the start, or what an
      installation, an uninstallation or the skeleton left there. */
  lemma RunLeaves(root: Path, ps: set<string>, run: seq<seq<Step>>, stores: seq<Store>, n: nat, p: string)
    requires Housed(root, ps) && Independent(root, ps)
    requires RunOf(root, run, stores) && RunOver(ps, run) && n <= |run| && Good(root, ps, stores[0]) && p in ps
    ensures Left(root, stores[0].tree, stores[n].tree, StepsBefore(run, n), p)
  {
    forall k | 0 <= k < n ensures Left(root, stores[k].tree, stores[k + 1].tree, run[k], p) {
      RunKeeps(root, ps, run, stores, k);
      FollowsLeaves(root, ps, stores[k], run[k], stores[k + 1], p);
    }
    LeavesAddUp(root, run, stores, n, p);
  }

  /** Main result, within a command: the same of every state on the way, or there is nothing while the run
      installs the package. */
  lemma RunStatesProper(root: Path, ps: set<string>, run: seq<seq<Step>>, stores: seq<Store>, n: nat, i: nat, p: string)
    requires Housed(root, ps) && Independent(root, ps)
    requires RunOf(root, run, stores) && RunOver(ps, run) && n < |run| && Good(root, ps, stores[0]) && p in ps
    requires i < |RunCommand(root, stores[n], run[n]).states|
    ensures Proper(root, stores[0].tree, RunCommand(root, stores[n], run[n]).states[i], StepsBefore(run, n + 1), p)
  {
    RunKeeps(root, ps, run, stores, n);
    RunLeaves(root, ps, run, stores, n, p);
    CommandProper(root, ps, stores[n], run[n], p);
    ProperTwice(root, stores[0].tree, stores[n].tree, RunCommand(root, stores[n], run[n]).states[i],
                StepsBefore(run, n), run[n], p);
  }

  predicate Names(steps: seq<Step>, p: string) {
    Installs(steps, p) || Uninstall(p) in steps
  }

  /** What is there stays as it is while nobody installs or uninstalls the package. */
  lemma LeftAlone(root: Path, t: Tree, t': Tree, steps: seq<Step>, p: string)
    requires Left(root, t, t', steps, p) && Look(t, Home(root, p)).Some? && !Names(steps, p)
    ensures Untouched(t, t', Home(root, p))
  {
    var d := Home(root, p);
    assert Under(d, []) == d && Look(map[], []).None?;
    assert forall i :: 0 <= i < |steps| ==> steps[i] in steps;
  }

  /** So over whole runs: a package that is there and that no step names keeps its directory. */
  lemma UnnamedStays(root: Path, ps: set<string>, run: seq<seq<Step>>, stores: seq<Store>, n: nat, p: string)
    requires Housed(root, ps) && Independent(root, ps)
    requires RunOf(root, run, stores) && RunOver(ps, run) && n <= |run| && Good(root, ps, stores[0]) && p in ps
    requires Look(stores[0].tree, Home(root, p)).Some? && !Names(StepsBefore(run, n), p)
    ensures Untouched(stores[0].tree, stores[n].tree, Home(root, p))
  {
    RunLeaves(root, ps, run, stores, n, p);
    LeftAlone(root, stores[0].tree, stores[n].tree, StepsBefore(run, n), p);
  }

  // ----- what one installation leaves

  /** The tree an installation leaves at the package directory: the archive with both metadata files. */
  function Finished(req: Request): Option<Tree> {
    if req.archive.None? || Unpacked(req.archive.value).None? then None
    else
      var inner := Unpacked(req.archive.value).value;
      var f := Finish(inner, [], req.props, req.xml);
      if f.ok then Some(Last(inner, f.states)) else None
  }

  /** An installation that succeeds leaves exactly the finished tree and binds the entry; one that fails
      binds nothing. It succeeds exactly when the package is found, the archive is sound, and neither a file
      above the staging directory nor a directory in the place of a metadata file is in the way. */
  lemma InstallResult(root: Path, s: Store, req: Request, d: Path)
    requires PkgDir(root, req.path) == Some(d) && d != [] && Holds(s.tree, TmpOf(d), map[])
    requires req.found.Some? && !Kept(root, s, req)
    ensures var e := InstallOne(root, s, req);
            && (e.ok <==> Finished(req).Some? && !FileOnPath(s.tree, TmpOf(d)))
            && (e.ok ==> Subtree(Last(s.tree, e.states), d) == Finished(req).value)
            && M.AsMap(e.entries) == if e.ok then M.AsMap(s.entries)[req.path := NewEntry(req)] else M.AsMap(s.entries)
  {
    M.AddBinds(s.entries, NewEntry(req));
    if req.archive.Some? {
      TmpOfBeside(d);
      ApplyResult(s.tree, req, d, TmpOf(d));
    }
  }

  lemma FinishTwo(t: Tree, dest: Path, props: string, xml: string)
    ensures var f := Finish(t, dest, props, xml); f.ok ==> |f.states| == 2 && Last(t, f.states) == f.states[1]
  {
  }

  lemma LastConcat(t: Tree, a: seq<Tree>, b: seq<Tree>)
    ensures Last(t, a + b) == Last(Last(t, a), b)
  {
  }

  lemma FinishResult(t: Tree, dest: Path, inner: Tree, req: Request)
    requires Holds(t, dest, inner) && Standing(t, dest)
    ensures var f, f' := Finish(t, dest, req.props, req.xml), Finish(inner, [], req.props, req.xml);
            f.ok == f'.ok && (f.ok ==> Subtree(Last(t, f.states), dest) == Last(inner, f'.states))
  {
    FinishTwo(t, dest, req.props, req.xml);
    FinishTwo(inner, [], req.props, req.xml);
    FinishInside(t, dest, inner, req.props, req.xml);
    var f, f' := Finish(t, dest, req.props, req.xml), Finish(inner, [], req.props, req.xml);
    if f.ok {
      HoldsSubtree(f.states[1], dest, f'.states[1]);
    }
  }

  /** `Apply` after its two halves. */
  lemma ApplyParts(t: Tree, req: Request, dest: Path, tmp: Path)
    requires req.archive.Some?
    ensures var x, y := Extract(t, req.archive.value, dest, tmp), Apply(t, req.archive.value, req, dest, tmp);
            var f := Finish(Last(t, x.states), dest, req.props, req.xml);
            (y.ok <==> x.ok && f.ok) && (y.ok ==> Last(t, y.states) == Last(Last(t, x.states), f.states))
  {
    var x := Extract(t, req.archive.value, dest, tmp);
    if x.ok {
      LastConcat(t, x.states, Finish(Last(t, x.states), dest, req.props, req.xml).states);
    }
  }

  lemma FinishedIs(req: Request, inner: Tree)
    requires req.archive.Some? && Unpacked(req.archive.value) == Some(inner)
    ensures var f := Finish(inner, [], req.props, req.xml);
            && (f.ok <==> Finished(req).Some?)
            && (f.ok ==> Finished(req).value == Last(inner, f.states))
  {
  }

  /** Whether an archive that is in place gets finished, and to what. */
  lemma ApplyFinishes(t: Tree, t1: Tree, f: Outcome, y: Outcome, req: Request, inner: Tree, dest: Path)
    requires req.archive.Some? && Unpacked(req.archive.value) == Some(inner)
    requires Holds(t1, dest, inner) && Standing(t1, dest) && f == Finish(t1, dest, req.props, req.xml)
    requires (y.ok <==> f.ok) && (y.ok ==> Last(t, y.states) == Last(t1, f.states))
    ensures y.ok <==> Finished(req).Some?
    ensures y.ok ==> Subtree(Last(t, y.states), dest) == Finished(req).value
  {
    FinishedIs(req, inner);
    FinishResult(t1, dest, inner, req);
  }

  lemma ApplyResult(t: Tree, req: Request, dest: Path, tmp: Path)
    requires req.archive.Some? && Apart(dest, tmp) && Parent(dest) == Parent(tmp) && Holds(t, tmp, map[])
    ensures var x := Apply(t, req.archive.value, req, dest, tmp);
            && (x.ok <==> Finished(req).Some? && !FileOnPath(t, tmp))
            && (x.ok ==> Subtree(Last(t, x.states), dest) == Finished(req).value)
  {
    var x, y := Extract(t, req.archive.value, dest, tmp), Apply(t, req.archive.value, req, dest, tmp);
    CleanExtract(t, req.archive.value, dest, tmp);
    ApplyParts(t, req, dest, tmp);
    if x.ok {
      var t1 := Last(t, x.states);
      ApplyFinishes(t, t1, Finish(t1, dest, req.props, req.xml), y, req, Unpacked(req.archive.value).value, dest);
    }
  }

  /** Uninstalling a package whose directory exists empties it and unbinds its path; otherwise nothing changes,
      not even an entry that is there without a directory. Both count as success. */
  lemma UninstallResult(root: Path, s: Store, path: string, d: Path)
    requires M.Distinct(s.entries) && PkgDir(root, path) == Some(d)
    ensures var e := UninstallOne(root, s, path);
            && e.ok
            && if Look(s.tree, d).None? then After(s, e) == s
               else Subtree(Last(s.tree, e.states), d) == map[] && M.AsMap(e.entries) == M.AsMap(s.entries) - {path}
  {
    M.RemoveUnbinds(s.entries, path);
    RemoveOutside(s.tree, d);
    HoldsSubtree(RemoveAll(s.tree, d), d, map[]);
  }

  /** A path that names no package ends the command and changes nothing. */
  lemma BadPath(root: Path, s: Store, req: Request, path: string)
    ensures PkgDir(root, path).None? ==> !UninstallOne(root, s, path).ok && After(s, UninstallOne(root, s, path)) == s
    ensures PkgDir(root, req.path).None? ==> !InstallOne(root, s, req).ok && After(s, InstallOne(root, s, req)) == s
  {
  }

  /** A skeleton directory is there afterwards, with what is above it and nothing else changed, unless a file is
      in the way; then the command ends. */
  lemma EnsureResult(root: Path, s: Store, name: string)
    ensures var e, top := StepOne(root, s, Ensure(name)), Under(root, [name]);
            && e.entries == s.entries && (e.ok <==> !FileOnPath(s.tree, top))
            && if e.ok then Made(s.tree, top, After(s, e).tree) else After(s, e) == s
  {
    if !FileOnPath(s.tree, Under(root, [name])) {
      MkdirMade(s.tree, Under(root, [name]));
    }
  }
}
