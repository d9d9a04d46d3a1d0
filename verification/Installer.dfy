/** The installer's methods: they change the tree and the manifest as the step functions say. */
module Installer {
  import opened Common
  import opened ArchivePaths
  import opened FileTree
  import opened Staging
  import opened Commands
  import opened Packages
  import opened PackageRuns
  import M = Manifest

  /** The file system, with every tree it has been through. */
  class Disk {
    var tree: Tree
    ghost var trace: seq<Tree>

    constructor (tree: Tree)
      ensures this.tree == tree && trace == []
    {
      this.tree := tree;
      trace := [];
    }

    method Set(t: Tree)
      modifies this
      ensures tree == t && trace == old(trace) + [t]
    {
      tree := t;
      trace := trace + [t];
    }

    method MakeDirs(p: Path) returns (ok: bool)
      modifies this
      ensures ok <==> MkdirAll(old(tree), p).Some?
      ensures if ok then tree == MkdirAll(old(tree), p).value && trace == old(trace) + [tree]
              else tree == old(tree) && trace == old(trace)
    {
      var r := MkdirAll(tree, p);
      if r.Some? {
        Set(r.value);
      }
      return r.Some?;
    }
  }

  /** The rest of an unpacking, after the first trees are done. */
  ghost function Onward(done: seq<Tree>, rest: Unpacking): Unpacking {
    Unpacking(done + rest.states, rest.ok)
  }

  /** The target string names the components the entry is unpacked at. */
  lemma PlacedStack(dest: Path, name: string)
    requires AllPlain(dest) && Place(name).Into?
    ensures Stack(Abs(Under(dest, Place(name).q))) == Under(dest, Place(name).q)
  {
    PlaceIsInside(dest, name);
    PushTop(Under(dest, Place(name).q));
  }

  lemma OnwardStep(t: Tree, dest: Path, es: seq<Entry>, done: seq<Tree>)
    requires es != []
    ensures var r := Unpack(t, dest, es[0]);
            Onward(done, UnpackAll(t, dest, es)) ==
            if r.None? then Unpacking(done, false) else Onward(done + [r.value], UnpackAll(r.value, dest, es[1..]))
  {
    var r := Unpack(t, dest, es[0]);
    if r.Some? {
      var rest := UnpackAll(r.value, dest, es[1..]);
      assert done + ([r.value] + rest.states) == done + [r.value] + rest.states;
    }
  }

  /** One round of the entry loop. A tree is recorded once the entry is done. */
  method ExtractEntry(disk: Disk, e: Entry, dest: Path) returns (ok: bool)
    requires AllPlain(dest)
    modifies disk
    ensures var r := Unpack(old(disk.tree), dest, e);
            && ok == r.Some?
            && if ok then disk.tree == r.value && disk.trace == old(disk.trace) + [disk.tree]
               else disk.tree == old(disk.tree) && disk.trace == old(disk.trace)
  {
    var name, found := StripFirst(e.name);
    if !found || name == "" {
      disk.Set(disk.tree);
      return true;
    }
    PlaceIsInside(dest, e.name);
    var target := Sanitize(Abs(dest), name);
    if target.None? {
      return false;
    }
    PlacedStack(dest, e.name);
    var r := UnpackAt(disk.tree, Stack(target.value), e);
    if r.Some? {
      disk.Set(r.value);
    }
    return r.Some?;
  }

  /** The entry loop of `extractTar` and `extractZip`. */
  method ExtractEntries(disk: Disk, a: Archive, dest: Path) returns (ok: bool)
    requires AllPlain(dest)
    modifies disk
    ensures var u := UnpackAll(old(disk.tree), dest, a.entries);
            ok == (u.ok && !a.broken) && Did(old(disk.tree), old(disk.trace), disk.tree, disk.trace, u.states)
  {
    ghost var t0, u := disk.tree, UnpackAll(disk.tree, dest, a.entries);
    ghost var done: seq<Tree> := [];
    var i := 0;
    assert a.entries[0..] == a.entries;
    while i < |a.entries|
      invariant 0 <= i <= |a.entries|
      invariant u == Onward(done, UnpackAll(disk.tree, dest, a.entries[i..]))
      invariant Did(t0, old(disk.trace), disk.tree, disk.trace, done)
    {
      assert a.entries[i..][0] == a.entries[i] && a.entries[i..][1..] == a.entries[i + 1..];
      OnwardStep(disk.tree, dest, a.entries[i..], done);
      ok := ExtractEntry(disk, a.entries[i], dest);
      if !ok {
        return;
      }
      done := done + [disk.tree];
      i := i + 1;
    }
    assert a.entries[i..] == [];
    return !a.broken;
  }

  /** The end of `extract`: the staged tree goes into place, or away. */
  method Settle(disk: Disk, staged: bool, dest: Path, tmp: Path)
    modifies disk
    ensures var t := old(disk.tree);
            var t2 := RemoveAll(t, dest);
            Did(t, old(disk.trace), disk.tree, disk.trace,
                if staged then [t2, Rename(t2, tmp, dest)] else [RemoveAll(t, tmp)])
  {
    if !staged {
      disk.Set(RemoveAll(disk.tree, tmp));
      return;
    }
    disk.Set(RemoveAll(disk.tree, dest));
    disk.Set(Rename(disk.tree, tmp, dest));
  }

  /** `extract`. */
  method ExtractTo(disk: Disk, a: Archive, dest: Path) returns (ok: bool)
    requires AllPlain(dest)
    modifies disk
    ensures var x := Extract(old(disk.tree), a, dest, TmpOf(dest));
            ok == x.ok && Did(old(disk.tree), old(disk.trace), disk.tree, disk.trace, x.states)
  {
    var tmp := TmpOf(dest);
    TmpOfPlain(dest);
    ok := disk.MakeDirs(tmp);
    if !ok {
      return;
    }
    ghost var t, trace, t0, trace0 := old(disk.tree), old(disk.trace), disk.tree, disk.trace;
    ok := ExtractEntries(disk, a, tmp);
    ghost var states, t1, trace1 := UnpackAll(t0, tmp, a.entries).states, disk.tree, disk.trace;
    DidThen(t, trace, t0, trace0, t1, trace1, [t0], states);
    Settle(disk, ok, dest, tmp);
    ghost var t2 := RemoveAll(t1, dest);
    DidThen(t, trace, t1, trace1, disk.tree, disk.trace, [t0] + states,
            if ok then [t2, Rename(t2, tmp, dest)] else [RemoveAll(t1, tmp)]);
  }

  method WriteMetadata(disk: Disk, dest: Path, props: string, xml: string) returns (ok: bool)
    modifies disk
    ensures var f := Finish(old(disk.tree), dest, props, xml);
            && ok == f.ok
            && Did(old(disk.tree), old(disk.trace), disk.tree, disk.trace, f.states)
  {
    var p := Under(dest, SOURCE_PROPERTIES);
    var r := if Look(disk.tree, p).Some? then Some(disk.tree) else WriteFile(disk.tree, p, props);
    if r.None? {
      return false;
    }
    disk.Set(r.value);
    r := WriteFile(disk.tree, Under(dest, PACKAGE_XML), xml);
    if r.None? {
      return false;
    }
    disk.Set(r.value);
    return true;
  }

  method ApplyPackage(disk: Disk, a: Archive, req: Request, dest: Path) returns (ok: bool)
    requires AllPlain(dest)
    modifies disk
    ensures var x := Apply(old(disk.tree), a, req, dest, TmpOf(dest));
            && ok == x.ok
            && Did(old(disk.tree), old(disk.trace), disk.tree, disk.trace, x.states)
  {
    ok := ExtractTo(disk, a, dest);
    if ok {
      ghost var t, trace := disk.tree, disk.trace;
      ok := WriteMetadata(disk, dest, req.props, req.xml);
      DidThen(old(disk.tree), old(disk.trace), t, trace, disk.tree, disk.trace,
              Extract(old(disk.tree), a, dest, TmpOf(dest)).states, Finish(t, dest, req.props, req.xml).states);
    }
  }

  /** One round of `cmdInstall`. */
  method InstallPackage(disk: Disk, m: M.Manifest, root: Path, req: Request) returns (ok: bool)
    modifies disk, m
    ensures var e := InstallOne(root, Store(old(disk.tree), old(m.entries)), req);
            && ok == e.ok && m.entries == e.entries
            && Did(old(disk.tree), old(disk.trace), disk.tree, disk.trace, e.states)
  {
    if req.found.None? {
      return false;
    }
    var dir := PkgDir(root, req.path);
    var cur := m.Find(req.path);
    if cur.Some? && m.entries[cur.value].version == req.found.value.version
       && dir.Some? && Look(disk.tree, dir.value) == Some(Dir) {
      if req.keep {
        return true;
      }
    }
    if dir.None? || req.archive.None? {
      return false;
    }
    PkgDirIsJoin(root, req.path);
    ok := ApplyPackage(disk, req.archive.value, req, dir.value);
    if !ok {
      return;
    }
    m.Add(NewEntry(req));
  }

  /** One round of `cmdUninstall`. */
  method UninstallPackage(disk: Disk, m: M.Manifest, root: Path, path: string) returns (ok: bool)
    modifies disk, m
    ensures var e := UninstallOne(root, Store(old(disk.tree), old(m.entries)), path);
            && ok == e.ok && m.entries == e.entries
            && Did(old(disk.tree), old(disk.trace), disk.tree, disk.trace, e.states)
  {
    var dir := PkgDir(root, path);
    if dir.None? {
      return false;
    }
    if Look(disk.tree, dir.value).None? {
      return true;
    }
    disk.Set(RemoveAll(disk.tree, dir.value));
    var removed := m.Remove(path);
    return true;
  }

  // ----- commands

  ghost function EnsureSteps(names: seq<string>): seq<Step> {
    seq(|names|, i requires 0 <= i < |names| => Ensure(names[i]))
  }

  ghost function InstallSteps(reqs: seq<Request>): seq<Step> {
    seq(|reqs|, i requires 0 <= i < |reqs| => Step.Install(reqs[i]))
  }

  ghost function UninstallSteps(paths: seq<string>): seq<Step> {
    seq(|paths|, i requires 0 <= i < |paths| => Step.Uninstall(paths[i]))
  }

  /** A loop's state: `i` rounds done, having passed through the states of `done`. */
  ghost predicate Looping(f: (Store, Step) -> Effect, s0: Store, trace0: seq<Tree>, t: Tree, trace: seq<Tree>,
                          entries: seq<M.Entry>, steps: seq<Step>, i: nat, done: Effect) {
    Underway(f, s0, Store(t, entries), steps, i, done) && Did(s0.tree, trace0, t, trace, done.states)
  }

  lemma LoopStart(f: (Store, Step) -> Effect, s: Store, trace: seq<Tree>, steps: seq<Step>)
    ensures Looping(f, s, trace, s.tree, trace, s.entries, steps, 0, Effect([], s.entries, true))
  {
    UnderwayStart(f, s, steps);
  }

  lemma LoopStep(f: (Store, Step) -> Effect, s0: Store, trace0: seq<Tree>, t: Tree, trace: seq<Tree>,
                 entries: seq<M.Entry>, steps: seq<Step>, i: nat, done: Effect,
                 e: Effect, t': Tree, trace': seq<Tree>)
    requires i < |steps| && Looping(f, s0, trace0, t, trace, entries, steps, i, done)
    requires e == f(Store(t, entries), steps[i]) && Did(t, trace, t', trace', e.states)
    ensures if e.ok then Looping(f, s0, trace0, t', trace', e.entries, steps, i + 1, Then(done, e))
            else Ran(Run(f, s0, steps), s0, trace0, t', trace', e.entries, false)
  {
    UnderwayStep(f, s0, Store(t, entries), steps, i, done, e);
    DidThen(s0.tree, trace0, t, trace, t', trace', done.states, e.states);
  }

  /** What a command that had effect `e` leaves. */
  ghost predicate Ran(e: Effect, s0: Store, trace0: seq<Tree>, t: Tree, trace: seq<Tree>, entries: seq<M.Entry>,
                      ok: bool) {
    e.ok == ok && e.entries == entries && Did(s0.tree, trace0, t, trace, e.states)
  }

  lemma LoopEnd(f: (Store, Step) -> Effect, s0: Store, trace0: seq<Tree>, t: Tree, trace: seq<Tree>,
                entries: seq<M.Entry>, steps: seq<Step>, done: Effect)
    requires Looping(f, s0, trace0, t, trace, entries, steps, |steps|, done)
    ensures Ran(Run(f, s0, steps), s0, trace0, t, trace, entries, true)
  {
    UnderwayEnd(f, s0, Store(t, entries), steps, done);
  }

  const DIRS: seq<string> := ["platforms", "build-tools", "platform-tools", "ndk", "cmake", "licenses", ".apex"]

  lemma DirsAreSkeleton(ps: set<string>)
    ensures StepsOver(ps, EnsureSteps(DIRS))
  {
  }

  /** `ensureTree`: the skeleton directories, up to the first that cannot be made. */
  method EnsureTree(disk: Disk, root: Path, ghost entries: seq<M.Entry>) returns (ok: bool)
    modifies disk
    ensures Ran(RunCommand(root, Store(old(disk.tree), entries), EnsureSteps(DIRS)), Store(old(disk.tree), entries),
                old(disk.trace), disk.tree, disk.trace, entries, ok)
  {
    var names := DIRS;
    ghost var f, s0, trace0, steps := Round(root), Store(disk.tree, entries), disk.trace, EnsureSteps(names);
    ghost var done := Effect([], entries, true);
    LoopStart(f, s0, trace0, steps);
    var i := 0;
    while i < |names|
      invariant 0 <= i <= |names|
      invariant Looping(f, s0, trace0, disk.tree, disk.trace, entries, steps, i, done)
    {
      ghost var t, trace := disk.tree, disk.trace;
      ghost var e := f(Store(t, entries), steps[i]);
      ok := disk.MakeDirs(Under(root, [names[i]]));
      LoopStep(f, s0, trace0, t, trace, entries, steps, i, done, e, disk.tree, disk.trace);
      if !ok {
        return;
      }
      done := Then(done, e);
      i := i + 1;
    }
    LoopEnd(f, s0, trace0, disk.tree, disk.trace, entries, steps, done);
    return true;
  }

  /** The package loop of `cmdInstall`, up to the first error. */
  method InstallAll(disk: Disk, m: M.Manifest, root: Path, reqs: seq<Request>) returns (ok: bool)
    modifies disk, m
    ensures Ran(RunCommand(root, Store(old(disk.tree), old(m.entries)), InstallSteps(reqs)),
                Store(old(disk.tree), old(m.entries)), old(disk.trace), disk.tree, disk.trace, m.entries, ok)
  {
    ghost var f, s0, trace0, steps := Round(root), Store(disk.tree, m.entries), disk.trace, InstallSteps(reqs);
    ghost var done := Effect([], m.entries, true);
    LoopStart(f, s0, trace0, steps);
    var i := 0;
    while i < |reqs|
      invariant 0 <= i <= |reqs|
      invariant Looping(f, s0, trace0, disk.tree, disk.trace, m.entries, steps, i, done)
    {
      ghost var t, trace, entries := disk.tree, disk.trace, m.entries;
      ghost var e := f(Store(t, entries), steps[i]);
      ok := InstallPackage(disk, m, root, reqs[i]);
      LoopStep(f, s0, trace0, t, trace, entries, steps, i, done, e, disk.tree, disk.trace);
      if !ok {
        return;
      }
      done := Then(done, e);
      i := i + 1;
    }
    LoopEnd(f, s0, trace0, disk.tree, disk.trace, m.entries, steps, done);
    return true;
  }

  lemma RanThen(e: Effect, e': Effect, s0: Store, trace0: seq<Tree>, t: Tree, trace: seq<Tree>,
                entries: seq<M.Entry>, t': Tree, trace': seq<Tree>, entries': seq<M.Entry>, ok: bool)
    requires Ran(e, s0, trace0, t, trace, entries, true) && Ran(e', Store(t, entries), trace, t', trace', entries', ok)
    ensures Ran(Then(e, e'), s0, trace0, t', trace', entries', ok)
  {
    DidThen(s0.tree, trace0, t, trace, t', trace', e.states, e'.states);
  }

  /** The run theorem for the methods: a command over packages that do not lie in each other's way leaves the
      store good. */
  lemma RanKeeps(root: Path, ps: set<string>, s0: Store, steps: seq<Step>, trace0: seq<Tree>, t: Tree, trace: seq<Tree>,
                 entries: seq<M.Entry>, ok: bool)
    requires Housed(root, ps) && Independent(root, ps) && Good(root, ps, s0) && StepsOver(ps, steps)
    requires Ran(RunCommand(root, s0, steps), s0, trace0, t, trace, entries, ok)
    ensures Good(root, ps, Store(t, entries))
  {
    CommandKeeps(root, ps, s0, steps);
  }

  /** `cmdInstall`: the skeleton directories, then each package. It goes no further than the skeleton unless
      the catalog loads and the license is accepted. A good store stays good. */
  method Install(disk: Disk, m: M.Manifest, root: Path, ready: bool, reqs: seq<Request>, ghost ps: set<string>)
    returns (ok: bool)
    modifies disk, m
    ensures var e := RunCommand(root, Store(old(disk.tree), old(m.entries)),
                                EnsureSteps(DIRS) + if ready then InstallSteps(reqs) else []);
            && Ran(e, Store(old(disk.tree), old(m.entries)), old(disk.trace), disk.tree, disk.trace, m.entries, e.ok)
            && ok == (e.ok && ready)
    ensures (Housed(root, ps) && Independent(root, ps) && Good(root, ps, Store(old(disk.tree), old(m.entries)))
             && StepsOver(ps, InstallSteps(reqs)))
            ==> Good(root, ps, Store(disk.tree, m.entries))
  {
    ghost var s0, trace0 := Store(disk.tree, m.entries), disk.trace;
    ghost var a, b := EnsureSteps(DIRS), if ready then InstallSteps(reqs) else [];
    ghost var e := RunCommand(root, s0, a);
    RunSplit(Round(root), s0, a, b);
    DirsAreSkeleton(ps);
    ok := EnsureTree(disk, root, m.entries);
    ghost var t, trace := disk.tree, disk.trace;
    if ok {
      assert After(s0, e) == Store(t, m.entries);
      if ready {
        ok := InstallAll(disk, m, root, reqs);
      }
      RanThen(e, RunCommand(root, Store(t, s0.entries), b), s0, trace0, t, trace, s0.entries,
              disk.tree, disk.trace, m.entries, ok);
    }
    if Housed(root, ps) && Independent(root, ps) && Good(root, ps, s0) && StepsOver(ps, a) && StepsOver(ps, b) {
      RanKeeps(root, ps, s0, a + b, trace0, disk.tree, disk.trace, m.entries, ok);
    }
    return ok && ready;
  }

  /** `cmdUninstall`, up to the first error. A good store stays good. */
  method Uninstall(disk: Disk, m: M.Manifest, root: Path, paths: seq<string>, ghost ps: set<string>) returns (ok: bool)
    modifies disk, m
    ensures Ran(RunCommand(root, Store(old(disk.tree), old(m.entries)), UninstallSteps(paths)),
                Store(old(disk.tree), old(m.entries)), old(disk.trace), disk.tree, disk.trace, m.entries, ok)
    ensures (Housed(root, ps) && Independent(root, ps) && Good(root, ps, Store(old(disk.tree), old(m.entries)))
             && StepsOver(ps, UninstallSteps(paths)))
            ==> Good(root, ps, Store(disk.tree, m.entries))
  {
    ghost var s0, trace0, steps := Store(disk.tree, m.entries), disk.trace, UninstallSteps(paths);
    ok := UninstallAll(disk, m, root, paths);
    if Housed(root, ps) && Independent(root, ps) && Good(root, ps, s0) && StepsOver(ps, steps) {
      RanKeeps(root, ps, s0, steps, trace0, disk.tree, disk.trace, m.entries, ok);
    }
  }

  /** Its loop. */
  method UninstallAll(disk: Disk, m: M.Manifest, root: Path, paths: seq<string>) returns (ok: bool)
    modifies disk, m
    ensures Ran(RunCommand(root, Store(old(disk.tree), old(m.entries)), UninstallSteps(paths)),
                Store(old(disk.tree), old(m.entries)), old(disk.trace), disk.tree, disk.trace, m.entries, ok)
  {
    ghost var f, s0, trace0, steps := Round(root), Store(disk.tree, m.entries), disk.trace, UninstallSteps(paths);
    ghost var done := Effect([], m.entries, true);
    LoopStart(f, s0, trace0, steps);
    var i := 0;
    while i < |paths|
      invariant 0 <= i <= |paths|
      invariant Looping(f, s0, trace0, disk.tree, disk.trace, m.entries, steps, i, done)
    {
      ghost var t, trace, entries := disk.tree, disk.trace, m.entries;
      ghost var e := f(Store(t, entries), steps[i]);
      ok := UninstallPackage(disk, m, root, paths[i]);
      LoopStep(f, s0, trace0, t, trace, entries, steps, i, done, e, disk.tree, disk.trace);
      if !ok {
        return;
      }
      done := Then(done, e);
      i := i + 1;
    }
    LoopEnd(f, s0, trace0, disk.tree, disk.trace, m.entries, steps, done);
    return true;
  }
}
