/** What installing and uninstalling do to the package tree and the manifest. */
module Packages {
  import opened Common
  import opened ArchivePaths
  import opened FileTree
  import opened Staging
  import opened Commands
  import M = Manifest

  // ----- package paths

  const PLATFORM_TOOLS := "platform-tools"

  /** `SplitN(path, ";", 2)` with both parts. */
  function SplitPackage(path: string, i: nat): Option<(string, string)>
    requires i <= |path|
    decreases |path| - i
  {
    if i == |path| then None
    else if path[i] == ';' then Some((path[..i], path[i + 1..]))
    else SplitPackage(path, i + 1)
  }

  /** What `pkgDir` joins to the root: "kind;version" as kind/version, and the one path without a version. */
  function RelativeTo(path: string): Option<string> {
    var kv := SplitPackage(path, 0);
    if kv.Some? then Some(kv.value.0 + "/" + kv.value.1)
    else if path == PLATFORM_TOOLS then Some(path)
    else None
  }

  /** The components of the directory `pkgDir` names, or None for a path it refuses. */
  function PkgDir(root: Path, path: string): Option<Path> {
    var rel := RelativeTo(path);
    if rel.None? then None else Some(Stack(Abs(root) + "/" + rel.value))
  }

  /** The directory beside `d` whose name has ".tmp" appended. */
  function TmpOf(d: Path): Path {
    if d == [] then [".tmp"] else Parent(d) + [d[|d| - 1] + ".tmp"]
  }

  /** The package directory is what `filepath.Join` makes of the strings, and has plain components. */
  lemma PkgDirIsJoin(root: Path, path: string)
    requires PkgDir(root, path).Some?
    ensures PathJoin(Abs(root), RelativeTo(path).value) == Abs(PkgDir(root, path).value)
    ensures AllPlain(PkgDir(root, path).value)
  {
    RootedShape([], Split(Abs(root) + "/" + RelativeTo(path).value));
  }

  lemma {:induction false} SplitAtFirst(path: string, k: string, v: string, i: nat)
    requires i <= |k| && path == k + ";" + v && ';' !in k
    ensures SplitPackage(path, i) == Some((k, v))
    decreases |k| - i
  {
    if i == |k| {
      assert path[..i] == k && path[i + 1..] == v;
    } else {
      assert path[i] == k[i];
      SplitAtFirst(path, k, v, i + 1);
    }
  }

  lemma {:induction false} NoSemicolon(path: string, i: nat)
    requires i <= |path|
    ensures SplitPackage(path, i).None? <==> ';' !in path[i..]
    decreases |path| - i
  {
    if i < |path| {
      assert path[i..] == [path[i]] + path[i + 1..];
      NoSemicolon(path, i + 1);
    }
  }

  /** Accepted are paths with a semicolon, split at the first one, and "platform-tools"; nothing else. */
  lemma PkgDirExactly(root: Path, path: string)
    ensures PkgDir(root, path).Some? <==> ';' in path || path == "platform-tools"
    ensures path == "platform-tools" ==> PkgDir(root, path) == Some(Stack(Abs(root) + "/platform-tools"))
    ensures forall k: string, v: string {:trigger k + ";" + v} :: path == k + ";" + v && ';' !in k ==>
              PkgDir(root, path) == Some(Stack(Abs(root) + "/" + (k + "/" + v)))
  {
    NoSemicolon(path, 0);
    assert path[0..] == path;
    assert ';' !in "platform-tools";
    assert Abs(root) + "/" + "platform-tools" == Abs(root) + "/platform-tools";
    forall k: string, v: string | path == k + ";" + v && ';' !in k
      ensures PkgDir(root, path) == Some(Stack(Abs(root) + "/" + (k + "/" + v)))
    {
      SplitAtFirst(path, k, v, 0);
    }
  }

  /** The staging directory is that string with ".tmp" appended. */
  lemma TmpOfAppends(d: Path)
    ensures Abs(d) + ".tmp" == Abs(TmpOf(d))
  {
    if d != [] {
      var up, last := Parent(d), d[|d| - 1];
      assert d == up + [last];
      JoinTwo(up, last, ".tmp");
    }
  }

  lemma TmpOfPlain(d: Path)
    requires AllPlain(d)
    ensures AllPlain(TmpOf(d))
  {
    if d != [] {
      assert |d[|d| - 1] + ".tmp"| > 4;
    }
  }

  /** The staging directory lies beside the directory, and tells which one. */
  lemma TmpOfBeside(d: Path)
    requires d != []
    ensures Parent(TmpOf(d)) == Parent(d) && |TmpOf(d)| == |d| && Apart(d, TmpOf(d))
  {
    assert TmpOf(d)[|d| - 1] == d[|d| - 1] + ".tmp";
    assert TmpOf(d) != d;
  }

  lemma TmpOfInjective(d: Path, e: Path)
    requires d != [] && e != [] && TmpOf(d) == TmpOf(e)
    ensures d == e
  {
    var a, b := d[|d| - 1], e[|e| - 1];
    TmpOfBeside(d);
    TmpOfBeside(e);
    assert a + ".tmp" == TmpOf(d)[|d| - 1] == TmpOf(e)[|e| - 1] == b + ".tmp";
    assert a == (a + ".tmp")[..|a|] == (b + ".tmp")[..|b|] == b;
    assert d == Parent(d) + [a] && e == Parent(e) + [b];
  }

  lemma {:induction false} JoinTwo(cs: seq<string>, last: string, suffix: string)
    ensures Join(cs + [last]) + suffix == Join(cs + [last + suffix])
    decreases |cs|
  {
    if cs != [] {
      assert (cs + [last])[1..] == cs[1..] + [last];
      assert (cs + [last + suffix])[1..] == cs[1..] + [last + suffix];
      JoinTwo(cs[1..], last, suffix);
    }
  }

  // ----- steps

  datatype Info = Info(version: string, sha256: string)

  /** One package to install, with what the outside world answers: the catalog entry if there is one,
      whether an installed package of the same version is to be kept, the archive if it downloads, the
      time, and the texts of the two metadata files. */
  datatype Request = Request(path: string, found: Option<Info>, keep: bool, archive: Option<Archive>,
                             now: string, props: string, xml: string)

  /** One round of a command's loop. */
  datatype Step = Ensure(name: string) | Install(req: Request) | Uninstall(path: string)

  /** The same version is installed and is to stay. */
  predicate Kept(root: Path, s: Store, req: Request)
    requires req.found.Some?
  {
    var cur, d := M.IndexOf(s.entries, req.path, 0), PkgDir(root, req.path);
    && cur.Some? && s.entries[cur.value].version == req.found.value.version
    && d.Some? && Look(s.tree, d.value) == Some(Dir) && req.keep
  }

  function NewEntry(req: Request): M.Entry
    requires req.found.Some?
  {
    M.Entry(req.path, req.found.value.version, req.found.value.sha256, req.now)
  }

  /** Unpacks an archive into place, then writes the metadata. */
  function Apply(t: Tree, a: Archive, req: Request, dest: Path, tmp: Path): Outcome {
    var x := Extract(t, a, dest, tmp);
    if !x.ok then x
    else
      var f := Finish(Last(t, x.states), dest, req.props, req.xml);
      Outcome(x.states + f.states, f.ok)
  }

  function InstallOne(root: Path, s: Store, req: Request): Effect {
    var d := PkgDir(root, req.path);
    if req.found.None? then Effect([], s.entries, false)
    else if Kept(root, s, req) then Effect([], s.entries, true)
    else if d.None? || req.archive.None? then Effect([], s.entries, false)
    else
      var x := Apply(s.tree, req.archive.value, req, d.value, TmpOf(d.value));
      Effect(x.states, if x.ok then M.Added(s.entries, NewEntry(req)) else s.entries, x.ok)
  }

  function UninstallOne(root: Path, s: Store, path: string): Effect {
    var d := PkgDir(root, path);
    if d.None? then Effect([], s.entries, false)
    else if Look(s.tree, d.value).None? then Effect([], s.entries, true)
    else Effect([RemoveAll(s.tree, d.value)], M.Removed(s.entries, path), true)
  }

  function StepOne(root: Path, s: Store, step: Step): Effect {
    match step
    case Ensure(name) =>
      var r := MkdirAll(s.tree, Under(root, [name]));
      if r.None? then Effect([], s.entries, false) else Effect([r.value], s.entries, true)
    case Install(req) => InstallOne(root, s, req)
    case Uninstall(path) => UninstallOne(root, s, path)
  }

  // ----- what a state may hold

  /** The whole archive is at `d`, with both, one or none of the metadata files written. */
  ghost predicate Complete(t: Tree, d: Path, req: Request) {
    && req.archive.Some? && Unpacked(req.archive.value).Some?
    && var inner := Unpacked(req.archive.value).value;
       || Holds(t, d, inner)
       || exists f :: f in Finish(inner, [], req.props, req.xml).states && Holds(t, d, f)
  }

  // ----- installing

  /** A state on the way through an installation. */
  ghost predicate Midway(t: Tree, t': Tree, req: Request, dest: Path, tmp: Path) {
    && Keeps(t, t', dest, tmp)
    && (Untouched(t, t', dest) || Holds(t', dest, map[]) || Complete(t', dest, req))
  }

  /** The state an installation leaves. */
  ghost predicate Settled(t: Tree, t': Tree, dest: Path, tmp: Path) {
    && Keeps(t, t', dest, tmp) && Holds(t', tmp, map[])
    && (Untouched(t, t', dest) || Standing(t', dest))
  }

  lemma FinishMidway(t: Tree, t1: Tree, req: Request, dest: Path, tmp: Path)
    requires Keeps(t, t1, dest, tmp) && Apart(dest, tmp) && Holds(t1, tmp, map[]) && Standing(t1, dest)
    requires req.archive.Some? && Unpacked(req.archive.value).Some?
    requires Holds(t1, dest, Unpacked(req.archive.value).value)
    ensures var f := Finish(t1, dest, req.props, req.xml);
            && (forall i :: 0 <= i < |f.states| ==> Midway(t, f.states[i], req, dest, tmp))
            && Settled(t, Last(t1, f.states), dest, tmp) && Standing(Last(t1, f.states), dest)
  {
    var inner := Unpacked(req.archive.value).value;
    var f, f' := Finish(t1, dest, req.props, req.xml), Finish(inner, [], req.props, req.xml);
    FinishInside(t1, dest, inner, req.props, req.xml);
    forall i | 0 <= i < |f.states|
      ensures Midway(t, f.states[i], req, dest, tmp) && Settled(t, f.states[i], dest, tmp)
    {
      assert Grafted(t1, f.states[i], dest, f'.states[i]) && f'.states[i] in f'.states;
      SwapAwayKeeps(t, t1, f.states[i], dest, tmp);
      SwapAwayHolds(t1, f.states[i], dest, tmp, map[]);
    }
  }

  /** All the states of an installation, and the one it leaves. */
  ghost predicate Course(t: Tree, x: Outcome, req: Request, dest: Path, tmp: Path) {
    && (forall i :: 0 <= i < |x.states| ==> Midway(t, x.states[i], req, dest, tmp))
    && Settled(t, Last(t, x.states), dest, tmp)
    && (x.ok ==> Standing(Last(t, x.states), dest))
  }

  lemma ExtractCourse(t: Tree, x: Outcome, req: Request, dest: Path, tmp: Path)
    requires req.archive.Some? && Holds(t, tmp, map[])
    requires ExtractKept(t, x, Unpacked(req.archive.value), dest, tmp)
    ensures Course(t, x, req, dest, tmp)
  {
    assert x.states == [] ==> Last(t, x.states) == t;
  }

  lemma FinishCourse(t: Tree, x: Outcome, req: Request, dest: Path, tmp: Path)
    requires req.archive.Some? && Holds(t, tmp, map[]) && x.ok && Apart(dest, tmp)
    requires ExtractKept(t, x, Unpacked(req.archive.value), dest, tmp)
    ensures var f := Finish(Last(t, x.states), dest, req.props, req.xml);
            Course(t, Outcome(x.states + f.states, f.ok), req, dest, tmp)
  {
    var t1 := Last(t, x.states);
    var f := Finish(t1, dest, req.props, req.xml);
    ExtractCourse(t, x, req, dest, tmp);
    assert Keeps(t, t1, dest, tmp);
    FinishMidway(t, t1, req, dest, tmp);
    assert Last(t1, f.states) == Last(t, x.states + f.states);
  }

  /** With an empty staging directory, `extract` puts the archive alone in place. */
  lemma CleanExtract(t: Tree, a: Archive, dest: Path, tmp: Path)
    requires Apart(dest, tmp) && Parent(dest) == Parent(tmp) && Holds(t, tmp, map[])
    ensures ExtractKept(t, Extract(t, a, dest, tmp), Unpacked(a), dest, tmp)
    ensures Extract(t, a, dest, tmp).ok <==> MkdirAll(t, tmp).Some? && Unpacked(a).Some?
  {
    ExtractStates(t, a, dest, tmp);
    CleanWhole(t, a, tmp);
  }

  lemma ApplyCourse(t: Tree, req: Request, dest: Path, tmp: Path)
    requires req.archive.Some? && Apart(dest, tmp) && Parent(dest) == Parent(tmp) && Holds(t, tmp, map[])
    ensures Course(t, Apply(t, req.archive.value, req, dest, tmp), req, dest, tmp)
  {
    var x := Extract(t, req.archive.value, dest, tmp);
    CleanExtract(t, req.archive.value, dest, tmp);
    if x.ok {
      FinishCourse(t, x, req, dest, tmp);
    } else {
      ExtractCourse(t, x, req, dest, tmp);
    }
  }

  /** In every state of an installation into `d`, with nothing staged beside it, the directory holds the old
      tree, nothing, or the whole archive with some of the metadata, and nothing else changes but the staging
      directory, which is gone at the end. */
  lemma InstallMidway(root: Path, s: Store, req: Request, d: Path)
    requires PkgDir(root, req.path) == Some(d) && d != [] && Holds(s.tree, TmpOf(d), map[])
    ensures var e := InstallOne(root, s, req);
            && (forall i :: 0 <= i < |e.states| ==> Midway(s.tree, e.states[i], req, d, TmpOf(d)))
            && Settled(s.tree, Last(s.tree, e.states), d, TmpOf(d))
            && (e.entries == s.entries
                || (req.found.Some? && e.entries == M.Added(s.entries, NewEntry(req))
                    && Standing(Last(s.tree, e.states), d)))
  {
    if req.found.Some? && !Kept(root, s, req) && req.archive.Some? {
      TmpOfBeside(d);
      ApplyCourse(s.tree, req, d, TmpOf(d));
    }
  }
}
