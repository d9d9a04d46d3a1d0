/** Which sets of packages the installer can manage: exactly those where no package lies in another one or in
    another one's staging directory. */
module PackageSafety {
  import opened Common
  import opened ArchivePaths
  import opened FileTree
  import opened Staging
  import opened Commands
  import opened Packages
  import opened PackageRuns
  import opened ArchiveContents
  import M = Manifest

  /** Every run over these packages keeps manifest paths distinct and every entry's directory in place. */
  ghost predicate RunsSound(root: Path, ps: set<string>) {
    forall run: seq<seq<Step>>, stores: seq<Store>, n {:trigger RunOf(root, run, stores), stores[n]} ::
      RunOf(root, run, stores) && RunOver(ps, run) && Good(root, ps, stores[0]) && 0 <= n < |stores| ==>
        Sound(root, stores[n])
  }

  /** In every run over these packages each package directory holds what was there at the start or what a step
      about that package left. */
  ghost predicate RunsProper(root: Path, ps: set<string>) {
    forall run: seq<seq<Step>>, stores: seq<Store>, n: nat, p: string
      {:trigger RunOf(root, run, stores), StepsBefore(run, n), Home(root, p)} ::
      RunOf(root, run, stores) && RunOver(ps, run) && Good(root, ps, stores[0]) && n <= |run| && p in ps ==>
        Left(root, stores[0].tree, stores[n].tree, StepsBefore(run, n), p)
  }

  // ----- a package in the way

  const NOTHING: Store := Store(map[], [])

  /** A request that goes through, for an archive without entries. */
  function Request0(p: string, props: string): Request {
    Request(p, Some(Info("", "")), false, Some(Archive([], false)), "", props, "")
  }

  function WithProperties(props: string): Tree {
    EMPTY[SOURCE_PROPERTIES := File(props)]
  }

  lemma FinishEmpty(props: string, xml: string)
    ensures Finish(EMPTY, [], props, xml) ==
            Outcome([WithProperties(props), WithProperties(props)[PACKAGE_XML := File(xml)]], true)
  {
    assert Under([], SOURCE_PROPERTIES) == SOURCE_PROPERTIES && Under([], PACKAGE_XML) == PACKAGE_XML;
    assert Parent(SOURCE_PROPERTIES) == [] && Parent(PACKAGE_XML) == [];
    assert SOURCE_PROPERTIES[0] != PACKAGE_XML[0];
  }

  /** The store after installing one package on an empty disk. */
  function Installed(root: Path, q: string): Store {
    After(NOTHING, InstallOne(root, NOTHING, Request0(q, "q")))
  }

  lemma OneStep(root: Path, s: Store, step: Step)
    ensures After(s, RunCommand(root, s, [step])) == After(s, StepOne(root, s, step))
  {
    var e := StepOne(root, s, step);
    CommandHead(root, s, [step]);
    assert [step][1..] == [];
    assert e.states + [] == e.states;
  }

  /** Two steps that make a run of two commands. */
  lemma TwoStores(root: Path, first: Step, second: Step) returns (run: seq<seq<Step>>, stores: seq<Store>)
    ensures run == [[first], [second]] && RunOf(root, run, stores) && stores[0] == NOTHING
    ensures stores[1] == After(NOTHING, StepOne(root, NOTHING, first))
    ensures stores[2] == After(stores[1], StepOne(root, stores[1], second))
    ensures StepsBefore(run, 1) == [first] && StepsBefore(run, 2) == [first, second]
  {
    var s1 := After(NOTHING, StepOne(root, NOTHING, first));
    run, stores := [[first], [second]], [NOTHING, s1, After(s1, StepOne(root, s1, second))];
    OneStep(root, NOTHING, first);
    OneStep(root, s1, second);
    assert StepsBefore(run, 0) == [];
    assert StepsBefore(run, 1) == [first];
  }

  lemma FinishedEmpty(p: string, props: string)
    ensures var f := Finished(Request0(p, props)); f.Some? && Look(f.value, SOURCE_PROPERTIES) == Some(File(props))
  {
    FinishEmpty(props, "");
    assert Unpacked(Archive([], false)) == Some(EMPTY);
    assert SOURCE_PROPERTIES[0] != PACKAGE_XML[0];
  }

  lemma FreshResult(root: Path, q: string)
    requires Admissible(root, q)
    ensures var e := InstallOne(root, NOTHING, Request0(q, "q"));
            e.ok && Some(Subtree(Last(map[], e.states), Home(root, q))) == Finished(Request0(q, "q"))
  {
    FinishedEmpty(q, "q");
    InstallResult(root, NOTHING, Request0(q, "q"), Home(root, q));
  }

  lemma OkBinds(root: Path, s: Store, req: Request)
    requires req.found.Some? && !Kept(root, s, req) && InstallOne(root, s, req).ok
    ensures InstallOne(root, s, req).entries == M.Added(s.entries, NewEntry(req))
  {
  }

  /** Installing a package on an empty disk puts it in place. */
  lemma FreshInstall(root: Path, q: string)
    requires Admissible(root, q)
    ensures var s := Installed(root, q);
            && s.entries == [NewEntry(Request0(q, "q"))] && Standing(s.tree, Home(root, q))
            && Look(s.tree, Under(Home(root, q), SOURCE_PROPERTIES)) == Some(File("q"))
  {
    FreshResult(root, q);
    FinishedEmpty(q, "q");
    OkBinds(root, NOTHING, Request0(q, "q"));
    InstallMidway(root, NOTHING, Request0(q, "q"), Home(root, q));
    SubtreeLook(Installed(root, q).tree, Home(root, q), SOURCE_PROPERTIES);
  }

  // ----- one package in another

  lemma NestedLost(root: Path, p: string, q: string)
    requires Admissible(root, p) && Admissible(root, q) && p != q && Home(root, p) <= Home(root, q)
    ensures var s := Installed(root, q);
            Look(s.tree, Home(root, p)) == Some(Dir) && !Sound(root, After(s, UninstallOne(root, s, p)))
  {
    var s := Installed(root, q);
    FreshInstall(root, q);
    var e := UninstallOne(root, s, p);
    assert e.entries == s.entries && NewEntry(Request0(q, "q")) in e.entries;
    assert Look(RemoveAll(s.tree, Home(root, p)), Home(root, q)).None?;
  }

  // ----- one package in the staging directory of another

  lemma StandingMkdir(t: Tree, d: Path, e: Path)
    requires Standing(t, d) && e <= d
    ensures MkdirAll(t, e).Some?
  {
    if FileOnPath(t, e) {
      var k :| k in Prefixes(e) && Look(t, k).Some? && Look(t, k).value.File?;
      PrefixesOf(e, k);
      PrefixTransitive(k, e, d);
    }
  }

  /** Writing the metadata changes only the two files, and the first only if it is not there. */
  lemma FinishSpares(t: Tree, d: Path, props: string, xml: string, k: Path)
    requires k != Under(d, PACKAGE_XML) && (k == Under(d, SOURCE_PROPERTIES) ==> Look(t, k).Some?)
    ensures Look(Last(t, Finish(t, d, props, xml).states), k) == Look(t, k)
  {
  }

  /** Extracting onto a package that lies at or below the staging directory moves its files along. */
  lemma ExtractMixes(t: Tree, d: Path, tmp: Path, r: Path)
    requires Apart(d, tmp) && Parent(d) == Parent(tmp) && MkdirAll(t, tmp).Some? && r != []
    ensures var x := Extract(t, Archive([], false), d, tmp);
            && x.ok && Holds(Last(t, x.states), tmp, map[])
            && Look(Last(t, x.states), Under(d, r)) == Look(t, Under(tmp, r))
  {
    var a, base := Archive([], false), Base(t, tmp);
    ExtractStates(t, a, d, tmp);
    assert UnpackedOn(base, a) == Some(base);
    MkdirMade(t, tmp);
    SubtreeLook(MkdirAll(t, tmp).value, tmp, r);
    assert |Under(tmp, r)| > |tmp|;
  }

  /** An installation that goes through `extract` leaves what the metadata are written to. */
  lemma ApplyEnds(t: Tree, a: Archive, req: Request, d: Path, tmp: Path)
    requires Extract(t, a, d, tmp).ok
    ensures var t1 := Last(t, Extract(t, a, d, tmp).states);
            Last(t, Apply(t, a, req, d, tmp).states) == Last(t1, Finish(t1, d, req.props, req.xml).states)
  {
    var x := Extract(t, a, d, tmp);
    LastConcat(t, x.states, Finish(Last(t, x.states), d, req.props, req.xml).states);
  }

  lemma InstallGoes(root: Path, s: Store, req: Request, d: Path)
    requires PkgDir(root, req.path) == Some(d) && req.found.Some? && req.archive.Some? && !req.keep
    ensures var s' := After(s, InstallOne(root, s, req));
            && s'.tree == Last(s.tree, Apply(s.tree, req.archive.value, req, d, TmpOf(d)).states)
            && (s'.entries == s.entries || s'.entries == M.Added(s.entries, NewEntry(req)))
  {
  }

  /** Binding another path keeps the entry. */
  lemma AddedKeeps(es: seq<M.Entry>, e: M.Entry, kept: M.Entry)
    requires kept in es && e.path != kept.path
    ensures kept in M.Added(es, e)
  {
    var i :| 0 <= i < |es| && es[i] == kept;
    assert M.Added(es, e)[i] == kept;
  }

  /** After installing `q` and then `p`, where `q` lies in the staging directory of `p`: the directory of `q`
      is gone, its entry is not, and the directory of `p` holds files of `q`. */
  lemma StagedLost(root: Path, p: string, q: string, r: Path)
    requires Admissible(root, p) && Admissible(root, q) && p != q && !(Home(root, p) <= Home(root, q))
    requires Home(root, q) == Under(TmpOf(Home(root, p)), r)
    ensures var s := Installed(root, q);
            var s' := After(s, InstallOne(root, s, Request0(p, "p")));
            !Sound(root, s') && Look(s'.tree, Under(Home(root, p), r + SOURCE_PROPERTIES)) == Some(File("q"))
  {
    var s, d, tmp := Installed(root, q), Home(root, p), TmpOf(Home(root, p));
    FreshInstall(root, q);
    TmpOfBeside(d);
    StandingMkdir(s.tree, Home(root, q), tmp);
    UnderTwice(tmp, r, SOURCE_PROPERTIES);
    ExtractMixes(s.tree, d, tmp, r + SOURCE_PROPERTIES);
    var t := Last(s.tree, Extract(s.tree, Archive([], false), d, tmp).states);
    assert Look(t, Under(tmp, r)) == Look(map[], r);
    MixedFinish(t, d, r, Home(root, q));
    ApplyEnds(s.tree, Archive([], false), Request0(p, "p"), d, tmp);
    InstallGoes(root, s, Request0(p, "p"), d);
    AddedKeeps(s.entries, NewEntry(Request0(p, "p")), NewEntry(Request0(q, "q")));
    LostEntry(root, After(s, InstallOne(root, s, Request0(p, "p"))), NewEntry(Request0(q, "q")));
  }

  lemma LostEntry(root: Path, s: Store, e: M.Entry)
    requires e in s.entries && Look(s.tree, Home(root, e.path)).None?
    ensures !Sound(root, s)
  {
  }

  lemma UnderTwice(p: Path, q: Path, r: Path)
    ensures Under(p, q + r) == Under(Under(p, q), r)
  {
  }

  lemma MixedFinish(t: Tree, d: Path, r: Path, home: Path)
    requires Look(t, Under(d, r + SOURCE_PROPERTIES)).Some? && !(d <= home)
    ensures var t' := Last(t, Finish(t, d, "p", "").states);
            && Look(t', Under(d, r + SOURCE_PROPERTIES)) == Look(t, Under(d, r + SOURCE_PROPERTIES))
            && Look(t', home) == Look(t, home)
  {
    UnderInjective(d, r + SOURCE_PROPERTIES, PACKAGE_XML);
    assert (r + SOURCE_PROPERTIES)[|r|] == SOURCE_PROPERTIES[0] != PACKAGE_XML[0];
    FinishSpares(t, d, "p", "", Under(d, r + SOURCE_PROPERTIES));
    FinishSpares(t, d, "p", "", home);
  }

  /** What the empty archive with properties "p" makes has no properties "q" anywhere. */
  lemma NotMixed(t: Tree, d: Path, p: string, r: Path)
    requires Look(t, Under(d, r + SOURCE_PROPERTIES)) == Some(File("q"))
    ensures !Complete(t, d, Request0(p, "p")) && !Holds(t, d, map[]) && !Untouched(map[], t, d)
  {
    var k := r + SOURCE_PROPERTIES;
    FinishEmpty("p", "");
    assert Unpacked(Archive([], false)) == Some(EMPTY);
    assert k[|r|] == SOURCE_PROPERTIES[0] != PACKAGE_XML[0];
    assert Look(t, Under(d, k)) == Some(File("q"));
    assert Look(EMPTY, k).None?;
    assert Look(WithProperties("p"), k) != Some(File("q"));
  }

  // ----- both directions

  lemma IndependentSound(root: Path, ps: set<string>)
    requires Housed(root, ps) && Independent(root, ps)
    ensures RunsSound(root, ps)
  {
    forall run: seq<seq<Step>>, stores: seq<Store>, n |
      RunOf(root, run, stores) && RunOver(ps, run) && Good(root, ps, stores[0]) && 0 <= n < |stores|
      ensures Sound(root, stores[n])
    {
      RunKeeps(root, ps, run, stores, n);
    }
  }

  lemma IndependentProper(root: Path, ps: set<string>)
    requires Housed(root, ps) && Independent(root, ps)
    ensures RunsProper(root, ps)
  {
    forall run: seq<seq<Step>>, stores: seq<Store>, n: nat, p: string |
      RunOf(root, run, stores) && RunOver(ps, run) && Good(root, ps, stores[0]) && n <= |run| && p in ps
      ensures Left(root, stores[0].tree, stores[n].tree, StepsBefore(run, n), p)
    {
      RunLeaves(root, ps, run, stores, n, p);
    }
  }

  lemma SoundFails(root: Path, ps: set<string>, run: seq<seq<Step>>, stores: seq<Store>, n: nat)
    requires RunOf(root, run, stores) && RunOver(ps, run) && Good(root, ps, stores[0]) && n < |stores|
    requires !Sound(root, stores[n])
    ensures !RunsSound(root, ps)
  {
  }

  lemma ProperFails(root: Path, ps: set<string>, run: seq<seq<Step>>, stores: seq<Store>, n: nat, p: string)
    requires RunOf(root, run, stores) && RunOver(ps, run) && Good(root, ps, stores[0]) && n <= |run| && p in ps
    requires !Left(root, stores[0].tree, stores[n].tree, StepsBefore(run, n), p)
    ensures !RunsProper(root, ps)
  {
  }

  /** A directory that has appeared although no step was about it. */
  lemma AppearedImproper(root: Path, t: Tree, q: string, p: string)
    requires p != q && Look(t, Home(root, p)).Some?
    ensures !Left(root, map[], t, [Install(Request0(q, "q"))], p)
  {
    assert Under(Home(root, p), []) == Home(root, p);
  }

  lemma MixedImproper(root: Path, t: Tree, q: string, p: string, r: Path)
    requires p != q && Look(t, Under(Home(root, p), r + SOURCE_PROPERTIES)) == Some(File("q"))
    ensures !Left(root, map[], t, [Install(Request0(q, "q")), Install(Request0(p, "p"))], p)
  {
    NotMixed(t, Home(root, p), p, r);
  }

  lemma TwoOver(root: Path, ps: set<string>, run: seq<seq<Step>>, stores: seq<Store>, first: Step, second: Step)
    requires run == [[first], [second]] && stores != [] && stores[0] == NOTHING
    requires StepOver(ps, first) && StepOver(ps, second)
    ensures RunOver(ps, run) && Good(root, ps, stores[0])
  {
    FreshIsGood(root, ps);
  }

  lemma NestedFails(root: Path, ps: set<string>, p: string, q: string)
    requires Housed(root, ps) && p in ps && q in ps && p != q && Home(root, p) <= Home(root, q)
    ensures !RunsSound(root, ps) && !RunsProper(root, ps)
  {
    var run, stores := TwoStores(root, Install(Request0(q, "q")), Uninstall(p));
    TwoOver(root, ps, run, stores, Install(Request0(q, "q")), Uninstall(p));
    NestedLost(root, p, q);
    SoundFails(root, ps, run, stores, 2);
    AppearedImproper(root, stores[1].tree, q, p);
    ProperFails(root, ps, run, stores, 1, p);
  }

  lemma StagedFails(root: Path, ps: set<string>, p: string, q: string)
    requires Housed(root, ps) && p in ps && q in ps && !(Home(root, p) <= Home(root, q))
    requires TmpOf(Home(root, p)) <= Home(root, q)
    ensures !RunsSound(root, ps) && !RunsProper(root, ps)
  {
    var r := Relative(TmpOf(Home(root, p)), Home(root, q));
    var run, stores := TwoStores(root, Install(Request0(q, "q")), Install(Request0(p, "p")));
    TwoOver(root, ps, run, stores, Install(Request0(q, "q")), Install(Request0(p, "p")));
    StagedLost(root, p, q, r);
    SoundFails(root, ps, run, stores, 2);
    MixedImproper(root, stores[2].tree, q, p, r);
    ProperFails(root, ps, run, stores, 2, p);
  }

  /** Main result, exactly: all runs over a set of packages keep manifest and directories together, and keep
      each directory old, empty or whole, if and only if no package of the set lies in another one or in the
      staging directory of one. */
  lemma SafeExactly(root: Path, ps: set<string>)
    requires Housed(root, ps)
    ensures RunsSound(root, ps) <==> Independent(root, ps)
    ensures RunsProper(root, ps) <==> Independent(root, ps)
  {
    if Independent(root, ps) {
      IndependentSound(root, ps);
      IndependentProper(root, ps);
    } else if p, q :| p in ps && q in ps && p != q && Home(root, p) <= Home(root, q) {
      NestedFails(root, ps, p, q);
    } else {
      var p, q :| p in ps && q in ps && TmpOf(Home(root, p)) <= Home(root, q);
      TmpOfBeside(Home(root, p));
      StagedFails(root, ps, p, q);
    }
  }

  // ----- paths of the form "kind;version"

  /** Kind and version are names, and not the installer's own directory. */
  predicate Simple(path: string) {
    var kv := SplitPackage(path, 0);
    kv.Some? && Plain(kv.value.0) && Plain(kv.value.1) && kv.value.0 != ".apex"
  }

  lemma SimpleHome(root: Path, path: string)
    requires Simple(path) && AllPlain(root)
    ensures var kv := SplitPackage(path, 0).value; PkgDir(root, path) == Some(root + [kv.0, kv.1])
  {
    var kv := SplitPackage(path, 0).value;
    var rel := kv.0 + "/" + kv.1;
    assert Join([kv.0, kv.1]) == rel by {
      assert [kv.0, kv.1][1..] == [kv.1];
    }
    SplitConcat(Abs(root), rel);
    PushAllConcat([], Split(Abs(root)), Split(rel), true);
    PushTop(root);
    PushRest(root, [kv.0, kv.1]);
  }

  lemma {:induction false} SplitPackageParts(path: string, i: nat)
    requires i <= |path|
    ensures var kv := SplitPackage(path, i);
            kv.Some? ==>
              (path == kv.value.0 + ";" + kv.value.1
               && SplitPackage(path + ".tmp", i) == Some((kv.value.0, kv.value.1 + ".tmp")))
    decreases |path| - i
  {
    if i < |path| {
      if path[i] == ';' {
        assert (path + ".tmp")[..i] == path[..i] && (path + ".tmp")[i + 1..] == path[i + 1..] + ".tmp";
      } else {
        SplitPackageParts(path, i + 1);
      }
    }
  }

  /** For two simple paths: one directory is never in the other, and one is the staging directory of the other
      exactly when the paths say so. */
  lemma SimplePair(root: Path, p: string, q: string)
    requires Simple(p) && Simple(q) && AllPlain(root)
    ensures Admissible(root, p)
    ensures Home(root, p) <= Home(root, q) <==> p == q
    ensures TmpOf(Home(root, p)) <= Home(root, q) <==> q == p + ".tmp"
  {
    var a, b := SplitPackage(p, 0).value, SplitPackage(q, 0).value;
    SimpleHome(root, p);
    SimpleHome(root, q);
    SplitPackageParts(p, 0);
    SplitPackageParts(q, 0);
    var d, e := root + [a.0, a.1], root + [b.0, b.1];
    assert d[|root|] == a.0 && d[|root| + 1] == a.1 && e[|root|] == b.0 && e[|root| + 1] == b.1;
    assert TmpOf(d) == root + [a.0, a.1 + ".tmp"];
    assert TmpOf(d)[|root|] == a.0 && TmpOf(d)[|root| + 1] == a.1 + ".tmp";
    assert p + ".tmp" == a.0 + ";" + (a.1 + ".tmp");
  }

  /** None of the packages is called like the staging directory of another. */
  ghost predicate NoTmpNames(ps: set<string>) {
    forall p, q :: p in ps && q in ps ==> q != p + ".tmp"
  }

  lemma SimpleIndependent(root: Path, ps: set<string>)
    requires AllPlain(root) && forall p :: p in ps ==> Simple(p)
    ensures Housed(root, ps) && (Independent(root, ps) <==> NoTmpNames(ps))
  {
    forall p | p in ps ensures Admissible(root, p) {
      SimplePair(root, p, p);
    }
    forall p, q | p in ps && q in ps && p != q ensures !(Home(root, p) <= Home(root, q)) {
      SimplePair(root, p, q);
    }
    if NoTmpNames(ps) {
      forall p, q | p in ps && q in ps ensures !(TmpOf(Home(root, p)) <= Home(root, q)) {
        SimplePair(root, p, q);
      }
    } else {
      var p, q :| p in ps && q in ps && q == p + ".tmp";
      SimplePair(root, p, q);
    }
  }

  /** Simple packages are safe together exactly when none is called like the staging directory of another. */
  lemma SimpleSafeExactly(root: Path, ps: set<string>)
    requires AllPlain(root) && forall p :: p in ps ==> Simple(p)
    ensures RunsSound(root, ps) <==> NoTmpNames(ps)
    ensures RunsProper(root, ps) <==> NoTmpNames(ps)
  {
    SimpleIndependent(root, ps);
    SafeExactly(root, ps);
  }
}
