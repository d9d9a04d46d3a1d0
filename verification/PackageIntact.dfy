/** Manifest and contents: when each entry and the tree in its directory come from one and the same request. */
module PackageIntact {
  import opened Common
  import opened ArchivePaths
  import opened FileTree
  import opened Staging
  import opened Commands
  import opened Packages
  import opened PackageRuns
  import opened PackageSafety
  import opened ArchiveContents
  import M = Manifest

  /** The installation goes through if nothing is in its way. */
  predicate Binds(req: Request) {
    req.found.Some? && Finished(req).Some?
  }

  /** The archive goes into place, but then its metadata cannot be written. */
  predicate Spoils(req: Request) {
    req.found.Some? && req.archive.Some? && Unpacked(req.archive.value).Some? && Finished(req).None?
  }

  /** After request `r`, request `q` spoils the package: it is not skipped as the version to keep. */
  predicate Clash(q: Request, r: Request) {
    Spoils(q) && Binds(r) && q.path == r.path && !(q.keep && q.found.value.version == r.found.value.version)
  }

  ghost predicate NoClash(rs: set<Request>) {
    forall q, r :: q in rs && r in rs ==> !Clash(q, r)
  }

  /** The entry and the tree in its directory are those of request `r`. */
  ghost predicate BoundBy(root: Path, s: Store, e: M.Entry, r: Request) {
    Binds(r) && e == NewEntry(r) && Subtree(s.tree, Home(root, e.path)) == Finished(r).value
  }

  /** Every entry and its tree come from one of the requests. */
  ghost predicate Intact(root: Path, rs: set<Request>, s: Store) {
    forall e :: e in s.entries ==> exists r :: r in rs && BoundBy(root, s, e, r)
  }

  predicate StepAsks(rs: set<Request>, step: Step) {
    step.Install? ==> step.req in rs
  }

  predicate StepsAsk(rs: set<Request>, steps: seq<Step>) {
    forall i :: 0 <= i < |steps| ==> StepAsks(rs, steps[i])
  }

  ghost predicate RunAsks(rs: set<Request>, run: seq<seq<Step>>) {
    forall c :: 0 <= c < |run| ==> StepsAsk(rs, run[c])
  }

  // ----- one step

  lemma UntouchedBound(root: Path, s: Store, s': Store, e: M.Entry, r: Request)
    requires BoundBy(root, s, e, r) && Untouched(s.tree, s'.tree, Home(root, e.path))
    ensures BoundBy(root, s', e, r)
  {
    var d, inner := Home(root, e.path), Finished(r).value;
    HoldsSubtree(s.tree, d, inner);
    UntouchedHolds(s.tree, s'.tree, d, inner);
    HoldsSubtree(s'.tree, d, inner);
  }

  /** An entry whose directory the step leaves alone. */
  lemma StaysBound(root: Path, rs: set<Request>, s: Store, s': Store, e: M.Entry)
    requires Intact(root, rs, s) && e in s.entries && Untouched(s.tree, s'.tree, Home(root, e.path))
    ensures exists r :: r in rs && BoundBy(root, s', e, r)
  {
    var r :| r in rs && BoundBy(root, s, e, r);
    UntouchedBound(root, s, s', e, r);
  }

  /** A step about another package. */
  lemma OtherStays(root: Path, ps: set<string>, s: Store, step: Step, p: string)
    requires Housed(root, ps) && Independent(root, ps) && Good(root, ps, s) && StepOver(ps, step) && p in ps
    requires Look(s.tree, Home(root, p)).Some? && !Names([step], p)
    ensures Untouched(s.tree, After(s, StepOne(root, s, step)).tree, Home(root, p))
  {
    StepProper(root, ps, s, step, p);
    LeftAlone(root, s.tree, After(s, StepOne(root, s, step)).tree, [step], p);
  }

  lemma NotNamed(step: Step, p: string)
    requires step.Install? ==> step.req.path != p
    requires step != Uninstall(p)
    ensures !Names([step], p)
  {
  }

  /** If an archive goes into place, and it can be finished, it is finished. */
  lemma FailedApply(t: Tree, req: Request, d: Path, tmp: Path)
    requires req.archive.Some? && Apart(d, tmp) && Parent(d) == Parent(tmp) && Holds(t, tmp, map[])
    requires Unpacked(req.archive.value).Some? ==> Finished(req).Some?
    requires !Apply(t, req.archive.value, req, d, tmp).ok
    ensures Apply(t, req.archive.value, req, d, tmp) == Extract(t, req.archive.value, d, tmp)
    ensures !Extract(t, req.archive.value, d, tmp).ok
  {
    CleanExtract(t, req.archive.value, d, tmp);
    ApplyResult(t, req, d, tmp);
  }

  lemma FailedExtract(t: Tree, a: Archive, d: Path, tmp: Path)
    requires Apart(d, tmp) && Parent(d) == Parent(tmp) && Holds(t, tmp, map[]) && !Extract(t, a, d, tmp).ok
    ensures Untouched(t, Last(t, Extract(t, a, d, tmp).states), d)
  {
    CleanExtract(t, a, d, tmp);
  }

  /** An installation passes through no state, or through those of unpacking and finishing. */
  lemma InstallStates(root: Path, s: Store, req: Request, d: Path)
    requires PkgDir(root, req.path) == Some(d)
    ensures var e := InstallOne(root, s, req);
            || e.states == []
            || (req.found.Some? && req.archive.Some?
                && var y := Apply(s.tree, req.archive.value, req, d, TmpOf(d)); e.states == y.states && e.ok == y.ok)
  {
  }

  lemma FailedLast(t: Tree, y: Outcome, req: Request, d: Path, tmp: Path)
    requires req.archive.Some? && Apart(d, tmp) && Parent(d) == Parent(tmp) && Holds(t, tmp, map[])
    requires Unpacked(req.archive.value).Some? ==> Finished(req).Some?
    requires y == Apply(t, req.archive.value, req, d, tmp) && !y.ok
    ensures Untouched(t, Last(t, y.states), d)
  {
    FailedApply(t, req, d, tmp);
    FailedExtract(t, req.archive.value, d, tmp);
  }

  /** An installation that fails, but not after its archive went into place, leaves the package alone. */
  lemma FailedStays(root: Path, s: Store, req: Request, d: Path)
    requires PkgDir(root, req.path) == Some(d) && d != [] && Holds(s.tree, TmpOf(d), map[])
    requires !InstallOne(root, s, req).ok && !Spoils(req)
    ensures Untouched(s.tree, After(s, InstallOne(root, s, req)).tree, d)
  {
    InstallStates(root, s, req, d);
    if InstallOne(root, s, req).states != [] {
      TmpOfBeside(d);
      FailedLast(s.tree, Apply(s.tree, req.archive.value, req, d, TmpOf(d)), req, d, TmpOf(d));
    }
  }

  /** The entry of a path is the one the manifest finds. */
  lemma EntryFound(es: seq<M.Entry>, e: M.Entry)
    requires M.Distinct(es) && e in es
    ensures var i := M.IndexOf(es, e.path, 0); i.Some? && es[i.value] == e
  {
  }

  /** A request that would spoil a bound package is skipped, if it does not clash. */
  lemma SpoilerSkipped(root: Path, rs: set<Request>, s: Store, e: M.Entry, q: Request)
    requires Sound(root, s) && Intact(root, rs, s) && e in s.entries
    requires NoClash(rs) && q in rs && q.path == e.path && Spoils(q)
    ensures Kept(root, s, q)
  {
    var r :| r in rs && BoundBy(root, s, e, r);
    assert !Clash(q, r);
    EntryFound(s.entries, e);
  }

  /** The entry of the package that is being installed. */
  lemma InstalledBound(root: Path, ps: set<string>, rs: set<Request>, s: Store, req: Request, e: M.Entry)
    requires Housed(root, ps) && Good(root, ps, s) && req.path in ps && Intact(root, rs, s)
    requires NoClash(rs) && req in rs && e.path == req.path
    requires e in After(s, InstallOne(root, s, req)).entries
    ensures exists r :: r in rs && BoundBy(root, After(s, InstallOne(root, s, req)), e, r)
  {
    var d, x := Home(root, req.path), InstallOne(root, s, req);
    if req.found.Some? && !Kept(root, s, req) && x.ok {
      InstallResult(root, s, req, d);
      AddedEntry(s.entries, NewEntry(req), e);
      assert BoundBy(root, After(s, x), e, req);
    } else {
      assert e in s.entries;
      if Spoils(req) {
        SpoilerSkipped(root, rs, s, e, req);
      }
      if x.ok {
        assert After(s, x) == s;
      } else {
        FailedStays(root, s, req, d);
      }
      StaysBound(root, rs, s, After(s, x), e);
    }
  }

  /** After binding a path its entry is the new one. */
  lemma AddedEntry(es: seq<M.Entry>, x: M.Entry, e: M.Entry)
    requires M.Distinct(es) && e in M.Added(es, x) && e.path == x.path
    ensures e == x
  {
    M.AddKeepsDistinct(es, x);
    M.AddBinds(es, x);
  }

  lemma InstallIntact(root: Path, ps: set<string>, rs: set<Request>, s: Store, req: Request)
    requires Housed(root, ps) && Independent(root, ps) && Good(root, ps, s) && Intact(root, rs, s)
    requires NoClash(rs) && req in rs && req.path in ps
    ensures Intact(root, rs, After(s, InstallOne(root, s, req)))
  {
    var s' := After(s, InstallOne(root, s, req));
    forall e | e in s'.entries ensures exists r :: r in rs && BoundBy(root, s', e, r) {
      if e.path == req.path {
        InstalledBound(root, ps, rs, s, req, e);
      } else {
        InstallMembers(root, s, req, e);
        NotNamed(Install(req), e.path);
        OtherStays(root, ps, s, Install(req), e.path);
        StaysBound(root, rs, s, s', e);
      }
    }
  }

  lemma InstallMembers(root: Path, s: Store, req: Request, e: M.Entry)
    requires e in InstallOne(root, s, req).entries && e.path != req.path
    ensures e in s.entries
  {
    if req.found.Some? && e !in s.entries {
      M.AddMembers(s.entries, NewEntry(req), e);
    }
  }

  lemma UninstallIntact(root: Path, ps: set<string>, rs: set<Request>, s: Store, path: string)
    requires Housed(root, ps) && Independent(root, ps) && Good(root, ps, s) && Intact(root, rs, s) && path in ps
    ensures Intact(root, rs, After(s, UninstallOne(root, s, path)))
  {
    var s' := After(s, UninstallOne(root, s, path));
    if Look(s.tree, Home(root, path)).Some? {
      M.RemoveKeepsDistinct(s.entries, path);
      forall e | e in s'.entries ensures exists r :: r in rs && BoundBy(root, s', e, r) {
        NotNamed(Uninstall(path), e.path);
        OtherStays(root, ps, s, Uninstall(path), e.path);
        StaysBound(root, rs, s, s', e);
      }
    }
  }

  lemma StepIntact(root: Path, ps: set<string>, rs: set<Request>, s: Store, step: Step)
    requires Housed(root, ps) && Independent(root, ps) && Good(root, ps, s) && Intact(root, rs, s)
    requires NoClash(rs) && StepOver(ps, step) && StepAsks(rs, step)
    ensures Intact(root, rs, After(s, StepOne(root, s, step)))
  {
    match step
    case Ensure(name) =>
      var s' := After(s, StepOne(root, s, step));
      forall e | e in s'.entries ensures exists r :: r in rs && BoundBy(root, s', e, r) {
        NotNamed(step, e.path);
        OtherStays(root, ps, s, step, e.path);
        StaysBound(root, rs, s, s', e);
      }
    case Install(req) => InstallIntact(root, ps, rs, s, req);
    case Uninstall(path) => UninstallIntact(root, ps, rs, s, path);
  }

  // ----- runs

  lemma {:induction false} CommandIntact(root: Path, ps: set<string>, rs: set<Request>, s: Store, steps: seq<Step>)
    requires Housed(root, ps) && Independent(root, ps) && Good(root, ps, s) && Intact(root, rs, s)
    requires NoClash(rs) && StepsOver(ps, steps) && StepsAsk(rs, steps)
    ensures Intact(root, rs, After(s, RunCommand(root, s, steps)))
    decreases |steps|
  {
    if steps != [] {
      var e := StepOne(root, s, steps[0]);
      CommandHead(root, s, steps);
      StepKeeps(root, ps, s, steps[0]);
      StepIntact(root, ps, rs, s, steps[0]);
      if e.ok {
        CommandIntact(root, ps, rs, After(s, e), steps[1..]);
        AfterThen(s, e, RunCommand(root, After(s, e), steps[1..]));
      }
    }
  }

  lemma FollowsIntact(root: Path, ps: set<string>, rs: set<Request>, s: Store, steps: seq<Step>, s': Store)
    requires Housed(root, ps) && Independent(root, ps) && Good(root, ps, s) && Intact(root, rs, s)
    requires NoClash(rs) && StepsOver(ps, steps) && StepsAsk(rs, steps) && Follows(root, s, steps, s')
    ensures Intact(root, rs, s')
  {
    CommandIntact(root, ps, rs, s, steps);
  }

  /** Without a clash every run keeps entries and contents together. */
  lemma {:induction false} RunIntact(root: Path, ps: set<string>, rs: set<Request>, run: seq<seq<Step>>,
                                     stores: seq<Store>, n: nat)
    requires Housed(root, ps) && Independent(root, ps) && NoClash(rs)
    requires RunOf(root, run, stores) && RunOver(ps, run) && RunAsks(rs, run) && n <= |run|
    requires Good(root, ps, stores[0]) && Intact(root, rs, stores[0])
    ensures Intact(root, rs, stores[n])
    decreases n
  {
    if n > 0 {
      RunIntact(root, ps, rs, run, stores, n - 1);
      RunKeeps(root, ps, run, stores, n - 1);
      FollowsIntact(root, ps, rs, stores[n - 1], run[n - 1], stores[n]);
    }
  }

  // ----- with a clash

  /** The metadata cannot be written exactly where a directory stands in the place of the one file. */
  lemma FinishBlocked(t: Tree, d: Path, props: string, xml: string)
    requires Look(t, d) == Some(Dir)
    ensures var f := Finish(t, d, props, xml);
            && (f.ok <==> Look(t, Under(d, PACKAGE_XML)) != Some(Dir))
            && Look(Last(t, f.states), Under(d, PACKAGE_XML))
               == if f.ok then Some(File(xml)) else Look(t, Under(d, PACKAGE_XML))
  {
    UnderInjective(d, SOURCE_PROPERTIES, PACKAGE_XML);
    ParentUnder(d, SOURCE_PROPERTIES);
    ParentUnder(d, PACKAGE_XML);
    assert Under(d, Parent(SOURCE_PROPERTIES)) == d && Under(d, Parent(PACKAGE_XML)) == d;
    assert SOURCE_PROPERTIES[0] != PACKAGE_XML[0];
  }

  /** So a request spoils exactly when its archive holds a directory of that name. */
  lemma SpoilsExactly(req: Request)
    requires req.found.Some? && req.archive.Some? && Unpacked(req.archive.value).Some?
    ensures Spoils(req) <==> Look(Unpacked(req.archive.value).value, PACKAGE_XML) == Some(Dir)
    ensures !Spoils(req) ==> Look(Finished(req).value, PACKAGE_XML) == Some(File(req.xml))
  {
    var inner := Unpacked(req.archive.value).value;
    UnpackedIsDir(EMPTY, req.archive.value.entries);
    FinishBlocked(inner, [], req.props, req.xml);
    assert Under([], PACKAGE_XML) == PACKAGE_XML;
  }

  lemma FirstBinds(root: Path, r: Request)
    requires Admissible(root, r.path) && Binds(r)
    ensures var d, s := Home(root, r.path), After(NOTHING, InstallOne(root, NOTHING, r));
            s.entries == [NewEntry(r)] && Standing(s.tree, d) && Holds(s.tree, TmpOf(d), map[])
  {
    var d := Home(root, r.path);
    InstallResult(root, NOTHING, r, d);
    OkBinds(root, NOTHING, r);
    InstallMidway(root, NOTHING, r, d);
  }

  lemma RoomToStage(t: Tree, d: Path)
    requires d != [] && Standing(t, d) && Holds(t, TmpOf(d), map[])
    ensures MkdirAll(t, TmpOf(d)).Some?
  {
    var tmp := TmpOf(d);
    TmpOfBeside(d);
    assert Under(tmp, []) == tmp && Look(map[], []).None?;
    if FileOnPath(t, tmp) {
      var k :| k in Prefixes(tmp) && Look(t, k).Some? && Look(t, k).value.File?;
      PrefixesOf(tmp, k);
      if k != tmp {
        AboveTmp(k, d);
      }
    }
  }

  /** The archive of the second request is in place, and where package.xml should be stands a directory. */
  lemma SecondSpoils(root: Path, s: Store, q: Request)
    requires Admissible(root, q.path) && Spoils(q) && !Kept(root, s, q)
    requires Standing(s.tree, Home(root, q.path)) && Holds(s.tree, TmpOf(Home(root, q.path)), map[])
    ensures var s' := After(s, InstallOne(root, s, q));
            s'.entries == s.entries && Look(s'.tree, Under(Home(root, q.path), PACKAGE_XML)) == Some(Dir)
  {
    var d, a := Home(root, q.path), q.archive.value;
    var tmp, inner := TmpOf(d), Unpacked(a).value;
    TmpOfBeside(d);
    RoomToStage(s.tree, d);
    CleanExtract(s.tree, a, d, tmp);
    InstallResult(root, s, q, d);
    var t1 := Last(s.tree, Extract(s.tree, a, d, tmp).states);
    SpoilsExactly(q);
    assert Look(t1, Under(d, PACKAGE_XML)) == Look(inner, PACKAGE_XML);
    FinishBlocked(t1, d, q.props, q.xml);
    ApplyEnds(s.tree, a, q, d, tmp);
  }

  /** A directory in the place of package.xml is not what any installation leaves. */
  lemma SpoiledEntry(root: Path, rs: set<Request>, s: Store, e: M.Entry)
    requires e in s.entries && Look(s.tree, Under(Home(root, e.path), PACKAGE_XML)) == Some(Dir)
    ensures !Intact(root, rs, s)
  {
    if Intact(root, rs, s) {
      var r :| r in rs && BoundBy(root, s, e, r);
      SpoilsExactly(r);
      SubtreeLook(s.tree, Home(root, e.path), PACKAGE_XML);
    }
  }

  /** After `r` and then `q` the manifest still has the entry of `r`, over the spoiled archive of `q`. */
  lemma ClashSpoils(root: Path, q: Request, r: Request)
    requires Admissible(root, r.path) && Clash(q, r)
    ensures var s1 := After(NOTHING, InstallOne(root, NOTHING, r));
            var s2 := After(s1, InstallOne(root, s1, q));
            && s2.entries == [NewEntry(r)]
            && Look(s2.tree, Under(Home(root, r.path), PACKAGE_XML)) == Some(Dir)
  {
    var s1 := After(NOTHING, InstallOne(root, NOTHING, r));
    FirstBinds(root, r);
    EntryFound(s1.entries, NewEntry(r));
    SecondSpoils(root, s1, q);
  }

  // ----- both directions

  /** Every run of these requests over these packages keeps entries and contents together. */
  ghost predicate RunsIntact(root: Path, ps: set<string>, rs: set<Request>) {
    forall run: seq<seq<Step>>, stores: seq<Store>, n {:trigger RunOf(root, run, stores), stores[n]} ::
      (RunOf(root, run, stores) && RunOver(ps, run) && RunAsks(rs, run) && 0 <= n < |stores|
       && Good(root, ps, stores[0]) && Intact(root, rs, stores[0])) ==> Intact(root, rs, stores[n])
  }

  lemma IntactFails(root: Path, ps: set<string>, rs: set<Request>, run: seq<seq<Step>>, stores: seq<Store>, n: nat)
    requires RunOf(root, run, stores) && RunOver(ps, run) && RunAsks(rs, run) && n < |stores|
    requires Good(root, ps, stores[0]) && Intact(root, rs, stores[0]) && !Intact(root, rs, stores[n])
    ensures !RunsIntact(root, ps, rs)
  {
  }

  lemma TwoAsk(rs: set<Request>, run: seq<seq<Step>>, r: Request, q: Request)
    requires run == [[Install(r)], [Install(q)]] && r in rs && q in rs
    ensures RunAsks(rs, run)
  {
  }

  /** The store after the two installations. */
  lemma ClashStore(root: Path, rs: set<Request>, s1: Store, s2: Store, q: Request, r: Request)
    requires Admissible(root, r.path) && Clash(q, r)
    requires s1 == After(NOTHING, StepOne(root, NOTHING, Install(r))) && s2 == After(s1, StepOne(root, s1, Install(q)))
    ensures !Intact(root, rs, s2)
  {
    ClashSpoils(root, q, r);
    SpoiledEntry(root, rs, s2, NewEntry(r));
  }

  lemma ClashFails(root: Path, ps: set<string>, rs: set<Request>, q: Request, r: Request)
    requires Housed(root, ps) && q in rs && r in rs && r.path in ps && Clash(q, r)
    ensures !RunsIntact(root, ps, rs)
  {
    var run, stores := TwoStores(root, Install(r), Install(q));
    TwoOver(root, ps, run, stores, Install(r), Install(q));
    TwoAsk(rs, run, r, q);
    ClashStore(root, rs, stores[1], stores[2], q, r);
    IntactFails(root, ps, rs, run, stores, 2);
  }

  /** Main result: in all runs of these requests over independent packages every manifest entry and the tree in
      its directory come from one and the same request, if and only if no request of the set clashes with
      another: one that binds the path, and one whose archive has a directory called package.xml and that is
      not skipped. */
  lemma IntactExactly(root: Path, ps: set<string>, rs: set<Request>)
    requires Housed(root, ps) && Independent(root, ps) && forall r :: r in rs ==> r.path in ps
    ensures RunsIntact(root, ps, rs) <==> NoClash(rs)
  {
    if NoClash(rs) {
      forall run: seq<seq<Step>>, stores: seq<Store>, n |
        RunOf(root, run, stores) && RunOver(ps, run) && RunAsks(rs, run) && 0 <= n < |stores|
        && Good(root, ps, stores[0]) && Intact(root, rs, stores[0])
        ensures Intact(root, rs, stores[n])
      {
        RunIntact(root, ps, rs, run, stores, n);
      }
    } else {
      var q, r :| q in rs && r in rs && Clash(q, r);
      ClashFails(root, ps, rs, q, r);
    }
  }
}
