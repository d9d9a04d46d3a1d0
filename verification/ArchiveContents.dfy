/** What archives unpack to and what installations leave, told from the entries alone: which paths are files, with
    which content, which are directories, and when it all fails. */
module ArchiveContents {
  import opened Common
  import opened ArchivePaths
  import opened FileTree
  import opened Staging
  import opened Commands
  import opened Packages
  import opened PackageRuns
  import M = Manifest

  // ----- what entries ask for

  /** The entry is a file to be placed at `k`. */
  predicate FileFor(e: Entry, k: Path) {
    e.FileEntry? && Place(e.name) == Into(k)
  }

  /** The entry needs a directory at `k`: a directory entry at its place and above, a file above its place. */
  predicate DirFor(e: Entry, k: Path) {
    && Place(e.name).Into? && k <= Place(e.name).q
    && (e.DirEntry? || (e.FileEntry? && k != Place(e.name).q))
  }

  /** The content of the last file entry for `k`. */
  function LastFile(es: seq<Entry>, k: Path): Option<string> {
    if es == [] then None
    else
      var later := LastFile(es[1..], k);
      if later.Some? then later else if FileFor(es[0], k) then Some(es[0].content) else None
  }

  ghost predicate NeedsDir(es: seq<Entry>, k: Path) {
    exists i :: 0 <= i < |es| && DirFor(es[i], k)
  }

  /** What stands at `k` after unpacking onto `t`: the last file placed there, or a directory if an entry needs
      one there, or what stood there before. */
  ghost function Expected(t: Tree, es: seq<Entry>, k: Path): Option<Node> {
    if LastFile(es, k).Some? then Some(File(LastFile(es, k).value))
    else if NeedsDir(es, k) then Some(Dir)
    else Look(t, k)
  }

  ghost predicate IsFile(t: Tree, es: seq<Entry>, k: Path) {
    LastFile(es, k).Some? || (Look(t, k).Some? && Look(t, k).value.File?)
  }

  ghost predicate IsDir(t: Tree, es: seq<Entry>, k: Path) {
    NeedsDir(es, k) || Look(t, k) == Some(Dir)
  }

  /** No name is unsafe, and no path has to be a file and a directory. */
  ghost predicate Consistent(t: Tree, es: seq<Entry>) {
    && (forall i :: 0 <= i < |es| ==> !Place(es[i].name).Unsafe?)
    && (forall k :: !(IsFile(t, es, k) && IsDir(t, es, k)))
  }

  // ----- one entry

  ghost predicate Clash(t: Tree, e: Entry, k: Path) {
    || (FileFor(e, k) && Look(t, k) == Some(Dir))
    || (DirFor(e, k) && Look(t, k).Some? && Look(t, k).value.File?)
  }

  /** `t'` is `t` with what the entry asks for. */
  ghost predicate Unpacks(t: Tree, e: Entry, t': Tree) {
    forall k {:trigger Look(t', k)} ::
      Look(t', k) == (if FileFor(e, k) then Some(File(e.content)) else if DirFor(e, k) then Some(Dir) else Look(t, k))
  }

  lemma MkdirFits(t: Tree, p: Path)
    ensures FileOnPath(t, p) <==> exists k :: k <= p && Look(t, k).Some? && Look(t, k).value.File?
  {
    if k :| k <= p && Look(t, k).Some? && Look(t, k).value.File? {
      PrefixesOf(p, k);
    }
    if FileOnPath(t, p) {
      var k :| k in Prefixes(p) && Look(t, k).Some? && Look(t, k).value.File?;
      PrefixesOf(p, k);
    }
  }

  lemma ParentPrefix(q: Path, k: Path)
    requires q != []
    ensures k <= Parent(q) <==> k <= q && k != q
  {
    if k <= q && k != q {
      assert k == q[..|k|] == Parent(q)[..|k|];
    }
    if k <= Parent(q) {
      assert k == Parent(q)[..|k|] == q[..|k|];
    }
  }

  lemma DirUnpacks(t: Tree, e: Entry, q: Path)
    requires e.DirEntry? && Place(e.name) == Into(q)
    ensures MkdirAll(t, q).Some? <==> forall k :: !Clash(t, e, k)
    ensures MkdirAll(t, q).Some? ==> Unpacks(t, e, MkdirAll(t, q).value)
  {
    MkdirFits(t, q);
    if MkdirAll(t, q).Some? {
      MkdirMade(t, q);
    } else {
      var k :| k <= q && Look(t, k).Some? && Look(t, k).value.File?;
      assert Clash(t, e, k);
    }
  }

  lemma MkdirAbove(t: Tree, q: Path)
    requires q != []
    ensures MkdirAll(t, Parent(q)).None? <==>
              exists k :: k <= q && k != q && Look(t, k).Some? && Look(t, k).value.File?
    ensures MkdirAll(t, Parent(q)).Some? ==>
              forall k {:trigger Look(MkdirAll(t, Parent(q)).value, k)} ::
                Look(MkdirAll(t, Parent(q)).value, k) == (if k <= q && k != q then Some(Dir) else Look(t, k))
  {
    MkdirFits(t, Parent(q));
    if FileOnPath(t, Parent(q)) {
      var k :| k <= Parent(q) && Look(t, k).Some? && Look(t, k).value.File?;
      ParentPrefix(q, k);
    } else {
      MkdirMade(t, Parent(q));
      forall k
        ensures Look(MkdirAll(t, Parent(q)).value, k) == if k <= q && k != q then Some(Dir) else Look(t, k)
        ensures k <= q && k != q ==> !(Look(t, k).Some? && Look(t, k).value.File?)
      {
        ParentPrefix(q, k);
      }
    }
  }

  lemma FileUnpacks(t: Tree, e: Entry, q: Path)
    requires Look(t, []) == Some(Dir) && e.FileEntry? && Place(e.name) == Into(q)
    ensures UnpackFile(t, q, e.content).Some? <==> forall k :: !Clash(t, e, k)
    ensures UnpackFile(t, q, e.content).Some? ==> Unpacks(t, e, UnpackFile(t, q, e.content).value)
  {
    if q == [] {
      TopFileRefused(t, q, e.content);
      assert Clash(t, e, []);
    } else {
      MkdirAbove(t, q);
      if MkdirAll(t, Parent(q)).None? {
        var k :| k <= q && k != q && Look(t, k).Some? && Look(t, k).value.File?;
        assert Clash(t, e, k);
      } else {
        FileWritten(t, MkdirAll(t, Parent(q)).value, e, q);
      }
    }
  }

  lemma FileWritten(t: Tree, t1: Tree, e: Entry, q: Path)
    requires q != [] && e.FileEntry? && Place(e.name) == Into(q)
    requires forall k {:trigger Look(t1, k)} :: Look(t1, k) == if k <= q && k != q then Some(Dir) else Look(t, k)
    requires forall k {:trigger Look(t, k)} :: k <= q && k != q ==> !(Look(t, k).Some? && Look(t, k).value.File?)
    ensures WriteFile(t1, q, e.content).Some? <==> forall k :: !Clash(t, e, k)
    ensures WriteFile(t1, q, e.content).Some? ==> Unpacks(t, e, WriteFile(t1, q, e.content).value)
  {
    assert Look(t1, Parent(q)) == Some(Dir) by {
      ParentPrefix(q, Parent(q));
    }
    assert Look(t1, q) == Look(t, q);
    if Look(t, q) == Some(Dir) {
      assert Clash(t, e, q);
    } else {
      forall k ensures !Clash(t, e, k) {
        assert DirFor(e, k) ==> !(Look(t, k).Some? && Look(t, k).value.File?);
      }
      var t' := t1[q := File(e.content)];
      assert WriteFile(t1, q, e.content) == Some(t');
      assert forall k :: !Clash(t, e, k);
      forall k
        ensures Look(t', k) ==
                if FileFor(e, k) then Some(File(e.content)) else if DirFor(e, k) then Some(Dir) else Look(t, k)
      {
        assert FileFor(e, k) <==> k == q;
        assert DirFor(e, k) <==> k <= q && k != q;
        assert k != q ==> Look(t', k) == Look(t1, k);
      }
    }
  }

  /** One entry goes through unless its name is unsafe or it clashes; then its place and what is above it are
      as the entry says, and nothing else changes. */
  lemma UnpackExactly(t: Tree, e: Entry)
    requires Look(t, []) == Some(Dir)
    ensures var r := Unpack(t, [], e);
            && (r.Some? <==> !Place(e.name).Unsafe? && forall k :: !Clash(t, e, k))
            && (r.Some? ==> Unpacks(t, e, r.value))
  {
    match Place(e.name)
    case Into(q) =>
      assert Under([], q) == q;
      if e.DirEntry? {
        DirUnpacks(t, e, q);
      } else if e.FileEntry? {
        FileUnpacks(t, e, q);
      }
    case _ =>
  }

  // ----- all entries

  lemma NeedsDirCons(es: seq<Entry>, k: Path)
    requires es != []
    ensures NeedsDir(es, k) <==> DirFor(es[0], k) || NeedsDir(es[1..], k)
  {
    if NeedsDir(es[1..], k) {
      var i :| 0 <= i < |es[1..]| && DirFor(es[1..][i], k);
      assert es[i + 1] == es[1..][i];
    }
    if NeedsDir(es, k) {
      var i :| 0 <= i < |es| && DirFor(es[i], k);
      assert i > 0 ==> es[1..][i - 1] == es[i];
    }
  }

  /** After the first entry the rest asks for the same. */
  lemma SameDemands(t: Tree, t1: Tree, es: seq<Entry>, k: Path)
    requires es != [] && !Clash(t, es[0], k)
    requires Unpacks(t, es[0], t1)
    ensures IsFile(t, es, k) <==> IsFile(t1, es[1..], k)
    ensures IsDir(t, es, k) <==> IsDir(t1, es[1..], k)
    ensures !(IsFile(t, es, k) && IsDir(t, es, k)) ==> Expected(t, es, k) == Expected(t1, es[1..], k)
  {
    NeedsDirCons(es, k);
  }

  lemma ClashConflicts(t: Tree, es: seq<Entry>, k: Path)
    requires es != [] && Clash(t, es[0], k)
    ensures IsFile(t, es, k) && IsDir(t, es, k)
  {
    NeedsDirCons(es, k);
  }

  lemma ConsistentOn(t: Tree, t1: Tree, es: seq<Entry>)
    requires es != [] && !Place(es[0].name).Unsafe?
    requires forall k :: (IsFile(t, es, k) <==> IsFile(t1, es[1..], k)) && (IsDir(t, es, k) <==> IsDir(t1, es[1..], k))
    ensures Consistent(t, es) <==> Consistent(t1, es[1..])
  {
    assert forall i :: 0 <= i < |es[1..]| ==> es[1..][i] == es[i + 1];
    assert forall i :: 0 < i < |es| ==> es[i] == es[1..][i - 1];
  }

  /** Unpacking onto a tree goes through exactly when the entries are consistent with it and each other, and then
      every path is as expected. */
  lemma {:induction false} UnpackAllExactly(t: Tree, es: seq<Entry>)
    requires Look(t, []) == Some(Dir)
    ensures var u := UnpackAll(t, [], es);
            && (u.ok <==> Consistent(t, es))
            && (u.ok ==> forall k :: Look(Last(t, u.states), k) == Expected(t, es, k))
    decreases |es|
  {
    if es != [] {
      UnpackExactly(t, es[0]);
      var r := Unpack(t, [], es[0]);
      if r.None? {
        if k :| Clash(t, es[0], k) {
          ClashConflicts(t, es, k);
        }
      } else {
        forall k
          ensures IsFile(t, es, k) <==> IsFile(r.value, es[1..], k)
          ensures IsDir(t, es, k) <==> IsDir(r.value, es[1..], k)
          ensures !(IsFile(t, es, k) && IsDir(t, es, k)) ==> Expected(t, es, k) == Expected(r.value, es[1..], k)
        {
          SameDemands(t, r.value, es, k);
        }
        RootStays(t, es[0], r.value);
        UnpackAllExactly(r.value, es[1..]);
        ConsistentOn(t, r.value, es);
      }
    }
  }

  lemma RootStays(t: Tree, e: Entry, t': Tree)
    requires Look(t, []) == Some(Dir) && Unpack(t, [], e) == Some(t')
    ensures Look(t', []) == Some(Dir)
  {
    UnpackExactly(t, e);
    assert !Clash(t, e, []);
  }

  // ----- an archive

  /** An archive unpacks into an empty directory exactly when it can be read to its end and its entries are
      consistent, and to exactly what its entries ask for. */
  lemma UnpackedExactly(a: Archive)
    ensures Unpacked(a).Some? <==> !a.broken && Consistent(EMPTY, a.entries)
    ensures Unpacked(a).Some? ==> forall k :: Look(Unpacked(a).value, k) == Expected(EMPTY, a.entries, k)
  {
    UnpackAllExactly(EMPTY, a.entries);
  }

  /** What `extract` puts in place when something is already staged. */
  lemma WholeExactly(t: Tree, a: Archive, tmp: Path)
    requires MkdirAll(t, tmp).Some?
    ensures var base := Base(t, tmp);
            && (forall r :: Look(base, r) == if r == [] then Some(Dir) else Look(t, Under(tmp, r)))
            && (Whole(t, a, tmp).Some? <==> !a.broken && Consistent(base, a.entries))
            && (Whole(t, a, tmp).Some? ==> forall k :: Look(Whole(t, a, tmp).value, k) == Expected(base, a.entries, k))
  {
    var base := Base(t, tmp);
    MkdirMade(t, tmp);
    forall r ensures Look(base, r) == if r == [] then Some(Dir) else Look(t, Under(tmp, r)) {
      SubtreeLook(MkdirAll(t, tmp).value, tmp, r);
      assert r == [] ==> Under(tmp, r) == tmp;
      assert Under(tmp, r) <= tmp ==> r == [];
    }
    UnpackAllExactly(base, a.entries);
  }

  // ----- an installation

  /** The new package.xml, a source.properties if there is none, and otherwise what was unpacked. */
  function WithMetadata(unpacked: Option<Node>, k: Path, props: string, xml: string): Option<Node> {
    if k == PACKAGE_XML then Some(File(xml))
    else if k == SOURCE_PROPERTIES && unpacked.None? then Some(File(props))
    else unpacked
  }

  /** What stands at `k` in a finished package. */
  ghost function InPackage(req: Request, k: Path): Option<Node>
    requires req.archive.Some?
  {
    WithMetadata(Expected(EMPTY, req.archive.value.entries, k), k, req.props, req.xml)
  }

  /** The archive is sound and leaves room for package.xml. */
  ghost predicate Installable(req: Request) {
    && req.archive.Some? && !req.archive.value.broken && Consistent(EMPTY, req.archive.value.entries)
    && !NeedsDir(req.archive.value.entries, PACKAGE_XML)
  }

  lemma FinishWrites(inner: Tree, props: string, xml: string)
    requires Look(inner, []) == Some(Dir)
    ensures var f := Finish(inner, [], props, xml);
            && (f.ok <==> Look(inner, PACKAGE_XML) != Some(Dir))
            && (f.ok ==> forall k :: Look(Last(inner, f.states), k) == WithMetadata(Look(inner, k), k, props, xml))
  {
    assert Under([], SOURCE_PROPERTIES) == SOURCE_PROPERTIES && Under([], PACKAGE_XML) == PACKAGE_XML;
    assert Parent(SOURCE_PROPERTIES) == [] && Parent(PACKAGE_XML) == [];
    assert SOURCE_PROPERTIES[0] != PACKAGE_XML[0];
  }

  /** The finished tree holds the files of the archive, a source.properties unless the archive has one, and the
      new package.xml. */
  lemma FinishedExactly(req: Request)
    ensures Finished(req).Some? <==> Installable(req)
    ensures Installable(req) ==> forall k :: Look(Finished(req).value, k) == InPackage(req, k)
  {
    if req.archive.Some? {
      UnpackedExactly(req.archive.value);
      if Unpacked(req.archive.value).Some? {
        var inner := Unpacked(req.archive.value).value;
        UnpackedIsDir(EMPTY, req.archive.value.entries);
        FinishWrites(inner, req.props, req.xml);
        var es := req.archive.value.entries;
        assert !(IsFile(EMPTY, es, PACKAGE_XML) && IsDir(EMPTY, es, PACKAGE_XML));
      }
    }
  }

  /** The same version is installed, its directory is there, and it is to stay. */
  ghost predicate ToKeep(s: Store, req: Request, d: Path) {
    var m := M.AsMap(s.entries);
    && req.found.Some? && req.path in m && m[req.path].version == req.found.value.version
    && Look(s.tree, d) == Some(Dir) && req.keep
  }

  /** One installation, told from the request alone. A package to keep is left alone. Otherwise it succeeds
      exactly when the package is known, its archive is installable and no file is in the way; then each path of
      its directory is as the archive's entries and the metadata say, and the manifest binds the path to version,
      checksum and time. If it fails the manifest does not change. */
  lemma InstallExactly(root: Path, s: Store, req: Request, d: Path)
    requires PkgDir(root, req.path) == Some(d) && d != [] && Holds(s.tree, TmpOf(d), map[])
    ensures var e, keep := InstallOne(root, s, req), ToKeep(s, req, d);
            && (keep ==> After(s, e) == s && e.ok)
            && (!keep ==> (e.ok <==> req.found.Some? && Installable(req) && !FileOnPath(s.tree, TmpOf(d))))
            && (!keep && e.ok ==>
                 && (forall r :: Look(After(s, e).tree, Under(d, r)) == InPackage(req, r))
                 && M.AsMap(e.entries) == M.AsMap(s.entries)[req.path :=
                      M.Entry(req.path, req.found.value.version, req.found.value.sha256, req.now)])
            && (!e.ok ==> e.entries == s.entries)
  {
    M.FindIsLookup(s.entries, req.path);
    FinishedExactly(req);
    if req.found.Some? && !Kept(root, s, req) {
      InstallResult(root, s, req, d);
      if InstallOne(root, s, req).ok {
        var t' := After(s, InstallOne(root, s, req)).tree;
        forall r ensures Look(t', Under(d, r)) == InPackage(req, r) {
          SubtreeLook(t', d, r);
        }
      }
    }
  }
}
