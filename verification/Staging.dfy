/** Unpacking beside the destination and renaming: `extract`, and what each state on the way holds. */
module Staging {
  import opened Common
  import opened ArchivePaths
  import opened FileTree

  /** The trees an operation passes through, after the one it starts from, and whether it succeeded. */
  datatype Outcome = Outcome(states: seq<Tree>, ok: bool)

  /** `extract` once the staging directory is made. */
  function ExtractInto(t0: Tree, a: Archive, dest: Path, tmp: Path): Outcome {
    var u := UnpackAll(t0, tmp, a.entries);
    var t1 := Last(t0, u.states);
    if !u.ok || a.broken then Outcome([t0] + u.states + [RemoveAll(t1, tmp)], false)
    else Outcome([t0] + u.states + [RemoveAll(t1, dest), Rename(RemoveAll(t1, dest), tmp, dest)], true)
  }

  /** `extract`, with `tmp` for `dest + ".tmp"`. */
  function Extract(t: Tree, a: Archive, dest: Path, tmp: Path): Outcome {
    var t0 := MkdirAll(t, tmp);
    if t0.None? then Outcome([], false) else ExtractInto(t0.value, a, dest, tmp)
  }

  const SOURCE_PROPERTIES: Path := ["source.properties"]
  const PACKAGE_XML: Path := ["package.xml"]

  /** `writeSourceProperties` keeps an upstream file, `writePackageXML` always writes. */
  function Finish(t: Tree, dest: Path, props: string, xml: string): Outcome {
    var p := Under(dest, SOURCE_PROPERTIES);
    var t1 := if Look(t, p).Some? then Some(t) else WriteFile(t, p, props);
    if t1.None? then Outcome([], false)
    else
      var t2 := WriteFile(t1.value, Under(dest, PACKAGE_XML), xml);
      if t2.None? then Outcome([t1.value], false) else Outcome([t1.value, t2.value], true)
  }

  /** What an archive makes of a tree it is unpacked onto, if it is sound there. */
  function UnpackedOn(base: Tree, a: Archive): Option<Tree> {
    var u := UnpackAll(base, [], a.entries);
    if u.ok && !a.broken then Some(Last(base, u.states)) else None
  }

  /** What it unpacks to in an empty directory. */
  function Unpacked(a: Archive): Option<Tree> {
    UnpackedOn(EMPTY, a)
  }

  /** What `extract` unpacks onto: whatever was left at the staging directory, usually nothing. */
  function Base(t: Tree, tmp: Path): Tree {
    var t0 := MkdirAll(t, tmp);
    if t0.None? then EMPTY else Subtree(t0.value, tmp)
  }

  /** The tree `extract` puts in place, if it succeeds. */
  function Whole(t: Tree, a: Archive, tmp: Path): Option<Tree> {
    if MkdirAll(t, tmp).None? then None else UnpackedOn(Base(t, tmp), a)
  }

  // ----- places that do not meet

  /** Neither place is inside the other. */
  predicate Apart(d: Path, e: Path) {
    !(d <= e) && !(e <= d)
  }

  /** Nothing changed at or below `d`. */
  ghost predicate Untouched(t: Tree, t': Tree, d: Path) {
    forall r {:trigger Under(d, r)} :: Look(t, Under(d, r)) == Look(t', Under(d, r))
  }

  /** Everything off the two places and off the path to them is unchanged. */
  ghost predicate Keeps(t: Tree, t': Tree, dest: Path, tmp: Path) {
    forall k {:trigger Look(t', k)} :: !(dest <= k) && !(tmp <= k) && !(k <= tmp) ==> Look(t', k) == Look(t, k)
  }

  lemma PrefixTransitive(a: Path, b: Path, c: Path)
    requires a <= b && b <= c
    ensures a <= c
  {
    assert a == b[..|a|] == c[..|b|][..|a|] == c[..|a|];
  }

  lemma PrefixesMeet(a: Path, b: Path, c: Path)
    requires a <= c && b <= c && |a| <= |b|
    ensures a <= b
  {
    assert a == c[..|a|] == c[..|b|][..|a|] == b[..|a|];
  }

  lemma ApartBelow(d: Path, e: Path, r: Path)
    requires Apart(d, e)
    ensures !(e <= Under(d, r)) && !(Under(d, r) <= e)
  {
    var k := Under(d, r);
    if e <= k && |d| <= |e| {
      PrefixesMeet(d, e, k);
    } else if e <= k {
      PrefixesMeet(e, d, k);
    }
    if k <= e {
      PrefixTransitive(d, k, e);
    }
  }

  lemma KeepsUntouched(t: Tree, t': Tree, dest: Path, tmp: Path, d: Path)
    requires Keeps(t, t', dest, tmp) && Apart(d, dest) && Apart(d, tmp)
    ensures Untouched(t, t', d)
  {
    forall r ensures Look(t, Under(d, r)) == Look(t', Under(d, r)) {
      ApartBelow(d, dest, r);
      ApartBelow(d, tmp, r);
    }
  }

  lemma UntouchedHolds(t: Tree, t': Tree, d: Path, inner: Tree)
    requires Untouched(t, t', d)
    ensures Holds(t, d, inner) <==> Holds(t', d, inner)
  {
  }

  // ----- the five kinds of step

  lemma MadeAside(t: Tree, t': Tree, dest: Path, tmp: Path)
    requires Made(t, tmp, t') && Apart(dest, tmp)
    ensures Keeps(t, t', dest, tmp) && Untouched(t, t', dest) && Standing(t', tmp)
  {
    forall r ensures Look(t, Under(dest, r)) == Look(t', Under(dest, r)) {
      ApartBelow(dest, tmp, r);
    }
  }

  /** With nothing at the staging directory the base is empty. */
  lemma MadeEmpty(t: Tree, t': Tree, tmp: Path)
    requires Made(t, tmp, t') && Holds(t, tmp, map[])
    ensures Holds(t', tmp, EMPTY)
  {
    forall r ensures Look(t', Under(tmp, r)) == Look(EMPTY, r) {
      assert Look(t, Under(tmp, r)) == Look(map[], r);
      if r == [] {
        assert Under(tmp, r) == tmp;
      } else {
        assert |Under(tmp, r)| > |tmp|;
      }
    }
  }

  lemma CleanWhole(t: Tree, a: Archive, tmp: Path)
    requires Holds(t, tmp, map[])
    ensures Whole(t, a, tmp) == if MkdirAll(t, tmp).None? then None else Unpacked(a)
  {
    if MkdirAll(t, tmp).Some? {
      var t0 := MkdirAll(t, tmp).value;
      MkdirMade(t, tmp);
      MadeEmpty(t, t0, tmp);
      HoldsSubtree(t0, tmp, EMPTY);
    }
  }

  lemma OutsideAside(t: Tree, t': Tree, t'': Tree, dest: Path, tmp: Path)
    requires Keeps(t, t', dest, tmp) && Untouched(t, t', dest) && SameOutside(t', t'', tmp) && Apart(dest, tmp)
    ensures Keeps(t, t'', dest, tmp) && Untouched(t, t'', dest)
  {
    forall r ensures Look(t, Under(dest, r)) == Look(t'', Under(dest, r)) {
      ApartBelow(dest, tmp, r);
      assert Look(t, Under(dest, r)) == Look(t', Under(dest, r));
    }
  }

  lemma RemoveOutside(t: Tree, p: Path)
    ensures SameOutside(t, RemoveAll(t, p), p) && Holds(RemoveAll(t, p), p, map[])
  {
  }

  lemma SwapAwayKeeps(t: Tree, t': Tree, t'': Tree, dest: Path, tmp: Path)
    requires Keeps(t, t', dest, tmp) && SameOutside(t', t'', dest)
    ensures Keeps(t, t'', dest, tmp)
  {
  }

  lemma SwapAwayHolds(t: Tree, t': Tree, dest: Path, tmp: Path, inner: Tree)
    requires SameOutside(t, t', dest) && Apart(dest, tmp) && Holds(t, tmp, inner)
    ensures Holds(t', tmp, inner)
  {
    forall r ensures Look(t', Under(tmp, r)) == Look(inner, r) {
      ApartBelow(tmp, dest, r);
    }
  }

  lemma SwapAwayStands(t: Tree, t': Tree, dest: Path, tmp: Path)
    requires SameOutside(t, t', dest) && Apart(dest, tmp) && Standing(t, tmp)
    ensures Standing(t', tmp)
  {
    forall k | k <= tmp ensures Look(t', k) == Some(Dir) {
      NotAbove(dest, tmp, k);
    }
  }

  lemma NotAbove(d: Path, e: Path, k: Path)
    requires Apart(d, e) && k <= e
    ensures !(d <= k)
  {
    if d <= k {
      PrefixTransitive(d, k, e);
    }
  }

  lemma RenameFits(t: Tree, dest: Path, tmp: Path, k: Path)
    requires Apart(dest, tmp) && Holds(t, dest, map[])
    ensures Look(Rename(t, tmp, dest), k) ==
            if dest <= k then Look(t, Under(tmp, Relative(dest, k))) else if tmp <= k then None else Look(t, k)
  {
    if dest <= k {
      assert Look(t, Under(dest, Relative(dest, k))) == Look(map[], Relative(dest, k));
    }
    RenameLook(t, tmp, dest, k);
  }

  lemma SwapIn(t: Tree, t': Tree, dest: Path, tmp: Path, inner: Tree)
    requires Keeps(t, t', dest, tmp) && Apart(dest, tmp) && Holds(t', dest, map[]) && Holds(t', tmp, inner)
    ensures var r := Rename(t', tmp, dest);
            Keeps(t, r, dest, tmp) && Holds(r, dest, inner) && Holds(r, tmp, map[])
  {
    var t'' := Rename(t', tmp, dest);
    forall k | !(dest <= k) && !(tmp <= k) && !(k <= tmp) ensures Look(t'', k) == Look(t, k) {
      RenameFits(t', dest, tmp, k);
    }
    forall r ensures Look(t'', Under(dest, r)) == Look(inner, r) {
      RenameFits(t', dest, tmp, Under(dest, r));
      assert Look(t', Under(tmp, r)) == Look(inner, r);
    }
    forall r ensures Look(t'', Under(tmp, r)) == Look(map[], r) {
      RenameFits(t', dest, tmp, Under(tmp, r));
      ApartBelow(tmp, dest, r);
    }
  }

  lemma SwapStands(t: Tree, dest: Path, tmp: Path, inner: Tree)
    requires Apart(dest, tmp) && Holds(t, dest, map[]) && Holds(t, tmp, inner) && Standing(t, tmp)
    requires Parent(dest) == Parent(tmp)
    ensures Standing(Rename(t, tmp, dest), dest)
  {
    forall k | k <= dest ensures Look(Rename(t, tmp, dest), k) == Some(Dir) {
      RenameFits(t, dest, tmp, k);
      if k == dest {
        assert Under(tmp, Relative(dest, k)) == tmp;
      } else {
        assert k == Parent(dest)[..|k|] == Parent(tmp)[..|k|] == tmp[..|k|];
      }
    }
  }

  // ----- extract

  /** A state on the way: other places untouched, and at `dest` the old tree, nothing, or the whole one. */
  ghost predicate OnTheWay(t: Tree, t': Tree, whole: Option<Tree>, dest: Path, tmp: Path) {
    && Keeps(t, t', dest, tmp)
    && (Untouched(t, t', dest) || Holds(t', dest, map[]) || (whole.Some? && Holds(t', dest, whole.value)))
  }

  lemma UnpackedStates(t: Tree, t0: Tree, base: Tree, es: seq<Entry>, whole: Option<Tree>, dest: Path, tmp: Path)
    requires Apart(dest, tmp) && Keeps(t, t0, dest, tmp) && Untouched(t, t0, dest)
    requires Standing(t0, tmp) && Holds(t0, tmp, base)
    ensures var u, u' := UnpackAll(t0, tmp, es), UnpackAll(base, [], es);
            && u.ok == u'.ok
            && (forall i :: 0 <= i < |[t0] + u.states| ==> OnTheWay(t, ([t0] + u.states)[i], whole, dest, tmp))
            && var t1 := Last(t0, u.states);
               && Keeps(t, t1, dest, tmp) && Untouched(t, t1, dest)
               && Standing(t1, tmp) && Holds(t1, tmp, Last(base, u'.states))
  {
    UnpackAllInside(t0, tmp, base, es);
    var u := UnpackAll(t0, tmp, es);
    forall i | 0 <= i < |u.states|
      ensures Keeps(t, u.states[i], dest, tmp) && Untouched(t, u.states[i], dest)
    {
      OutsideAside(t, t0, u.states[i], dest, tmp);
    }
  }

  /** Every state of `extract`, and the last one. */
  ghost predicate ExtractKept(t: Tree, x: Outcome, whole: Option<Tree>, dest: Path, tmp: Path) {
    && (forall i :: 0 <= i < |x.states| ==> OnTheWay(t, x.states[i], whole, dest, tmp))
    && (x.states != [] ==> Holds(Last(t, x.states), tmp, map[]))
    && (x.ok ==> x.states != [] && whole.Some? && Holds(Last(t, x.states), dest, whole.value))
    && (x.ok ==> Standing(Last(t, x.states), dest))
    && (!x.ok ==> Untouched(t, Last(t, x.states), dest))
  }

  lemma KeptPair(t: Tree, t2: Tree, t3: Tree, whole: Tree, dest: Path, tmp: Path)
    requires OnTheWay(t, t2, Some(whole), dest, tmp) && Keeps(t, t3, dest, tmp)
    requires Holds(t3, tmp, map[]) && Holds(t3, dest, whole) && Standing(t3, dest)
    ensures ExtractKept(t, Outcome([t2, t3], true), Some(whole), dest, tmp)
  {
    assert Last(t, [t2, t3]) == t3;
  }

  lemma ExtractSwaps(t: Tree, t1: Tree, whole: Tree, dest: Path, tmp: Path)
    requires Apart(dest, tmp) && Parent(dest) == Parent(tmp)
    requires Keeps(t, t1, dest, tmp) && Standing(t1, tmp) && Holds(t1, tmp, whole)
    ensures ExtractKept(t, Outcome([RemoveAll(t1, dest), Rename(RemoveAll(t1, dest), tmp, dest)], true),
                        Some(whole), dest, tmp)
  {
    var t2 := RemoveAll(t1, dest);
    RemoveOutside(t1, dest);
    SwapAwayKeeps(t, t1, t2, dest, tmp);
    SwapAwayHolds(t1, t2, dest, tmp, whole);
    SwapAwayStands(t1, t2, dest, tmp);
    SwapIn(t, t2, dest, tmp, whole);
    SwapStands(t2, dest, tmp, whole);
    KeptPair(t, t2, Rename(t2, tmp, dest), whole, dest, tmp);
  }

  lemma ExtractFails(t: Tree, t1: Tree, whole: Option<Tree>, dest: Path, tmp: Path)
    requires Apart(dest, tmp) && Keeps(t, t1, dest, tmp) && Untouched(t, t1, dest)
    ensures ExtractKept(t, Outcome([RemoveAll(t1, tmp)], false), whole, dest, tmp)
  {
    RemoveOutside(t1, tmp);
    OutsideAside(t, t1, RemoveAll(t1, tmp), dest, tmp);
  }

  lemma ExtractMakes(t: Tree, t0: Tree, base: Tree, a: Archive, dest: Path, tmp: Path)
    requires Apart(dest, tmp) && Parent(dest) == Parent(tmp) && Keeps(t, t0, dest, tmp) && Untouched(t, t0, dest)
    requires Standing(t0, tmp) && Holds(t0, tmp, base)
    ensures ExtractKept(t, ExtractInto(t0, a, dest, tmp), UnpackedOn(base, a), dest, tmp)
    ensures ExtractInto(t0, a, dest, tmp).ok <==> UnpackedOn(base, a).Some?
  {
    var whole := UnpackedOn(base, a);
    UnpackedStates(t, t0, base, a.entries, whole, dest, tmp);
    var u := UnpackAll(t0, tmp, a.entries);
    var t1 := Last(t0, u.states);
    if whole.Some? {
      ExtractSwaps(t, t1, whole.value, dest, tmp);
      KeptOutcome(t, [t0] + u.states, [RemoveAll(t1, dest), Rename(RemoveAll(t1, dest), tmp, dest)], true,
                  whole, dest, tmp);
    } else {
      ExtractFails(t, t1, whole, dest, tmp);
      KeptOutcome(t, [t0] + u.states, [RemoveAll(t1, tmp)], false, whole, dest, tmp);
    }
  }

  /** In every state of `extract`, whatever was at the staging directory before, `dest` holds the old tree,
      nothing, or all the entries unpacked onto what was there; nothing else is touched, and the staging
      directory is gone at the end. */
  lemma ExtractStates(t: Tree, a: Archive, dest: Path, tmp: Path)
    requires Apart(dest, tmp) && Parent(dest) == Parent(tmp)
    ensures ExtractKept(t, Extract(t, a, dest, tmp), Whole(t, a, tmp), dest, tmp)
    ensures Extract(t, a, dest, tmp).ok <==> Whole(t, a, tmp).Some?
    ensures Extract(t, a, dest, tmp).states == [] <==> MkdirAll(t, tmp).None?
  {
    if MkdirAll(t, tmp).Some? {
      var t0 := MkdirAll(t, tmp).value;
      MkdirMade(t, tmp);
      MadeAside(t, t0, dest, tmp);
      HoldsSubtree(t0, tmp, Subtree(t0, tmp));
      ExtractMakes(t, t0, Subtree(t0, tmp), a, dest, tmp);
    }
  }

  lemma KeptOutcome(t: Tree, first: seq<Tree>, second: seq<Tree>, ok: bool, whole: Option<Tree>, dest: Path, tmp: Path)
    requires second != []
    requires forall i :: 0 <= i < |first| ==> OnTheWay(t, first[i], whole, dest, tmp)
    requires ExtractKept(t, Outcome(second, ok), whole, dest, tmp)
    ensures ExtractKept(t, Outcome(first + second, ok), whole, dest, tmp)
  {
    assert Last(t, first + second) == Last(t, second);
  }

  // ----- the metadata files

  /** Writing the metadata below `dest` does there what it does on the tree alone. */
  lemma FinishInside(t: Tree, dest: Path, inner: Tree, props: string, xml: string)
    requires Holds(t, dest, inner) && Standing(t, dest)
    ensures var f, f' := Finish(t, dest, props, xml), Finish(inner, [], props, xml);
            && f.ok == f'.ok && |f.states| == |f'.states|
            && (forall i :: 0 <= i < |f.states| ==> Grafted(t, f.states[i], dest, f'.states[i]))
  {
    var sp, px := SOURCE_PROPERTIES, PACKAGE_XML;
    assert Under([], sp) == sp && Under([], px) == px;
    assert Look(t, Under(dest, sp)) == Look(inner, sp);
    WriteInside(t, dest, inner, sp, props);
    var t1 := if Look(t, Under(dest, sp)).Some? then Some(t) else WriteFile(t, Under(dest, sp), props);
    var t1' := if Look(inner, sp).Some? then Some(inner) else WriteFile(inner, sp, props);
    if t1'.Some? {
      WriteAfterMkdir(t, t1.value, dest, t1'.value, px, xml);
    }
  }
}
