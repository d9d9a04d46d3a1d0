/** A file tree, the operations the installer performs on it, and unpacking an archive into it. */
module FileTree {
  import opened Common
  import opened ArchivePaths

  type Path = seq<string>
  datatype Node = Dir | File(content: string)
  type Tree = map<Path, Node>

  const EMPTY: Tree := map[[] := Dir]

  function Look(t: Tree, p: Path): Option<Node> {
    if p in t then Some(t[p]) else None
  }

  lemma SameTree(t: Tree, t': Tree)
    requires forall k :: Look(t, k) == Look(t', k)
    ensures t == t'
  {
    forall k ensures (k in t <==> k in t') && (k in t ==> t[k] == t'[k]) {
      assert Look(t, k) == Look(t', k);
    }
  }

  function Parent(p: Path): Path {
    if p == [] then [] else p[..|p| - 1]
  }

  function Prefixes(p: Path): set<Path> {
    set n | 0 <= n <= |p| :: p[..n]
  }

  /** A file stands where a directory would have to be. */
  predicate FileOnPath(t: Tree, p: Path) {
    exists k :: k in Prefixes(p) && Look(t, k).Some? && Look(t, k).value.File?
  }

  function MkdirAll(t: Tree, p: Path): Option<Tree> {
    if FileOnPath(t, p) then None else Some(t + map d | d in Prefixes(p) :: Dir)
  }

  function WriteFile(t: Tree, p: Path, content: string): Option<Tree> {
    if p == [] || Look(t, Parent(p)) != Some(Dir) || Look(t, p) == Some(Dir) then None
    else Some(t[p := File(content)])
  }

  function RemoveAll(t: Tree, p: Path): Tree {
    map k | k in t && !(p <= k) :: t[k]
  }

  /** The path `r` below `p`, and back. */
  function Under(p: Path, r: Path): (k: Path)
    ensures p <= k && |k| == |p| + |r| && k[|p|..] == r
  {
    p + r
  }

  function Relative(p: Path, k: Path): (r: Path)
    requires p <= k
    ensures Under(p, r) == k
  {
    k[|p|..]
  }

  /** What stands at and below `p`, relative to it. */
  function Subtree(t: Tree, p: Path): Tree {
    map r | r in (set k | k in t && p <= k :: Relative(p, k)) :: t[Under(p, r)]
  }

  /** Moves the whole tree at `p` to `q`. */
  function Rename(t: Tree, p: Path, q: Path): Tree {
    var moved := Subtree(t, p);
    RemoveAll(t, p) + map k | k in (set r | r in moved :: Under(q, r)) :: moved[Relative(q, k)]
  }

  lemma ParentUnder(p: Path, r: Path)
    requires r != []
    ensures Parent(Under(p, r)) == Under(p, Parent(r))
  {
  }

  lemma UnderInjective(p: Path, r: Path, r': Path)
    ensures Under(p, r) == Under(p, r') <==> r == r'
  {
    if Under(p, r) == Under(p, r') {
      assert r == Under(p, r')[|p|..];
    }
  }

  // ----- the operations, point by point

  lemma PrefixesOf(p: Path, k: Path)
    ensures k in Prefixes(p) <==> k <= p
  {
    if k <= p {
      assert k == p[..|k|];
    }
  }

  /** `t'` is `t` with directories made at `p` and above. */
  ghost predicate Made(t: Tree, p: Path, t': Tree) {
    forall k {:trigger Look(t', k)} :: Look(t', k) == if k <= p then Some(Dir) else Look(t, k)
  }

  lemma MkdirMade(t: Tree, p: Path)
    requires !FileOnPath(t, p)
    ensures Made(t, p, MkdirAll(t, p).value)
  {
    forall k ensures k in Prefixes(p) <==> k <= p {
      PrefixesOf(p, k);
    }
  }

  lemma SubtreeLook(t: Tree, p: Path, r: Path)
    ensures Look(Subtree(t, p), r) == Look(t, Under(p, r))
  {
    if Under(p, r) in t {
      assert Relative(p, Under(p, r)) == r;
    }
  }

  lemma RenameLook(t: Tree, p: Path, q: Path, k: Path)
    requires q <= k ==> Look(t, k).None?
    ensures Look(Rename(t, p, q), k) ==
            if q <= k then Look(t, Under(p, Relative(q, k))) else if p <= k then None else Look(t, k)
  {
    var moved := Subtree(t, p);
    if q <= k {
      var r := Relative(q, k);
      SubtreeLook(t, p, r);
      assert k in (set m | m in moved :: Under(q, m)) <==> r in moved;
    }
  }

  /** `inner` is what stands at and below `p`. */
  ghost predicate Holds(t: Tree, p: Path, inner: Tree) {
    forall r {:trigger Under(p, r)} :: Look(t, Under(p, r)) == Look(inner, r)
  }

  lemma HoldsSubtree(t: Tree, p: Path, inner: Tree)
    ensures Holds(t, p, inner) <==> Subtree(t, p) == inner
  {
    forall r ensures Look(Subtree(t, p), r) == Look(t, Under(p, r)) {
      SubtreeLook(t, p, r);
    }
    if Holds(t, p, inner) {
      SameTree(Subtree(t, p), inner);
    }
  }

  // ----- archives

  datatype Entry = DirEntry(name: string) | FileEntry(name: string, content: string) | OtherEntry(name: string)

  /** An archive as it reads: some entries, then the end or a read error. */
  datatype Archive = Archive(entries: seq<Entry>, broken: bool)

  datatype Verdict = Skip | Unsafe | Into(q: Path)

  /** What `stripFirst` and `sanitize` make of an entry name. */
  function Place(name: string): Verdict {
    var s := Stripped(name);
    if s.None? || s.value == "" then Skip
    else if Sanitize("/", s.value).None? then Unsafe
    else Into(Stack(s.value))
  }

  /** The verdict does not depend on the destination, and a placed entry is inside it. */
  lemma PlaceIsInside(dest: Path, name: string)
    requires AllPlain(dest) && Stripped(name).Some? && Stripped(name).value != ""
    ensures match Place(name)
            case Skip => false
            case Unsafe => Sanitize(Abs(dest), Stripped(name).value).None?
            case Into(q) => AllPlain(q) && Sanitize(Abs(dest), Stripped(name).value) == Some(Abs(dest + q))
  {
    var s := Stripped(name).value;
    RefusedExactly("/", s);
    RefusedExactly(Abs(dest), s);
    if Sanitize("/", s).Some? {
      AcceptedIsContained(dest, s);
    }
  }

  function UnpackFile(t: Tree, p: Path, content: string): Option<Tree> {
    var t' := MkdirAll(t, Parent(p));
    if t'.None? then None else WriteFile(t'.value, p, content)
  }

  /** What one entry does to its target; None is an error. */
  function UnpackAt(t: Tree, target: Path, e: Entry): Option<Tree> {
    match e
    case DirEntry(_) => MkdirAll(t, target)
    case FileEntry(_, content) => UnpackFile(t, target, content)
    case OtherEntry(_) => Some(t)
  }

  /** One round of the entry loop. */
  function Unpack(t: Tree, dest: Path, e: Entry): Option<Tree> {
    match Place(e.name)
    case Skip => Some(t)
    case Unsafe => None
    case Into(q) => UnpackAt(t, Under(dest, q), e)
  }

  /** The trees after each entry, and whether the last entry was reached. */
  datatype Unpacking = Unpacking(states: seq<Tree>, ok: bool)

  function UnpackAll(t: Tree, dest: Path, es: seq<Entry>): Unpacking
    decreases |es|
  {
    if es == [] then Unpacking([], true)
    else
      var r := Unpack(t, dest, es[0]);
      if r.None? then Unpacking([], false)
      else
        var rest := UnpackAll(r.value, dest, es[1..]);
        Unpacking([r.value] + rest.states, rest.ok)
  }

  function Last(t: Tree, states: seq<Tree>): Tree {
    if states == [] then t else states[|states| - 1]
  }

  // ----- unpacking stays below the destination, and does there what it does in an empty tree

  /** `dest` and everything above it are directories. */
  ghost predicate Standing(t: Tree, dest: Path) {
    forall k :: k <= dest ==> Look(t, k) == Some(Dir)
  }

  ghost predicate SameOutside(t: Tree, t': Tree, dest: Path) {
    forall k :: !(dest <= k) ==> Look(t, k) == Look(t', k)
  }

  /** `t'` differs from `t` only below `dest`, where it holds `inner`. */
  ghost predicate Grafted(t: Tree, t': Tree, dest: Path, inner: Tree) {
    SameOutside(t, t', dest) && Holds(t', dest, inner) && Standing(t', dest)
  }

  lemma PrefixInside(dest: Path, q: Path, k: Path)
    ensures k <= Under(dest, q) <==> if dest <= k then Relative(dest, k) <= q else k <= dest
  {
    if dest <= k {
      var r := Relative(dest, k);
      if r <= q {
        assert dest + q == dest + r + q[|r|..];
      }
      if k <= Under(dest, q) {
        assert forall i :: 0 <= i < |r| ==> r[i] == k[|dest| + i] == Under(dest, q)[|dest| + i];
      }
    } else if |k| < |dest| {
      assert (dest + q)[..|k|] == dest[..|k|];
    } else {
      assert (dest + q)[..|dest|] == dest;
    }
  }

  lemma FileInside(t: Tree, dest: Path, inner: Tree, q: Path)
    requires Holds(t, dest, inner) && FileOnPath(inner, q)
    ensures FileOnPath(t, Under(dest, q))
  {
    var r :| r in Prefixes(q) && Look(inner, r).Some? && Look(inner, r).value.File?;
    PrefixesOf(q, r);
    PrefixInside(dest, q, Under(dest, r));
    PrefixesOf(Under(dest, q), Under(dest, r));
    assert Look(inner, r) == Look(t, Under(dest, r));
  }

  lemma NoFileInside(t: Tree, dest: Path, inner: Tree, q: Path)
    requires Holds(t, dest, inner) && Standing(t, dest) && FileOnPath(t, Under(dest, q))
    ensures FileOnPath(inner, q)
  {
    var k :| k in Prefixes(Under(dest, q)) && Look(t, k).Some? && Look(t, k).value.File?;
    PrefixesOf(Under(dest, q), k);
    PrefixInside(dest, q, k);
    assert dest <= k;
    PrefixesOf(q, Relative(dest, k));
    assert Look(inner, Relative(dest, k)) == Look(t, k);
  }

  lemma MkdirOutside(t: Tree, t': Tree, dest: Path, q: Path)
    requires Standing(t, dest) && Made(t, Under(dest, q), t')
    ensures SameOutside(t, t', dest) && Standing(t', dest)
  {
    forall k | !(dest <= k) ensures Look(t, k) == Look(t', k) {
      PrefixInside(dest, q, k);
    }
  }

  lemma MkdirHolds(t: Tree, t': Tree, dest: Path, inner: Tree, inner': Tree, q: Path)
    requires Holds(t, dest, inner) && Made(t, Under(dest, q), t') && Made(inner, q, inner')
    ensures Holds(t', dest, inner')
  {
    forall r ensures Look(t', Under(dest, r)) == Look(inner', r) {
      PrefixInside(dest, q, Under(dest, r));
    }
  }

  lemma MkdirInside(t: Tree, dest: Path, inner: Tree, q: Path)
    requires Holds(t, dest, inner) && Standing(t, dest)
    ensures MkdirAll(t, Under(dest, q)).Some? <==> MkdirAll(inner, q).Some?
    ensures MkdirAll(inner, q).Some? ==> Grafted(t, MkdirAll(t, Under(dest, q)).value, dest, MkdirAll(inner, q).value)
  {
    if FileOnPath(inner, q) {
      FileInside(t, dest, inner, q);
    } else {
      if FileOnPath(t, Under(dest, q)) {
        NoFileInside(t, dest, inner, q);
      }
      var t', inner' := MkdirAll(t, Under(dest, q)).value, MkdirAll(inner, q).value;
      MkdirMade(t, Under(dest, q));
      MkdirMade(inner, q);
      MkdirOutside(t, t', dest, q);
      MkdirHolds(t, t', dest, inner, inner', q);
    }
  }

  lemma WriteGrafted(t: Tree, dest: Path, inner: Tree, q: Path, node: Node)
    requires Holds(t, dest, inner) && Standing(t, dest) && q != []
    ensures Grafted(t, t[Under(dest, q) := node], dest, inner[q := node])
  {
    var t', inner' := t[Under(dest, q) := node], inner[q := node];
    forall r ensures Look(t', Under(dest, r)) == Look(inner', r) {
      UnderInjective(dest, r, q);
    }
    forall k | k <= dest ensures Look(t', k) == Some(Dir) {
      assert Look(t, k) == Some(Dir) && |k| < |Under(dest, q)|;
    }
  }

  lemma WriteInside(t: Tree, dest: Path, inner: Tree, q: Path, content: string)
    requires Holds(t, dest, inner) && Standing(t, dest)
    ensures WriteFile(t, Under(dest, q), content).Some? <==> WriteFile(inner, q, content).Some?
    ensures WriteFile(inner, q, content).Some? ==>
              Grafted(t, WriteFile(t, Under(dest, q), content).value, dest, WriteFile(inner, q, content).value)
  {
    assert Look(t, Under(dest, q)) == Look(inner, q);
    if q == [] {
      assert Under(dest, q) == dest;
    } else {
      ParentUnder(dest, q);
      assert Look(t, Parent(Under(dest, q))) == Look(inner, Parent(q));
      WriteGrafted(t, dest, inner, q, File(content));
    }
  }

  lemma GraftedTwice(t0: Tree, t1: Tree, t2: Tree, dest: Path, inner: Tree)
    requires SameOutside(t0, t1, dest) && Grafted(t1, t2, dest, inner)
    ensures Grafted(t0, t2, dest, inner)
  {
  }

  lemma WriteAfterMkdir(t: Tree, m: Tree, dest: Path, m': Tree, q: Path, content: string)
    requires Grafted(t, m, dest, m')
    ensures WriteFile(m, Under(dest, q), content).Some? <==> WriteFile(m', q, content).Some?
    ensures WriteFile(m', q, content).Some? ==>
              Grafted(t, WriteFile(m, Under(dest, q), content).value, dest, WriteFile(m', q, content).value)
  {
    WriteInside(m, dest, m', q, content);
    if WriteFile(m', q, content).Some? {
      GraftedTwice(t, m, WriteFile(m, Under(dest, q), content).value, dest, WriteFile(m', q, content).value);
    }
  }

  /** One entry: the same verdict as in the empty tree, the same effect below `dest`, none outside. */
  lemma UnpackInside(t: Tree, dest: Path, inner: Tree, e: Entry)
    requires Holds(t, dest, inner) && Standing(t, dest)
    ensures Unpack(t, dest, e).Some? <==> Unpack(inner, [], e).Some?
    ensures Unpack(inner, [], e).Some? ==> Grafted(t, Unpack(t, dest, e).value, dest, Unpack(inner, [], e).value)
  {
    match Place(e.name)
    case Into(q) =>
      assert Under([], q) == q;
      match e {
        case DirEntry(_) => MkdirInside(t, dest, inner, q);
        case FileEntry(_, content) => UnpackFileInside(t, dest, inner, q, content);
        case OtherEntry(_) =>
      }
    case _ =>
  }

  lemma UnpackFileInside(t: Tree, dest: Path, inner: Tree, q: Path, content: string)
    requires Holds(t, dest, inner) && Standing(t, dest)
    ensures UnpackFile(t, Under(dest, q), content).Some? <==> UnpackFile(inner, q, content).Some?
    ensures UnpackFile(inner, q, content).Some? ==>
              Grafted(t, UnpackFile(t, Under(dest, q), content).value, dest, UnpackFile(inner, q, content).value)
  {
    if q == [] {
      assert Under(dest, q) == dest;
      assert Look(inner, q) == Look(t, dest);
      TopFileRefused(t, dest, content);
      TopFileRefused(inner, q, content);
    } else {
      var up := Parent(q);
      ParentUnder(dest, q);
      MkdirInside(t, dest, inner, up);
      if MkdirAll(inner, up).Some? {
        WriteAfterMkdir(t, MkdirAll(t, Under(dest, up)).value, dest, MkdirAll(inner, up).value, q, content);
      }
    }
  }

  /** An entry that is the destination itself cannot be a file. */
  lemma TopFileRefused(t: Tree, dest: Path, content: string)
    requires Look(t, dest) == Some(Dir)
    ensures UnpackFile(t, dest, content).None?
  {
    if !FileOnPath(t, Parent(dest)) {
      MkdirMade(t, Parent(dest));
    }
  }

  /** Unpacking an archive, state by state: each state differs from the start only below `dest`, and
      what stands there is what unpacking the same entries into an empty tree gives. */
  lemma {:induction false} UnpackAllInside(t: Tree, dest: Path, inner: Tree, es: seq<Entry>)
    requires Holds(t, dest, inner) && Standing(t, dest)
    ensures var u, u' := UnpackAll(t, dest, es), UnpackAll(inner, [], es);
            && u.ok == u'.ok && |u.states| == |u'.states|
            && (forall i :: 0 <= i < |u.states| ==> Grafted(t, u.states[i], dest, u'.states[i]))
    decreases |es|
  {
    if es != [] {
      UnpackInside(t, dest, inner, es[0]);
      var r, r' := Unpack(t, dest, es[0]), Unpack(inner, [], es[0]);
      if r.Some? {
        UnpackAllInside(r.value, dest, r'.value, es[1..]);
        var u, u' := UnpackAll(r.value, dest, es[1..]), UnpackAll(r'.value, [], es[1..]);
        forall i | 0 <= i < |u.states| ensures Grafted(t, u.states[i], dest, u'.states[i]) {
          GraftedTwice(t, r.value, u.states[i], dest, u'.states[i]);
        }
        GraftedCons(t, dest, r.value, r'.value, u.states, u'.states);
      }
    }
  }

  lemma GraftedCons(t: Tree, dest: Path, s: Tree, s': Tree, states: seq<Tree>, states': seq<Tree>)
    requires Grafted(t, s, dest, s') && |states| == |states'|
    requires forall i :: 0 <= i < |states| ==> Grafted(t, states[i], dest, states'[i])
    ensures forall i :: 0 <= i < |[s] + states| ==> Grafted(t, ([s] + states)[i], dest, ([s'] + states')[i])
  {
  }
}
