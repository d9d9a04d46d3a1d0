/** The virtual USB directory index: a map from directory to listing, filled upwards from each
    device path, next to a map from device path to descriptor. */
module DirIndex {
  import opened Common

  /** An absolute path as its components, without "" and "."; the string is their join with "/". */
  type Path = seq<string>

  // BASE_DIR_ORIG, "/dev/bus/usb"
  const BASE: Path := ["dev", "bus", "usb"]

  datatype Kind = CHR | DIR

  datatype Entry = Entry(name: string, kind: Kind)

  /** A BTreeSet of entries: strictly ascending by name. */
  type Listing = seq<Entry>
  type DirMap = map<Path, Listing>
  type FdMap = map<Path, int>

  /** strcmp(a, b) < 0. */
  predicate Less(a: string, b: string) {
    if b == "" then false
    else if a == "" then true
    else if a[0] != b[0] then a[0] < b[0]
    else Less(a[1..], b[1..])
  }

  lemma {:induction false} LessTotal(a: string, b: string)
    ensures Less(a, b) || Less(b, a) || a == b
    ensures !(Less(a, b) && Less(b, a)) && !Less(a, a)
    decreases |a|
  {
    if a != "" && b != "" && a[0] == b[0] {
      LessTotal(a[1..], b[1..]);
      assert a == [a[0]] + a[1..] && b == [b[0]] + b[1..];
    }
    if a != "" {
      LessTotal(a[1..], a[1..]);
    }
  }

  /** The two agree up to place `k`, and there `a` ends or has the smaller character. */
  predicate LessAt(a: string, b: string, k: nat) {
    k < |b| && k <= |a| && a[..k] == b[..k] && (k == |a| || a[k] < b[k])
  }

  lemma SameFront(a: string, b: string, k: nat)
    requires 0 < k <= |a| && k <= |b| && a[..k] == b[..k]
    ensures a[0] == b[0]
  {
    assert a[0] == a[..k][0] == b[..k][0] == b[0];
  }

  /** Names are ordered by the first character in which they differ, or one is the front of the other. */
  lemma {:induction false} LessDecided(a: string, b: string)
    ensures Less(a, b) <==> exists k: nat :: LessAt(a, b, k)
    decreases |a|
  {
    if b != "" && a != "" && a[0] == b[0] {
      LessDecided(a[1..], b[1..]);
      if k: nat :| LessAt(a[1..], b[1..], k) {
        assert a[..k + 1] == [a[0]] + a[1..][..k] && b[..k + 1] == [b[0]] + b[1..][..k];
        assert LessAt(a, b, k + 1);
      }
      if k: nat :| LessAt(a, b, k) {
        assert k > 0;
        assert a[1..][..k - 1] == a[..k][1..] && b[1..][..k - 1] == b[..k][1..];
        assert LessAt(a[1..], b[1..], k - 1);
      }
    } else if b != "" {
      assert a[..0] == b[..0];
      assert Less(a, b) ==> LessAt(a, b, 0);
      if k: nat :| LessAt(a, b, k) {
        if k > 0 {
          SameFront(a, b, k);
        }
      }
    }
  }

  lemma {:induction false} LessTransitive(a: string, b: string, c: string)
    requires Less(a, b) && Less(b, c)
    ensures Less(a, c)
    decreases |a|
  {
    if a != "" && a[0] == b[0] && b[0] == c[0] {
      LessTransitive(a[1..], b[1..], c[1..]);
    }
  }

  ghost predicate Sorted(l: Listing) {
    forall i, j :: 0 <= i < j < |l| ==> Less(l[i].name, l[j].name)
  }

  predicate Lists(l: Listing, name: string) {
    exists i :: 0 <= i < |l| && l[i].name == name
  }

  // ----- BTreeSet::insert

  /** Inserts in order; an entry whose name is already there is not replaced. */
  function Insert(l: Listing, e: Entry): Listing {
    if l == [] then [e]
    else if Less(l[0].name, e.name) then [l[0]] + Insert(l[1..], e)
    else if l[0].name == e.name then l
    else [e] + l
  }

  lemma {:induction false} InsertMembers(l: Listing, e: Entry, x: Entry)
    requires Sorted(l)
    ensures x in Insert(l, e) <==> x in l || (x == e && !Lists(l, e.name))
    decreases |l|
  {
    if l != [] {
      assert l == [l[0]] + l[1..];
      if Less(l[0].name, e.name) {
        InsertMembers(l[1..], e, x);
        LessTotal(l[0].name, e.name);
        assert Lists(l, e.name) <==> Lists(l[1..], e.name) by {
          if Lists(l, e.name) {
            var i :| 0 <= i < |l| && l[i].name == e.name;
            assert l[1..][i - 1].name == e.name;
          }
        }
      } else if l[0].name != e.name {
        LessTotal(l[0].name, e.name);
        assert forall i :: 0 < i < |l| ==> Less(l[0].name, l[i].name);
        assert !Lists(l, e.name);
      }
    }
  }

  /** Insertion keeps the set in order, with one entry per name. */
  lemma {:induction false} InsertSorted(l: Listing, e: Entry)
    requires Sorted(l)
    ensures Sorted(Insert(l, e))
    decreases |l|
  {
    if l != [] {
      LessTotal(l[0].name, e.name);
      if Less(l[0].name, e.name) {
        var rest := Insert(l[1..], e);
        InsertSorted(l[1..], e);
        forall i | 0 <= i < |rest| ensures Less(l[0].name, rest[i].name) {
          InsertMembers(l[1..], e, rest[i]);
        }
      } else if l[0].name != e.name {
        forall i | 0 < i < |l| ensures Less(e.name, l[i].name) {
          LessTransitive(e.name, l[0].name, l[i].name);
        }
      }
    }
  }

  /** After insertion exactly the old names and the new one are listed. */
  lemma InsertLists(l: Listing, e: Entry, name: string)
    requires Sorted(l)
    ensures Lists(Insert(l, e), name) <==> Lists(l, name) || name == e.name
  {
    var l' := Insert(l, e);
    if Lists(l', name) {
      var i :| 0 <= i < |l'| && l'[i].name == name;
      InsertMembers(l, e, l'[i]);
      assert l'[i] in l ==> Lists(l, name);
    }
    if Lists(l, name) {
      var i :| 0 <= i < |l| && l[i].name == name;
      InsertMembers(l, e, l[i]);
      assert l[i] in l';
    }
    InsertMembers(l, e, e);
    if name == e.name && !Lists(l, name) {
      assert e in l';
    }
  }

  // ----- update_dir_map

  // Path::file_name
  function FileName(p: Path): Option<string> {
    if p == [] || p[|p| - 1] == ".." then None else Some(p[|p| - 1])
  }

  /** Strictly below the base directory, and without ".." on the way. */
  predicate Below(p: Path) {
    |p| > |BASE| && BASE <= p && forall k :: |BASE| <= k < |p| ==> p[k] != ".."
  }

  function Get(dm: DirMap, d: Path): Listing {
    if d in dm then dm[d] else []
  }

  /** The directories from the base down to the parent of `p`. */
  function Parents(p: Path): set<Path> {
    set k | |BASE| <= k < |p| :: p[..k]
  }

  /** What `p` adds to its ancestor of length `k`: the device itself, or the next directory. */
  function Link(p: Path, k: nat): Entry
    requires k < |p|
  {
    Entry(p[k], if k == |p| - 1 then CHR else DIR)
  }

  /** Every directory on the way to `p` lists the next component; nothing else changes. */
  function Updated(dm: DirMap, p: Path): DirMap {
    map d | d in dm.Keys + Parents(p) ::
      if d in Parents(p) && |d| < |p| then Insert(Get(dm, d), Link(p, |d|)) else Get(dm, d)
  }

  // ----- invariant

  /** The directory that holds `d`. */
  function Up(d: Path): Path {
    if d == [] then [] else d[..|d| - 1]
  }

  ghost predicate ListedByParent(dm: DirMap, d: Path) {
    |d| > |BASE| && Up(d) in dm && Lists(dm[Up(d)], d[|d| - 1])
  }

  ghost predicate DirInv(dm: DirMap) {
    && (forall d :: d in dm ==> BASE <= d && Sorted(dm[d]))
    && (forall d, e: Entry :: d in dm && e in dm[d] && e.kind.DIR? ==> d + [e.name] in dm)
    && (forall d {:trigger ListedByParent(dm, d)} :: d in dm && d != BASE ==> ListedByParent(dm, d))
  }

  /** From the base, successive listings lead to `p`. */
  ghost predicate Reachable(dm: DirMap, p: Path) {
    && |p| > |BASE| && BASE <= p
    && forall k :: |BASE| <= k < |p| ==> p[..k] in dm && Lists(dm[p[..k]], p[k])
  }

  /** Every device can be found, and every listed device, but one still being delivered, can be opened. */
  ghost predicate FdInv(dm: DirMap, fm: FdMap, pending: Option<Path>) {
    && (forall p :: p in fm ==> Reachable(dm, p))
    && (forall d, e: Entry :: d in dm && e in dm[d] && e.kind.CHR? ==>
          d + [e.name] in fm || Some(d + [e.name]) == pending)
  }

  lemma UpdatedListing(dm: DirMap, p: Path, d: Path)
    requires DirInv(dm) && Below(p) && d in Updated(dm, p)
    ensures Sorted(Updated(dm, p)[d]) && BASE <= d
    ensures forall name :: Lists(Get(dm, d), name) ==> Lists(Updated(dm, p)[d], name)
    ensures forall e :: e in Updated(dm, p)[d] ==>
              e in Get(dm, d) || (|BASE| <= |d| < |p| && d == p[..|d|] && e == Link(p, |d|))
  {
    if d in Parents(p) {
      var e := Link(p, |d|);
      InsertSorted(Get(dm, d), e);
      forall name | Lists(Get(dm, d), name) ensures Lists(Insert(Get(dm, d), e), name) {
        InsertLists(Get(dm, d), e, name);
      }
      forall x | x in Insert(Get(dm, d), e) ensures x in Get(dm, d) || x == e {
        InsertMembers(Get(dm, d), e, x);
      }
    }
  }

  lemma UpdatedReaches(dm: DirMap, p: Path)
    requires DirInv(dm) && Below(p)
    ensures Reachable(Updated(dm, p), p)
  {
    forall k | |BASE| <= k < |p| ensures p[..k] in Updated(dm, p) && Lists(Updated(dm, p)[p[..k]], p[k]) {
      var d := p[..k];
      assert d in Parents(p);
      InsertLists(Get(dm, d), Link(p, k), p[k]);
    }
  }

  /** Listings only grow. */
  lemma UpdatedKeepsReachable(dm: DirMap, p: Path, q: Path)
    requires DirInv(dm) && Below(p) && Reachable(dm, q)
    ensures Reachable(Updated(dm, p), q)
  {
    forall k | |BASE| <= k < |q| ensures Lists(Updated(dm, p)[q[..k]], q[k]) {
      UpdatedListing(dm, p, q[..k]);
    }
  }

  /** The link added at `d` leads to the next directory on the way, or to the device. */
  lemma LinkLeads(p: Path, d: Path)
    requires |BASE| <= |d| < |p| && d == p[..|d|]
    ensures d + [p[|d|]] == p[..|d| + 1]
    ensures if |d| == |p| - 1 then d + [p[|d|]] == p else d + [p[|d|]] in Parents(p)
  {
    assert p[..|d| + 1] == p[..|d|] + [p[|d|]];
    assert p[..|p|] == p;
  }

  lemma UpdatedEntry(dm: DirMap, p: Path, d: Path, e: Entry)
    requires DirInv(dm) && Below(p) && d in Updated(dm, p) && e in Updated(dm, p)[d]
    ensures e.kind.DIR? ==> d + [e.name] in Updated(dm, p)
    ensures e.kind.CHR? ==> e in Get(dm, d) || d + [e.name] == p
  {
    UpdatedListing(dm, p, d);
    if e in Get(dm, d) {
      OldEntry(dm, p, d, e);
    } else {
      LinkLeads(p, d);
    }
  }

  lemma OldEntry(dm: DirMap, p: Path, d: Path, e: Entry)
    requires DirInv(dm) && e in Get(dm, d)
    ensures e.kind.DIR? ==> d + [e.name] in Updated(dm, p)
  {
    if e.kind.DIR? {
      assert d + [e.name] in dm;
    }
  }

  /** A directory on the way to `p`, other than the base, lies in the one before it. */
  lemma ParentOnTheWay(p: Path, d: Path)
    requires BASE <= p && d in Parents(p) && d != BASE
    ensures |BASE| < |d| < |p| && d == p[..|d|] && d[|d| - 1] == p[|d| - 1]
    ensures Up(d) in Parents(p) && |Up(d)| == |d| - 1
  {
    var k :| |BASE| <= k < |p| && d == p[..k];
    assert p[..|BASE|] == BASE;
    assert Up(d) == p[..k - 1];
  }

  /** A directory on the way lists the next component after the update. */
  lemma UpdatedLink(dm: DirMap, p: Path, q: Path)
    requires DirInv(dm) && q in Parents(p)
    ensures |BASE| <= |q| < |p| && q in Updated(dm, p) && Lists(Updated(dm, p)[q], p[|q|])
  {
    InsertLists(Get(dm, q), Link(p, |q|), p[|q|]);
  }

  lemma OldParent(dm: DirMap, p: Path, d: Path)
    requires DirInv(dm) && Below(p) && d in dm && d != BASE
    ensures ListedByParent(Updated(dm, p), d)
  {
    assert ListedByParent(dm, d) && Get(dm, Up(d)) == dm[Up(d)];
    UpdatedListing(dm, p, Up(d));
  }

  lemma NewParent(dm: DirMap, p: Path, d: Path)
    requires DirInv(dm) && Below(p) && d in Parents(p) && d != BASE
    ensures ListedByParent(Updated(dm, p), d)
  {
    ParentOnTheWay(p, d);
    UpdatedLink(dm, p, Up(d));
  }

  lemma UpdatedDirs(dm: DirMap, p: Path)
    requires DirInv(dm) && Below(p)
    ensures DirInv(Updated(dm, p))
  {
    var dm' := Updated(dm, p);
    forall d | d in dm' ensures BASE <= d && Sorted(dm'[d]) {
      UpdatedListing(dm, p, d);
    }
    forall d, e: Entry | d in dm' && e in dm'[d] && e.kind.DIR? ensures d + [e.name] in dm' {
      UpdatedEntry(dm, p, d, e);
    }
    forall d | d in dm' && d != BASE ensures ListedByParent(dm', d) {
      if d in dm {
        OldParent(dm, p, d);
      } else {
        NewParent(dm, p, d);
      }
    }
  }

  lemma UpdatedFds(dm: DirMap, fm: FdMap, p: Path)
    requires DirInv(dm) && FdInv(dm, fm, None) && Below(p)
    ensures FdInv(Updated(dm, p), fm, Some(p))
  {
    forall q | q in fm ensures Reachable(Updated(dm, p), q) {
      UpdatedKeepsReachable(dm, p, q);
    }
    forall d, e: Entry | d in Updated(dm, p) && e in Updated(dm, p)[d] && e.kind.CHR?
      ensures d + [e.name] in fm || Some(d + [e.name]) == Some(p)
    {
      UpdatedEntry(dm, p, d, e);
    }
  }

  /** First lock of a delivery: the directories are in place, the device is about to be openable. */
  lemma UpdateKeeps(dm: DirMap, fm: FdMap, p: Path)
    requires DirInv(dm) && FdInv(dm, fm, None) && Below(p)
    ensures DirInv(Updated(dm, p)) && FdInv(Updated(dm, p), fm, Some(p)) && Reachable(Updated(dm, p), p)
  {
    UpdatedDirs(dm, p);
    UpdatedReaches(dm, p);
    UpdatedFds(dm, fm, p);
  }

  /** Second lock of a delivery. */
  lemma InsertFdKeeps(dm: DirMap, fm: FdMap, p: Path, fd: int)
    requires DirInv(dm) && FdInv(dm, fm, Some(p)) && Reachable(dm, p)
    ensures FdInv(dm, fm[p := fd], None)
  {
  }

  // ----- any number of messages

  datatype Message = Message(path: Path, fd: int)

  function Delivered(dm: DirMap, fm: FdMap, ms: seq<Message>): (DirMap, FdMap)
    decreases |ms|
  {
    if ms == [] then (dm, fm)
    else Delivered(Updated(dm, ms[0].path), fm[ms[0].path := ms[0].fd], ms[1..])
  }

  /** After any messages for devices below the base, every device is found by walking the listings
      down from the base, every directory entry can be listed and every device entry opened. */
  lemma {:induction false} DeliveriesKeepIndex(dm: DirMap, fm: FdMap, ms: seq<Message>)
    requires DirInv(dm) && FdInv(dm, fm, None) && forall m :: m in ms ==> Below(m.path)
    ensures var (dm', fm') := Delivered(dm, fm, ms); DirInv(dm') && FdInv(dm', fm', None)
    decreases |ms|
  {
    if ms != [] {
      var p, fd := ms[0].path, ms[0].fd;
      UpdateKeeps(dm, fm, p);
      InsertFdKeeps(Updated(dm, p), fm, p, fd);
      DeliveriesKeepIndex(Updated(dm, p), fm[p := fd], ms[1..]);
    }
  }

  // ----- directories and devices

  /** Every directory was made on the way to some device. */
  ghost predicate Serves(dm: DirMap, fm: FdMap) {
    forall d {:trigger d in dm} :: d in dm ==> exists q :: q in fm && d <= q && d != q
  }

  lemma {:induction false} DeliveriesServe(dm: DirMap, fm: FdMap, ms: seq<Message>)
    requires Serves(dm, fm) && forall m :: m in ms ==> Below(m.path)
    ensures var (dm', fm') := Delivered(dm, fm, ms); Serves(dm', fm')
    decreases |ms|
  {
    if ms != [] {
      var p := ms[0].path;
      var dm1, fm1 := Updated(dm, p), fm[p := ms[0].fd];
      forall d | d in dm1 ensures exists q :: q in fm1 && d <= q && d != q {
        if d in Parents(p) {
          assert p in fm1 && d <= p && d != p;
        } else {
          var q :| q in fm && d <= q && d != q;
          assert q in fm1;
        }
      }
      DeliveriesServe(dm1, fm1, ms[1..]);
    }
  }

  /** Every directory but the base is listed as a directory, and every device as a device. */
  ghost predicate KindsMatch(dm: DirMap, fm: FdMap) {
    && (forall d :: d in dm && d != BASE ==> ListedAs(dm, d, DIR))
    && (forall p :: p in fm ==> ListedAs(dm, p, CHR))
  }

  ghost predicate ListedAs(dm: DirMap, d: Path, kind: Kind) {
    d != [] && Up(d) in dm && Entry(d[|d| - 1], kind) in dm[Up(d)]
  }

  /** No device path leads through another one. */
  ghost predicate PrefixFree(fm: FdMap) {
    forall p, q :: p in fm && q in fm && p <= q ==> p == q
  }

  /** A path is listed once, so not both as a directory and as a device. */
  lemma ListedOnce(dm: DirMap, d: Path)
    requires DirInv(dm) && ListedAs(dm, d, DIR)
    ensures !ListedAs(dm, d, CHR)
  {
    var l, name := dm[Up(d)], d[|d| - 1];
    LessTotal(name, name);
    assert forall i, j :: 0 <= i < |l| && 0 <= j < |l| && l[i].name == name == l[j].name ==> i == j;
  }

  /** A listed path is listed as one of the two. */
  lemma ListedSomehow(dm: DirMap, d: Path)
    requires |d| > |BASE| && Up(d) in dm && Lists(dm[Up(d)], d[|d| - 1])
    ensures ListedAs(dm, d, DIR) || ListedAs(dm, d, CHR)
    ensures Up(d) + [d[|d| - 1]] == d
  {
    var l, name := dm[Up(d)], d[|d| - 1];
    var i :| 0 <= i < |l| && l[i].name == name;
    assert l[i] in l && l[i] == if l[i].kind == DIR then Entry(name, DIR) else Entry(name, CHR);
    assert Up(d) + [name] == d;
  }

  lemma ThroughDevice(dm: DirMap, fm: FdMap, p: Path, q: Path)
    requires DirInv(dm) && FdInv(dm, fm, None) && KindsMatch(dm, fm) && p in fm && q in fm && p <= q
    ensures p == q
  {
    if p != q {
      assert Reachable(dm, p) && Reachable(dm, q) && p == q[..|p|] && p in dm;
      ListedOnce(dm, p);
    }
  }

  lemma DirectoryListed(dm: DirMap, fm: FdMap, d: Path)
    requires DirInv(dm) && FdInv(dm, fm, None) && Serves(dm, fm) && PrefixFree(fm) && d in dm && d != BASE
    ensures ListedAs(dm, d, DIR)
  {
    assert ListedByParent(dm, d);
    ListedSomehow(dm, d);
    var q :| q in fm && d <= q && d != q;
    assert ListedAs(dm, d, CHR) ==> d in fm;
  }

  lemma DeviceListed(dm: DirMap, fm: FdMap, p: Path)
    requires DirInv(dm) && FdInv(dm, fm, None) && Serves(dm, fm) && PrefixFree(fm) && p in fm
    ensures ListedAs(dm, p, CHR)
  {
    assert Reachable(dm, p) && p[..|p| - 1] == Up(p);
    ListedSomehow(dm, p);
    assert ListedAs(dm, p, DIR) ==> p in dm;
  }

  lemma KindsOf(dm: DirMap, fm: FdMap)
    requires DirInv(dm) && FdInv(dm, fm, None) && Serves(dm, fm)
    ensures KindsMatch(dm, fm) <==> PrefixFree(fm)
  {
    if KindsMatch(dm, fm) {
      forall p, q | p in fm && q in fm && p <= q ensures p == q {
        ThroughDevice(dm, fm, p, q);
      }
    } else if PrefixFree(fm) {
      forall d | d in dm && d != BASE ensures ListedAs(dm, d, DIR) {
        DirectoryListed(dm, fm, d);
      }
      forall p | p in fm ensures ListedAs(dm, p, CHR) {
        DeviceListed(dm, fm, p);
      }
    }
  }

  /** The listings tell directories and devices apart exactly when no device path leads through another. */
  lemma KindsExactly(ms: seq<Message>)
    requires forall m :: m in ms ==> Below(m.path)
    ensures var (dm, fm) := Delivered(map[], map[], ms); KindsMatch(dm, fm) <==> PrefixFree(fm)
  {
    DeliveriesKeepIndex(map[], map[], ms);
    DeliveriesServe(map[], map[], ms);
    KindsOf(Delivered(map[], map[], ms).0, Delivered(map[], map[], ms).1);
  }

  // ----- what exactly is listed

  /** Directory `d` is on the way to the device, below or at the base, and `name` comes next. */
  predicate Leads(p: Path, d: Path, name: string) {
    |BASE| <= |d| < |p| && d <= p && p[|d|] == name
  }

  ghost predicate AllSorted(dm: DirMap) {
    forall d :: d in dm ==> Sorted(dm[d])
  }

  lemma UpdatedSorted(dm: DirMap, p: Path)
    requires AllSorted(dm)
    ensures AllSorted(Updated(dm, p))
  {
    forall d | d in Updated(dm, p) ensures Sorted(Updated(dm, p)[d]) {
      if d in Parents(p) && |d| < |p| {
        InsertSorted(Get(dm, d), Link(p, |d|));
      }
    }
  }

  lemma UpdatedLists(dm: DirMap, p: Path, d: Path, name: string)
    requires AllSorted(dm)
    ensures Lists(Get(Updated(dm, p), d), name) <==> Lists(Get(dm, d), name) || Leads(p, d, name)
  {
    if d in Parents(p) {
      InsertLists(Get(dm, d), Link(p, |d|), name);
      assert d <= p;
    }
    if |BASE| <= |d| < |p| && d <= p {
      assert d == p[..|d|] && d in Parents(p);
    }
  }

  lemma {:induction false} DeliveredLists(dm: DirMap, fm: FdMap, ms: seq<Message>, d: Path, name: string)
    requires AllSorted(dm)
    ensures Lists(Get(Delivered(dm, fm, ms).0, d), name) <==>
              Lists(Get(dm, d), name) || exists i :: 0 <= i < |ms| && Leads(ms[i].path, d, name)
    decreases |ms|
  {
    if ms != [] {
      var p := ms[0].path;
      UpdatedSorted(dm, p);
      UpdatedLists(dm, p, d, name);
      DeliveredLists(Updated(dm, p), fm[p := ms[0].fd], ms[1..], d, name);
      assert forall i :: 0 <= i < |ms[1..]| ==> ms[1..][i] == ms[i + 1];
      assert forall i :: 0 < i < |ms| ==> ms[i] == ms[1..][i - 1];
    }
  }

  /** A directory lists exactly the next components of the devices delivered below it. */
  lemma ListingExactly(ms: seq<Message>, d: Path, name: string)
    requires forall m :: m in ms ==> Below(m.path)
    ensures Lists(Get(Delivered(map[], map[], ms).0, d), name) <==>
              exists i :: 0 <= i < |ms| && Leads(ms[i].path, d, name)
  {
    DeliveredLists(map[], map[], ms, d, name);
  }

  lemma {:induction false} UndeliveredUnchanged(dm: DirMap, fm: FdMap, ms: seq<Message>, p: Path)
    requires forall m :: m in ms ==> m.path != p
    ensures var fm' := Delivered(dm, fm, ms).1; (p in fm' <==> p in fm) && (p in fm ==> fm'[p] == fm[p])
    decreases |ms|
  {
    if ms != [] {
      UndeliveredUnchanged(Updated(dm, ms[0].path), fm[ms[0].path := ms[0].fd], ms[1..], p);
    }
  }

  /** The last descriptor sent for a device is the one that opens it. */
  lemma {:induction false} LastDescriptorWins(
    dm: DirMap, fm: FdMap, before: seq<Message>, m: Message, after: seq<Message>)
    requires forall n :: n in after ==> n.path != m.path
    ensures var fm' := Delivered(dm, fm, before + [m] + after).1; m.path in fm' && fm'[m.path] == m.fd
    decreases |before|
  {
    var ms := before + [m] + after;
    if before == [] {
      assert ms[1..] == after;
      UndeliveredUnchanged(Updated(dm, m.path), fm[m.path := m.fd], after, m.path);
    } else {
      assert ms[1..] == before[1..] + [m] + after;
      LastDescriptorWins(Updated(dm, ms[0].path), fm[ms[0].path := ms[0].fd], before[1..], m, after);
    }
  }

  // ----- the climb of update_dir_map

  /** The loop from the ancestor of length `k` upwards, `entry` being what to add to the next one:
      the resulting map, and whether the unwrap of a missing file name panics. */
  function Climb(dm: DirMap, p: Path, k: nat, entry: Entry): (DirMap, bool)
    requires 0 < k <= |p|
    decreases k
  {
    var d := p[..k - 1];
    var dm1 := dm[d := Insert(Get(dm, d), entry)];
    var name := FileName(d);
    if name.None? then (dm1, true)
    else if d == BASE then (dm1, false)
    else Climb(dm1, p, k - 1, Entry(name.value, DIR))
  }

  /** The climb panics unless it meets the base with no ".." on the way. */
  lemma {:induction false} ClimbPanics(dm: DirMap, p: Path, k: nat, entry: Entry)
    requires 0 < k <= |p|
    ensures Climb(dm, p, k, entry).1 <==>
              !(|BASE| < k && BASE <= p && forall i :: |BASE| <= i < k - 1 ==> p[i] != "..")
    decreases k
  {
    var d := p[..k - 1];
    var name := FileName(d);
    if name.Some? && d != BASE {
      ClimbPanics(dm[d := Insert(Get(dm, d), entry)], p, k - 1, Entry(name.value, DIR));
    }
    if |BASE| < k && BASE <= p {
      assert d[..|BASE|] == BASE;
    }
  }

  /** The part of the update done once the loop has handled the ancestors of length `k` and more. */
  ghost function PartlyUpdated(dm: DirMap, p: Path, k: nat): DirMap {
    map d | d in dm.Keys + Parents(p) && (d in dm || |d| >= k) ::
      if d in Parents(p) && k <= |d| < |p| then Insert(Get(dm, d), Link(p, |d|)) else Get(dm, d)
  }

  lemma OnlyParent(p: Path, k: nat, d: Path)
    requires |BASE| <= k < |p|
    ensures d in Parents(p) && |d| == k <==> d == p[..k]
  {
  }

  lemma PartlyUpdatedStep(dm: DirMap, p: Path, k: nat)
    requires BASE <= p && |BASE| <= k < |p|
    ensures var m := PartlyUpdated(dm, p, k + 1);
            PartlyUpdated(dm, p, k) == m[p[..k] := Insert(Get(m, p[..k]), Link(p, k))]
  {
    var m, m' := PartlyUpdated(dm, p, k + 1), PartlyUpdated(dm, p, k);
    OnlyParent(p, k, p[..k]);
    forall d ensures d in m' <==> d in m || d == p[..k] {
      OnlyParent(p, k, d);
    }
    forall d | d in m' ensures m'[d] == if d == p[..k] then Insert(Get(m, p[..k]), Link(p, k)) else m[d] {
      OnlyParent(p, k, d);
    }
  }

  lemma PartlyUpdatedNone(dm: DirMap, p: Path)
    ensures PartlyUpdated(dm, p, |p|) == dm
  {
  }

  lemma PartlyUpdatedAll(dm: DirMap, p: Path)
    requires BASE <= p && |BASE| < |p|
    ensures PartlyUpdated(dm, p, |BASE|) == Updated(dm, p)
  {
  }

  lemma ClimbOn(dm: DirMap, p: Path, k: nat)
    requires Below(p) && |BASE| + 1 < k <= |p|
    ensures p[..k - 1] != BASE && FileName(p[..k - 1]) == Some(p[k - 2])
    ensures Climb(dm, p, k, Link(p, k - 1))
         == Climb(dm[p[..k - 1] := Insert(Get(dm, p[..k - 1]), Link(p, k - 1))], p, k - 1, Link(p, k - 2))
  {
    assert |p[..k - 1]| > |BASE|;
  }

  lemma ClimbStop(dm: DirMap, p: Path)
    requires Below(p)
    ensures Climb(dm, p, |BASE| + 1, Link(p, |BASE|))
         == (dm[p[..|BASE|] := Insert(Get(dm, p[..|BASE|]), Link(p, |BASE|))], false)
  {
    assert p[..|BASE|] == BASE;
  }

  ghost function ClimbFrom(dm: DirMap, p: Path, k: nat): (DirMap, bool)
    requires |BASE| < k <= |p|
  {
    Climb(PartlyUpdated(dm, p, k), p, k, Link(p, k - 1))
  }

  lemma ClimbFromMiddle(dm: DirMap, p: Path, k: nat)
    requires Below(p) && |BASE| + 1 < k <= |p|
    ensures ClimbFrom(dm, p, k) == ClimbFrom(dm, p, k - 1)
  {
    PartlyUpdatedStep(dm, p, k - 1);
    ClimbOn(PartlyUpdated(dm, p, k), p, k);
  }

  lemma ClimbFromLast(dm: DirMap, p: Path)
    requires Below(p)
    ensures ClimbFrom(dm, p, |BASE| + 1) == (Updated(dm, p), false)
  {
    PartlyUpdatedStep(dm, p, |BASE|);
    PartlyUpdatedAll(dm, p);
    ClimbStop(PartlyUpdated(dm, p, |BASE| + 1), p);
  }

  lemma {:induction false} ClimbDown(dm: DirMap, p: Path, k: nat)
    requires Below(p) && |BASE| < k <= |p|
    ensures ClimbFrom(dm, p, k) == ClimbFrom(dm, p, |BASE| + 1)
    decreases k
  {
    if k > |BASE| + 1 {
      ClimbFromMiddle(dm, p, k);
      ClimbDown(dm, p, k - 1);
    }
  }

  lemma ClimbUpdates(dm: DirMap, p: Path)
    requires Below(p)
    ensures ClimbFrom(dm, p, |p|) == (Updated(dm, p), false)
  {
    ClimbDown(dm, p, |p|);
    ClimbFromLast(dm, p);
  }

  /** What `update_dir_map` makes of a path: nothing if it has no file name; otherwise it panics
      exactly when the path is not strictly below the base or has ".." on the way down from it, and
      if it does not panic the map is the updated one. */
  lemma ClimbFromDevice(dm: DirMap, p: Path)
    requires FileName(p).Some?
    ensures var (dm', panicked) := Climb(dm, p, |p|, Link(p, |p| - 1));
            (panicked <==> !Below(p)) && (!panicked ==> dm' == Updated(dm, p))
  {
    ClimbPanics(dm, p, |p|, Link(p, |p| - 1));
    if Below(p) {
      PartlyUpdatedNone(dm, p);
      ClimbUpdates(dm, p);
    }
  }

  // ----- the imperative form

  class DirStream {
    var pos: nat
    const entry: seq<Entry>

    constructor (listing: Listing)
      ensures pos == 0 && entry == listing
    {
      pos, entry := 0, listing;
    }

    /** Each entry of the snapshot once, in order, then None for ever. */
    method ReadDir() returns (r: Option<Entry>)
      modifies this
      ensures r == if old(pos) < |entry| then Some(entry[old(pos)]) else None
      ensures pos == if old(pos) < |entry| then old(pos) + 1 else old(pos)
    {
      var idx := pos;
      if idx < |entry| {
        pos := pos + 1;
        return Some(entry[idx]);
      }
      return None;
    }
  }

  /** A caller that reads until null sees each remaining entry of the snapshot once, in order. */
  method ReadAll(stream: DirStream) returns (all: seq<Entry>)
    requires stream.pos <= |stream.entry|
    modifies stream
    ensures all == stream.entry[old(stream.pos)..] && stream.pos == |stream.entry|
  {
    all := [];
    ghost var start := stream.pos;
    while true
      invariant start <= stream.pos <= |stream.entry|
      invariant all == stream.entry[start..stream.pos]
      decreases |stream.entry| - stream.pos
    {
      var e := stream.ReadDir();
      if e.None? {
        return;
      }
      all := all + [e.value];
    }
  }

  class Index {
    var dirMap: DirMap
    var fdMap: FdMap

    ghost predicate Valid()
      reads this
    {
      DirInv(dirMap) && FdInv(dirMap, fdMap, None)
    }

    constructor ()
      ensures Valid() && dirMap == map[] && fdMap == map[]
    {
      dirMap, fdMap := map[], map[];
    }

    // update_dir_map
    method UpdateDirMap(p: Path) returns (panicked: bool)
      modifies `dirMap
      ensures FileName(p).None? ==> !panicked && dirMap == old(dirMap)
      ensures FileName(p).Some? ==> (panicked <==> !Below(p))
      ensures FileName(p).Some? && !panicked ==> dirMap == Updated(old(dirMap), p)
    {
      var name := FileName(p);
      if name.None? {
        return false;
      }
      ClimbFromDevice(dirMap, p);
      panicked := ClimbUp(p, Entry(name.value, CHR));
    }

    /** The loop: `current.pop()`, then the entry in the map, until the base. */
    method ClimbUp(p: Path, entry: Entry) returns (panicked: bool)
      requires p != []
      modifies `dirMap
      ensures (dirMap, panicked) == Climb(old(dirMap), p, |p|, entry)
    {
      var last := entry;
      var current := p;
      while true
        invariant current != [] && current == p[..|current|]
        invariant Climb(dirMap, p, |current|, last) == Climb(old(dirMap), p, |p|, entry)
        decreases |current|
      {
        current := current[..|current| - 1];
        assert current == p[..|current|];
        dirMap := dirMap[current := Insert(Get(dirMap, current), last)];
        var dirName := FileName(current);
        if dirName.None? {
          return true;
        }
        last := Entry(dirName.value, DIR);
        if current == BASE {
          return false;
        }
      }
    }

    /** opendir on a virtual directory: a snapshot of its listing, from the start; null stands for
        handing the call to libc. */
    method OpenDir(p: Path) returns (stream: DirStream?)
      requires Valid()
      ensures stream == null <==> p !in dirMap
      ensures stream != null ==> fresh(stream) && stream.pos == 0 && stream.entry == dirMap[p] && Sorted(stream.entry)
    {
      if BASE <= p && p in dirMap {
        stream := new DirStream(dirMap[p]);
      } else {
        stream := null;
      }
    }

    /** One message: the directories under the first lock, then the descriptor under the second.
        A panic ends the listener before the descriptor is stored. */
    method Deliver(p: Path, fd: int) returns (panicked: bool)
      requires Valid()
      modifies this
      ensures Below(p) ==> !panicked && Valid()
      ensures Below(p) ==> (dirMap, fdMap) == Delivered(old(dirMap), old(fdMap), [Message(p, fd)])
      ensures panicked <==> FileName(p).Some? && !Below(p)
      ensures fdMap == if panicked then old(fdMap) else old(fdMap)[p := fd]
    {
      panicked := UpdateDirMap(p);
      if panicked {
        return;
      }
      fdMap := fdMap[p := fd];
      if Below(p) {
        assert FileName(p).Some?;
        DeliveriesKeepIndex(old(dirMap), old(fdMap), [Message(p, fd)]);
      }
    }
  }
}
