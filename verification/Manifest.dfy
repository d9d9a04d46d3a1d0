/** The installer's manifest: a list of entries that stands for a map from package path to entry. */
module Manifest {
  import opened Common

  datatype Entry = Entry(path: string, version: string, sha256: string, installedAt: string)

  /** The first entry at index `i` or later with this path. */
  function IndexOf(es: seq<Entry>, path: string, i: nat): (r: Option<nat>)
    requires i <= |es|
    ensures match r
            case Some(k) => i <= k < |es| && es[k].path == path && forall j :: i <= j < k ==> es[j].path != path
            case None => forall j :: i <= j < |es| ==> es[j].path != path
    decreases |es| - i
  {
    if i == |es| then None else if es[i].path == path then Some(i) else IndexOf(es, path, i + 1)
  }

  function Added(es: seq<Entry>, e: Entry): seq<Entry> {
    var at := IndexOf(es, e.path, 0);
    if at.Some? then es[at.value := e] else es + [e]
  }

  function Removed(es: seq<Entry>, path: string): seq<Entry> {
    var at := IndexOf(es, path, 0);
    if at.Some? then es[..at.value] + es[at.value + 1..] else es
  }

  /** What `find` sees: for each path the first entry that has it. */
  ghost function AsMap(es: seq<Entry>): map<string, Entry>
    decreases |es|
  {
    if es == [] then map[] else AsMap(es[1..])[es[0].path := es[0]]
  }

  ghost predicate Distinct(es: seq<Entry>) {
    forall i, j :: 0 <= i < j < |es| ==> es[i].path != es[j].path
  }

  lemma {:induction false} FindIsLookup(es: seq<Entry>, path: string)
    ensures var at := IndexOf(es, path, 0);
            (at.Some? <==> path in AsMap(es)) && (at.Some? ==> AsMap(es)[path] == es[at.value])
    decreases |es|
  {
    if es != [] && es[0].path != path {
      FindIsLookup(es[1..], path);
      var at, at' := IndexOf(es, path, 0), IndexOf(es[1..], path, 0);
      if at.Some? {
        assert es[1..][at.value - 1].path == path;
      }
      if at'.Some? {
        assert es[at'.value + 1].path == path;
      }
    }
  }

  /** `add` binds the entry's path in the map and nothing else, whatever the list. */
  lemma AddBinds(es: seq<Entry>, e: Entry)
    ensures AsMap(Added(es, e)) == AsMap(es)[e.path := e]
  {
    forall path
      ensures path in AsMap(Added(es, e)) <==> path == e.path || path in AsMap(es)
      ensures path in AsMap(Added(es, e)) ==>
                AsMap(Added(es, e))[path] == if path == e.path then e else AsMap(es)[path]
    {
      FindIsLookup(es, path);
      FindIsLookup(Added(es, e), path);
      AddKeepsOthers(es, e, path);
    }
  }

  lemma AddKeepsOthers(es: seq<Entry>, e: Entry, path: string)
    ensures var at := IndexOf(Added(es, e), path, 0);
            if path == e.path then at.Some? && Added(es, e)[at.value] == e
            else at == IndexOf(es, path, 0) && (at.Some? ==> Added(es, e)[at.value] == es[at.value])
  {
    var es', at, at' := Added(es, e), IndexOf(es, path, 0), IndexOf(Added(es, e), path, 0);
    var slot := IndexOf(es, e.path, 0);
    assert es'[if slot.Some? then slot.value else |es|] == e;
    assert forall j :: 0 <= j < |es| && es[j].path != e.path ==> es'[j] == es[j];
    assert path != e.path && at.Some? ==> es'[at.value].path == path;
  }

  function Count(es: seq<Entry>, path: string): nat
    decreases |es|
  {
    if es == [] then 0 else (if es[0].path == path then 1 else 0) + Count(es[1..], path)
  }

  lemma RemoveFirst(es: seq<Entry>, path: string)
    requires es != []
    ensures Removed(es, path) == if es[0].path == path then es[1..] else [es[0]] + Removed(es[1..], path)
  {
    var at, at' := IndexOf(es, path, 0), IndexOf(es[1..], path, 0);
    if es[0].path != path {
      if at.Some? {
        assert es[1..][at.value - 1].path == path;
      }
      if at'.Some? {
        assert es[at'.value + 1].path == path;
      }
    }
  }

  lemma {:induction false} RemoveCounts(es: seq<Entry>, path: string)
    ensures Count(Removed(es, path), path) == if Count(es, path) == 0 then 0 else Count(es, path) - 1
    decreases |es|
  {
    if es != [] {
      RemoveFirst(es, path);
      if es[0].path != path {
        RemoveCounts(es[1..], path);
        assert ([es[0]] + Removed(es[1..], path))[1..] == Removed(es[1..], path);
      }
    }
  }

  lemma AsMapCons(e: Entry, es: seq<Entry>)
    ensures AsMap([e] + es) == AsMap(es)[e.path := e]
  {
    assert ([e] + es)[1..] == es;
  }

  lemma {:induction false} RemoveSparesOthers(es: seq<Entry>, path: string)
    ensures AsMap(Removed(es, path)) - {path} == AsMap(es) - {path}
    decreases |es|
  {
    if es != [] {
      RemoveFirst(es, path);
      if es[0].path != path {
        RemoveSparesOthers(es[1..], path);
        AsMapCons(es[0], Removed(es[1..], path));
        UpdateThenDrop(AsMap(es[1..]), AsMap(Removed(es[1..], path)), es[0], path);
      }
    }
  }

  lemma UpdateThenDrop(m: map<string, Entry>, m': map<string, Entry>, e: Entry, path: string)
    requires m - {path} == m' - {path}
    ensures m[e.path := e] - {path} == m'[e.path := e] - {path}
  {
    forall p | p != path ensures (p in m <==> p in m') && (p in m ==> m[p] == m'[p]) {
      assert p in m - {path} <==> p in m' - {path};
    }
  }

  lemma {:induction false} BoundIsCounted(es: seq<Entry>, path: string)
    ensures path in AsMap(es) <==> Count(es, path) > 0
    decreases |es|
  {
    if es != [] {
      BoundIsCounted(es[1..], path);
    }
  }

  /** Removing the first match unbinds the path, and nothing else, exactly when no second entry has it. */
  lemma RemoveUnbindsExactly(es: seq<Entry>, path: string)
    ensures AsMap(Removed(es, path)) == AsMap(es) - {path} <==> Count(es, path) <= 1
  {
    var m := AsMap(Removed(es, path));
    RemoveCounts(es, path);
    RemoveSparesOthers(es, path);
    BoundIsCounted(Removed(es, path), path);
    assert m == m - {path} <==> path !in m;
  }

  lemma {:induction false} DistinctCount(es: seq<Entry>, path: string)
    requires Distinct(es)
    ensures Count(es, path) <= 1
    decreases |es|
  {
    if es != [] {
      DistinctCount(es[1..], path);
      BoundIsCounted(es[1..], path);
      FindIsLookup(es[1..], path);
    }
  }

  lemma AddMembers(es: seq<Entry>, e: Entry, x: Entry)
    requires x in Added(es, e)
    ensures x in es || x == e
  {
    var i :| 0 <= i < |Added(es, e)| && Added(es, e)[i] == x;
    assert i < |es| ==> x == es[i] || x == e;
  }

  /** No entry moves: the new one replaces the old one of its path where that stands, or comes last. */
  lemma AddKeepsPlaces(es: seq<Entry>, e: Entry)
    ensures var es' := Added(es, e);
            && |es| <= |es'| <= |es| + 1 && e in es'
            && (forall i :: 0 <= i < |es| ==> es'[i].path == es[i].path && (es'[i] == es[i] || es'[i] == e))
            && (|es'| > |es| ==> es'[|es|] == e && forall i :: 0 <= i < |es| ==> es[i].path != e.path)
  {
    var at := IndexOf(es, e.path, 0);
    assert Added(es, e)[if at.Some? then at.value else |es|] == e;
  }

  lemma AddKeepsDistinct(es: seq<Entry>, e: Entry)
    requires Distinct(es)
    ensures Distinct(Added(es, e))
  {
  }

  lemma RemoveKeepsDistinct(es: seq<Entry>, path: string)
    requires Distinct(es)
    ensures Distinct(Removed(es, path))
    ensures forall e :: e in Removed(es, path) ==> e in es && e.path != path
  {
    var es', cut := Removed(es, path), IndexOf(es, path, 0);
    if cut.Some? {
      assert forall j :: 0 <= j < |es'| ==> es'[j] == es[if j < cut.value then j else j + 1];
    }
  }

  /** While paths are distinct, `remove` is removal from the map. */
  lemma RemoveUnbinds(es: seq<Entry>, path: string)
    requires Distinct(es)
    ensures AsMap(Removed(es, path)) == AsMap(es) - {path}
  {
    DistinctCount(es, path);
    RemoveUnbindsExactly(es, path);
  }

  class Manifest {
    var entries: seq<Entry>

    constructor (entries: seq<Entry>)
      ensures this.entries == entries
    {
      this.entries := entries;
    }

    method Find(path: string) returns (at: Option<nat>)
      ensures at == IndexOf(entries, path, 0)
    {
      var i := 0;
      while i < |entries|
        invariant 0 <= i <= |entries|
        invariant IndexOf(entries, path, 0) == IndexOf(entries, path, i)
      {
        if entries[i].path == path {
          return Some(i);
        }
        i := i + 1;
      }
      return None;
    }

    method Add(e: Entry)
      modifies this
      ensures entries == Added(old(entries), e)
    {
      var cur := Find(e.path);
      if cur.Some? {
        entries := entries[cur.value := e];
        return;
      }
      entries := entries + [e];
    }

    method Remove(path: string) returns (removed: bool)
      modifies this
      ensures entries == Removed(old(entries), path)
      ensures removed <==> exists i :: 0 <= i < |old(entries)| && old(entries)[i].path == path
    {
      var i := 0;
      while i < |entries|
        invariant 0 <= i <= |entries|
        invariant entries == old(entries)
        invariant IndexOf(entries, path, 0) == IndexOf(entries, path, i)
        invariant forall j :: 0 <= j < i ==> entries[j].path != path
      {
        if entries[i].path == path {
          entries := entries[..i] + entries[i + 1..];
          return true;
        }
        i := i + 1;
      }
      return false;
    }
  }
}
