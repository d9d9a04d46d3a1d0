/** Which file-action lists leave the child able to report, whatever the file system and execve answer:
    a condition on the list, the descriptor table and the two pipe descriptors alone. */
module CmakeReports {
  import opened Common
  import opened Descriptors
  import opened CmakeActions
  import opened CmakeSpawn

  /** The same call with other answers from outside. */
  function WithEnv(c: Config, fs: FileSystem, attrError: Option<Errno>, execError: Option<Errno>): Config {
    c.(fs := fs, attrError := attrError, execError := execError)
  }

  /** The error pipe's descriptor still is the pipe's write end. */
  predicate PipeAt(c: Config, t: Table) {
    c.w in t && t[c.w].file == PipeWrite
  }

  const SOME_FILE: Result<File, Errno> := Ok(Other(0))

  /** From action `n` on, the pipe is in place wherever a step can fail: at every open, at every action that
      fails on this table, and at the end, where execve can fail. */
  predicate Guards(c: Config, t: Table, n: nat)
    requires n <= |c.acts|
    decreases |c.acts| - n
  {
    if n == |c.acts| then PipeAt(c, t)
    else
      (c.acts[n].OpenAct? ==> PipeAt(c, t))
      && match StrictStep(t, c.limit, c.acts[n], SOME_FILE)
         case Failed(t', _) => PipeAt(c, t')
         case Done(t') => Guards(c, t', n + 1)
  }

  // ----- only which descriptors are open, and which is the pipe, matters

  ghost predicate Alike(t: Table, u: Table) {
    && (forall fd :: fd in t <==> fd in u)
    && (forall fd :: fd in t ==> (t[fd].file == PipeWrite <==> u[fd].file == PipeWrite))
  }

  lemma SameLowest(t: Table, u: Table, limit: nat)
    requires Alike(t, u)
    ensures LowestFree(t, limit) == LowestFree(u, limit)
  {
  }

  ghost predicate SameEnd(r: Applied, s: Applied) {
    (r.Done? <==> s.Done?) && Alike(r.t, s.t)
  }

  lemma SameStep(t: Table, u: Table, limit: nat, act: Act, file: File)
    requires Alike(t, u) && file.Other?
    ensures SameEnd(StrictStep(t, limit, act, SOME_FILE), StrictStep(u, limit, act, Ok(file)))
    ensures !act.OpenAct? ==>
              forall o :: StrictStep(u, limit, act, o) == StrictStep(u, limit, act, Ok(file))
  {
    SameLowest(t, u, limit);
  }

  lemma RefusedOpen(u: Table, limit: nat, act: Act, e: Errno)
    requires act.OpenAct?
    ensures var r := StrictStep(u, limit, act, Err(e)); r.Failed? && r.t == u
  {
  }

  // ----- both directions

  /** A guarded list can report in every environment. */
  lemma {:induction false} GuardsReport(c: Config, t: Table, u: Table, n: nat)
    requires OtherFiles(c.fs) && n <= |c.acts| && Guards(c, t, n) && Alike(t, u)
    ensures var fate := FateFrom(c, u, n); fate.Failed? ==> PipeAt(c, fate.t)
    decreases |c.acts| - n
  {
    if n == |c.acts| {
      assert c.acts[n..] == [];
    } else {
      var act, o := c.acts[n], c.acts[n].Answer(c.fs, n);
      FateStep(c, u, n);
      if act.OpenAct? && o.Err? {
        RefusedOpen(u, c.limit, act, o.error);
      } else {
        var file := if o.Ok? then o.value else Other(0);
        SameStep(t, u, c.limit, act, file);
        var r := StrictStep(u, c.limit, act, o);
        assert r == StrictStep(u, c.limit, act, Ok(file));
        if r.Done? {
          GuardsReport(c, StrictStep(t, c.limit, act, SOME_FILE).t, r.t, n + 1);
        }
      }
    }
  }

  const REFUSAL: Errno := 13

  /** Every open succeeds but the one at position `k`. */
  function AllBut(k: nat): FileSystem {
    (n, path, oflag, mode) => if n == k then Err(REFUSAL) else SOME_FILE
  }

  function Hostile(c: Config, k: nat): Config {
    WithEnv(c, AllBut(k), None, Some(REFUSAL))
  }

  /** For any other list some environment makes a step fail that cannot be reported. */
  lemma {:induction false} UnguardedFails(c: Config, t: Table, n: nat) returns (k: nat)
    requires n <= |c.acts| && !Guards(c, t, n)
    ensures k >= n && var fate := FateFrom(Hostile(c, k), t, n); fate.Failed? && !PipeAt(c, fate.t)
    decreases |c.acts| - n
  {
    if n == |c.acts| {
      k := n;
      assert c.acts[n..] == [];
    } else if c.acts[n].OpenAct? && !PipeAt(c, t) {
      k := n;
      RefusedOpen(t, c.limit, c.acts[n], REFUSAL);
      FateStep(Hostile(c, k), t, n);
    } else {
      var r := StrictStep(t, c.limit, c.acts[n], SOME_FILE);
      if r.Done? {
        k := UnguardedFails(c, r.t, n + 1);
      } else {
        k := n + 1;
      }
      FateStep(Hostile(c, k), t, n);
      assert forall path, oflag, mode :: AllBut(k)(n, path, oflag, mode) == SOME_FILE;
    }
  }

  /** The child can report its failure in every environment exactly when the list is guarded; so, by
      SuccessIsHonestExactly, success is honest in every environment exactly for those lists. */
  lemma ReportsExactly(c: Config)
    requires WellFormed(c)
    ensures (forall fs: FileSystem, a: Option<Errno>, x: Option<Errno> {:trigger WithEnv(c, fs, a, x)} ::
               OtherFiles(fs) ==> CanReport(WithEnv(c, fs, a, x)))
       <==> Guards(c, ChildTable(c), 0)
  {
    if Guards(c, ChildTable(c), 0) {
      forall fs: FileSystem, a: Option<Errno>, x: Option<Errno> | OtherFiles(fs)
        ensures CanReport(WithEnv(c, fs, a, x))
      {
        GuardedReports(c, fs, a, x);
      }
    } else {
      var k := UnguardedFails(c, ChildTable(c), 0);
      assert OtherFiles(AllBut(k));
      assert !CanReport(WithEnv(c, AllBut(k), None, Some(REFUSAL)));
    }
  }

  lemma GuardedReports(c: Config, fs: FileSystem, a: Option<Errno>, x: Option<Errno>)
    requires WellFormed(c) && OtherFiles(fs) && Guards(c, ChildTable(c), 0)
    ensures CanReport(WithEnv(c, fs, a, x))
  {
    var c' := WithEnv(c, fs, a, x);
    SameGuards(c, c', ChildTable(c), 0);
    GuardsReport(c', ChildTable(c), ChildTable(c), 0);
  }

  /** The condition does not look at the environment. */
  lemma {:induction false} SameGuards(c: Config, c': Config, t: Table, n: nat)
    requires n <= |c.acts| && c' == WithEnv(c, c'.fs, c'.attrError, c'.execError)
    ensures Guards(c, t, n) <==> Guards(c', t, n)
    decreases |c.acts| - n
  {
    if n < |c.acts| {
      var r := StrictStep(t, c.limit, c.acts[n], SOME_FILE);
      if r.Done? {
        SameGuards(c, c', r.t, n + 1);
      }
    }
  }
}
