/** Commands as folds: rounds that pass through trees, change the manifest and may stop the command. */
module Commands {
  import opened FileTree
  import M = Manifest

  datatype Store = Store(tree: Tree, entries: seq<M.Entry>)

  /** The trees a round passes through, the manifest it leaves, and whether the command goes on. */
  datatype Effect = Effect(states: seq<Tree>, entries: seq<M.Entry>, ok: bool)

  function After(s: Store, e: Effect): Store {
    Store(Last(s.tree, e.states), e.entries)
  }

  /** One effect after another, unless the first one stopped. */
  function Then(e: Effect, f: Effect): Effect {
    if e.ok then Effect(e.states + f.states, f.entries, f.ok) else e
  }

  /** The rounds in order, up to the first that fails. */
  function Run<X>(f: (Store, X) -> Effect, s: Store, xs: seq<X>): Effect
    decreases |xs|
  {
    if xs == [] then Effect([], s.entries, true)
    else
      var e := f(s, xs[0]);
      Then(e, Run(f, After(s, e), xs[1..]))
  }

  lemma RunHead<X>(f: (Store, X) -> Effect, s: Store, xs: seq<X>)
    requires xs != []
    ensures var e := f(s, xs[0]); Run(f, s, xs) == Then(e, Run(f, After(s, e), xs[1..]))
  {
  }

  lemma NothingFirst(s: Store, f: Effect)
    ensures Then(Effect([], s.entries, true), f) == f && After(s, Effect([], s.entries, true)) == s
  {
  }

  /** The rounds are made one after the other up to the first that fails; what comes after it is not begun. */
  lemma {:induction false} RunStops<X>(f: (Store, X) -> Effect, s: Store, xs: seq<X>) returns (k: nat)
    ensures k <= |xs| && (Run(f, s, xs).ok <==> k == |xs|)
    ensures var before := Run(f, s, xs[..k]);
            && before.ok
            && (k < |xs| ==>
                  var e := f(After(s, before), xs[k]);
                  !e.ok && Run(f, s, xs) == Effect(before.states + e.states, e.entries, false))
    decreases |xs|
  {
    k := 0;
    assert xs[..0] == [];
    if xs != [] {
      var e := f(s, xs[0]);
      RunHead(f, s, xs);
      if e.ok {
        k := RunStops(f, After(s, e), xs[1..]);
        RunFront(f, s, xs, k);
        AfterThen(s, e, Run(f, After(s, e), xs[1..][..k]));
        k := k + 1;
      } else {
        NothingFirst(s, e);
      }
    }
  }

  lemma RunFront<X>(f: (Store, X) -> Effect, s: Store, xs: seq<X>, k: nat)
    requires k < |xs|
    ensures var e := f(s, xs[0]); Run(f, s, xs[..k + 1]) == Then(e, Run(f, After(s, e), xs[1..][..k]))
  {
    assert xs[..k + 1][0] == xs[0] && xs[..k + 1][1..] == xs[1..][..k];
    RunHead(f, s, xs[..k + 1]);
  }

  lemma ThenAssoc(e: Effect, f: Effect, g: Effect)
    ensures Then(e, Then(f, g)) == Then(Then(e, f), g)
  {
    assert e.states + (f.states + g.states) == e.states + f.states + g.states;
  }

  lemma AfterThen(s: Store, e: Effect, f: Effect)
    requires e.ok
    ensures After(s, Then(e, f)) == After(After(s, e), f)
  {
  }

  /** A command in two parts: the second runs only if the first succeeds. */
  lemma {:induction false} RunSplit<X>(f: (Store, X) -> Effect, s: Store, a: seq<X>, b: seq<X>)
    ensures var e := Run(f, s, a); Run(f, s, a + b) == Then(e, Run(f, After(s, e), b))
    decreases |a|
  {
    if a == [] {
      assert a + b == b;
    } else {
      assert (a + b)[0] == a[0] && (a + b)[1..] == a[1..] + b;
      var e := f(s, a[0]);
      var r := Run(f, After(s, e), a[1..]);
      RunSplit(f, After(s, e), a[1..], b);
      ThenAssoc(e, r, Run(f, After(After(s, e), r), b));
      if e.ok {
        AfterThen(s, e, r);
      }
    }
  }

  /** The first `i` rounds are done and the rest of the command is to run from here. */
  ghost predicate Underway<X>(f: (Store, X) -> Effect, s0: Store, s: Store, xs: seq<X>, i: nat, done: Effect) {
    && i <= |xs| && done.ok && s == After(s0, done)
    && Run(f, s0, xs) == Then(done, Run(f, s, xs[i..]))
  }

  lemma UnderwayStart<X>(f: (Store, X) -> Effect, s: Store, xs: seq<X>)
    ensures Underway(f, s, s, xs, 0, Effect([], s.entries, true))
  {
    assert xs[0..] == xs;
  }

  lemma UnderwayStep<X>(f: (Store, X) -> Effect, s0: Store, s: Store, xs: seq<X>, i: nat, done: Effect, e: Effect)
    requires i < |xs| && Underway(f, s0, s, xs, i, done) && e == f(s, xs[i])
    ensures if e.ok then Underway(f, s0, After(s, e), xs, i + 1, Then(done, e)) else Run(f, s0, xs) == Then(done, e)
  {
    assert xs[i..][0] == xs[i] && xs[i..][1..] == xs[i + 1..];
    ThenAssoc(done, e, Run(f, After(s, e), xs[i + 1..]));
    if e.ok {
      AfterThen(s0, done, e);
    }
  }

  lemma UnderwayEnd<X>(f: (Store, X) -> Effect, s0: Store, s: Store, xs: seq<X>, done: Effect)
    requires Underway(f, s0, s, xs, |xs|, done)
    ensures Run(f, s0, xs) == done
  {
    assert xs[|xs|..] == [];
  }

  /** From one tree and trace to another by passing through these states. */
  ghost predicate Did(t: Tree, trace: seq<Tree>, t': Tree, trace': seq<Tree>, states: seq<Tree>) {
    t' == Last(t, states) && trace' == trace + states
  }

  lemma DidThen(t: Tree, trace: seq<Tree>, t1: Tree, trace1: seq<Tree>, t2: Tree, trace2: seq<Tree>,
                a: seq<Tree>, b: seq<Tree>)
    requires Did(t, trace, t1, trace1, a) && Did(t1, trace1, t2, trace2, b)
    ensures Did(t, trace, t2, trace2, a + b)
  {
  }
}
