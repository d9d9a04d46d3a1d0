/** When a transfer gets its own completion, exactly: whatever happened before and whatever happens next,
    the condition is what the kernel still has for the slot at the moment the transfer is started. */
module UsbAttribution {
  import opened Common
  import opened FsSlots
  import opened UsbDispatch

  // ----- a slot being set up has its flag down

  ghost predicate Ready(s: State) {
    forall t :: t in s.busy && s.busy[t].Starting? ==> !s.table[s.busy[t].slot].done
  }

  lemma ReadySame(s: State, s': State)
    requires Ready(s) && forall i: SlotIx :: s'.table[i].done == s.table[i].done
    requires forall t :: t in s'.busy && s'.busy[t].Starting? ==> t in s.busy && s'.busy[t] == s.busy[t]
    ensures Ready(s')
  {
  }

  /** Nobody is setting up a slot while another thread is inside a critical section, or none is. */
  lemma NoneStarting(s: State, t: Tid)
    requires LockInv(s) && (s.lock.None? || (t in s.busy && s.busy[t].HoldsLock()))
    ensures forall u :: u in s.busy && s.busy[u].Starting? ==> s.lock.Some? && u == t
  {
  }

  lemma ReadyPrepared(s: State, t: Tid, ep: uint8, slot: SlotIx, len: uint32)
    requires Shape(s) && forall u :: u in s.busy ==> !s.busy[u].Starting?
    ensures Ready(PrepareEffect(s, t, ep, slot, len))
  {
  }

  lemma ReadyBegin(s: State, t: Tid, ep: uint8, len: uint32, reply: OpenReply)
    requires Shape(s) && (forall u :: u in s.busy ==> !s.busy[u].Starting?)
    ensures Ready(BeginEffect(s, t, ep, len, reply))
  {
    SlotEffectShape(s, ep, len, reply);
    var r := SlotStep(s.table, s.eps, ep, len, s.maxBuf, reply).2;
    if r.Ok? {
      ReadyPrepared(SlotEffect(s, ep, len, reply), t, ep, r.value, len);
    }
  }

  /** The steps that take nothing from the queue and set nothing up. */
  lemma ReadyAside(s: State, a: Action)
    requires Inv(s) && Ready(s) && Enabled(s, a)
    requires a.Start? || a.Finish? || a.Lock? || a.DrainDone? || a.Release? || a.Abandon?
    ensures Ready(Effect(s, a))
  {
    ReadySame(s, Effect(s, a));
  }

  lemma ReadyKeeps(s: State, a: Action)
    requires Inv(s) && Ready(s) && Enabled(s, a)
    ensures Ready(Effect(s, a))
  {
    match a
    case Begin(t, ep, len, reply) =>
      NoneStarting(s, t);
      ReadyBegin(s, t, ep, len, reply);
    case DrainOne(t) => NoneStarting(s, t);
    case Take(t) => NoneStarting(s, t);
    case _ => ReadyAside(s, a);
  }

  lemma {:induction false} RunReady(s: State, acts: seq<Action>, s': State)
    requires Inv(s) && Ready(s) && Run(s, acts, s')
    ensures Inv(s') && Ready(s')
    decreases |acts|
  {
    if acts != [] {
      EffectKeeps(s, acts[0]);
      ReadyKeeps(s, acts[0]);
      RunReady(Effect(s, acts[0]), acts[1..], s');
    }
  }

  // ----- the condition

  /** The kernel still has an earlier transfer of slot `i`: in flight, or completed and not handed over. */
  ghost predicate Stale(s: State, i: SlotIx) {
    exists o :: 0 <= o < |s.started| && s.started[o].slot == i
             && (s.started[o].place.Pending? || s.started[o].place.Queued?)
  }

  /** Every return since there were `from` of them that was a return of transfer `id` reports its own outcome. */
  ghost predicate OwnSince(s: State, id: Id, from: nat) {
    forall n :: from <= n < |s.log| && s.log[n].id == id ==> OwnResult(s, s.log[n])
  }

  // ----- without stale transfers

  ghost predicate Serves(s: State, t: Tid, id: Id) {
    t in s.busy && !s.busy[t].Starting? && s.busy[t].id == id
  }

  /** Only `t` waits for `id`, on slot `i`. */
  ghost predicate OnlyServer(s: State, t: Tid, i: SlotIx, id: Id) {
    id < |s.started| && forall u :: Serves(s, u, id) ==> u == t && s.busy[u].slot == i
  }

  /** While it does, every other transfer of the slot is over. */
  ghost predicate OthersOver(s: State, t: Tid, i: SlotIx, id: Id) {
    Serves(s, t, id) ==>
      forall o :: 0 <= o < |s.started| && o != id && s.started[o].slot == i ==>
        s.started[o].place.Consumed? || s.started[o].place.Lost?
  }

  ghost predicate Sole(s: State, t: Tid, i: SlotIx, id: Id, from: nat) {
    OnlyServer(s, t, i, id) && OthersOver(s, t, i, id) && from <= |s.log| && OwnSince(s, id, from)
  }

  /** Transfers only get lost. */
  ghost predicate Lessened(p: seq<Transfer>, q: seq<Transfer>) {
    |q| == |p| && forall o :: 0 <= o < |p| ==> q[o] == p[o] || q[o] == p[o].(place := Lost)
  }

  lemma SlotLessens(s: State, ep: uint8, len: uint32, reply: OpenReply)
    ensures Shape(s) ==> var s' := SlotEffect(s, ep, len, reply);
            Lessened(s.started, s'.started) && s'.log == s.log && s'.busy == s.busy
  {
  }

  lemma PrepareLessens(s: State, t: Tid, ep: uint8, slot: SlotIx, len: uint32)
    requires Shape(s)
    ensures var s' := PrepareEffect(s, t, ep, slot, len);
            Lessened(s.started, s'.started) && s'.log == s.log && s'.busy == s.busy[t := Starting(ep, slot)]
  {
  }

  lemma LessenedTwice(p: seq<Transfer>, q: seq<Transfer>, r: seq<Transfer>)
    requires Lessened(p, q) && Lessened(q, r)
    ensures Lessened(p, r)
  {
  }

  lemma BeginLessens(s: State, u: Tid, ep: uint8, len: uint32, reply: OpenReply)
    requires Shape(s)
    ensures var s' := BeginEffect(s, u, ep, len, reply);
            && Lessened(s.started, s'.started) && s'.log == s.log
            && (s'.busy == s.busy || exists p: Phase :: p.Starting? && s'.busy == s.busy[u := p])
  {
    SlotEffectShape(s, ep, len, reply);
    SlotLessens(s, ep, len, reply);
    var s1, r := SlotEffect(s, ep, len, reply), SlotStep(s.table, s.eps, ep, len, s.maxBuf, reply).2;
    if r.Ok? {
      PrepareLessens(s1, u, ep, r.value, len);
      LessenedTwice(s.started, s1.started, PrepareEffect(s1, u, ep, r.value, len).started);
      assert Starting(ep, r.value).Starting?;
    }
  }

  lemma LessenedSole(s: State, s': State, u: Tid, t: Tid, i: SlotIx, id: Id, from: nat)
    requires Sole(s, t, i, id, from) && Lessened(s.started, s'.started) && s'.log == s.log && u !in s.busy
    requires s'.busy == s.busy || exists p: Phase :: p.Starting? && s'.busy == s.busy[u := p]
    ensures Sole(s', t, i, id, from)
  {
    assert forall v :: Serves(s', v, id) ==> Serves(s, v, id) && s'.busy[v] == s.busy[v];
  }

  lemma StartSole(s: State, u: Tid, accepted: bool, t: Tid, i: SlotIx, id: Id, from: nat)
    requires Inv(s) && Enabled(s, Start(u, accepted)) && Sole(s, t, i, id, from)
    ensures Sole(StartEffect(s, u, accepted), t, i, id, from)
  {
  }

  lemma FinishSole(s: State, o: Id, out: Outcome, t: Tid, i: SlotIx, id: Id, from: nat)
    requires Inv(s) && Enabled(s, Finish(o, out)) && Sole(s, t, i, id, from)
    ensures Sole(FinishEffect(s, o, out), t, i, id, from)
  {
    assert s.started[o].place.Pending?;
  }

  lemma DrainSole(s: State, t: Tid, i: SlotIx, id: Id, from: nat)
    requires Inv(s) && s.head < |s.completed| && Sole(s, t, i, id, from)
    ensures Sole(DrainEffect(s), t, i, id, from)
  {
    var e := s.completed[s.head];
    assert s.started[e.id].place == Queued(s.head) && s.started[e.id].slot == e.slot;
    forall o | 0 <= o < |s.started|
      ensures var p, q := s.started[o], DrainEffect(s).started[o];
              && q.slot == p.slot && q.outcome == p.outcome
              && (o != e.id && (p.place.Consumed? || p.place.Lost?) ==> q.place == p.place)
    {
      DrainPlaces(s, o);
    }
  }

  lemma TakeSole(s: State, u: Tid, t: Tid, i: SlotIx, id: Id, from: nat)
    requires Inv(s) && Enabled(s, Take(u)) && Sole(s, t, i, id, from)
    ensures Sole(TakeEffect(s, u), t, i, id, from)
  {
    var f := s.flag[s.busy[u].slot];
    assert s.started[f].place == Flagged(s.busy[u].slot) && s.started[f].slot == s.busy[u].slot;
    if s.busy[u].id == id {
      assert Serves(s, u, id);
      assert f == id;
    }
  }

  lemma MoveSole(s: State, u: Tid, p: Phase, t: Tid, i: SlotIx, id: Id, from: nat)
    requires u in s.busy && !s.busy[u].Starting? && !p.Starting? && p.id == s.busy[u].id && p.slot == s.busy[u].slot
    requires Sole(s, t, i, id, from)
    ensures Sole(Enter(s, u, p), t, i, id, from)
  {
    assert forall v :: Serves(Enter(s, u, p), v, id) <==> Serves(s, v, id);
  }

  lemma LeaveSole(s: State, u: Tid, tainted: set<SlotIx>, t: Tid, i: SlotIx, id: Id, from: nat)
    requires u in s.busy && Sole(s, t, i, id, from)
    ensures Sole(Leave(s, u).(tainted := tainted), t, i, id, from)
  {
    assert forall v :: Serves(Leave(s, u).(tainted := tainted), v, id) ==> Serves(s, v, id);
  }

  lemma SoleKeeps(s: State, a: Action, t: Tid, i: SlotIx, id: Id, from: nat)
    requires Inv(s) && Enabled(s, a) && Sole(s, t, i, id, from)
    ensures Sole(Effect(s, a), t, i, id, from)
  {
    match a
    case Begin(u, ep, len, reply) =>
      BeginLessens(s, u, ep, len, reply);
      LessenedSole(s, BeginEffect(s, u, ep, len, reply), u, t, i, id, from);
    case Start(u, accepted) => StartSole(s, u, accepted, t, i, id, from);
    case Finish(o, out) => FinishSole(s, o, out, t, i, id, from);
    case Lock(u) => MoveSole(s, u, Draining(s.busy[u].ep, s.busy[u].slot, s.busy[u].id), t, i, id, from);
    case DrainOne(u) => DrainSole(s, t, i, id, from);
    case DrainDone(u) => MoveSole(s, u, Checking(s.busy[u].ep, s.busy[u].slot, s.busy[u].id), t, i, id, from);
    case Take(u) => TakeSole(s, u, t, i, id, from);
    case Release(u) => MoveSole(s, u, Waiting(s.busy[u].ep, s.busy[u].slot, s.busy[u].id), t, i, id, from);
    case Abandon(u) => LeaveSole(s, u, s.tainted + {s.busy[u].slot}, t, i, id, from);
  }

  lemma {:induction false} RunSole(s: State, acts: seq<Action>, s': State, t: Tid, i: SlotIx, id: Id, from: nat)
    requires Inv(s) && Sole(s, t, i, id, from) && Run(s, acts, s')
    ensures Sole(s', t, i, id, from)
    decreases |acts|
  {
    if acts != [] {
      EffectKeeps(s, acts[0]);
      SoleKeeps(s, acts[0], t, i, id, from);
      RunSole(Effect(s, acts[0]), acts[1..], s', t, i, id, from);
    }
  }

  lemma FlagIsUp(s: State, o: Id)
    requires Shape(s) && FlagInv(s) && o < |s.started|
    ensures s.started[o].place.Flagged? ==> s.table[s.started[o].slot].done
  {
  }

  /** A transfer started on a slot for which the kernel has nothing else is the only one of its slot. */
  lemma StartedSole(s: State, t: Tid)
    requires Inv(s) && Ready(s) && Enabled(s, Start(t, true)) && !Stale(s, s.busy[t].slot)
    ensures Sole(StartEffect(s, t, true), t, s.busy[t].slot, |s.started|, |s.log|)
  {
    var i := s.busy[t].slot;
    forall o | 0 <= o < |s.started| && s.started[o].slot == i
      ensures s.started[o].place.Consumed? || s.started[o].place.Lost?
    {
      FlagIsUp(s, o);
    }
  }

  // ----- with a stale transfer

  lemma RunCons(s: State, a: Action, acts: seq<Action>, s': State)
    requires Shape(s) && Enabled(s, a) && Run(Effect(s, a), acts, s')
    ensures Run(s, [a] + acts, s')
  {
    assert ([a] + acts)[1..] == acts;
  }

  lemma RunOne(s: State, a: Action)
    requires Shape(s) && Enabled(s, a)
    ensures Run(s, [a], Effect(s, a))
  {
    assert Run(Effect(s, a), [], Effect(s, a));
    RunCons(s, a, [], Effect(s, a));
  }

  /** A thread whose own transfer is still in flight takes a completion that is not its own. */
  lemma TakesOther(s: State, t: Tid)
    requires Inv(s) && Enabled(s, Take(t)) && s.busy[t].id in s.pending
    ensures var s' := TakeEffect(s, t);
            |s'.log| > |s.log| && s'.log[|s.log|].id == s.busy[t].id && s'.log[|s.log|].got != s.busy[t].id
  {
    assert s.started[s.flag[s.busy[t].slot]].place.Flagged? && s.started[s.busy[t].id].place.Pending?;
  }

  lemma OtherTaken(s: State, t: Tid) returns (s': State)
    requires Inv(s) && t in s.busy && s.busy[t].Draining? && s.busy[t].id in s.pending
    requires s.head == |s.completed| && s.table[s.busy[t].slot].done
    ensures Run(s, [DrainDone(t), Take(t)], s') && |s'.log| > |s.log|
    ensures s'.log[|s.log|].id == s.busy[t].id && s'.log[|s.log|].got != s.busy[t].id
  {
    var s1 := DrainDoneEffect(s, t);
    EffectKeeps(s, DrainDone(t));
    TakesOther(s1, t);
    s' := TakeEffect(s1, t);
    RunOne(s1, Take(t));
    RunCons(s, DrainDone(t), [Take(t)], s');
  }

  /** A drain step moves on in the queue and puts the flag of the entry's slot up; it lowers none. */
  lemma DrainShows(s: State, i: SlotIx)
    requires Shape(s) && s.head < |s.completed|
    ensures var s1, e := DrainEffect(s), s.completed[s.head];
            && s1.busy == s.busy && s1.pending == s.pending && s1.completed == s.completed && s1.log == s.log
            && s1.head == s.head + 1 && s1.table[i].done == (s.table[i].done || e.slot == i)
  {
  }

  /** A drain step raises the slot's flag, if it is not up, or leaves the entry that will. */
  lemma DrainRaises(s: State, t: Tid, n: nat)
    requires Inv(s) && t in s.busy && s.busy[t].Draining? && s.busy[t].id in s.pending && s.head < |s.completed|
    requires s.table[s.busy[t].slot].done || (s.head <= n < |s.completed| && s.completed[n].slot == s.busy[t].slot)
    ensures var s1 := DrainEffect(s);
            && Inv(s1) && s1.busy == s.busy && s1.pending == s.pending && s1.completed == s.completed
            && s1.head == s.head + 1 && s1.log == s.log
            && (s1.table[s.busy[t].slot].done
                || (s1.head <= n < |s1.completed| && s1.completed[n].slot == s.busy[t].slot))
  {
    DrainShows(s, s.busy[t].slot);
    DrainKeeps(s, t);
  }

  /** The drain leaves the slot with some other transfer's completion, and the thread takes it. */
  lemma {:induction false} DrainedAndTaken(s: State, t: Tid, n: nat) returns (acts: seq<Action>, s': State)
    requires Inv(s) && t in s.busy && s.busy[t].Draining? && s.busy[t].id in s.pending
    requires s.table[s.busy[t].slot].done || (s.head <= n < |s.completed| && s.completed[n].slot == s.busy[t].slot)
    ensures Run(s, acts, s') && |s'.log| > |s.log|
    ensures s'.log[|s.log|].id == s.busy[t].id && s'.log[|s.log|].got != s.busy[t].id
    decreases |s.completed| - s.head
  {
    if s.head < |s.completed| {
      DrainRaises(s, t, n);
      acts, s' := DrainedAndTaken(DrainEffect(s), t, n);
      RunCons(s, DrainOne(t), acts, s');
      acts := [DrainOne(t)] + acts;
    } else {
      s' := OtherTaken(s, t);
      acts := [DrainDone(t), Take(t)];
    }
  }

  lemma QueuedAndTaken(s: State, t: Tid, n: nat) returns (acts: seq<Action>, s': State)
    requires Inv(s) && t in s.busy && s.busy[t].Waiting? && s.lock.None? && s.busy[t].id in s.pending
    requires s.head <= n < |s.completed| && s.completed[n].slot == s.busy[t].slot
    ensures Run(s, acts, s') && |s'.log| > |s.log|
    ensures s'.log[|s.log|].id == s.busy[t].id && s'.log[|s.log|].got != s.busy[t].id
  {
    var s1 := LockEffect(s, t);
    EffectKeeps(s, Lock(t));
    acts, s' := DrainedAndTaken(s1, t, n);
    RunCons(s, Lock(t), acts, s');
    acts := [Lock(t)] + acts;
  }

  /** With an earlier transfer of the slot still in the kernel some continuation gives its completion to `t`. */
  lemma StaleTaken(s: State, t: Tid, o: Id) returns (acts: seq<Action>, s': State)
    requires Inv(s) && t in s.busy && s.busy[t].Waiting? && s.lock.None? && s.busy[t].id in s.pending
    requires o < |s.started| && o != s.busy[t].id && s.started[o].slot == s.busy[t].slot
    requires s.started[o].place.Pending? || s.started[o].place.Queued?
    ensures Run(s, acts, s') && |s'.log| > |s.log|
    ensures s'.log[|s.log|].id == s.busy[t].id && s'.log[|s.log|].got != s.busy[t].id
  {
    if s.started[o].place.Queued? {
      acts, s' := QueuedAndTaken(s, t, s.started[o].place.n);
    } else {
      var a := Finish(o, Outcome(0, 0));
      EffectKeeps(s, a);
      acts, s' := QueuedAndTaken(FinishEffect(s, o, Outcome(0, 0)), t, |s.completed|);
      RunCons(s, a, acts, s');
      acts := [a] + acts;
    }
  }

  /** What a start adds, and what it leaves. */
  lemma StartAdds(s: State, t: Tid)
    requires Inv(s) && Enabled(s, Start(t, true))
    ensures var s', id := StartEffect(s, t, true), |s.started|;
            && t in s'.busy && s'.busy[t] == Waiting(s.busy[t].ep, s.busy[t].slot, id) && s'.lock.None?
            && id in s'.pending && s'.log == s.log && |s'.started| == id + 1
            && forall o :: 0 <= o < id ==> s'.started[o] == s.started[o]
  {
  }

  lemma StartLosesToStale(s: State, t: Tid) returns (acts: seq<Action>, s': State)
    requires Inv(s) && Enabled(s, Start(t, true)) && Stale(s, s.busy[t].slot)
    ensures Run(StartEffect(s, t, true), acts, s') && !OwnSince(s', |s.started|, |s.log|)
  {
    var o :| 0 <= o < |s.started| && s.started[o].slot == s.busy[t].slot
          && (s.started[o].place.Pending? || s.started[o].place.Queued?);
    EffectKeeps(s, Start(t, true));
    StartAdds(s, t);
    acts, s' := StaleTaken(StartEffect(s, t, true), t, o);
    assert !OwnResult(s', s'.log[|s.log|]);
  }

  // ----- both directions

  /** In every continuation, what returns as transfer `id` reports its own outcome. */
  ghost predicate AlwaysOwn(s: State, id: Id, from: nat) {
    forall acts, s' :: Run(s, acts, s') ==> OwnSince(s', id, from)
  }

  lemma QuietIsOwn(s: State, t: Tid)
    requires Inv(s) && Ready(s) && Enabled(s, Start(t, true)) && !Stale(s, s.busy[t].slot)
    ensures AlwaysOwn(StartEffect(s, t, true), |s.started|, |s.log|)
  {
    var s1 := StartEffect(s, t, true);
    EffectKeeps(s, Start(t, true));
    StartedSole(s, t);
    forall acts, s' | Run(s1, acts, s') ensures OwnSince(s', |s.started|, |s.log|) {
      RunSole(s1, acts, s', t, s.busy[t].slot, |s.started|, |s.log|);
    }
  }

  /** In any reachable state, for any thread about to start its transfer: in every continuation in which
      this call returns with a completion it is that of its own transfer, if and only if the kernel has no
      earlier transfer of the slot in flight or waiting to be handed over. */
  lemma OwnExactlyWhenQuiet(maxBuf: uint32, before: seq<Action>, s: State, t: Tid)
    requires maxBuf >= 1 && Run(Init(maxBuf), before, s) && t in s.busy && s.busy[t].Starting?
    ensures AlwaysOwn(StartEffect(s, t, true), |s.started|, |s.log|) <==> !Stale(s, s.busy[t].slot)
  {
    InitInv(maxBuf);
    RunReady(Init(maxBuf), before, s);
    if Stale(s, s.busy[t].slot) {
      var acts, s' := StartLosesToStale(s, t);
    } else {
      QuietIsOwn(s, t);
    }
  }
}
