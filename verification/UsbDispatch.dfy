/** Bulk transfers as a step machine: any number of threads run `_sync_gen_transfer` over one
    descriptor, one completion queue and the shared slot table. Each action is one critical
    section, one ioctl or one kernel event; the table changes are those of module FsSlots. */
module UsbDispatch {
  import opened Common
  import opened FsSlots

  type Tid = nat
  type Id = nat       // transfers are numbered in the order USB_FS_START accepts them

  datatype Outcome = Outcome(status: int, actlen: uint32)

  /** A finished transfer as the kernel queues it for USB_FS_COMPLETE. */
  datatype Entry = Entry(id: Id, slot: SlotIx, o: Outcome)

  /** Where the completion of a started transfer is: not there yet, at position `n` of all
      completions ever queued, behind the done flag of a slot, reported by the `n`-th return, or
      overwritten before anyone reported it. */
  datatype Place = Pending | Queued(n: nat) | Flagged(i: SlotIx) | Consumed(n: nat) | Lost

  /** The history of one started transfer. */
  datatype Transfer = Transfer(slot: SlotIx, owner: Tid, place: Place, outcome: Option<Outcome>)

  /** Where a thread is inside `_sync_gen_transfer`; a thread outside it is not in `busy`. */
  datatype Phase =
    | Starting(ep: uint8, slot: SlotIx)              // holds the lock, slot prepared, before USB_FS_START
    | Waiting(ep: uint8, slot: SlotIx, id: Id)       // between polls, no lock
    | Draining(ep: uint8, slot: SlotIx, id: Id)      // holds the lock, inside _fs_drain
    | Checking(ep: uint8, slot: SlotIx, id: Id)      // holds the lock, USB_FS_COMPLETE answered EBUSY
  {
    predicate HoldsLock() { !Waiting? }
  }

  /** A thread leaving with a result: its own transfer, the completion it was given, and whether
      no thread had abandoned a transfer on that slot. */
  datatype Return = Return(id: Id, got: Id, result: Result<uint32, LibusbError>, clean: bool)

  datatype State = State(
    maxBuf: uint32,
    table: Table,
    eps: Opened,
    lock: Option<Tid>,
    busy: map<Tid, Phase>,
    // the kernel: transfers in flight, and the completion queue, kept as everything ever queued
    // with the number of entries handed over so far
    pending: map<Id, SlotIx>,
    completed: seq<Entry>,
    head: nat,
    // history
    flag: seq<Id>,              // per slot, the transfer whose completion was dispatched to it last
    started: seq<Transfer>,
    tainted: set<SlotIx>,       // slots some thread left by timeout or hangup
    log: seq<Return>)

  datatype Action =
    | Begin(t: Tid, ep: uint8, len: uint32, reply: OpenReply)   // lock, _fs_slot, set up the slot
    | Start(t: Tid, accepted: bool)                             // USB_FS_START, unlock
    | Finish(id: Id, o: Outcome)                                // the kernel completes a transfer
    | Lock(t: Tid)                                              // poll returned, lock
    | DrainOne(t: Tid)                                          // USB_FS_COMPLETE hands one over
    | DrainDone(t: Tid)                                         // USB_FS_COMPLETE answers EBUSY
    | Take(t: Tid)                                              // own slot done: unlock, return
    | Release(t: Tid)                                           // own slot not done: unlock, poll again
    | Abandon(t: Tid)                                           // timeout, hangup or drain error

  function Init(maxBuf: uint32): State {
    State(maxBuf, [FREE, FREE, FREE, FREE], map[], None, map[], map[], [], 0, [0, 0, 0, 0], [], {}, [])
  }

  /** History and table sizes agree; part of the invariant. */
  ghost predicate Shape(s: State) {
    && |s.flag| == NFSEP
    && (forall i: SlotIx :: s.flag[i] < |s.started| || !s.table[i].done)
    && (forall id :: id in s.pending ==> id < |s.started|)
    && (forall n :: 0 <= n < |s.completed| ==> s.completed[n].id < |s.started|)
    && s.head <= |s.completed|
  }

  /** The slot `_fs_slot` closes before reopening it larger. */
  function Reopened(s: State, ep: uint8, len: uint32): (r: Option<SlotIx>)
    ensures r.Some? ==> s.table[r.value].epNo == ep
  {
    var target := Target(s.table, ep);
    if target.Some? && s.table[target.value].epNo == ep && s.table[target.value].bufsize < len then target else None
  }

  function Cancel(started: seq<Transfer>, ids: set<Id>): (r: seq<Transfer>)
    ensures |r| == |started|
    ensures forall id :: 0 <= id < |started| ==>
              r[id] == if id in ids then started[id].(place := Lost) else started[id]
  {
    seq(|started|, id requires 0 <= id < |started| =>
      if id in ids then started[id].(place := Lost) else started[id])
  }

  function Moved(started: seq<Transfer>, id: Id, place: Place): seq<Transfer>
    requires id < |started|
  {
    started[id := started[id].(place := place)]
  }

  /** Clearing or raising a done flag that is already up loses the completion it stands for. */
  function Overwrite(s: State, slot: SlotIx): (r: seq<Transfer>)
    requires Shape(s)
    ensures |r| == |s.started|
  {
    if s.table[slot].done then Moved(s.started, s.flag[slot], Lost) else s.started
  }

  ghost predicate Enabled(s: State, a: Action) {
    match a
    case Begin(t, ep, len, reply) =>
      // one transfer in flight per endpoint
      && s.lock.None? && t !in s.busy && ep != 0
      && (forall u :: u in s.busy ==> s.busy[u].ep != ep)
      && GrantsAtLeast(reply, Clamp(len, s.maxBuf))
    case Start(t, accepted) => t in s.busy && s.busy[t].Starting?
    case Finish(id, o) => id in s.pending
    case Lock(t) => t in s.busy && s.busy[t].Waiting? && s.lock.None?
    case DrainOne(t) => t in s.busy && s.busy[t].Draining? && s.head < |s.completed|
    case DrainDone(t) => t in s.busy && s.busy[t].Draining? && s.head == |s.completed|
    case Take(t) => t in s.busy && s.busy[t].Checking? && s.table[s.busy[t].slot].done
    case Release(t) => t in s.busy && s.busy[t].Checking? && !s.table[s.busy[t].slot].done
    case Abandon(t) => t in s.busy && (s.busy[t].Waiting? || s.busy[t].Draining?)
  }

  /** `_fs_slot`; reopening a slot cancels what the kernel still has in flight on it. */
  function SlotEffect(s: State, ep: uint8, len: uint32, reply: OpenReply): State
    requires Shape(s)
  {
    var (table, eps, _) := SlotStep(s.table, s.eps, ep, len, s.maxBuf, reply);
    var reopened := Reopened(s, ep, len);
    var cancelled := set id | id in s.pending && reopened == Some(s.pending[id]);
    s.(table := table, eps := eps, pending := s.pending - cancelled, started := Cancel(s.started, cancelled))
  }

  /** The slot is set up for a new transfer. */
  function PrepareEffect(s: State, t: Tid, ep: uint8, slot: SlotIx, len: uint32): State
    requires Shape(s)
  {
    Enter(s, t, Starting(ep, slot)).(table := Prepared(s.table, slot, len), started := Overwrite(s, slot))
  }

  function BeginEffect(s: State, t: Tid, ep: uint8, len: uint32, reply: OpenReply): State
    requires Shape(s)
  {
    SlotEffectShape(s, ep, len, reply);
    var s1 := SlotEffect(s, ep, len, reply);
    match SlotStep(s.table, s.eps, ep, len, s.maxBuf, reply).2
    case Err(_) => s1
    case Ok(slot) => PrepareEffect(s1, t, ep, slot, len)
  }

  lemma SlotEffectShape(s: State, ep: uint8, len: uint32, reply: OpenReply)
    requires Shape(s)
    ensures Shape(SlotEffect(s, ep, len, reply))
  {
    forall j: SlotIx ensures SlotEffect(s, ep, len, reply).table[j].done == s.table[j].done {
      SlotStepFrame(s.table, s.eps, ep, len, s.maxBuf, reply, j);
    }
  }

  /** Thread `t` moves to phase `p`, taking or releasing the lock as the phase says. */
  function Enter(s: State, t: Tid, p: Phase): State {
    s.(busy := s.busy[t := p], lock := if p.HoldsLock() then Some(t) else None)
  }

  /** Thread `t` returns, releasing the lock if it has it. */
  function Leave(s: State, t: Tid): State
    requires t in s.busy
  {
    s.(busy := s.busy - {t}, lock := if s.busy[t].HoldsLock() then None else s.lock)
  }

  function StartEffect(s: State, t: Tid, accepted: bool): State
    requires t in s.busy
  {
    var p := s.busy[t];
    if !accepted then Leave(s, t)
    else
      var id := |s.started|;
      Enter(s, t, Waiting(p.ep, p.slot, id)).(
        pending := s.pending[id := p.slot], started := s.started + [Transfer(p.slot, t, Pending, None)])
  }

  function FinishEffect(s: State, id: Id, o: Outcome): State
    requires id in s.pending && id < |s.started|
  {
    s.(pending := s.pending - {id}, completed := s.completed + [Entry(id, s.pending[id], o)],
       started := s.started[id := s.started[id].(place := Queued(|s.completed|), outcome := Some(o))])
  }

  function DrainEffect(s: State): State
    requires s.head < |s.completed| && Shape(s)
  {
    var e := s.completed[s.head];
    s.(table := Dispatch(s.table, Completion(e.slot, e.o.status, e.o.actlen)),
       head := s.head + 1, flag := s.flag[e.slot := e.id],
       started := Moved(Overwrite(s, e.slot), e.id, Flagged(e.slot)))
  }

  function TakeEffect(s: State, t: Tid): State
    requires t in s.busy && s.busy[t].Checking? && Shape(s) && s.table[s.busy[t].slot].done
  {
    var p := s.busy[t];
    var row := s.table[p.slot];
    var got := s.flag[p.slot];
    Leave(s, t).(
       table := Taken(s.table, p.slot),
       started := Moved(s.started, got, Consumed(|s.log|)),
       log := s.log + [Return(p.id, got, Report(row.cstatus, row.cactlen), p.slot !in s.tainted)])
  }

  function LockEffect(s: State, t: Tid): State
    requires t in s.busy && !s.busy[t].Starting?
  {
    Enter(s, t, Draining(s.busy[t].ep, s.busy[t].slot, s.busy[t].id))
  }

  function DrainDoneEffect(s: State, t: Tid): State
    requires t in s.busy && !s.busy[t].Starting?
  {
    Enter(s, t, Checking(s.busy[t].ep, s.busy[t].slot, s.busy[t].id))
  }

  function ReleaseEffect(s: State, t: Tid): State
    requires t in s.busy && !s.busy[t].Starting?
  {
    Enter(s, t, Waiting(s.busy[t].ep, s.busy[t].slot, s.busy[t].id))
  }

  function AbandonEffect(s: State, t: Tid): State
    requires t in s.busy
  {
    Leave(s, t).(tainted := s.tainted + {s.busy[t].slot})
  }

  function Effect(s: State, a: Action): State
    requires Enabled(s, a) && Shape(s)
  {
    match a
    case Begin(t, ep, len, reply) => BeginEffect(s, t, ep, len, reply)
    case Start(t, accepted) => StartEffect(s, t, accepted)
    case Finish(id, o) => FinishEffect(s, id, o)
    case Lock(t) => LockEffect(s, t)
    case DrainOne(t) => DrainEffect(s)
    case DrainDone(t) => DrainDoneEffect(s, t)
    case Take(t) => TakeEffect(s, t)
    case Release(t) => ReleaseEffect(s, t)
    case Abandon(t) => AbandonEffect(s, t)
  }

  // ----- invariant

  /** The lock is held by exactly the thread inside a critical section. */
  ghost predicate LockInv(s: State) {
    && (forall t :: t in s.busy ==> (s.busy[t].HoldsLock() <==> s.lock == Some(t)))
    && (s.lock.Some? ==> s.lock.value in s.busy)
  }

  /** The table mirrors the kernel, and each busy thread has its endpoint's slot to itself. */
  ghost predicate TableInv(s: State) {
    && s.maxBuf >= 1
    && SlotInv(s.table, s.eps)
    && (forall t :: t in s.busy ==> s.busy[t].ep != 0 && s.table[s.busy[t].slot].epNo == s.busy[t].ep)
    && (forall t, u :: t in s.busy && u in s.busy && t != u ==> s.busy[t].ep != s.busy[u].ep)
  }

  /** The kernel's lists, the done flags and the log are one-to-one with the started transfers:
      every started transfer is in exactly one place. */
  ghost predicate KernelInv(s: State)
    requires Shape(s)
  {
    && (forall id :: 0 <= id < |s.started| ==> (s.started[id].place.Pending? <==> id in s.pending))
    && (forall id :: id in s.pending ==> s.pending[id] == s.started[id].slot)
    && (forall n :: s.head <= n < |s.completed| ==> s.started[s.completed[n].id].place == Queued(n))
    && (forall n :: s.head <= n < |s.completed| ==>
          var e := s.completed[n]; e.slot == s.started[e.id].slot && s.started[e.id].outcome == Some(e.o))
    && (forall id :: 0 <= id < |s.started| && s.started[id].place.Queued? ==>
          var n := s.started[id].place.n; s.head <= n < |s.completed| && s.completed[n].id == id)
  }

  ghost predicate FlagInv(s: State)
    requires Shape(s)
  {
    && (forall i: SlotIx :: s.table[i].done ==>
          var f := s.started[s.flag[i]];
          f.place == Flagged(i) && f.slot == i && f.outcome == Some(Outcome(s.table[i].cstatus, s.table[i].cactlen)))
    && (forall id :: 0 <= id < |s.started| && s.started[id].place.Flagged? ==>
          var i := s.started[id].place.i; s.table[i].done && s.flag[i] == id)
  }

  /** The thread was given the completion of its own transfer: it returns success exactly when that ended with
      status 0, with its length, and an I/O error otherwise. */
  ghost predicate OwnResult(s: State, r: Return) {
    && r.got == r.id < |s.started| && s.started[r.id].outcome.Some?
    && Reports(r.result, s.started[r.id].outcome.value.status, s.started[r.id].outcome.value.actlen)
  }

  ghost predicate LogInv(s: State) {
    && (forall n :: 0 <= n < |s.log| ==> s.log[n].got < |s.started| && s.started[s.log[n].got].place == Consumed(n))
    && (forall id :: 0 <= id < |s.started| && s.started[id].place.Consumed? ==>
          var n := s.started[id].place.n; n < |s.log| && s.log[n].got == id)
    && (forall n :: 0 <= n < |s.log| && s.log[n].clean ==> OwnResult(s, s.log[n]))
    && (s.tainted == {} ==> forall n :: 0 <= n < |s.log| ==> s.log[n].clean)
  }

  /** The owner of transfer `id` is still inside the call, waiting for exactly this transfer. */
  ghost predicate Awaited(s: State, id: Id)
    requires id < |s.started|
  {
    && s.started[id].owner in s.busy
    && var p := s.busy[s.started[id].owner];
       !p.Starting? && p.id == id && p.slot == s.started[id].slot
  }

  /** On an untainted slot nothing is in flight but what its thread waits for, and nothing is lost. */
  ghost predicate LiveInv(s: State) {
    && (forall id :: 0 <= id < |s.started| && s.started[id].slot !in s.tainted && !s.started[id].place.Consumed? ==>
          !s.started[id].place.Lost? && Awaited(s, id))
    && (forall t :: t in s.busy && !s.busy[t].Starting? ==> s.busy[t].id < |s.started|)
  }

  ghost predicate Inv(s: State) {
    LockInv(s) && TableInv(s) && Shape(s) && KernelInv(s) && FlagInv(s) && LiveInv(s) && LogInv(s)
  }

  lemma InitInv(maxBuf: uint32)
    requires maxBuf >= 1
    ensures Inv(Init(maxBuf))
  {
  }

  // ----- each action keeps the invariant

  /** The table invariant only looks at bindings. */
  lemma SameBindings(s: State, s': State)
    requires TableInv(s) && s'.maxBuf == s.maxBuf && s'.eps == s.eps
    requires forall i: SlotIx :: s'.table[i].epNo == s.table[i].epNo && s'.table[i].bufsize == s.table[i].bufsize
    requires forall t :: t in s'.busy ==>
               t in s.busy && s'.busy[t].ep == s.busy[t].ep && s'.busy[t].slot == s.busy[t].slot
    ensures TableInv(s')
  {
  }

  /** Steps that touch neither kernel, table, log nor history keep every transfer where it is. */
  lemma SamePlaces(s: State, s': State)
    requires Shape(s) && KernelInv(s) && FlagInv(s) && LogInv(s)
    requires s'.table == s.table && s'.pending == s.pending && s'.completed == s.completed && s'.head == s.head
    requires s'.flag == s.flag && s'.started == s.started && s'.log == s.log && s.tainted <= s'.tainted
    ensures Shape(s') && KernelInv(s') && FlagInv(s') && LogInv(s')
  {
  }

  lemma EnterLive(s: State, t: Tid, p: Phase)
    requires Shape(s) && LockInv(s) && LiveInv(s) && t in s.busy && (s.busy[t].HoldsLock() || s.lock.None?)
    requires !p.Starting? && !s.busy[t].Starting? && p.id == s.busy[t].id && p.slot == s.busy[t].slot
    ensures LockInv(Enter(s, t, p)) && LiveInv(Enter(s, t, p))
  {
  }

  /** A thread between its own critical sections: taking the lock, leaving the drain, releasing. */
  lemma EnterKeeps(s: State, t: Tid, p: Phase)
    requires Inv(s) && t in s.busy && (s.busy[t].HoldsLock() || s.lock.None?)
    requires !p.Starting? && !s.busy[t].Starting?
    requires p.ep == s.busy[t].ep && p.id == s.busy[t].id && p.slot == s.busy[t].slot
    ensures Inv(Enter(s, t, p))
  {
    EnterLive(s, t, p);
    SameBindings(s, Enter(s, t, p));
    SamePlaces(s, Enter(s, t, p));
  }

  lemma LeaveLive(s: State, t: Tid, tainted: set<SlotIx>)
    requires Shape(s) && LockInv(s) && LiveInv(s) && t in s.busy && s.tainted <= tainted
    requires s.busy[t].Starting? || s.busy[t].slot in tainted
    ensures var s' := Leave(s, t).(tainted := tainted); LockInv(s') && LiveInv(s')
  {
  }

  /** A refused start leaves nothing behind; any other early return taints the slot. */
  lemma LeaveKeeps(s: State, t: Tid, tainted: set<SlotIx>)
    requires Inv(s) && t in s.busy && s.tainted <= tainted
    requires s.busy[t].Starting? || s.busy[t].slot in tainted
    ensures Inv(Leave(s, t).(tainted := tainted))
  {
    var s' := Leave(s, t).(tainted := tainted);
    LeaveLive(s, t, tainted);
    SameBindings(s, s');
    SamePlaces(s, s');
  }

  /** On an untainted slot that is free or bound to `ep`, with no busy thread on `ep`, nothing is in flight. */
  lemma QuietSlot(s: State, ep: uint8, id: Id)
    requires Inv(s) && id < |s.started| && s.table[s.started[id].slot].epNo in {0, ep}
    requires forall u :: u in s.busy ==> s.busy[u].ep != ep
    ensures s.started[id].slot in s.tainted || s.started[id].place.Consumed?
  {
  }

  lemma SlotTable(s: State, t: Tid, ep: uint8, len: uint32, reply: OpenReply)
    requires TableInv(s) && Shape(s) && Enabled(s, Begin(t, ep, len, reply))
    ensures TableInv(SlotEffect(s, ep, len, reply))
  {
    SlotStepKeepsMirror(s.table, s.eps, ep, len, s.maxBuf, reply);
    forall u | u in s.busy ensures SlotEffect(s, ep, len, reply).table[s.busy[u].slot] == s.table[s.busy[u].slot] {
      SlotStepFrame(s.table, s.eps, ep, len, s.maxBuf, reply, s.busy[u].slot);
    }
  }

  lemma SlotKernel(s: State, ep: uint8, len: uint32, reply: OpenReply)
    requires Shape(s) && KernelInv(s) && Shape(SlotEffect(s, ep, len, reply))
    ensures KernelInv(SlotEffect(s, ep, len, reply))
  {
  }

  /** Some transfers in flight get lost; flags, queue and log stay. */
  ghost predicate OnlyLosesPending(s: State, s': State) {
    && |s'.started| == |s.started| && s'.flag == s.flag && s'.log == s.log && s'.tainted == s.tainted
    && (forall j: SlotIx ::
          var (r, r') := (s.table[j], s'.table[j]);
          r'.done == r.done && r'.cstatus == r.cstatus && r'.cactlen == r.cactlen)
    && (forall o :: 0 <= o < |s.started| ==>
          s'.started[o] == s.started[o]
          || (s.started[o].place.Pending? && s'.started[o] == s.started[o].(place := Lost)))
  }

  lemma SlotLosesPending(s: State, ep: uint8, len: uint32, reply: OpenReply)
    requires Shape(s) && KernelInv(s)
    ensures OnlyLosesPending(s, SlotEffect(s, ep, len, reply))
  {
    forall j: SlotIx
      ensures var (r, r') := (s.table[j], SlotEffect(s, ep, len, reply).table[j]);
              r'.done == r.done && r'.cstatus == r.cstatus && r'.cactlen == r.cactlen
    {
      SlotStepFrame(s.table, s.eps, ep, len, s.maxBuf, reply, j);
    }
  }

  lemma LossesKeepFlags(s: State, s': State)
    requires Shape(s) && Shape(s') && FlagInv(s) && OnlyLosesPending(s, s')
    ensures FlagInv(s')
  {
  }

  lemma LossesKeepLog(s: State, s': State)
    requires LogInv(s) && OnlyLosesPending(s, s')
    ensures LogInv(s')
  {
  }

  lemma SlotFlags(s: State, ep: uint8, len: uint32, reply: OpenReply)
    requires Shape(s) && KernelInv(s) && FlagInv(s) && LogInv(s) && Shape(SlotEffect(s, ep, len, reply))
    ensures var s' := SlotEffect(s, ep, len, reply); FlagInv(s') && LogInv(s')
  {
    SlotLosesPending(s, ep, len, reply);
    LossesKeepFlags(s, SlotEffect(s, ep, len, reply));
    LossesKeepLog(s, SlotEffect(s, ep, len, reply));
  }

  lemma SlotLive(s: State, t: Tid, ep: uint8, len: uint32, reply: OpenReply)
    requires Inv(s) && Enabled(s, Begin(t, ep, len, reply))
    ensures LiveInv(SlotEffect(s, ep, len, reply))
  {
    var reopened := Reopened(s, ep, len);
    forall id | id in s.pending && reopened == Some(s.pending[id]) ensures s.started[id].slot in s.tainted {
      QuietSlot(s, ep, id);
    }
  }

  lemma SlotKeeps(s: State, t: Tid, ep: uint8, len: uint32, reply: OpenReply)
    requires Inv(s) && Enabled(s, Begin(t, ep, len, reply))
    ensures Inv(SlotEffect(s, ep, len, reply))
  {
    SlotTable(s, t, ep, len, reply);
    SlotEffectShape(s, ep, len, reply);
    SlotKernel(s, ep, len, reply);
    SlotFlags(s, ep, len, reply);
    SlotLive(s, t, ep, len, reply);
  }

  lemma PrepareShape(s: State, t: Tid, ep: uint8, slot: SlotIx, len: uint32)
    requires Shape(s)
    ensures Shape(PrepareEffect(s, t, ep, slot, len))
  {
  }

  lemma PrepareKernel(s: State, t: Tid, ep: uint8, slot: SlotIx, len: uint32)
    requires Shape(s) && KernelInv(s) && FlagInv(s) && Shape(PrepareEffect(s, t, ep, slot, len))
    ensures KernelInv(PrepareEffect(s, t, ep, slot, len))
  {
    assert s.table[slot].done ==> s.started[s.flag[slot]].place == Flagged(slot);
  }

  lemma PrepareFlag(s: State, t: Tid, ep: uint8, slot: SlotIx, len: uint32)
    requires Shape(s) && FlagInv(s) && Shape(PrepareEffect(s, t, ep, slot, len))
    ensures FlagInv(PrepareEffect(s, t, ep, slot, len))
  {
  }

  lemma PrepareLog(s: State, t: Tid, ep: uint8, slot: SlotIx, len: uint32)
    requires Shape(s) && FlagInv(s) && LogInv(s)
    ensures LogInv(PrepareEffect(s, t, ep, slot, len))
  {
  }

  lemma PrepareTable(s: State, t: Tid, ep: uint8, slot: SlotIx, len: uint32)
    requires TableInv(s) && Shape(s) && LockInv(s) && s.lock.None? && t !in s.busy
    requires ep != 0 && s.table[slot].epNo == ep && forall u :: u in s.busy ==> s.busy[u].ep != ep
    ensures var s' := PrepareEffect(s, t, ep, slot, len); TableInv(s') && LockInv(s')
  {
    SameBindings(s, PrepareEffect(s, t, ep, slot, len).(busy := s.busy));
  }

  lemma PrepareLive(s: State, t: Tid, ep: uint8, slot: SlotIx, len: uint32)
    requires Shape(s) && FlagInv(s) && LiveInv(s) && t !in s.busy
    requires s.table[slot].done ==> slot in s.tainted
    ensures LiveInv(PrepareEffect(s, t, ep, slot, len))
  {
  }

  lemma BeginKeeps(s: State, t: Tid, ep: uint8, len: uint32, reply: OpenReply)
    requires Inv(s) && Enabled(s, Begin(t, ep, len, reply))
    ensures Inv(BeginEffect(s, t, ep, len, reply))
  {
    SlotKeeps(s, t, ep, len, reply);
    SlotStepKeepsMirror(s.table, s.eps, ep, len, s.maxBuf, reply);
    var s1 := SlotEffect(s, ep, len, reply);
    var r := SlotStep(s.table, s.eps, ep, len, s.maxBuf, reply).2;
    if r.Ok? {
      if s1.table[r.value].done {
        QuietSlot(s1, ep, s1.flag[r.value]);
      }
      PrepareShape(s1, t, ep, r.value, len);
      PrepareKernel(s1, t, ep, r.value, len);
      PrepareFlag(s1, t, ep, r.value, len);
      PrepareLog(s1, t, ep, r.value, len);
      PrepareTable(s1, t, ep, r.value, len);
      PrepareLive(s1, t, ep, r.value, len);
    }
  }

  lemma StartPlaces(s: State, t: Tid)
    requires Shape(s) && KernelInv(s) && FlagInv(s) && LogInv(s) && Enabled(s, Start(t, true))
    ensures var s' := StartEffect(s, t, true); Shape(s') && KernelInv(s') && FlagInv(s') && LogInv(s')
  {
  }

  lemma StartLive(s: State, t: Tid)
    requires Shape(s) && LockInv(s) && LiveInv(s) && Enabled(s, Start(t, true))
    ensures var s' := StartEffect(s, t, true); LockInv(s') && LiveInv(s')
  {
  }

  lemma StartKeeps(s: State, t: Tid)
    requires Inv(s) && Enabled(s, Start(t, true))
    ensures Inv(StartEffect(s, t, true))
  {
    StartPlaces(s, t);
    StartLive(s, t);
    SameBindings(s, StartEffect(s, t, true));
  }

  lemma FinishKernel(s: State, id: Id, o: Outcome)
    requires Shape(s) && KernelInv(s) && Enabled(s, Finish(id, o))
    ensures var s' := FinishEffect(s, id, o); Shape(s') && KernelInv(s')
  {
  }

  lemma FinishFlags(s: State, id: Id, o: Outcome)
    requires Shape(s) && KernelInv(s) && FlagInv(s) && LogInv(s) && Enabled(s, Finish(id, o))
    requires Shape(FinishEffect(s, id, o))
    ensures var s' := FinishEffect(s, id, o); FlagInv(s') && LogInv(s')
  {
  }

  lemma FinishKeeps(s: State, id: Id, o: Outcome)
    requires Inv(s) && Enabled(s, Finish(id, o))
    ensures Inv(FinishEffect(s, id, o))
  {
    FinishKernel(s, id, o);
    FinishFlags(s, id, o);
    SameBindings(s, FinishEffect(s, id, o));
  }

  lemma DrainShape(s: State)
    requires Shape(s) && s.head < |s.completed|
    ensures Shape(DrainEffect(s))
  {
  }

  /** Where the transfers are after a drain step. */
  lemma DrainPlaces(s: State, id: Id)
    requires Shape(s) && KernelInv(s) && FlagInv(s) && s.head < |s.completed| && id < |s.started|
    ensures var e := s.completed[s.head];
            DrainEffect(s).started[id].place ==
              if id == e.id then Flagged(e.slot)
              else if s.started[id].place == Flagged(e.slot) then Lost
              else s.started[id].place
    ensures var t, t' := s.started[id], DrainEffect(s).started[id]; t'.slot == t.slot && t'.outcome == t.outcome
  {
    var e := s.completed[s.head];
    assert s.started[e.id].place == Queued(s.head);
    assert s.table[e.slot].done ==> s.started[s.flag[e.slot]].place == Flagged(e.slot);
  }

  lemma DrainKernel(s: State)
    requires Shape(s) && KernelInv(s) && FlagInv(s) && s.head < |s.completed| && Shape(DrainEffect(s))
    ensures KernelInv(DrainEffect(s))
  {
    var s' := DrainEffect(s);
    assert s.started[s.completed[s.head].id].place == Queued(s.head);
    forall id | 0 <= id < |s.started|
      ensures var t, t', own := s.started[id], s'.started[id], id == s.completed[s.head].id;
              && (t'.place.Pending? <==> t.place.Pending?)
              && (t'.place.Queued? ==> t'.place == t.place && !own)
              && (t.place.Queued? && !own ==> t'.place == t.place)
              && t'.slot == t.slot && t'.outcome == t.outcome
    {
      DrainPlaces(s, id);
    }
  }

  lemma DrainFlag(s: State)
    requires Shape(s) && KernelInv(s) && FlagInv(s) && s.head < |s.completed| && Shape(DrainEffect(s))
    ensures FlagInv(DrainEffect(s))
  {
  }

  lemma DrainLog(s: State)
    requires Shape(s) && KernelInv(s) && FlagInv(s) && LogInv(s) && s.head < |s.completed|
    ensures LogInv(DrainEffect(s))
  {
  }

  lemma DrainLive(s: State)
    requires Shape(s) && KernelInv(s) && FlagInv(s) && TableInv(s) && LiveInv(s) && s.head < |s.completed|
    ensures LiveInv(DrainEffect(s))
  {
  }

  lemma DrainKeeps(s: State, t: Tid)
    requires Inv(s) && Enabled(s, DrainOne(t))
    ensures Inv(DrainEffect(s))
  {
    DrainShape(s);
    DrainKernel(s);
    DrainFlag(s);
    DrainLog(s);
    DrainLive(s);
    SameBindings(s, DrainEffect(s));
  }

  /** On an untainted slot a raised done flag is the checking thread's own completion. */
  lemma TakeOwn(s: State, t: Tid)
    requires Inv(s) && Enabled(s, Take(t)) && s.busy[t].slot !in s.tainted
    ensures s.flag[s.busy[t].slot] == s.busy[t].id
  {
  }

  lemma TakePlaces(s: State, t: Tid)
    requires Shape(s) && KernelInv(s) && FlagInv(s) && Enabled(s, Take(t))
    ensures var s' := TakeEffect(s, t); Shape(s') && KernelInv(s') && FlagInv(s')
  {
  }

  lemma TakeLog(s: State, t: Tid)
    requires Shape(s) && FlagInv(s) && LogInv(s) && Enabled(s, Take(t))
    requires s.busy[t].slot !in s.tainted ==> s.flag[s.busy[t].slot] == s.busy[t].id
    ensures LogInv(TakeEffect(s, t))
  {
  }

  lemma TakeLive(s: State, t: Tid)
    requires Shape(s) && FlagInv(s) && LockInv(s) && LiveInv(s) && Enabled(s, Take(t))
    requires s.busy[t].slot !in s.tainted ==> s.flag[s.busy[t].slot] == s.busy[t].id
    ensures var s' := TakeEffect(s, t); LockInv(s') && LiveInv(s')
  {
  }

  lemma TakeKeeps(s: State, t: Tid)
    requires Inv(s) && Enabled(s, Take(t))
    ensures Inv(TakeEffect(s, t))
  {
    if s.busy[t].slot !in s.tainted {
      TakeOwn(s, t);
    }
    TakePlaces(s, t);
    TakeLog(s, t);
    TakeLive(s, t);
    SameBindings(s, TakeEffect(s, t));
  }

  lemma EffectKeeps(s: State, a: Action)
    requires Inv(s) && Enabled(s, a)
    ensures Inv(Effect(s, a))
  {
    match a
    case Begin(t, ep, len, reply) => BeginKeeps(s, t, ep, len, reply);
    case Start(t, accepted) =>
      if accepted {
        StartKeeps(s, t);
      } else {
        LeaveKeeps(s, t, s.tainted);
      }
    case Finish(id, o) => FinishKeeps(s, id, o);
    case Lock(t) => EnterKeeps(s, t, Draining(s.busy[t].ep, s.busy[t].slot, s.busy[t].id));
    case DrainOne(t) => DrainKeeps(s, t);
    case DrainDone(t) => EnterKeeps(s, t, Checking(s.busy[t].ep, s.busy[t].slot, s.busy[t].id));
    case Take(t) => TakeKeeps(s, t);
    case Release(t) => EnterKeeps(s, t, Waiting(s.busy[t].ep, s.busy[t].slot, s.busy[t].id));
    case Abandon(t) => LeaveKeeps(s, t, s.tainted + {s.busy[t].slot});
  }

  // ----- whole runs

  /** `s'` is reached from `s` by taking the actions `acts` one after the other. */
  ghost predicate Run(s: State, acts: seq<Action>, s': State)
    decreases |acts|
  {
    if acts == [] then s' == s
    else Shape(s) && Enabled(s, acts[0]) && Run(Effect(s, acts[0]), acts[1..], s')
  }

  lemma OnlyAbandonTaints(s: State, a: Action)
    requires Shape(s) && Enabled(s, a)
    ensures s.tainted <= Effect(s, a).tainted
    ensures !a.Abandon? ==> Effect(s, a).tainted == s.tainted
  {
  }

  lemma {:induction false} RunKeeps(s: State, acts: seq<Action>, s': State)
    requires Inv(s) && Run(s, acts, s')
    ensures Inv(s')
    ensures (forall a :: a in acts ==> !a.Abandon?) ==> s'.tainted == s.tainted
    decreases |acts|
  {
    if acts != [] {
      EffectKeeps(s, acts[0]);
      OnlyAbandonTaints(s, acts[0]);
      RunKeeps(Effect(s, acts[0]), acts[1..], s');
    }
  }

  /** Each return on a slot nobody abandoned hands the thread the completion of its own transfer,
      whichever thread drained it, and each completion is consumed at most once: whatever the
      interleaving. */
  lemma EveryReturnIsOwn(maxBuf: uint32, acts: seq<Action>, s: State)
    requires maxBuf >= 1 && Run(Init(maxBuf), acts, s)
    ensures forall n :: 0 <= n < |s.log| && s.log[n].clean ==> OwnResult(s, s.log[n])
    ensures forall m, n :: 0 <= m < n < |s.log| ==> s.log[m].got != s.log[n].got
    ensures (forall a :: a in acts ==> !a.Abandon?) ==> forall n :: 0 <= n < |s.log| ==> s.log[n].clean
  {
    InitInv(maxBuf);
    RunKeeps(Init(maxBuf), acts, s);
    forall m, n | 0 <= m < n < |s.log| ensures s.log[m].got != s.log[n].got {
      assert s.started[s.log[m].got].place == Consumed(m);
    }
  }

  /** How many of the places `id` is in. */
  ghost function Occurrences(s: State, id: Id): set<Place> {
    (if id in s.pending then {Pending} else {})
    + (set n | s.head <= n < |s.completed| && s.completed[n].id == id :: Queued(n))
    + (set i: SlotIx | i < NFSEP && i < |s.flag| && s.table[i].done && s.flag[i] == id :: Flagged(i))
    + (set n | 0 <= n < |s.log| && s.log[n].got == id :: Consumed(n))
  }

  lemma QueuedOnce(s: State, id: Id)
    requires Shape(s) && KernelInv(s) && id < |s.started|
    ensures var queued := set n | s.head <= n < |s.completed| && s.completed[n].id == id :: Queued(n);
            queued == if s.started[id].place.Queued? then {s.started[id].place} else {}
  {
    assert forall n :: s.head <= n < |s.completed| && s.completed[n].id == id ==> Queued(n) == s.started[id].place;
  }

  lemma LoggedOnce(s: State, id: Id)
    requires LogInv(s) && id < |s.started|
    ensures var logged := set n | 0 <= n < |s.log| && s.log[n].got == id :: Consumed(n);
            logged == if s.started[id].place.Consumed? then {s.started[id].place} else {}
  {
    assert forall n :: 0 <= n < |s.log| && s.log[n].got == id ==> Consumed(n) == s.started[id].place;
  }

  lemma OccurrencesOf(s: State, id: Id)
    requires Shape(s) && KernelInv(s) && FlagInv(s) && LogInv(s)
    ensures Occurrences(s, id) == if id < |s.started| && !s.started[id].place.Lost? then {s.started[id].place} else {}
  {
    if id < |s.started| {
      QueuedOnce(s, id);
      LoggedOnce(s, id);
    }
  }

  /** Conservation: at every moment of a run without timeouts and hangups, every started transfer is
      in exactly one of: in flight in the kernel, one place of the completion queue, one done flag,
      one return. Nothing else is in any of them. */
  lemma StartedIsConserved(maxBuf: uint32, acts: seq<Action>, s: State, id: Id)
    requires maxBuf >= 1 && Run(Init(maxBuf), acts, s)
    requires forall a :: a in acts ==> !a.Abandon?
    ensures Occurrences(s, id) == if id < |s.started| then {s.started[id].place} else {}
  {
    InitInv(maxBuf);
    RunKeeps(Init(maxBuf), acts, s);
    OccurrencesOf(s, id);
  }

  // ----- a run with a timeout

  ghost predicate Step(s: State, a: Action, s': State) {
    Shape(s) && Enabled(s, a) && Effect(s, a) == s'
  }

  /** Consecutive steps make a run. */
  lemma {:induction false} StepsRun(states: seq<State>, acts: seq<Action>)
    requires |states| == |acts| + 1
    requires forall n :: 0 <= n < |acts| ==> Step(states[n], acts[n], states[n + 1])
    ensures Run(states[0], acts, states[|acts|])
    decreases |acts|
  {
    if acts != [] {
      assert Step(states[0], acts[0], states[1]);
      StepsRun(states[1..], acts[1..]);
    }
  }

  const OLD: Outcome := Outcome(0, 7)
  const ROW: Slot := Slot(0x81, 8, 0, 8, false, 0, 0)

  function Snapshot(row: Slot, lock: Option<Tid>, busy: map<Tid, Phase>, pending: map<Id, SlotIx>,
                    completed: seq<Entry>, head: nat, started: seq<Transfer>, tainted: set<SlotIx>): State {
    State(64, [row, FREE, FREE, FREE], map[0 := KernelEp(0x81, 8)], lock, busy, pending, completed, head,
          [0, 0, 0, 0], started, tainted, [])
  }

  /** Thread 1 starts a transfer, the kernel completes it, and thread 1 times out before draining
      it; then thread 2 makes a transfer on the same endpoint. */
  function Stage(n: nat): State {
    var done: Slot := Slot(0x81, 8, 0, 7, true, 0, 7);
    var q := [Entry(0, 0, OLD)];
    var first := Transfer(0, 1, Pending, None);
    var stale := Transfer(0, 1, Queued(0), Some(OLD));
    var own := Transfer(0, 2, Pending, None);
    match n
    case 0 => Init(64)
    case 1 => Snapshot(ROW, Some(1), map[1 := Starting(0x81, 0)], map[], [], 0, [], {})
    case 2 => Snapshot(ROW, None, map[1 := Waiting(0x81, 0, 0)], map[0 := 0], [], 0, [first], {})
    case 3 => Snapshot(ROW, None, map[1 := Waiting(0x81, 0, 0)], map[], q, 0, [stale], {})
    case 4 => Snapshot(ROW, None, map[], map[], q, 0, [stale], {0})
    case 5 => Snapshot(ROW, Some(2), map[2 := Starting(0x81, 0)], map[], q, 0, [stale], {0})
    case 6 => Snapshot(ROW, None, map[2 := Waiting(0x81, 0, 1)], map[1 := 0], q, 0, [stale, own], {0})
    case 7 => Snapshot(ROW, Some(2), map[2 := Draining(0x81, 0, 1)], map[1 := 0], q, 0, [stale, own], {0})
    case 8 => Snapshot(done, Some(2), map[2 := Draining(0x81, 0, 1)], map[1 := 0], q, 1,
                       [stale.(place := Flagged(0)), own], {0})
    case 9 => Snapshot(done, Some(2), map[2 := Checking(0x81, 0, 1)], map[1 := 0], q, 1,
                       [stale.(place := Flagged(0)), own], {0})
    case _ => Snapshot(done.(done := false), None, map[], map[1 := 0], q, 1, [stale.(place := Consumed(0)), own], {0}).(
                log := [Return(1, 0, Ok(7), false)])
  }

  function Act(n: nat): Action {
    match n
    case 0 => Begin(1, 0x81, 8, Granted(8))
    case 1 => Start(1, true)
    case 2 => Finish(0, OLD)
    case 3 => Abandon(1)
    case 4 => Begin(2, 0x81, 8, Granted(8))
    case 5 => Start(2, true)
    case 6 => Lock(2)
    case 7 => DrainOne(2)
    case 8 => DrainDone(2)
    case _ => Take(2)
  }

  lemma FirstBegin()
    ensures Step(Stage(0), Act(0), Stage(1))
  {
    var s := Init(64);
    assert IndexOf(s.table, 0x81).None?;
    assert s.table[0].epNo == 0 && Target(s.table, 0x81) == Some(0);
    var row: Slot := Slot(0x81, 8, 0, 0, false, 0, 0);
    assert SlotEffect(s, 0x81, 8, Granted(8))
        == s.(table := [row, FREE, FREE, FREE], eps := map[0 := KernelEp(0x81, 8)]);
  }

  lemma SecondSlot()
    ensures var s := Stage(4);
            && SlotStep(s.table, s.eps, 0x81, 8, s.maxBuf, Granted(8)) == (s.table, s.eps, Ok(0))
            && SlotEffect(s, 0x81, 8, Granted(8)) == s
  {
    assert Target(Stage(4).table, 0x81) == Some(0);
  }

  lemma SecondPrepare()
    ensures PrepareEffect(Stage(4), 2, 0x81, 0, 8) == Stage(5)
  {
  }

  lemma SecondBegin()
    ensures Step(Stage(4), Act(4), Stage(5))
  {
    SecondSlot();
    SecondPrepare();
  }

  lemma StageStep(n: nat)
    requires n in {1, 2, 3, 5, 6}
    ensures Step(Stage(n), Act(n), Stage(n + 1))
  {
  }

  lemma DrainStage()
    ensures Step(Stage(7), Act(7), Stage(8))
  {
  }

  lemma DrainedStage()
    ensures Step(Stage(8), Act(8), Stage(9))
  {
  }

  lemma TakeStage()
    ensures Step(Stage(9), Act(9), Stage(10))
  {
  }

  lemma EachStage(n: nat)
    requires n < 10
    ensures Step(Stage(n), Act(n), Stage(n + 1))
  {
    match n
    case 0 => FirstBegin();
    case 4 => SecondBegin();
    case 7 => DrainStage();
    case 8 => DrainedStage();
    case 9 => TakeStage();
    case _ => StageStep(n);
  }

  /** Why abandoned slots are set apart: a thread that times out leaves its finished transfer behind,
      and the next thread on that endpoint returns success with the old transfer's length while its
      own transfer is still in flight. */
  lemma TimeoutMisattributes()
    ensures exists acts, s :: Run(Init(64), acts, s)
              && |s.log| == 1 && s.log[0].id == 1 && s.log[0].got == 0 && s.log[0].result == Ok(7)
              && |s.started| == 2 && s.started[1].place.Pending?
  {
    var states := seq(11, n requires 0 <= n => Stage(n));
    var acts := seq(10, n requires 0 <= n => Act(n));
    forall n | 0 <= n < 10 ensures Step(states[n], acts[n], states[n + 1]) {
      EachStage(n);
    }
    StepsRun(states, acts);
    assert Stage(10).log[0] == Return(1, 0, Ok(7), false);
  }
}
