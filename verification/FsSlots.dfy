/** The endpoint-slot table of the FreeBSD libusb backend and the completion
    drain that fills it. The table functions (`SlotStep`, `Dispatch`, ...) are the
    specification; the methods of `HandlePriv` update the parallel arrays in place
    and are proved to compute them. */
module FsSlots {
  import opened Common

  // FBSD_NFSEP
  const NFSEP := 4

  datatype Errno = EIO | EACCES | ENOENT | ENXIO | ENOMEM | ETIMEDOUT | EBUSY | EOTHER

  datatype LibusbError = IO | ACCESS | NO_DEVICE | NO_MEM | TIMEOUT | BUSY | OTHER

  function FromErrno(e: Errno): (r: LibusbError)
    ensures r == NO_DEVICE <==> e in {ENOENT, ENXIO}
    ensures r == NO_MEM <==> e == ENOMEM
    ensures r == IO <==> e == EIO
    ensures r == ACCESS <==> e == EACCES
    ensures r == TIMEOUT <==> e == ETIMEDOUT
    ensures r == BUSY <==> e == EBUSY
  {
    match e
    case EIO => IO
    case EACCES => ACCESS
    case ENOENT => NO_DEVICE
    case ENXIO => NO_DEVICE
    case ENOMEM => NO_MEM
    case ETIMEDOUT => TIMEOUT
    case EBUSY => BUSY
    case EOTHER => OTHER
  }

  /** One row of the parallel arrays in `handle_priv`. */
  datatype Slot = Slot(
    epNo: uint8,        // bound bEndpointAddress, 0 = free
    bufsize: uint32,    // ep_bufsize
    fstatus: int,       // fsep[i].status, written by the kernel
    plen: uint32,       // frame length, overwritten by the kernel with the actual length
    done: bool,
    cstatus: int,
    cactlen: uint32)

  const FREE: Slot := Slot(0, 0, 0, 0, false, 0, 0)

  type SlotIx = i: nat | i < NFSEP
  type Table = t: seq<Slot> | |t| == NFSEP witness [FREE, FREE, FREE, FREE]

  /** What the kernel holds open: endpoint index to endpoint address and granted size. */
  datatype KernelEp = KernelEp(ep: uint8, bufsize: uint32)
  type Opened = map<nat, KernelEp>

  /** The kernel's answer to USB_FS_OPEN. */
  datatype OpenReply = Granted(maxBufsize: uint32) | Refused(errno: Errno)

  // ----- kernel contracts

  function KClose(k: Opened, i: nat): Opened {
    k - {i}
  }

  // Opening an index that is already open is refused with EBUSY.
  function OpenAnswer(k: Opened, i: nat, reply: OpenReply): OpenReply {
    if i in k then Refused(EBUSY) else reply
  }

  function KOpen(k: Opened, i: nat, ep: uint8, reply: OpenReply): Opened {
    match OpenAnswer(k, i, reply)
    case Granted(size) => k[i := KernelEp(ep, size)]
    case Refused(_) => k
  }

  // ----- _fs_slot

  /** The least index at or after `from` whose row is bound to `ep`. */
  function IndexOf(t: Table, ep: uint8, from: nat := 0): (r: Option<SlotIx>)
    requires from <= NFSEP
    ensures r.Some? ==> from <= r.value && t[r.value].epNo == ep
    ensures r.Some? ==> forall i :: from <= i < r.value ==> t[i].epNo != ep
    ensures r.None? ==> forall i :: from <= i < NFSEP ==> t[i].epNo != ep
    decreases NFSEP - from
  {
    if from == NFSEP then None
    else if t[from].epNo == ep then Some(from)
    else IndexOf(t, ep, from + 1)
  }

  function Clamp(need: uint32, maxBuf: uint32): uint32 {
    Min(Max(need, 1), maxBuf)
  }

  function Distance(a: int, b: int): nat {
    if a < b then b - a else a - b
  }

  /** The size asked of the kernel is a legal one, and of those the nearest to what the caller needs. */
  lemma ClampIsNearest(need: uint32, maxBuf: uint32)
    requires maxBuf >= 1
    ensures 1 <= Clamp(need, maxBuf) <= maxBuf
    ensures forall x :: 1 <= x <= maxBuf && x != Clamp(need, maxBuf) ==>
              Distance(need, Clamp(need, maxBuf)) < Distance(need, x)
  {
    forall x | 1 <= x <= maxBuf && x != Clamp(need, maxBuf)
      ensures Distance(need, Clamp(need, maxBuf)) < Distance(need, x)
    {
      assert need < 1 || need > maxBuf || Clamp(need, maxBuf) == need;
    }
  }

  /** A USB_FS_OPEN. */
  datatype Ask = Ask(index: nat, ep: uint8, size: uint32)

  /** What `_fs_slot` asks of the kernel. */
  function Asks(t: Table, ep: uint8, need: uint32, maxBuf: uint32): seq<Ask> {
    var target := Target(t, ep);
    if target.None? || (t[target.value].epNo == ep && t[target.value].bufsize >= need) then []
    else [Ask(target.value, ep, Clamp(need, maxBuf))]
  }


  /** The slot `_fs_slot` works on: the one bound to `ep`, otherwise the first free one. */
  function Target(t: Table, ep: uint8): (r: Option<SlotIx>)
    ensures r.Some? ==> t[r.value].epNo in {0, ep}
  {
    var held := IndexOf(t, ep);
    if held.Some? then held else IndexOf(t, 0)
  }

  function Unbind(t: Table, i: SlotIx): Table {
    t[i := t[i].(epNo := 0)]
  }

  function Bind(t: Table, i: SlotIx, ep: uint8, size: uint32): Table {
    t[i := t[i].(epNo := ep, bufsize := size)]
  }

  /** Table, kernel and answer after `_fs_slot(ep, need)`. `reply` is what the kernel
      would answer to USB_FS_OPEN. */
  function SlotStep(t: Table, k: Opened, ep: uint8, need: uint32, maxBuf: uint32, reply: OpenReply)
    : (Table, Opened, Result<SlotIx, LibusbError>)
  {
    var target := Target(t, ep);
    if target.None? then (t, k, Err(NO_MEM))
    else
      var i := target.value;
      if t[i].epNo == ep && t[i].bufsize >= need then (t, k, Ok(i))
      else
        var k1 := if t[i].epNo != 0 then KClose(k, i) else k;
        match OpenAnswer(k1, i, reply)
        case Refused(e) => (Unbind(t, i), k1, Err(FromErrno(e)))
        case Granted(size) => (Bind(t, i, ep, size), KOpen(k1, i, ep, reply), Ok(i))
  }

  /** Each endpoint is bound to at most one slot. */
  ghost predicate Distinct(t: Table) {
    forall i, j :: 0 <= i < j < NFSEP && t[i].epNo != 0 ==> t[i].epNo != t[j].epNo
  }

  /** A slot is bound exactly when the kernel has its index open, to the same endpoint and size. */
  ghost predicate Mirrors(t: Table, k: Opened) {
    && (forall i :: i in k ==> i < NFSEP)
    && (forall i :: 0 <= i < NFSEP ==> (t[i].epNo != 0 <==> i in k))
    && (forall i :: i in k ==> k[i] == KernelEp(t[i].epNo, t[i].bufsize))
  }

  ghost predicate Sized(t: Table) {
    forall i :: 0 <= i < NFSEP && t[i].epNo != 0 ==> t[i].bufsize >= 1
  }

  ghost predicate SlotInv(t: Table, k: Opened) {
    Distinct(t) && Mirrors(t, k) && Sized(t)
  }

  /** USB_FS_OPEN grants at least the size it was asked for. */
  ghost predicate GrantsAtLeast(reply: OpenReply, want: uint32) {
    reply.Granted? ==> reply.maxBufsize >= want
  }

  ghost predicate Bound(t: Table, ep: uint8) {
    exists i :: 0 <= i < NFSEP && t[i].epNo == ep
  }

  ghost predicate AllHoldOthers(t: Table, ep: uint8) {
    forall i :: 0 <= i < NFSEP ==> t[i].epNo != 0 && t[i].epNo != ep
  }

  lemma UnbindKeeps(t: Table, k: Opened, i: SlotIx)
    requires SlotInv(t, k)
    ensures SlotInv(Unbind(t, i), KClose(k, i))
  {
  }

  lemma BindKeeps(t: Table, k: Opened, i: SlotIx, ep: uint8, size: uint32)
    requires SlotInv(t, k) && ep != 0 && size >= 1
    requires t[i].epNo in {0, ep} && forall j :: 0 <= j < NFSEP && j != i ==> t[j].epNo != ep
    ensures SlotInv(Bind(t, i, ep, size), k[i := KernelEp(ep, size)])
  {
  }

  /** The table keeps mirroring the kernel, also after a failed reopen, and success returns a slot
      bound to `ep` that is big enough. */
  lemma SlotStepKeepsMirror(t: Table, k: Opened, ep: uint8, need: uint32, maxBuf: uint32, reply: OpenReply)
    requires SlotInv(t, k) && ep != 0 && maxBuf >= 1
    requires GrantsAtLeast(reply, Clamp(need, maxBuf))
    ensures var (t', k', r) := SlotStep(t, k, ep, need, maxBuf, reply);
            && SlotInv(t', k')
            && (r.Ok? ==> t'[r.value].epNo == ep && t'[r.value].bufsize >= Clamp(need, maxBuf))
  {
    var target := Target(t, ep);
    if target.Some? && !(t[target.value].epNo == ep && t[target.value].bufsize >= need) {
      var i := target.value;
      UnbindKeeps(t, k, i);
      var k1 := KClose(k, i);
      assert t[i].epNo == 0 ==> k1 == k;
      if reply.Granted? {
        BindKeeps(t, k, i, ep, reply.maxBufsize);
        assert k1[i := KernelEp(ep, reply.maxBufsize)] == k[i := KernelEp(ep, reply.maxBufsize)];
      }
    }
  }

  /** Only the slot worked on changes, only in its binding, and never one that serves another endpoint. */
  lemma SlotStepFrame(t: Table, k: Opened, ep: uint8, need: uint32, maxBuf: uint32, reply: OpenReply, j: SlotIx)
    ensures var (t', k', r) := SlotStep(t, k, ep, need, maxBuf, reply);
            && (t[j].epNo !in {0, ep} ==> t'[j] == t[j])
            && (t[j].epNo != ep && r != Ok(j) ==> t'[j] == t[j])
            && t'[j] == t[j].(epNo := t'[j].epNo, bufsize := t'[j].bufsize)
  {
  }

  /** When `_fs_slot` fails, and what a failure leaves behind. */
  lemma SlotStepFailures(t: Table, k: Opened, ep: uint8, need: uint32, maxBuf: uint32, reply: OpenReply)
    requires SlotInv(t, k) && ep != 0 && maxBuf >= 1
    ensures var (t', k', r) := SlotStep(t, k, ep, need, maxBuf, reply);
            // out of slots is reported exactly when all four hold other endpoints, unless the
            // kernel itself refused an open with ENOMEM
            && (AllHoldOthers(t, ep) ==> r == Err(NO_MEM))
            && (r == Err(NO_MEM) ==> AllHoldOthers(t, ep) || reply == Refused(ENOMEM))
            // the answer is an error exactly when there is no slot, or the kernel was asked and refused
            && (r.Err? <==>
                 || AllHoldOthers(t, ep)
                 || (reply.Refused? && !(exists i :: 0 <= i < NFSEP && t[i].epNo == ep && t[i].bufsize >= need)))
            // and in the second case it is the kernel's error
            && (r.Err? && !AllHoldOthers(t, ep) ==> reply.Refused? && r.error == FromErrno(reply.errno))
            // after an error the endpoint is bound nowhere and only its own kernel entry is gone
            && (r.Err? ==> !Bound(t', ep) && k' == map i | i in k && k[i].ep != ep :: k[i])
            // an endpoint that already had a slot keeps that index
            && (r.Ok? && Bound(t, ep) ==> t[r.value].epNo == ep)
            // and if that slot is big enough nothing is done at all
            && (forall i :: 0 <= i < NFSEP && t[i].epNo == ep && t[i].bufsize >= need ==>
                  t' == t && k' == k && r == Ok(i))
            // a new one gets the first free slot
            && (r.Ok? && !Bound(t, ep) ==> t[r.value].epNo == 0 && forall j :: 0 <= j < r.value ==> t[j].epNo != 0)
  {
    var held := IndexOf(t, ep);
    if held.Some? {
      assert forall i :: i in k && k[i].ep == ep ==> i == held.value;
    }
  }

  /** The kernel is asked unless there is no slot or the bound one is big enough: once, for that slot and
      endpoint, and for the legal size that is nearest to the need. */
  lemma AsksExactly(t: Table, ep: uint8, need: uint32, maxBuf: uint32)
    requires Distinct(t) && ep != 0 && maxBuf >= 1
    ensures var asks := Asks(t, ep, need, maxBuf);
            && (asks == [] <==>
                 AllHoldOthers(t, ep) || exists i :: 0 <= i < NFSEP && t[i].epNo == ep && t[i].bufsize >= need)
            && (asks != [] ==>
                 var a := asks[0];
                 && asks == [a] && a.index < NFSEP && a.ep == ep && t[a.index].epNo in {0, ep}
                 && 1 <= a.size <= maxBuf
                 && forall x :: 1 <= x <= maxBuf && x != a.size ==> Distance(need, a.size) < Distance(need, x))
  {
    ClampIsNearest(need, maxBuf);
  }

  /** With endpoint address 0 the two guarantees above fail: an empty table answers Ok for a slot
      the kernel has not opened, and a granted open leaves the kernel with an endpoint the table
      calls free. */
  lemma EndpointZeroBreaksMirror()
    ensures var t: Table := [FREE, FREE, FREE, FREE];
            && SlotInv(t, map[])
            && SlotStep(t, map[], 0, 0, 1, Granted(1)) == (t, map[], Ok(0))
            && (var (t', k', r) := SlotStep(t, map[], 0, 1, 1, Granted(1)); r == Ok(0) && !Mirrors(t', k'))
  {
    var t: Table := [FREE, FREE, FREE, FREE];
    assert IndexOf(t, 0) == Some(0);
    var (t', k', r) := SlotStep(t, map[], 0, 1, 1, Granted(1));
    assert t'[0].epNo == 0 && 0 in k';
  }

  /** For every endpoint address: the table still mirrors the kernel after the call, except when a call for
      address 0 finds a free slot too small for it and the kernel grants the open; and success is a slot
      that the kernel has open, except when such a call finds a free slot that is big enough. */
  lemma MirrorKeptExactly(t: Table, k: Opened, ep: uint8, need: uint32, maxBuf: uint32, reply: OpenReply)
    requires SlotInv(t, k) && maxBuf >= 1
    requires GrantsAtLeast(reply, Clamp(need, maxBuf))
    ensures var (t', k', r), free := SlotStep(t, k, ep, need, maxBuf, reply), IndexOf(t, 0);
            && (SlotInv(t', k') <==> !(ep == 0 && free.Some? && t[free.value].bufsize < need && reply.Granted?))
            && ((r.Ok? ==> r.value in k') <==> !(ep == 0 && free.Some? && t[free.value].bufsize >= need))
  {
    if ep != 0 {
      SlotStepKeepsMirror(t, k, ep, need, maxBuf, reply);
    } else if IndexOf(t, 0).Some? {
      var i := IndexOf(t, 0).value;
      var (t', k', r) := SlotStep(t, k, 0, need, maxBuf, reply);
      if t[i].bufsize < need && reply.Granted? {
        assert i in k' && t'[i].epNo == 0;
      } else {
        assert t[i].bufsize < need ==> Unbind(t, i) == t;
      }
    }
  }

  // ----- call sequences

  datatype Call = Call(ep: uint8, need: uint32, reply: OpenReply)

  function SlotRun(t: Table, k: Opened, maxBuf: uint32, calls: seq<Call>): (Table, Opened)
    decreases |calls|
  {
    if calls == [] then (t, k)
    else
      var (t1, k1, _) := SlotStep(t, k, calls[0].ep, calls[0].need, maxBuf, calls[0].reply);
      SlotRun(t1, k1, maxBuf, calls[1..])
  }

  /** Any sequence of calls for nonzero endpoints, from the table `fbsd_open` sets up, keeps the
      table distinct and equal to the kernel's view. */
  lemma {:induction false} SlotRunKeepsMirror(t: Table, k: Opened, maxBuf: uint32, calls: seq<Call>)
    requires SlotInv(t, k) && maxBuf >= 1
    requires forall c :: c in calls ==> c.ep != 0 && GrantsAtLeast(c.reply, Clamp(c.need, maxBuf))
    ensures var (t', k') := SlotRun(t, k, maxBuf, calls); SlotInv(t', k')
    decreases |calls|
  {
    if calls != [] {
      var c := calls[0];
      SlotStepKeepsMirror(t, k, c.ep, c.need, maxBuf, c.reply);
      var (t1, k1, _) := SlotStep(t, k, c.ep, c.need, maxBuf, c.reply);
      SlotRunKeepsMirror(t1, k1, maxBuf, calls[1..]);
    }
  }

  // ----- _fs_drain

  /** A completion as USB_FS_COMPLETE hands it over. */
  datatype Completion = Completion(index: nat, status: int, actlen: uint32)

  function Dispatch(t: Table, c: Completion): Table {
    if c.index < NFSEP then
      t[c.index := t[c.index].(fstatus := c.status, plen := c.actlen,
                               done := true, cstatus := c.status, cactlen := c.actlen)]
    else t
  }

  function DispatchAll(t: Table, q: seq<Completion>): Table
    decreases |q|
  {
    if q == [] then t else DispatchAll(Dispatch(t, q[0]), q[1..])
  }

  ghost predicate LastFor(q: seq<Completion>, i: nat, n: nat) {
    && n < |q| && q[n].index == i
    && forall m :: n < m < |q| ==> q[m].index != i
  }

  /** Draining leaves each slot with its own last completion. */
  lemma {:induction false} DrainedSlot(t: Table, q: seq<Completion>, i: SlotIx, n: nat)
    requires LastFor(q, i, n)
    ensures var r := DispatchAll(t, q)[i]; r.done && r.cstatus == q[n].status && r.cactlen == q[n].actlen
    decreases |q|
  {
    if n == 0 {
      assert forall m :: 0 <= m < |q[1..]| ==> q[1..][m] == q[m + 1];
      UndrainedSlot(Dispatch(t, q[0]), q[1..], i);
    } else {
      DrainedSlot(Dispatch(t, q[0]), q[1..], i, n - 1);
    }
  }

  /** A slot without a completion in the queue is left alone, and no binding moves. */
  lemma {:induction false} UndrainedSlot(t: Table, q: seq<Completion>, i: SlotIx)
    ensures var r := DispatchAll(t, q)[i];
            && r.epNo == t[i].epNo && r.bufsize == t[i].bufsize
            && ((forall m :: 0 <= m < |q| ==> q[m].index != i) ==> r == t[i])
    decreases |q|
  {
    if q != [] {
      UndrainedSlot(Dispatch(t, q[0]), q[1..], i);
      assert forall m :: 0 <= m < |q[1..]| ==> q[1..][m] == q[m + 1];
    }
  }

  /** Both cases for one slot. */
  lemma DrainedRow(t: Table, q: seq<Completion>, i: SlotIx)
    ensures var r := DispatchAll(t, q)[i];
            && (forall n: nat :: LastFor(q, i, n) ==> r.done && r.cstatus == q[n].status && r.cactlen == q[n].actlen)
            && ((forall m :: 0 <= m < |q| ==> q[m].index != i) ==> r == t[i])
  {
    forall n: nat | LastFor(q, i, n)
      ensures var r := DispatchAll(t, q)[i]; r.done && r.cstatus == q[n].status && r.cactlen == q[n].actlen
    {
      DrainedSlot(t, q, i, n);
    }
    UndrainedSlot(t, q, i);
  }

  lemma {:induction false} DispatchAppend(t: Table, q: seq<Completion>, c: Completion)
    ensures DispatchAll(t, q + [c]) == Dispatch(DispatchAll(t, q), c)
    decreases |q|
  {
    if q == [] {
      assert q + [c] == [c];
    } else {
      assert (q + [c])[1..] == q[1..] + [c];
      DispatchAppend(Dispatch(t, q[0]), q[1..], c);
    }
  }

  // ----- _sync_gen_transfer, the two critical sections

  /** The slot is set up for a new transfer of `len` bytes. */
  function Prepared(t: Table, i: SlotIx, len: uint32): Table {
    t[i := t[i].(plen := len, done := false, fstatus := 0)]
  }

  function Taken(t: Table, i: SlotIx): Table {
    t[i := t[i].(done := false)]
  }

  /** What a waiting thread returns for a finished slot: the length, or an I/O error. */
  function Report(status: int, actlen: uint32): Result<uint32, LibusbError> {
    if status != 0 then Err(IO) else Ok(actlen)
  }

  /** A transfer that ended with status 0 has succeeded with its length; any other status is an I/O error. */
  ghost predicate Reports(r: Result<uint32, LibusbError>, status: int, actlen: uint32) {
    && (r.Ok? <==> status == 0)
    && (r.Ok? ==> r.value == actlen)
    && (r.Err? ==> r.error == IO)
  }

  // ----- the imperative form

  /** The kernel side of the ugen descriptor. */
  class Ugen {
    var eps: Opened
    var queue: seq<Completion>
    var gone: bool            // an empty queue answers ENXIO instead of EBUSY
    ghost var asked: seq<Ask>
    ghost var starts: seq<nat>

    constructor ()
      ensures eps == map[] && queue == [] && !gone && asked == [] && starts == []
    {
      eps, queue, gone, asked, starts := map[], [], false, [], [];
    }

    // USB_FS_CLOSE
    method CloseEp(i: nat)
      modifies `eps
      ensures eps == KClose(old(eps), i)
    {
      eps := eps - {i};
    }

    // USB_FS_OPEN
    method OpenEp(i: nat, ep: uint8, size: uint32, reply: OpenReply) returns (r: OpenReply)
      modifies `eps, `asked
      ensures r == OpenAnswer(old(eps), i, reply)
      ensures eps == KOpen(old(eps), i, ep, reply)
      ensures asked == old(asked) + [Ask(i, ep, size)]
    {
      asked := asked + [Ask(i, ep, size)];
      r := if i in eps then Refused(EBUSY) else reply;
      if r.Granted? {
        eps := eps[i := KernelEp(ep, r.maxBufsize)];
      }
    }

    // USB_FS_START
    method StartEp(i: nat, reply: Option<Errno>) returns (r: Option<Errno>)
      modifies `starts
      ensures r == reply && starts == old(starts) + [i]
    {
      starts := starts + [i];
      return reply;
    }

    // USB_FS_COMPLETE: hands over the oldest completion
    method Complete() returns (r: Option<Completion>)
      modifies `queue
      ensures r == if old(queue) == [] then None else Some(old(queue)[0])
      ensures queue == if old(queue) == [] then [] else old(queue)[1..]
    {
      if queue == [] {
        return None;
      }
      r := Some(queue[0]);
      queue := queue[1..];
    }
  }

  class HandlePriv {
    const fd: Ugen
    const epNo: array<uint8>
    const epBufsize: array<uint32>
    const fstatus: array<int>
    const plen: array<uint32>
    const done: array<bool>
    const cstatus: array<int>
    const cactlen: array<uint32>

    ghost function Arrays(): set<object> {
      {epNo as object, epBufsize, fstatus, plen, done, cstatus, cactlen}
    }

    ghost predicate Valid()
    {
      && epNo.Length == epBufsize.Length == fstatus.Length == plen.Length == NFSEP
      && done.Length == cstatus.Length == cactlen.Length == NFSEP
      && epBufsize != plen && epBufsize != cactlen && plen != cactlen && fstatus != cstatus
      && epNo as object !in {epBufsize as object, plen, cactlen, fstatus, cstatus, done}
      && fstatus as object !in {epBufsize as object, plen, cactlen, done}
      && cstatus as object !in {epBufsize as object, plen, cactlen, done}
      && done as object !in {epBufsize as object, plen, cactlen}
    }

    ghost function Row(i: SlotIx): Slot
      requires Valid()
      reads Arrays()
    {
      Slot(epNo[i], epBufsize[i], fstatus[i], plen[i], done[i], cstatus[i], cactlen[i])
    }

    ghost function View(): (t: Table)
      requires Valid()
      reads Arrays()
      ensures forall i :: 0 <= i < NFSEP ==> t[i] == Row(i)
    {
      [Row(0), Row(1), Row(2), Row(3)]
    }

    // fbsd_open
    constructor (fd: Ugen)
      ensures Valid() && fresh(Arrays()) && this.fd == fd
      ensures View() == [FREE, FREE, FREE, FREE]
    {
      this.fd := fd;
      var a := new uint8[NFSEP](_ => 0);
      var b := new uint32[NFSEP](_ => 0);
      var c := new int[NFSEP](_ => 0);
      var d := new uint32[NFSEP](_ => 0);
      var e := new bool[NFSEP](_ => false);
      var f := new int[NFSEP](_ => 0);
      var g := new uint32[NFSEP](_ => 0);
      epNo, epBufsize, fstatus, plen, done, cstatus, cactlen := a, b, c, d, e, f, g;
    }

    /** The scan at the head of `_fs_slot`: the slot bound to `ep`, and failing that the first free one. */
    method Scan(ep: uint8) returns (slot: Option<SlotIx>, freeSlot: Option<SlotIx>)
      requires Valid()
      ensures slot == IndexOf(View(), ep)
      ensures slot.None? ==> freeSlot == IndexOf(View(), 0)
    {
      ghost var t := View();
      slot, freeSlot := None, None;
      var i := 0;
      while i < NFSEP && slot.None?
        invariant 0 <= i <= NFSEP
        invariant IndexOf(t, ep) == if slot.Some? then slot else IndexOf(t, ep, i)
        invariant slot.None? ==> IndexOf(t, 0) == if freeSlot.Some? then freeSlot else IndexOf(t, 0, i)
        decreases NFSEP - i, slot.None?
      {
        if epNo[i] == ep {
          slot := Some(i);
        } else {
          if epNo[i] == 0 && freeSlot.None? {
            freeSlot := Some(i);
          }
          i := i + 1;
        }
      }
    }

    // _fs_slot
    method FsSlot(ep: uint8, need: uint32, maxBuf: uint32, reply: OpenReply) returns (r: Result<SlotIx, LibusbError>)
      requires Valid()
      modifies epNo, epBufsize, fd`eps, fd`asked
      ensures (View(), fd.eps, r) == SlotStep(old(View()), old(fd.eps), ep, need, maxBuf, reply)
      ensures fd.asked == old(fd.asked) + Asks(old(View()), ep, need, maxBuf)
    {
      ghost var t := View();
      var slot, freeSlot := Scan(ep);
      if slot.Some? && epBufsize[slot.value] >= need {
        return Ok(slot.value);
      }
      if slot.None? {
        slot := freeSlot;
      }
      if slot.None? {
        return Err(NO_MEM);
      }
      r := Reopen(slot.value, ep, need, maxBuf, reply);
    }

    /** The rest of `_fs_slot`: the slot is freed if it is bound, and opened for `ep`. */
    method Reopen(s: SlotIx, ep: uint8, need: uint32, maxBuf: uint32, reply: OpenReply)
      returns (r: Result<SlotIx, LibusbError>)
      requires Valid()
      modifies epNo, epBufsize, fd`eps, fd`asked
      ensures var t, k := old(View()), old(fd.eps);
              var k1 := if t[s].epNo != 0 then KClose(k, s) else k;
              match OpenAnswer(k1, s, reply)
              case Refused(e) => View() == Unbind(t, s) && fd.eps == k1 && r == Err(FromErrno(e))
              case Granted(size) => View() == Bind(t, s, ep, size) && fd.eps == KOpen(k1, s, ep, reply) && r == Ok(s)
      ensures fd.asked == old(fd.asked) + [Ask(s, ep, Clamp(need, maxBuf))]
    {
      ghost var t := View();
      if epNo[s] != 0 {
        fd.CloseEp(s);
        epNo[s] := 0;
      }
      assert View() == Unbind(t, s);
      var want := need;
      if want == 0 {
        want := 1;
      }
      if want > maxBuf {
        want := maxBuf;
      }
      var answer := fd.OpenEp(s, ep, want, reply);
      if answer.Refused? {
        return Err(FromErrno(answer.errno));
      }
      epNo[s] := ep;
      epBufsize[s] := answer.maxBufsize;
      assert View() == Bind(t, s, ep, answer.maxBufsize);
      return Ok(s);
    }

    /** The body of the drain loop. The first two writes are the kernel's, made while it hands the
        completion over. */
    method Record(c: Completion)
      requires Valid()
      modifies fstatus, plen, done, cstatus, cactlen
      ensures View() == Dispatch(old(View()), c)
    {
      ghost var t := View();
      if c.index < NFSEP {
        fstatus[c.index] := c.status;
        plen[c.index] := c.actlen;

        done[c.index] := true;
        cstatus[c.index] := fstatus[c.index];
        cactlen[c.index] := plen[c.index];
      }
      assert View() == Dispatch(t, c);
    }

    // _fs_drain
    method FsDrain() returns (alive: bool)
      requires Valid()
      modifies fstatus, plen, done, cstatus, cactlen, fd`queue
      ensures View() == DispatchAll(old(View()), old(fd.queue))
      ensures fd.queue == [] && (alive <==> !fd.gone)
    {
      while true
        invariant DispatchAll(View(), fd.queue) == DispatchAll(old(View()), old(fd.queue))
        decreases |fd.queue|
      {
        ghost var t := View();
        var comp := fd.Complete();
        if comp.None? {
          return !fd.gone;
        }
        Record(comp.value);
        assert View() == Dispatch(t, comp.value);
      }
    }

    // _sync_gen_transfer, first critical section; `startReply` is the kernel's answer to USB_FS_START
    method StartTransfer(ep: uint8, length: uint32, maxBuf: uint32, reply: OpenReply, startReply: Option<Errno>)
      returns (r: Result<SlotIx, LibusbError>)
      requires Valid()
      modifies epNo, epBufsize, fstatus, plen, done, fd`eps, fd`asked, fd`starts
      ensures var (t, k, slot) := SlotStep(old(View()), old(fd.eps), ep, length, maxBuf, reply);
              && fd.eps == k
              && (slot.Err? ==> View() == t && r == slot && fd.starts == old(fd.starts))
              && (slot.Ok? ==> View() == Prepared(t, slot.value, length))
              && (slot.Ok? ==> fd.starts == old(fd.starts) + [slot.value])
              && (slot.Ok? ==> r == if startReply.None? then slot else Err(FromErrno(startReply.value)))
      // the transfer is started on the endpoint's slot, with its length and the flag down
      ensures r.Ok? ==> fd.starts == old(fd.starts) + [r.value] && startReply.None?
                        && epNo[r.value] == ep && plen[r.value] == length && !done[r.value]
    {
      r := FsSlot(ep, length, maxBuf, reply);
      if r.Err? {
        return;
      }
      ghost var t := View();
      var slot := r.value;
      plen[slot] := length;
      done[slot] := false;
      fstatus[slot] := 0;
      assert View() == Prepared(t, slot, length);
      assert epNo[slot] == View()[slot].epNo;
      var e := fd.StartEp(slot, startReply);
      if e.Some? {
        r := Err(FromErrno(e.value));
      }
    }

    // _sync_gen_transfer, second critical section, after the drain
    method TakeCompletion(slot: SlotIx) returns (r: Option<Result<uint32, LibusbError>>)
      requires Valid()
      modifies done
      ensures r.Some? <==> old(done[slot])
      ensures r.Some? ==> Reports(r.value, cstatus[slot], cactlen[slot])
      ensures r.Some? ==> r.value == Report(cstatus[slot], cactlen[slot])
      ensures View() == if old(done[slot]) then Taken(old(View()), slot) else old(View())
    {
      if !done[slot] {
        return None;
      }
      ghost var t := View();
      var status, actlen := cstatus[slot], cactlen[slot];
      done[slot] := false;
      assert View() == Taken(t, slot);
      if status != 0 {
        return Some(Err(IO));
      }
      return Some(Ok(actlen));
    }

    /** One round of the wait: `hangup` is what poll reports, `expired` whether the transfer's time is up.
        A thread leaves with the last completion of its slot if there is one; otherwise for its time being up;
        and before that if the device is gone. */
    method PollRound(slot: SlotIx, hangup: bool, expired: bool) returns (r: Option<Result<uint32, LibusbError>>)
      requires Valid()
      modifies fstatus, plen, done, cstatus, cactlen, fd`queue
      ensures hangup || fd.gone ==> r == Some(Err(NO_DEVICE))
      ensures hangup ==> View() == old(View()) && fd.queue == old(fd.queue)
      ensures !hangup ==> fd.queue == []
      ensures !hangup && !fd.gone ==> forall n: nat :: LastFor(old(fd.queue), slot, n) ==>
                r.Some? && Reports(r.value, old(fd.queue)[n].status, old(fd.queue)[n].actlen)
      ensures !hangup && !fd.gone && (forall m :: 0 <= m < |old(fd.queue)| ==> old(fd.queue)[m].index != slot) ==>
                if old(done[slot]) then r.Some? && Reports(r.value, old(cstatus[slot]), old(cactlen[slot]))
                else r == if expired then Some(Err(TIMEOUT)) else None
      ensures !hangup && !fd.gone ==> !done[slot]
    {
      if hangup {
        return Some(Err(NO_DEVICE));
      }
      ghost var t, q := View(), fd.queue;
      var alive := FsDrain();
      if !alive {
        return Some(Err(NO_DEVICE));
      }
      DrainedRow(t, q, slot);
      assert View()[slot] == Row(slot);
      r := TakeCompletion(slot);
      if r.Some? {
        assert !View()[slot].done;
        return;
      }
      if expired {
        return Some(Err(TIMEOUT));
      }
    }

    // fbsd_close closes exactly the indices the table has bound, so a mirrored kernel ends up empty
    method Close()
      requires Valid()
      modifies fd`eps
      ensures fd.eps == map i | i in old(fd.eps) && (i >= NFSEP || epNo[i] == 0) :: old(fd.eps)[i]
      ensures old(Mirrors(View(), fd.eps)) ==> fd.eps == map[]
    {
      ghost var eps0 := fd.eps;
      var i := 0;
      while i < NFSEP
        invariant 0 <= i <= NFSEP
        invariant fd.eps == map n | n in eps0 && (n >= i || epNo[n] == 0) :: eps0[n]
      {
        if epNo[i] != 0 {
          fd.CloseEp(i);
        }
        i := i + 1;
      }
      if Mirrors(View(), eps0) {
        assert forall n :: n in eps0 ==> View()[n].epNo != 0;
        assert fd.eps == map[];
      }
    }
  }
}
