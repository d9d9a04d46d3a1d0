/** The file-action interpreter of the NDK shim. It keeps its own node layout, checks descriptors
    when an action is added, and ignores the failures of dup2 after open and of close. The loop
    appears twice in the source, in the child helper and inlined in `posix_spawnp`. */
module NdkActions {
  import opened Common
  import opened ActionList
  import opened Descriptors
  import opened CmakeActions
  import CmakeSpawn

  /** A list node: `fd` is the target of an open or dup2 and the victim of a close. */
  datatype NdkAct = NdkAct(kind: nat, fd: int, srcFd: int, path: string, oflag: nat, mode: nat)
  {
    /** What its open() is answered, as node number `n`. */
    function Answer(fs: FileSystem, n: nat): Result<File, Errno> {
      if kind == OPEN then fs(n, path, oflag, mode) else Err(EBADF)
    }
  }

  const OPEN := 0
  const CLOSE := 1
  const DUP2 := 2

  /** The node the NDK add function builds for the same call. */
  function ToNdk(a: Act): NdkAct {
    match a
    case OpenAct(fd, path, oflag, mode) => NdkAct(OPEN, fd, -1, path, oflag, mode)
    case CloseAct(fd) => NdkAct(CLOSE, fd, -1, "", 0, 0)
    case Dup2Act(fd, newfd) => NdkAct(DUP2, newfd, fd, "", 0, 0)
  }

  function AllToNdk(acts: seq<Act>): (r: seq<NdkAct>)
    ensures |r| == |acts| && forall i :: 0 <= i < |acts| ==> r[i] == ToNdk(acts[i])
  {
    seq(|acts|, i requires 0 <= i < |acts| => ToNdk(acts[i]))
  }

  /** The add functions refuse negative descriptors. */
  predicate Accepted(a: Act) {
    a.fd >= 0 && (a.Dup2Act? ==> a.newfd >= 0)
  }

  /** posix_spawn_file_actions_addopen, -addclose and -adddup2: 0, or -1 with nothing added. */
  method Add(fa: FileActions<NdkAct>, a: Act, outOfMemory: bool) returns (r: int)
    requires fa.Valid()
    modifies fa, fa.nodes
    ensures fa.Valid() && (r == 0 || r == -1)
    ensures r == 0 <==> a.fd >= 0 && (a.Dup2Act? ==> a.newfd >= 0) && !outOfMemory
    ensures fa.Contents() == if r == 0 then old(fa.Contents()) + [ToNdk(a)] else old(fa.Contents())
  {
    if a.fd < 0 || (a.Dup2Act? && a.newfd < 0) {
      return -1;
    }
    var ok := fa.Append(ToNdk(a), outOfMemory);
    return if ok then 0 else -1;
  }

  /** The table afterwards, or None when the child exits. */
  function LenientStep(t: Table, limit: nat, act: NdkAct, outcome: Result<File, Errno>): Option<Table> {
    if act.kind == OPEN then
      var (t1, f) := SysOpen(t, limit, act.oflag, outcome);
      if f.Err? then None
      else if f.value == act.fd then Some(t1)
      else
        var t2 := SysDup2(t1, limit, f.value, act.fd);
        Some((if t2.Ok? then t2.value else t1) - {f.value})
    else if act.kind == CLOSE then
      var t1 := SysClose(t, act.fd);
      Some(if t1.Ok? then t1.value else t)
    else if act.kind == DUP2 then
      var t1 := SysDup2(t, limit, act.srcFd, act.fd);
      if t1.Ok? then Some(t1.value) else None
    else Some(t)
  }

  function LenientRun(t: Table, limit: nat, acts: seq<NdkAct>, n: nat, fs: FileSystem): Option<Table>
    decreases |acts|
  {
    if acts == [] then Some(t)
    else
      var r := LenientStep(t, limit, acts[0], acts[0].Answer(fs, n));
      if r.None? then None else LenientRun(r.value, limit, acts[1..], n + 1, fs)
  }

  /** The child's loop. */
  method ApplyActions(p: Process, fa: FileActions<NdkAct>, fs: FileSystem) returns (ok: bool)
    requires fa.Valid()
    modifies p
    ensures LenientRun(old(p.fds), p.limit, fa.Contents(), 0, fs) == if ok then Some(p.fds) else None
  {
    var n := fa.head;
    var i := 0;     // numbers the questions to the file system
    ghost var acts := fa.Contents();
    assert acts[0..] == acts;
    while n != null
      invariant 0 <= i <= |fa.nodes| && n == if i < |fa.nodes| then fa.nodes[i] else null
      invariant fa.Valid()
      invariant fa.Contents() == acts
      invariant LenientRun(p.fds, p.limit, acts[i..], i, fs) == LenientRun(old(p.fds), p.limit, acts, 0, fs)
      decreases |fa.nodes| - i
    {
      ghost var before := p.fds;
      assert n.next == if i + 1 < |fa.nodes| then fa.nodes[i + 1] else null;
      assert acts[i..][0] == n.act && acts[i..][1..] == acts[i + 1..];
      ok := ApplyOne(p, n.act, fs, i);
      if !ok {
        return false;
      }
      assert LenientRun(before, p.limit, acts[i..], i, fs) == LenientRun(p.fds, p.limit, acts[i + 1..], i + 1, fs);
      n := n.next;
      i := i + 1;
    }
    return true;
  }

  /** One round of the loop; false stands for _exit(127). */
  method ApplyOne(p: Process, act: NdkAct, fs: FileSystem, n: nat) returns (ok: bool)
    modifies p
    ensures ok <==> LenientStep(old(p.fds), p.limit, act, act.Answer(fs, n)).Some?
    ensures ok ==> LenientStep(old(p.fds), p.limit, act, act.Answer(fs, n)) == Some(p.fds)
  {
    if act.kind == OPEN {
      var f := p.Open(act.path, act.oflag, act.mode, fs, n);
      if f.Err? {
        return false;
      }
      if f.value != act.fd {
        var _ := p.Dup2(f.value, act.fd);
        var _ := p.Close(f.value);
      }
    } else if act.kind == CLOSE {
      var _ := p.Close(act.fd);
    } else if act.kind == DUP2 {
      var e := p.Dup2(act.srcFd, act.fd);
      if e.Some? {
        return false;
      }
    }
    return true;
  }

  // ----- the two interpreters

  /** Same descriptor-to-file table, up to the error pipe's descriptor `w`. */
  ghost predicate SameBut(w: nat, strict: Table, lenient: Table) {
    && w in strict && w !in lenient
    && (forall fd :: fd != w ==> (fd in strict <==> fd in lenient))
    && (forall fd :: fd in lenient ==> lenient[fd].file == strict[fd].file)
  }

  /** Both interpreters end up binding the target, whatever scratch descriptor each one got. */
  lemma OpenAgrees(w: nat, strict: Table, lenient: Table, limit: nat, act: Act, outcome: Result<File, Errno>)
    requires SameBut(w, strict, lenient) && act.OpenAct? && act.fd != w
    requires StrictStep(strict, limit, act, outcome).Done?
    ensures var l := LenientStep(lenient, limit, ToNdk(act), outcome);
            l.Some? && SameBut(w, StrictStep(strict, limit, act, outcome).t, l.value)
  {
    var f := LowestFree(strict, limit).value;
    assert f != w && f !in lenient;
    assert LowestFree(lenient, limit).Some?;
  }

  lemma StepAgrees(w: nat, strict: Table, lenient: Table, limit: nat, act: Act, outcome: Result<File, Errno>)
    requires SameBut(w, strict, lenient) && w !in act.Named()
    requires StrictStep(strict, limit, act, outcome).Done?
    ensures var l := LenientStep(lenient, limit, ToNdk(act), outcome);
            l.Some? && SameBut(w, StrictStep(strict, limit, act, outcome).t, l.value)
  {
    if act.OpenAct? {
      OpenAgrees(w, strict, lenient, limit, act, outcome);
    }
  }

  /** Whenever the strict interpreter succeeds, the lenient one succeeds with the same table, up to
      the error pipe and the close-on-exec flags; and its add functions accept every action. */
  lemma {:induction false} LenientAgreesWithStrict(
    w: nat, strict: Table, lenient: Table, limit: nat, acts: seq<Act>, n: nat, fs: FileSystem)
    requires SameBut(w, strict, lenient) && forall a :: a in acts ==> w !in a.Named()
    requires StrictRun(strict, limit, acts, n, fs).Done?
    ensures var l := LenientRun(lenient, limit, AllToNdk(acts), n, fs);
            l.Some? && SameBut(w, StrictRun(strict, limit, acts, n, fs).t, l.value)
    ensures forall a :: a in acts ==> Accepted(a)
    decreases |acts|
  {
    if acts != [] {
      assert acts[0] in acts;
      StepAgrees(w, strict, lenient, limit, acts[0], acts[0].Answer(fs, n));
      var s := StrictStep(strict, limit, acts[0], acts[0].Answer(fs, n)).t;
      var l := LenientStep(lenient, limit, ToNdk(acts[0]), acts[0].Answer(fs, n)).value;
      assert AllToNdk(acts)[1..] == AllToNdk(acts[1..]);
      LenientAgreesWithStrict(w, s, l, limit, acts[1..], n + 1, fs);
      forall a | a in acts ensures Accepted(a) {
        if a != acts[0] {
          assert a in acts[1..];
        }
      }
    }
  }

  /** So for one posix_spawn call that the CMake child gets through, the NDK child of the same call
      starts its program with the same files. */
  lemma SpawnsAgree(c: CmakeSpawn.Config)
    requires CmakeSpawn.WellFormed(c) && CmakeSpawn.LeavesPipeAlone(c) && CmakeSpawn.ChildFate(c).Done?
    ensures var l := LenientRun(c.table, c.limit, AllToNdk(c.acts), 0, c.fs);
            l.Some? && SameBut(c.w, CmakeSpawn.ChildFate(c).t, l.value)
  {
    assert c.acts[0..] == c.acts;
    LenientAgreesWithStrict(c.w, CmakeSpawn.ChildTable(c), c.table, c.limit, c.acts, 0, c.fs);
  }

  /** Closing a descriptor that is not open stops only the strict interpreter. */
  lemma LenientIgnoresClose(t: Table, limit: nat, fd: int, outcome: Result<File, Errno>)
    requires fd !in t
    ensures StrictStep(t, limit, CloseAct(fd), outcome) == Failed(t, EBADF)
    ensures LenientStep(t, limit, ToNdk(CloseAct(fd)), outcome) == Some(t)
  {
  }

  /** What the lenient interpreter makes of any action, judged by the standard's binding: it stops only where
      the open itself or a dup2 action fails, and where it goes on nonetheless nothing has changed. */
  lemma LenientMatchesReference(t: Table, limit: nat, act: Act, outcome: Result<File, Errno>)
    ensures var l, ref := LenientStep(t, limit, ToNdk(act), outcome), RefStep(Files(t), limit, act, outcome);
            && (l.None? <==> match act
                             case OpenAct(_, _, _, _) => Full(t, limit) || outcome.Err?
                             case CloseAct(_) => false
                             case Dup2Act(_, _) => ref.None?)
            && (l.Some? ==> Files(l.value) == if ref.Some? then ref.value else Files(t))
  {
    var l := LenientStep(t, limit, ToNdk(act), outcome);
    match act
    case OpenAct(fd, _, oflag, _) =>
      if l.Some? {
        var f := LowestFree(t, limit).value;
        var (t1, _) := SysOpen(t, limit, oflag, outcome);
        assert t1 - {f} == t;
        assert 0 <= fd < limit ==> Files(l.value) == Files(t)[fd := outcome.value];
      }
    case CloseAct(fd) => assert fd in t ==> Files(t - {fd}) == Files(t) - {fd};
    case Dup2Act(fd, newfd) => assert l.Some? ==> Files(l.value) == Files(t)[newfd := t[fd].file];
  }

  /** The whole table after an action, close-on-exec flags included. */
  lemma LenientTable(t: Table, limit: nat, act: Act, outcome: Result<File, Errno>)
    requires LenientStep(t, limit, ToNdk(act), outcome).Some?
    ensures var t' := LenientStep(t, limit, ToNdk(act), outcome).value;
            match act
            case OpenAct(fd, _, oflag, _) =>
              var atOnce := fd !in t && forall f :: 0 <= f < fd ==> f in t;
              t' == if 0 <= fd < limit then t[fd := Desc(outcome.value, atOnce && (oflag / O_CLOEXEC) % 2 == 1)] else t
            case CloseAct(fd) => t' == t - {fd}
            case Dup2Act(fd, newfd) => t' == if fd == newfd then t else t[newfd := Desc(t[fd].file, false)]
  {
    if act.OpenAct? {
      var f := LowestFree(t, limit).value;
      var (t1, _) := SysOpen(t, limit, act.oflag, outcome);
      assert t1 - {f} == t;
    }
  }

  // ----- the converse

  /** What the strict interpreter checks and the lenient one does not: a closed descriptor is open; an
      opened one is in range, and some descriptor is free for the scratch. */
  predicate Careful(t: Table, limit: nat, act: Act) {
    && (act.CloseAct? ==> act.fd in t)
    && (act.OpenAct? ==> 0 <= act.fd < limit && !Full(t, limit))
  }

  /** The strict interpreter gets through an action exactly when the lenient one does and the action is
      careful. */
  lemma StrictStepExactly(w: nat, strict: Table, lenient: Table, limit: nat, act: Act, outcome: Result<File, Errno>)
    requires SameBut(w, strict, lenient) && w !in act.Named()
    ensures StrictStep(strict, limit, act, outcome).Done? <==>
              LenientStep(lenient, limit, ToNdk(act), outcome).Some? && Careful(strict, limit, act)
  {
    match act
    case OpenAct(fd, _, _, _) =>
      var f, g := LowestFree(strict, limit), LowestFree(lenient, limit);
      assert f.Some? ==> f.value !in lenient;
    case _ =>
  }

  /** Each action is careful on the table the strict interpreter has when it comes to it. */
  predicate AllCareful(t: Table, limit: nat, acts: seq<Act>, n: nat, fs: FileSystem)
    decreases |acts|
  {
    acts == [] ||
    (Careful(t, limit, acts[0])
     && var r := StrictStep(t, limit, acts[0], acts[0].Answer(fs, n));
        r.Done? ==> AllCareful(r.t, limit, acts[1..], n + 1, fs))
  }

  /** Both directions for lists: the strict interpreter succeeds exactly when the lenient one does and the
      list is careful. */
  lemma {:induction false} StrictRunExactly(
    w: nat, strict: Table, lenient: Table, limit: nat, acts: seq<Act>, n: nat, fs: FileSystem)
    requires SameBut(w, strict, lenient) && forall a :: a in acts ==> w !in a.Named()
    ensures StrictRun(strict, limit, acts, n, fs).Done? <==>
              LenientRun(lenient, limit, AllToNdk(acts), n, fs).Some? && AllCareful(strict, limit, acts, n, fs)
    decreases |acts|
  {
    if acts != [] {
      var act := acts[0];
      StrictStepExactly(w, strict, lenient, limit, act, act.Answer(fs, n));
      assert AllToNdk(acts)[1..] == AllToNdk(acts[1..]);
      var r := StrictStep(strict, limit, act, act.Answer(fs, n));
      if r.Done? {
        StepAgrees(w, strict, lenient, limit, act, act.Answer(fs, n));
        var l := LenientStep(lenient, limit, ToNdk(act), act.Answer(fs, n)).value;
        StrictRunExactly(w, r.t, l, limit, acts[1..], n + 1, fs);
      }
    }
  }
}
