/** The file-action interpreter of the CMake shim: every failing system call fails the spawn. */
module CmakeActions {
  import opened Common
  import opened ActionList
  import opened Descriptors

  /** One action: an open goes through the lowest free descriptor, dup2 and close. */
  function StrictStep(t: Table, limit: nat, act: Act, outcome: Result<File, Errno>): Applied {
    match act
    case OpenAct(fd, _, oflag, _) =>
      var (t1, f) := SysOpen(t, limit, oflag, outcome);
      if f.Err? then Failed(t1, f.error)
      else if f.value == fd then Done(t1)
      else
        var t2 := SysDup2(t1, limit, f.value, fd);
        if t2.Err? then Failed(t1 - {f.value}, t2.error) else Done(t2.value - {f.value})
    case CloseAct(fd) =>
      var t1 := SysClose(t, fd);
      if t1.Err? then Failed(t, t1.error) else Done(t1.value)
    case Dup2Act(fd, newfd) =>
      var t1 := SysDup2(t, limit, fd, newfd);
      if t1.Err? then Failed(t, t1.error) else Done(t1.value)
  }

  /** The actions from number `n` on, up to the first failure. */
  function StrictRun(t: Table, limit: nat, acts: seq<Act>, n: nat, fs: FileSystem): Applied
    decreases |acts|
  {
    if acts == [] then Done(t)
    else
      var r := StrictStep(t, limit, acts[0], acts[0].Answer(fs, n));
      if r.Failed? then r else StrictRun(r.t, limit, acts[1..], n + 1, fs)
  }

  // ----- the interpreter against the standard

  predicate Full(t: Table, limit: nat) {
    LowestFree(t, limit).None?
  }

  /** Opening through a scratch descriptor binds the target directly and leaves no trace of the
      scratch; it fails where the standard's binding fails, and besides that exactly when no
      descriptor is free for the scratch. */
  lemma OpenBindsTarget(t: Table, limit: nat, act: Act, outcome: Result<File, Errno>)
    requires act.OpenAct?
    ensures var r, ref := StrictStep(t, limit, act, outcome), RefStep(Files(t), limit, act, outcome);
            && (r.Done? ==> Some(Files(r.t)) == ref)
            && (r.Done? <==> ref.Some? && !Full(t, limit))
            && (r.Failed? ==> r.t == t)
            && (r.Failed? ==> r.e == if Full(t, limit) then EMFILE else if outcome.Err? then outcome.error else EBADF)
  {
    var f := LowestFree(t, limit);
    if f.Some? && outcome.Ok? {
      var (t1, _) := SysOpen(t, limit, act.oflag, outcome);
      assert t1 - {f.value} == t;
      var r := StrictStep(t, limit, act, outcome);
      assert r.Done? ==> Files(r.t) == Files(t)[act.fd := outcome.value];
    }
  }

  lemma StepMatchesReference(t: Table, limit: nat, act: Act, outcome: Result<File, Errno>)
    ensures var r, ref := StrictStep(t, limit, act, outcome), RefStep(Files(t), limit, act, outcome);
            && (r.Done? ==> Some(Files(r.t)) == ref)
            && (r.Done? <==> ref.Some? && !(act.OpenAct? && Full(t, limit)))
            && (r.Failed? ==> r.t == t)
  {
    match act
    case OpenAct(_, _, _, _) => OpenBindsTarget(t, limit, act, outcome);
    case CloseAct(fd) => assert fd in t ==> Files(t - {fd}) == Files(t) - {fd};
    case Dup2Act(fd, newfd) =>
      var r := StrictStep(t, limit, act, outcome);
      assert r.Done? ==> Files(r.t) == Files(t)[newfd := t[fd].file];
  }

  /** The errno of an action that cannot be carried out, told from the table alone: EMFILE for an open without
      a free descriptor, then what open() answers, and EBADF for a descriptor that is not open or out of range. */
  ghost predicate FailsWith(t: Table, limit: nat, act: Act, outcome: Result<File, Errno>, e: Errno) {
    match act
    case OpenAct(fd, _, _, _) =>
      if forall f :: 0 <= f < limit ==> f in t then e == EMFILE
      else if outcome.Err? then e == outcome.error
      else !(0 <= fd < limit) && e == EBADF
    case CloseAct(fd) => fd !in t && e == EBADF
    case Dup2Act(fd, newfd) => (fd !in t || !(0 <= newfd < limit)) && e == EBADF
  }

  /** An action fails exactly then, with that errno, and leaves the table as it was. */
  lemma StepErrno(t: Table, limit: nat, act: Act, outcome: Result<File, Errno>, e: Errno)
    ensures StrictStep(t, limit, act, outcome) == Failed(t, e) <==> FailsWith(t, limit, act, outcome, e)
    ensures var r := StrictStep(t, limit, act, outcome); r.Failed? ==> r.t == t
  {
    StepMatchesReference(t, limit, act, outcome);
    if act.OpenAct? {
      OpenBindsTarget(t, limit, act, outcome);
    }
  }

  /** The whole table after an action, close-on-exec flags included: an opened file keeps the flag it was opened
      with only if it came up at its target at once; dup2 onto another descriptor clears the flag. */
  lemma StepTable(t: Table, limit: nat, act: Act, outcome: Result<File, Errno>)
    requires StrictStep(t, limit, act, outcome).Done?
    ensures var t' := StrictStep(t, limit, act, outcome).t;
            match act
            case OpenAct(fd, _, oflag, _) =>
              var atOnce := fd !in t && forall f :: 0 <= f < fd ==> f in t;
              t' == t[fd := Desc(outcome.value, atOnce && (oflag / O_CLOEXEC) % 2 == 1)]
            case CloseAct(fd) => t' == t - {fd}
            case Dup2Act(fd, newfd) => t' == if fd == newfd then t else t[newfd := Desc(t[fd].file, false)]
  {
    if act.OpenAct? {
      var f := LowestFree(t, limit).value;
      var (t1, _) := SysOpen(t, limit, act.oflag, outcome);
      assert t1 - {f} == t;
    }
  }

  /** A failing run stops at the first action that cannot be carried out, with its errno. */
  lemma {:induction false} RunErrno(t: Table, limit: nat, acts: seq<Act>, n: nat, fs: FileSystem) returns (k: nat)
    requires StrictRun(t, limit, acts, n, fs).Failed?
    ensures k < |acts|
    ensures var r, done := StrictRun(t, limit, acts, n, fs), StrictRun(t, limit, acts[..k], n, fs);
            done.Done? && done.t == r.t && FailsWith(r.t, limit, acts[k], acts[k].Answer(fs, n + k), r.e)
    decreases |acts|
  {
    var r := StrictStep(t, limit, acts[0], acts[0].Answer(fs, n));
    if r.Failed? {
      k := 0;
      StepErrno(t, limit, acts[0], acts[0].Answer(fs, n), r.e);
    } else {
      k := RunErrno(r.t, limit, acts[1..], n + 1, fs);
      assert acts[..k + 1][0] == acts[0] && acts[..k + 1][1..] == acts[1..][..k];
      k := k + 1;
    }
  }

  /** A successful run computes the standard's fold of bindings. */
  lemma {:induction false} RunMatchesReference(t: Table, limit: nat, acts: seq<Act>, n: nat, fs: FileSystem)
    ensures var r := StrictRun(t, limit, acts, n, fs);
            r.Done? ==> Some(Files(r.t)) == RefRun(Files(t), limit, acts, n, fs)
    decreases |acts|
  {
    if acts != [] {
      StepMatchesReference(t, limit, acts[0], acts[0].Answer(fs, n));
      var r := StrictStep(t, limit, acts[0], acts[0].Answer(fs, n));
      if r.Done? {
        RunMatchesReference(r.t, limit, acts[1..], n + 1, fs);
      }
    }
  }

  /** No open meets a full table on the way. */
  predicate NeverFull(t: Table, limit: nat, acts: seq<Act>, n: nat, fs: FileSystem)
    decreases |acts|
  {
    acts == [] ||
    (!(acts[0].OpenAct? && Full(t, limit))
     && var r := StrictStep(t, limit, acts[0], acts[0].Answer(fs, n));
        r.Done? ==> NeverFull(r.t, limit, acts[1..], n + 1, fs))
  }

  /** The run succeeds exactly when the standard's fold does and no open meets a full table. */
  lemma {:induction false} RunSucceedsExactly(t: Table, limit: nat, acts: seq<Act>, n: nat, fs: FileSystem)
    ensures StrictRun(t, limit, acts, n, fs).Done? <==>
              RefRun(Files(t), limit, acts, n, fs).Some? && NeverFull(t, limit, acts, n, fs)
    decreases |acts|
  {
    if acts != [] {
      StepMatchesReference(t, limit, acts[0], acts[0].Answer(fs, n));
      var r := StrictStep(t, limit, acts[0], acts[0].Answer(fs, n));
      if r.Done? {
        RunSucceedsExactly(r.t, limit, acts[1..], n + 1, fs);
      }
    }
  }

  /** With one descriptor that is free and that no action names, that is so whatever the actions do. */
  lemma {:induction false} SpareNeverFull(
    t: Table, limit: nat, acts: seq<Act>, n: nat, fs: FileSystem, spare: nat)
    requires spare < limit && spare !in t
    requires forall a :: a in acts ==> spare !in a.Named()
    ensures NeverFull(t, limit, acts, n, fs)
    decreases |acts|
  {
    if acts != [] {
      var r := StrictStep(t, limit, acts[0], acts[0].Answer(fs, n));
      assert acts[0] in acts;
      if r.Done? {
        assert spare !in r.t;
        SpareNeverFull(r.t, limit, acts[1..], n + 1, fs, spare);
      }
    }
  }

  /** There the interpreter departs from the standard: on a full table it cannot reopen a
      descriptor that the standard would have closed first. */
  lemma FullTableCannotReopen(t: Table, limit: nat, act: Act, outcome: Result<File, Errno>)
    requires act.OpenAct? && Full(t, limit) && outcome.Ok? && 0 <= act.fd < limit
    ensures StrictStep(t, limit, act, outcome) == Failed(t, EMFILE)
    ensures RefStep(Files(t), limit, act, outcome).Some?
  {
  }

  lemma StrictRunHead(t: Table, limit: nat, acts: seq<Act>, i: nat, fs: FileSystem)
    requires i < |acts|
    ensures var r := StrictStep(t, limit, acts[i], acts[i].Answer(fs, i));
            StrictRun(t, limit, acts[i..], i, fs)
            == if r.Failed? then r else StrictRun(r.t, limit, acts[i + 1..], i + 1, fs)
  {
    assert acts[i..][0] == acts[i] && acts[i..][1..] == acts[i + 1..];
  }

  // ----- the imperative form

  const ENOMEM: Errno := 12

  /** posix_spawn_file_actions_addopen, -addclose and -adddup2; the flags are the answers of strdup
      and malloc. The list holds the actions in order of addition. */
  method AddOpen(fa: FileActions<Act>, fd: int, path: string, oflag: nat, mode: nat,
                 strdupFails: bool, mallocFails: bool)
    returns (e: int)
    requires fa.Valid()
    modifies fa, fa.nodes
    ensures fa.Valid() && e == (if strdupFails || mallocFails then ENOMEM else 0)
    ensures fa.Contents() ==
            if e == 0 then old(fa.Contents()) + [OpenAct(fd, path, oflag, mode)] else old(fa.Contents())
  {
    if strdupFails {
      return ENOMEM;
    }
    var ok := fa.Append(OpenAct(fd, path, oflag, mode), mallocFails);
    return if ok then 0 else ENOMEM;
  }

  method AddClose(fa: FileActions<Act>, fd: int, mallocFails: bool) returns (e: int)
    requires fa.Valid()
    modifies fa, fa.nodes
    ensures fa.Valid() && e == (if mallocFails then ENOMEM else 0)
    ensures fa.Contents() == if e == 0 then old(fa.Contents()) + [CloseAct(fd)] else old(fa.Contents())
  {
    var ok := fa.Append(CloseAct(fd), mallocFails);
    return if ok then 0 else ENOMEM;
  }

  method AddDup2(fa: FileActions<Act>, fd: int, newfd: int, mallocFails: bool) returns (e: int)
    requires fa.Valid()
    modifies fa, fa.nodes
    ensures fa.Valid() && e == (if mallocFails then ENOMEM else 0)
    ensures fa.Contents() == if e == 0 then old(fa.Contents()) + [Dup2Act(fd, newfd)] else old(fa.Contents())
  {
    var ok := fa.Append(Dup2Act(fd, newfd), mallocFails);
    return if ok then 0 else ENOMEM;
  }

  /** A process, as far as its descriptors go. */
  class Process {
    var fds: Table
    const limit: nat

    constructor (fds: Table, limit: nat)
      ensures this.fds == fds && this.limit == limit
    {
      this.fds, this.limit := fds, limit;
    }

    method Open(path: string, oflag: nat, mode: nat, fs: FileSystem, n: nat) returns (r: Result<nat, Errno>)
      modifies this
      ensures (fds, r) == SysOpen(old(fds), limit, oflag, fs(n, path, oflag, mode))
    {
      var outcome := fs(n, path, oflag, mode);
      var f := LowestFree(fds, limit);
      if f.None? {
        return Err(EMFILE);
      }
      if outcome.Err? {
        return Err(outcome.error);
      }
      fds := fds[f.value := Desc(outcome.value, (oflag / O_CLOEXEC) % 2 == 1)];
      return Ok(f.value);
    }

    method Close(fd: int) returns (e: Option<Errno>)
      modifies this
      ensures e == if SysClose(old(fds), fd).Err? then Some(EBADF) else None
      ensures fds == if e.Some? then old(fds) else SysClose(old(fds), fd).value
    {
      if fd !in fds {
        return Some(EBADF);
      }
      fds := fds - {fd};
      return None;
    }

    method Dup2(fd: int, newfd: int) returns (e: Option<Errno>)
      modifies this
      ensures e == if SysDup2(old(fds), limit, fd, newfd).Err? then Some(EBADF) else None
      ensures fds == if e.Some? then old(fds) else SysDup2(old(fds), limit, fd, newfd).value
    {
      if fd !in fds || newfd < 0 || newfd >= limit {
        return Some(EBADF);
      }
      if fd != newfd {
        fds := fds[newfd := Desc(fds[fd].file, false)];
      }
      return None;
    }

    /** One round of the child's loop. */
    method ApplyOne(act: Act, fs: FileSystem, n: nat) returns (failed: Option<Errno>)
      modifies this
      ensures StrictStep(old(fds), limit, act, act.Answer(fs, n))
           == if failed.Some? then Failed(fds, failed.value) else Done(fds)
    {
      match act
      case OpenAct(fd, path, oflag, mode) =>
        var f := Open(path, oflag, mode, fs, n);
        if f.Err? {
          return Some(f.error);
        }
        if f.value != fd {
          failed := Dup2(f.value, fd);
          var _ := Close(f.value);
          return failed;
        }
        return None;
      case CloseAct(fd) =>
        failed := Close(fd);
      case Dup2Act(fd, newfd) =>
        failed := Dup2(fd, newfd);
    }

    /** The child's walk over the list. */
    method ApplyActions(fa: FileActions?<Act>, fs: FileSystem) returns (failed: Option<Errno>)
      requires fa != null ==> fa.Valid()
      modifies this
      ensures StrictRun(old(fds), limit, if fa == null then [] else fa.Contents(), 0, fs)
           == if failed.Some? then Failed(fds, failed.value) else Done(fds)
    {
      if fa == null {
        return None;
      }
      var act := fa.head;
      var i := 0;     // numbers the questions to the file system
      ghost var acts := fa.Contents();
      assert acts[0..] == acts;
      while act != null
        invariant 0 <= i <= |fa.nodes| && act == if i < |fa.nodes| then fa.nodes[i] else null
        invariant fa.Valid()
        invariant fa.Contents() == acts
        invariant StrictRun(fds, limit, acts[i..], i, fs) == StrictRun(old(fds), limit, acts, 0, fs)
        decreases |fa.nodes| - i
      {
        assert act.next == if i + 1 < |fa.nodes| then fa.nodes[i + 1] else null;
        assert acts[i] == act.act;
        StrictRunHead(fds, limit, acts, i, fs);
        failed := ApplyOne(act.act, fs, i);
        if failed.Some? {
          return;
        }
        act := act.next;
        i := i + 1;
      }
      return None;
    }
  }
}
