/** Descriptor tables and the system calls that change them, and the file actions of
    posix_spawn() as IEEE Std 1003.1-2017 describes them: a fold of bindings over the table. */
module Descriptors {
  import opened Common

  // errno values of Linux
  type Errno = e: int | e > 0 witness 1
  const EBADF: Errno := 9
  const EMFILE: Errno := 24

  const O_CLOEXEC := 0x80000

  /** An open file: an end of the error pipe, or some other one. */
  datatype File = PipeRead | PipeWrite | Other(id: nat)
  datatype Desc = Desc(file: File, cloexec: bool)
  type Table = map<nat, Desc>

  /** Forgets the close-on-exec flags. */
  function Files(t: Table): map<nat, File> {
    map fd | fd in t :: t[fd].file
  }

  // ----- system calls; `limit` is the number of descriptors a process may have

  function LowestFree(t: Table, limit: nat, from: nat := 0): (r: Option<nat>)
    ensures r.Some? ==> from <= r.value < limit && r.value !in t && forall i :: from <= i < r.value ==> i in t
    ensures r.None? ==> forall i :: from <= i < limit ==> i in t
    decreases limit - from
  {
    if from >= limit then None
    else if from !in t then Some(from)
    else LowestFree(t, limit, from + 1)
  }

  /** open(): `outcome` is what the file system answers for the path. */
  function SysOpen(t: Table, limit: nat, oflag: nat, outcome: Result<File, Errno>): (Table, Result<nat, Errno>) {
    var f := LowestFree(t, limit);
    if f.None? then (t, Err(EMFILE))
    else if outcome.Err? then (t, Err(outcome.error))
    else (t[f.value := Desc(outcome.value, (oflag / O_CLOEXEC) % 2 == 1)], Ok(f.value))
  }

  function SysClose(t: Table, fd: int): Result<Table, Errno> {
    if fd in t then Ok(t - {fd}) else Err(EBADF)
  }

  function SysDup2(t: Table, limit: nat, fd: int, newfd: int): Result<Table, Errno> {
    if fd !in t || newfd < 0 || newfd >= limit then Err(EBADF)
    else if fd == newfd then Ok(t)
    else Ok(t[newfd := Desc(t[fd].file, false)])
  }

  // ----- file actions

  /** What the file system answers to the open of the n-th action, given path, flags and mode. */
  type FileSystem = (nat, string, nat, nat) -> Result<File, Errno>

  datatype Act =
    | OpenAct(fd: int, path: string, oflag: nat, mode: nat)
    | CloseAct(fd: int)
    | Dup2Act(fd: int, newfd: int)
  {
    /** The descriptors the action mentions. */
    function Named(): set<int> {
      if Dup2Act? then {fd, newfd} else {fd}
    }

    /** What its open() is answered, as action number `n`. */
    function Answer(fs: FileSystem, n: nat): Result<File, Errno> {
      if OpenAct? then fs(n, path, oflag, mode) else Err(EBADF)
    }
  }

  /** The table after an action, or the table and errno at its failure. */
  datatype Applied = Done(t: Table) | Failed(t: Table, e: Errno)

  /** The standard: the file is bound to `fd`, which is closed first if it was open. */
  function RefStep(files: map<nat, File>, limit: nat, act: Act, outcome: Result<File, Errno>)
    : Option<map<nat, File>>
  {
    match act
    case OpenAct(fd, _, _, _) =>
      if 0 <= fd < limit && outcome.Ok? then Some(files[fd := outcome.value]) else None
    case CloseAct(fd) => if fd in files then Some(files - {fd}) else None
    case Dup2Act(fd, newfd) => if fd in files && 0 <= newfd < limit then Some(files[newfd := files[fd]]) else None
  }

  function RefRun(files: map<nat, File>, limit: nat, acts: seq<Act>, n: nat, fs: FileSystem): Option<map<nat, File>>
    decreases |acts|
  {
    if acts == [] then Some(files)
    else
      var outcome := match acts[0]
        case OpenAct(_, path, oflag, mode) => fs(n, path, oflag, mode)
        case _ => Err(EBADF);
      var r := RefStep(files, limit, acts[0], outcome);
      if r.None? then None else RefRun(r.value, limit, acts[1..], n + 1, fs)
  }
}
