/** `posix_spawn` of the CMake shim as a protocol between parent and child: the child applies
    attributes and file actions and executes the program, and reports the first failure as an errno
    over a close-on-exec pipe; the parent reads an errno or end of file. Every interleaving of the
    two processes is a run. Calls interrupted by a signal are retried and change nothing, so they
    are not steps. */
module CmakeSpawn {
  import opened Common
  import opened Descriptors
  import opened CmakeActions

  /** One call: the caller's table and arguments, and what the system answers in the child. */
  datatype Config = Config(
    table: Table,
    r: nat,                       // the descriptors pipe() hands out: read end,
    w: nat,                       // and write end
    limit: nat,
    acts: seq<Act>,
    fs: FileSystem,
    attrError: Option<Errno>,     // setpgid or sigprocmask
    execError: Option<Errno>)

  datatype Parent =
    | Called
    | Piped                       // after pipe() and the two fcntl calls
    | Forked
    | Reading                     // write end closed
    | Reaping(e: Errno)           // errno read, read end closed
    | Returned(r: int)

  datatype Child =
    | Unborn
    | Entered
    | Acting(n: nat)
    | Executing
    | Reporting(e: Errno)
    | Exited
    | Running                     // the program itself
    | Killed

  datatype State = State(
    ptab: Table,
    parent: Parent,
    ctab: Table,
    child: Child,
    pipe: seq<Errno>,             // written and not yet read
    pid: bool,                    // *pid was set
    // history
    executed: bool,
    killed: bool,                 // before it could execute or report
    reaped: bool)

  datatype Action =
    | PipeFails(e: Errno)
    | PipeOpens
    | ForkFails(e: Errno)
    | ForkWorks
    | CloseWrite
    | ReadErrno
    | ReadEnd
    | Reap
    | Enter          // the child closes the read end and sets its attributes
    | Apply          // next file action
    | Exec
    | Report         // write and _exit
    | Kill
    | Finish         // the program ends

  function Init(c: Config): State {
    State(c.table, Called, map[], Unborn, [], false, false, false, false)
  }

  /** What is opened is not an end of the pipe. */
  ghost predicate OtherFiles(fs: FileSystem) {
    forall n: nat, path: string, oflag: nat, mode: nat ::
      fs(n, path, oflag, mode).Ok? ==> fs(n, path, oflag, mode).value.Other?
  }

  ghost predicate WellFormed(c: Config) {
    && c.r != c.w && c.r !in c.table && c.w !in c.table
    && (forall fd :: fd in c.table ==> c.table[fd].file.Other?)
    && OtherFiles(c.fs)
  }

  function WithPipe(c: Config): Table {
    c.table[c.r := Desc(PipeRead, true)][c.w := Desc(PipeWrite, true)]
  }

  /** The child's table once it has closed the read end. */
  function ChildTable(c: Config): Table {
    WithPipe(c) - {c.r}
  }

  predicate HoldsWriter(t: Table) {
    exists fd :: fd in t && t[fd].file == PipeWrite
  }

  ghost predicate Enabled(c: Config, s: State, a: Action) {
    match a
    case PipeFails(_) => s.parent.Called?
    case PipeOpens => s.parent.Called?
    case ForkFails(_) => s.parent.Piped?
    case ForkWorks => s.parent.Piped?
    case CloseWrite => s.parent.Forked?
    case ReadErrno => s.parent.Reading? && s.pipe != []
    case ReadEnd => s.parent.Reading? && s.pipe == [] && !HoldsWriter(s.ptab) && !HoldsWriter(s.ctab)
    case Reap => s.parent.Reaping? && (s.child.Exited? || s.child.Killed?)
    case Enter => s.child.Entered?
    case Apply => s.child.Acting? && s.child.n < |c.acts|
    case Exec => s.child.Executing?
    case Report => s.child.Reporting?
    case Kill => !s.child.Unborn? && !s.child.Exited? && !s.child.Killed? && !s.child.Running?
    case Finish => s.child.Running?
  }

  function NextAct(c: Config, n: nat): Child {
    if n < |c.acts| then Acting(n) else Executing
  }

  function AfterExec(t: Table): Table {
    map fd | fd in t && !t[fd].cloexec :: t[fd]
  }

  /** The write reaches the pipe only if the descriptor still is the pipe's write end. */
  function ReportEffect(c: Config, s: State): State
    requires s.child.Reporting?
  {
    s.(child := Exited, ctab := map[],
       pipe := if c.w in s.ctab && s.ctab[c.w].file == PipeWrite then s.pipe + [s.child.e] else s.pipe)
  }

  function ApplyEffect(c: Config, s: State): State
    requires s.child.Acting? && s.child.n < |c.acts|
  {
    var n := s.child.n;
    match StrictStep(s.ctab, c.limit, c.acts[n], c.acts[n].Answer(c.fs, n))
    case Done(t) => s.(ctab := t, child := NextAct(c, n + 1))
    case Failed(t, e) => s.(ctab := t, child := Reporting(e))
  }

  function Effect(c: Config, s: State, a: Action): State
    requires Enabled(c, s, a)
  {
    match a
    case PipeFails(e) => s.(parent := Returned(e))
    case PipeOpens => s.(parent := Piped, ptab := WithPipe(c))
    case ForkFails(e) => s.(parent := Returned(e), ptab := s.ptab - {c.r} - {c.w})
    case ForkWorks => s.(parent := Forked, child := Entered, ctab := s.ptab)
    case CloseWrite => s.(parent := Reading, ptab := s.ptab - {c.w})
    case ReadErrno => s.(parent := Reaping(s.pipe[0]), pipe := s.pipe[1..], ptab := s.ptab - {c.r})
    case ReadEnd => s.(parent := Returned(0), ptab := s.ptab - {c.r}, pid := true)
    case Reap => s.(parent := Returned(s.parent.e), reaped := true)
    case Enter =>
      s.(ctab := s.ctab - {c.r},
         child := if c.attrError.Some? then Reporting(c.attrError.value) else NextAct(c, 0))
    case Apply => ApplyEffect(c, s)
    case Exec =>
      if c.execError.Some? then s.(child := Reporting(c.execError.value))
      else s.(child := Running, ctab := AfterExec(s.ctab), executed := true)
    case Report => ReportEffect(c, s)
    case Kill => s.(child := Killed, ctab := map[], killed := true)
    case Finish => s.(child := Exited, ctab := map[])
  }

  // ----- what the child will do, independent of the interleaving

  /** The child's table and errno at its first failing step, if it has one. */
  function ChildFate(c: Config): Applied {
    if c.attrError.Some? then Failed(ChildTable(c), c.attrError.value) else FateFrom(c, ChildTable(c), 0)
  }

  function FateFrom(c: Config, t: Table, n: nat): Applied
    requires n <= |c.acts|
  {
    match StrictRun(t, c.limit, c.acts[n..], n, c.fs)
    case Failed(t', e) => Failed(t', e)
    case Done(t') => if c.execError.Some? then Failed(t', c.execError.value) else Done(t')
  }

  /** If a step of the child fails, the error pipe's descriptor is still the pipe at that moment. */
  ghost predicate CanReport(c: Config) {
    var fate := ChildFate(c);
    fate.Failed? ==> c.w in fate.t && fate.t[c.w].file == PipeWrite
  }

  // ----- invariant

  ghost predicate ParentInv(c: Config, s: State) {
    match s.parent
    case Called => s.ptab == c.table
    case Piped => s.ptab == WithPipe(c)
    case Forked => s.ptab == WithPipe(c)
    case Reading => s.ptab == WithPipe(c) - {c.w}
    case Reaping(_) => s.ptab == c.table
    case Returned(_) => s.ptab == c.table
  }

  ghost predicate ChildInv(c: Config, s: State) {
    && (s.child.Unborn? <==> s.parent.Called? || s.parent.Piped? || (s.parent.Returned? && s.child.Unborn?))
    && match s.child
       case Unborn => s.ctab == map[]
       case Entered => s.ctab == WithPipe(c)
       case Acting(n) => n < |c.acts| && c.attrError.None? && FateFrom(c, s.ctab, n) == ChildFate(c)
       case Executing => c.attrError.None? && FateFrom(c, s.ctab, |c.acts|) == ChildFate(c)
       case Reporting(e) => ChildFate(c) == Failed(s.ctab, e)
       case Exited => s.ctab == map[] && (!s.executed ==> ChildFate(c).Failed?)
       case Running => s.executed && ChildFate(c).Done? && s.ctab == AfterExec(ChildFate(c).t)
       case Killed => s.ctab == map[] && s.killed
  }

  /** What history, pipe and return value say about each other. */
  ghost predicate VerdictInv(c: Config, s: State) {
    && (s.executed ==> ChildFate(c).Done? && (s.child.Running? || s.child.Exited?))
    && (s.killed ==> s.child.Killed?)
    && (s.parent.Returned? && !s.child.Unborn? ==> !HoldsWriter(s.ctab))
    && (s.child.Unborn? ==> s.pipe == [])
    && (s.pipe != [] ==> s.child.Exited? && ChildFate(c).Failed? && s.pipe == [ChildFate(c).e]
                         && !s.pid && (s.parent.Forked? || s.parent.Reading?))
    && (s.parent.Reaping? ==> s.child.Exited? && ChildFate(c).Failed? && s.parent.e == ChildFate(c).e)
    && (s.child.Exited? && ChildFate(c).Failed? && CanReport(c) ==>
          s.pipe != [] || s.parent.Reaping? || (s.parent.Returned? && s.parent.r > 0))
    && (s.pid <==> s.parent == Returned(0))
    && (s.reaped ==> s.parent.Returned? && s.parent.r > 0)
    && (s.parent.Returned? && s.parent.r != 0 && !s.child.Unborn? ==>
          s.parent.r > 0 && s.reaped && ChildFate(c).Failed? && s.parent.r == ChildFate(c).e)
    && (s.parent.Returned? && s.child.Unborn? ==> s.parent.r > 0)
  }

  ghost predicate Inv(c: Config, s: State) {
    ParentInv(c, s) && ChildInv(c, s) && VerdictInv(c, s)
  }

  lemma FateStep(c: Config, t: Table, n: nat)
    requires n < |c.acts|
    ensures match StrictStep(t, c.limit, c.acts[n], c.acts[n].Answer(c.fs, n))
            case Failed(t', e) => FateFrom(c, t, n) == Failed(t', e)
            case Done(t') => FateFrom(c, t, n) == FateFrom(c, t', n + 1)
  {
    assert c.acts[n..][0] == c.acts[n] && c.acts[n..][1..] == c.acts[n + 1..];
  }

  /** A process that has lost the write end cannot get it back. */
  lemma WriterStaysLost(c: Config, t: Table, n: nat)
    requires WellFormed(c) && n < |c.acts| && !HoldsWriter(t)
    ensures !HoldsWriter(StrictStep(t, c.limit, c.acts[n], c.acts[n].Answer(c.fs, n)).t)
  {
  }

  lemma ParentKeeps(c: Config, s: State, a: Action)
    requires WellFormed(c) && Inv(c, s) && Enabled(c, s, a)
    requires a.PipeFails? || a.PipeOpens? || a.ForkFails? || a.ForkWorks?
          || a.CloseWrite? || a.ReadErrno? || a.ReadEnd? || a.Reap?
    ensures Inv(c, Effect(c, s, a))
  {
    assert WithPipe(c) - {c.r} - {c.w} == c.table;
    assert WithPipe(c) - {c.w} - {c.r} == c.table;
  }

  lemma ApplyKeeps(c: Config, s: State)
    requires WellFormed(c) && Inv(c, s) && Enabled(c, s, Apply)
    ensures Inv(c, ApplyEffect(c, s))
  {
    FateStep(c, s.ctab, s.child.n);
    if !HoldsWriter(s.ctab) {
      WriterStaysLost(c, s.ctab, s.child.n);
    }
  }

  lemma ChildKeeps(c: Config, s: State, a: Action)
    requires WellFormed(c) && Inv(c, s) && Enabled(c, s, a)
    requires a.Enter? || a.Exec? || a.Kill? || a.Finish?
    ensures Inv(c, Effect(c, s, a))
  {
  }

  lemma ReportKeeps(c: Config, s: State)
    requires WellFormed(c) && Inv(c, s) && Enabled(c, s, Report)
    ensures Inv(c, ReportEffect(c, s))
  {
  }

  lemma EffectKeeps(c: Config, s: State, a: Action)
    requires WellFormed(c) && Inv(c, s) && Enabled(c, s, a)
    ensures Inv(c, Effect(c, s, a))
  {
    if a.Report? {
      ReportKeeps(c, s);
    } else if a.Apply? {
      ApplyKeeps(c, s);
    } else if a.Enter? || a.Exec? || a.Kill? || a.Finish? {
      ChildKeeps(c, s, a);
    } else {
      ParentKeeps(c, s, a);
    }
  }

  // ----- whole runs

  ghost predicate Run(c: Config, s: State, acts: seq<Action>, s': State)
    decreases |acts|
  {
    if acts == [] then s' == s
    else Enabled(c, s, acts[0]) && Run(c, Effect(c, s, acts[0]), acts[1..], s')
  }

  ghost predicate Reaches(c: Config, s: State, s': State) {
    exists acts :: Run(c, s, acts, s')
  }

  lemma {:induction false} RunKeeps(c: Config, s: State, acts: seq<Action>, s': State)
    requires WellFormed(c) && Inv(c, s) && Run(c, s, acts, s')
    ensures Inv(c, s')
    decreases |acts|
  {
    if acts != [] {
      EffectKeeps(c, s, acts[0]);
      RunKeeps(c, Effect(c, s, acts[0]), acts[1..], s');
    }
  }

  lemma ReachableInv(c: Config, s: State)
    requires WellFormed(c) && Reaches(c, Init(c), s)
    ensures Inv(c, s)
  {
    var acts :| Run(c, Init(c), acts, s);
    RunKeeps(c, Init(c), acts, s);
  }

  lemma {:induction false} RunLosesWriter(c: Config, t: Table, n: nat)
    requires WellFormed(c) && n <= |c.acts| && !HoldsWriter(t)
    ensures !HoldsWriter(StrictRun(t, c.limit, c.acts[n..], n, c.fs).t)
    decreases |c.acts| - n
  {
    if n < |c.acts| {
      assert c.acts[n..][0] == c.acts[n] && c.acts[n..][1..] == c.acts[n + 1..];
      WriterStaysLost(c, t, n);
      var r := StrictStep(t, c.limit, c.acts[n], c.acts[n].Answer(c.fs, n));
      if r.Done? {
        RunLosesWriter(c, r.t, n + 1);
      }
    }
  }

  /** The first step of the child that fails does so with errno `e`: the attributes, an action, or execve. */
  ghost predicate FirstFails(c: Config, e: Errno) {
    if c.attrError.Some? then e == c.attrError.value
    else
      || (exists k :: 0 <= k < |c.acts| && ActionFails(c, k, e))
      || (StrictRun(ChildTable(c), c.limit, c.acts, 0, c.fs).Done? && c.execError == Some(e))
  }

  /** The actions before number `k` succeed, and it fails with `e` on the table they leave. */
  ghost predicate ActionFails(c: Config, k: nat, e: Errno)
    requires k < |c.acts|
  {
    var done := StrictRun(ChildTable(c), c.limit, c.acts[..k], 0, c.fs);
    done.Done? && FailsWith(done.t, c.limit, c.acts[k], c.acts[k].Answer(c.fs, k), e)
  }

  lemma FateErrno(c: Config)
    requires ChildFate(c).Failed?
    ensures FirstFails(c, ChildFate(c).e)
  {
    if c.attrError.None? {
      assert c.acts[0..] == c.acts;
      if StrictRun(ChildTable(c), c.limit, c.acts, 0, c.fs).Failed? {
        var k := RunErrno(ChildTable(c), c.limit, c.acts, 0, c.fs);
        assert ActionFails(c, k, ChildFate(c).e);
      }
    }
  }

  /** What a finished call tells its caller. On every path the parent's descriptors are as before.
      A positive return after the fork is exactly the errno of the child's first failing step, with
      the child reaped and *pid untouched; a return of 0 sets *pid. */
  lemma ReturnTellsFate(c: Config, s: State)
    requires WellFormed(c) && Reaches(c, Init(c), s) && s.parent.Returned?
    ensures s.ptab == c.table
    ensures s.parent.r >= 0 && (s.pid <==> s.parent.r == 0)
    ensures s.parent.r > 0 && !s.child.Unborn? ==>
              s.reaped && ChildFate(c).Failed? && s.parent.r == ChildFate(c).e && FirstFails(c, s.parent.r)
    ensures s.parent.r == 0 && !s.killed && CanReport(c) ==> ChildFate(c).Done?
    ensures s.executed ==> ChildFate(c).Done? && s.parent.r == 0
  {
    ReachableInv(c, s);
    if ChildFate(c).Failed? {
      FateErrno(c);
    }
    if s.parent.r == 0 && !s.killed && CanReport(c) && ChildFate(c).Failed? {
      match s.child
      case Acting(n) => RunLosesWriter(c, s.ctab, n);
      case Executing => assert c.acts[|c.acts|..] == [];
      case _ =>
    }
  }

  /** Nothing happens after a return without a child. */
  lemma ReturnedAlone(c: Config, s: State, acts: seq<Action>, s': State)
    requires s.parent.Returned? && s.child.Unborn? && Run(c, s, acts, s')
    ensures acts == [] && s' == s
  {
  }

  lemma BornStays(c: Config, s: State, acts: seq<Action>, s': State)
    requires !s.child.Unborn? && Run(c, s, acts, s')
    ensures !s'.child.Unborn?
    decreases |acts|
  {
    if acts != [] {
      BornStays(c, Effect(c, s, acts[0]), acts[1..], s');
    }
  }

  /** The last action is a failing pipe() or fork(), with errno `e`. */
  predicate EndsUnforked(acts: seq<Action>, e: Errno) {
    acts != [] && (acts[|acts| - 1] == PipeFails(e) || acts[|acts| - 1] == ForkFails(e))
  }

  /** A call returns without having forked exactly when pipe() or fork() fails, and then with its errno. */
  lemma {:induction false} ReturnsWithoutChild(c: Config, s: State, acts: seq<Action>, s': State, e: Errno)
    requires (s.parent.Called? || s.parent.Piped?) && s.child.Unborn? && Run(c, s, acts, s')
    ensures s'.parent == Returned(e) && s'.child.Unborn? <==> EndsUnforked(acts, e)
    decreases |acts|
  {
    if acts != [] {
      var s1, rest := Effect(c, s, acts[0]), acts[1..];
      assert rest != [] ==> acts[|acts| - 1] == rest[|rest| - 1];
      if s1.parent.Returned? {
        ReturnedAlone(c, s1, rest, s');
      } else if s1.child.Unborn? {
        ReturnsWithoutChild(c, s1, rest, s', e);
      } else {
        BornStays(c, s1, rest, s');
        NoLateFailure(c, s1, rest, s');
      }
    }
  }

  lemma NoLateFailure(c: Config, s: State, acts: seq<Action>, s': State)
    requires !s.parent.Called? && !s.parent.Piped? && Run(c, s, acts, s')
    ensures forall a :: a in acts ==> !a.PipeFails? && !a.ForkFails?
    decreases |acts|
  {
    if acts != [] {
      NoLateFailure(c, Effect(c, s, acts[0]), acts[1..], s');
    }
  }

  /** What the program is given: every descriptor open at the end of the list and not close-on-exec, with the
      file the standard's fold binds to it. */
  lemma ProgramDescriptors(c: Config, s: State)
    requires WellFormed(c) && Reaches(c, Init(c), s) && s.child.Running?
    ensures var t, files := ChildFate(c).t, RefRun(Files(ChildTable(c)), c.limit, c.acts, 0, c.fs);
            && ChildFate(c).Done? && StrictRun(ChildTable(c), c.limit, c.acts, 0, c.fs) == Done(t)
            && (forall fd :: fd in s.ctab <==> fd in t && !t[fd].cloexec)
            && (forall fd :: fd in s.ctab ==> s.ctab[fd] == t[fd])
            && files.Some? && (forall fd :: fd in s.ctab ==> fd in files.value && s.ctab[fd].file == files.value[fd])
  {
    ReachableInv(c, s);
    assert c.acts[0..] == c.acts;
    RunMatchesReference(ChildTable(c), c.limit, c.acts, 0, c.fs);
  }

  // ----- the exact condition

  lemma ReachesBack(c: Config, s: State, a: Action, s': State)
    requires Enabled(c, s, a) && Reaches(c, Effect(c, s, a), s')
    ensures Reaches(c, s, s')
  {
    var rest :| Run(c, Effect(c, s, a), rest, s');
    assert ([a] + rest)[1..] == rest;
    assert Run(c, s, [a] + rest, s');
  }

  /** A child that is not disturbed reaches its first failing step. */
  lemma {:induction false} FailureIsReached(c: Config, s: State, n: nat, s': State)
    requires n <= |c.acts| && s.child == NextAct(c, n)
    requires var fate := FateFrom(c, s.ctab, n);
             fate.Failed? && Reaches(c, s.(ctab := fate.t, child := Reporting(fate.e)), s')
    ensures Reaches(c, s, s')
    decreases |c.acts| - n
  {
    if n < |c.acts| {
      FateStep(c, s.ctab, n);
      if StrictStep(s.ctab, c.limit, c.acts[n], c.acts[n].Answer(c.fs, n)).Done? {
        FailureIsReached(c, ApplyEffect(c, s), n + 1, s');
      }
      ReachesBack(c, s, Apply, s');
    } else {
      assert c.acts[n..] == [];
      ReachesBack(c, s, Exec, s');
    }
  }

  /** Every successful return means that the child's steps all succeed, unless the child was killed:
      this holds of all runs exactly when the child can report its failure. */
  lemma SuccessIsHonestExactly(c: Config)
    requires WellFormed(c)
    ensures CanReport(c) <==>
              forall s :: Reaches(c, Init(c), s) && s.parent == Returned(0) && !s.killed ==> ChildFate(c).Done?
  {
    if CanReport(c) {
      forall s | Reaches(c, Init(c), s) && s.parent == Returned(0) && !s.killed ensures ChildFate(c).Done? {
        ReturnTellsFate(c, s);
      }
    } else {
      var s := SilentFailure(c);
    }
  }

  /** Without the pipe behind its descriptor the child's report is lost, and the parent returns 0. */
  lemma SilentFailure(c: Config) returns (s: State)
    requires WellFormed(c) && !CanReport(c)
    ensures Reaches(c, Init(c), s) && s.parent == Returned(0) && !s.killed && !s.executed && ChildFate(c).Failed?
  {
    var fate := ChildFate(c);
    var piped := Effect(c, Init(c), PipeOpens);
    var forked := Effect(c, piped, ForkWorks);
    var entered := Effect(c, forked, Enter);
    var failing := entered.(ctab := fate.t, child := Reporting(fate.e));
    var gone := Effect(c, failing, Report);
    var waiting := Effect(c, gone, CloseWrite);
    assert Enabled(c, waiting, ReadEnd);
    s := Effect(c, waiting, ReadEnd);
    assert Run(c, s, [], s);
    ReachesBack(c, waiting, ReadEnd, s);
    ReachesBack(c, gone, CloseWrite, s);
    ReachesBack(c, failing, Report, s);
    if c.attrError.None? {
      FailureIsReached(c, entered, 0, s);
    }
    ReachesBack(c, forked, Enter, s);
    ReachesBack(c, piped, ForkWorks, s);
    ReachesBack(c, Init(c), PipeOpens, s);
  }

  // ----- when success means more

  /** The child holds the pipe until execve has succeeded, or can report that a step failed. */
  ghost predicate HoldsOn(c: Config) {
    match ChildFate(c)
    case Done(t) => HoldsWriter(t)
    case Failed(t, _) => c.w in t && t[c.w].file == PipeWrite
  }

  /** A child on its way to execve has the tables its fate comes from, so it never lost the pipe. */
  lemma HeldSoFar(c: Config, s: State)
    requires WellFormed(c) && Inv(c, s) && HoldsOn(c)
    requires s.child.Entered? || s.child.Acting? || s.child.Executing? || s.child.Reporting?
    ensures HoldsWriter(s.ctab)
  {
    if s.child.Entered? {
      assert c.w in s.ctab;
    } else if s.child.Acting? && !HoldsWriter(s.ctab) {
      RunLosesWriter(c, s.ctab, s.child.n);
    } else if s.child.Executing? {
      assert c.acts[|c.acts|..] == [];
    }
  }

  /** A child that is not disturbed gets to execve. */
  lemma {:induction false} ExecIsReached(c: Config, s: State, n: nat, s': State)
    requires n <= |c.acts| && s.child == NextAct(c, n) && FateFrom(c, s.ctab, n).Done?
    requires Reaches(c, s.(ctab := FateFrom(c, s.ctab, n).t, child := Executing), s')
    ensures Reaches(c, s, s')
    decreases |c.acts| - n
  {
    if n < |c.acts| {
      FateStep(c, s.ctab, n);
      ExecIsReached(c, ApplyEffect(c, s), n + 1, s');
      ReachesBack(c, s, Apply, s');
    } else {
      assert c.acts[n..] == [];
    }
  }

  /** Both processes at work: the parent reads and the child is about to execute the program. */
  function AtExec(c: Config): State
    requires ChildFate(c).Done?
  {
    State(WithPipe(c) - {c.w}, Reading, ChildFate(c).t, Executing, [], false, false, false, false)
  }

  lemma AtExecReached(c: Config, s': State)
    requires ChildFate(c).Done? && Reaches(c, AtExec(c), s')
    ensures Reaches(c, Init(c), s')
  {
    var piped := Effect(c, Init(c), PipeOpens);
    var forked := Effect(c, piped, ForkWorks);
    var reading := Effect(c, forked, CloseWrite);
    var entered := Effect(c, reading, Enter);
    ExecIsReached(c, entered, 0, s');
    ReachesBack(c, reading, Enter, s');
    ReachesBack(c, forked, CloseWrite, s');
    ReachesBack(c, piped, ForkWorks, s');
    ReachesBack(c, Init(c), PipeOpens, s');
  }

  lemma ReachesItself(c: Config, s: State)
    ensures Reaches(c, s, s)
  {
    assert Run(c, s, [], s);
  }

  /** Without the pipe the parent need not wait for execve. */
  lemma EarlySuccess(c: Config) returns (s: State)
    requires WellFormed(c) && !HoldsOn(c)
    ensures Reaches(c, Init(c), s) && s.parent == Returned(0) && !s.executed && !s.killed
  {
    if ChildFate(c).Failed? {
      s := SilentFailure(c);
    } else {
      s := Effect(c, AtExec(c), ReadEnd);
      ReachesItself(c, s);
      ReachesBack(c, AtExec(c), ReadEnd, s);
      AtExecReached(c, s);
    }
  }

  /** A return of 0 means that execve has already succeeded, or that the child was killed before it could
      tell: this holds of all runs exactly when the child holds on to the pipe. */
  lemma SuccessMeansExecutedExactly(c: Config)
    requires WellFormed(c)
    ensures HoldsOn(c) <==> forall s :: Reaches(c, Init(c), s) && s.parent == Returned(0) ==> s.executed || s.killed
  {
    if HoldsOn(c) {
      forall s | Reaches(c, Init(c), s) && s.parent == Returned(0) ensures s.executed || s.killed {
        ReachableInv(c, s);
        if s.child.Entered? || s.child.Acting? || s.child.Executing? || s.child.Reporting? {
          HeldSoFar(c, s);
        }
      }
    } else {
      var s := EarlySuccess(c);
    }
  }

  // ----- when the parent waits for the program

  /** The running program has the pipe, under another descriptor that is not close-on-exec. */
  ghost predicate LeaksPipe(c: Config) {
    ChildFate(c).Done? && HoldsWriter(AfterExec(ChildFate(c).t))
  }

  /** Some step other than a kill or the program's own end is possible. */
  ghost predicate CanGoOn(c: Config, s: State) {
    exists a :: Enabled(c, s, a) && !a.Kill? && !a.Finish?
  }

  lemma GoesOn(c: Config, s: State)
    requires WellFormed(c) && Inv(c, s) && !s.parent.Returned? && !LeaksPipe(c)
    ensures CanGoOn(c, s)
  {
    var a := match s.parent {
      case Called => PipeOpens
      case Piped => ForkWorks
      case Forked => CloseWrite
      case Reaping(_) => Reap
      case _ =>
        if s.pipe != [] then ReadErrno
        else match s.child {
          case Entered => Enter
          case Acting(_) => Apply
          case Executing => Exec
          case Reporting(_) => Report
          case _ => ReadEnd
        }
    };
    assert Enabled(c, s, a);
  }

  /** The program runs and holds the pipe, and the parent reads from it. */
  lemma LeakWaits(c: Config) returns (s: State)
    requires WellFormed(c) && LeaksPipe(c)
    ensures Reaches(c, Init(c), s) && !s.parent.Returned? && s.child.Running? && !CanGoOn(c, s)
  {
    assert c.execError.None?;
    s := Effect(c, AtExec(c), Exec);
    ReachesItself(c, s);
    ReachesBack(c, AtExec(c), Exec, s);
    AtExecReached(c, s);
  }

  /** Until the parent returns some step other than a kill or the program's own end is possible: this holds
      of all reachable states exactly when the child does not hand the pipe on to the program. */
  lemma NeverStuckExactly(c: Config)
    requires WellFormed(c)
    ensures !LeaksPipe(c) <==> forall s :: Reaches(c, Init(c), s) && !s.parent.Returned? ==> CanGoOn(c, s)
  {
    if LeaksPipe(c) {
      var s := LeakWaits(c);
    } else {
      forall s | Reaches(c, Init(c), s) && !s.parent.Returned? ensures CanGoOn(c, s) {
        ReachableInv(c, s);
        GoesOn(c, s);
      }
    }
  }

  // ----- lists that leave the pipe alone

  /** No file action names the write end of the error pipe. */
  predicate LeavesPipeAlone(c: Config) {
    forall a :: a in c.acts ==> c.w !in a.Named()
  }

  /** The write end is where pipe() put it, close-on-exec, and nowhere else. */
  ghost predicate OnlyWriter(c: Config, t: Table) {
    && c.w in t && t[c.w] == Desc(PipeWrite, true)
    && forall fd :: fd in t && fd != c.w ==> t[fd].file.Other?
  }

  lemma StepKeepsWriter(c: Config, t: Table, n: nat)
    requires WellFormed(c) && LeavesPipeAlone(c) && n < |c.acts| && OnlyWriter(c, t)
    ensures OnlyWriter(c, StrictStep(t, c.limit, c.acts[n], c.acts[n].Answer(c.fs, n)).t)
  {
    assert c.acts[n] in c.acts;
  }

  lemma {:induction false} RunKeepsWriter(c: Config, t: Table, n: nat)
    requires WellFormed(c) && LeavesPipeAlone(c) && n <= |c.acts| && OnlyWriter(c, t)
    ensures OnlyWriter(c, StrictRun(t, c.limit, c.acts[n..], n, c.fs).t)
    decreases |c.acts| - n
  {
    if n < |c.acts| {
      assert c.acts[n..][0] == c.acts[n] && c.acts[n..][1..] == c.acts[n + 1..];
      StepKeepsWriter(c, t, n);
      var r := StrictStep(t, c.limit, c.acts[n], c.acts[n].Answer(c.fs, n));
      if r.Done? {
        RunKeepsWriter(c, r.t, n + 1);
      }
    }
  }

  /** Such lists meet all three conditions: the child can report, holds on to the pipe, and hands nothing on. */
  lemma LeftAloneIsSafe(c: Config)
    requires WellFormed(c) && LeavesPipeAlone(c)
    ensures CanReport(c) && HoldsOn(c) && !LeaksPipe(c)
  {
    RunKeepsWriter(c, ChildTable(c), 0);
    assert c.acts[0..] == c.acts;
    assert OnlyWriter(c, ChildFate(c).t);
  }
}
