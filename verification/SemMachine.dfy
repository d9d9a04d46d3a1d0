/** `ndk_sem_dec` and `sem_clockwait` as a step machine: any number of callers, at the granularity
    of single atomic operations, interleaved with posts. A compare-exchange may fail spuriously and
    a sleeper may be woken, interrupted or time out at any moment. The futex call compares the word
    with the value it was given and falls asleep in one step, as the kernel promises. */
module SemMachine {
  import opened Common
  import opened SemClockwait

  type Tid = nat

  /** Where the result of `ndk_sem_dec` goes: to its own caller, to the first attempt of
      `sem_clockwait`, or to its loop, which remembers the shared flag it read. */
  datatype Caller = Direct | First | Loop(flag: Bit)

  datatype Phase =
    | Load(c: Caller)                                     // about to load the word
    | Try(c: Caller, seen: uint32, shared: Bit)           // about to test `seen`, then compare-exchange
    | ReadShared                                          // first attempt failed
    | Futex(flag: Bit)                                    // about to call futex
    | Asleep(flag: Bit, posts: nat)                       // since that many posts

  /** A finished call: whose, whether of the decrement alone, what it returned, and how many permits it took. */
  datatype Return = Return(t: Tid, direct: bool, r: int, taken: nat)

  datatype State = State(
    word: uint32,
    calls: map<Tid, Phase>,
    // history
    posts: nat,
    decs: nat,
    log: seq<Return>)

  datatype Action =
    | CallDec(t: Tid)
    | CallWait(t: Tid, clock: int, nsec: Option<int>)   // None stands for no deadline
    | LoadWord(t: Tid)
    | GiveUp(t: Tid)
    | Cas(t: Tid, spurious: bool)
    | LoadFlag(t: Tid)
    | Sleep(t: Tid)
    | Again(t: Tid)          // EAGAIN: the word is not the one passed in
    | Refused(t: Tid)        // any other error but ETIMEDOUT and EINTR
    | Wake(t: Tid)
    | Expire(t: Tid)         // ETIMEDOUT or EINTR
    | Post

  const CLOCK_REALTIME := 0
  const CLOCK_MONOTONIC := 1

  function Init(word: uint32): State {
    State(word, map[], 0, 0, [])
  }

  ghost predicate Enabled(s: State, a: Action) {
    match a
    case CallDec(t) => t !in s.calls
    case CallWait(t, _, _) => t !in s.calls
    case LoadWord(t) => t in s.calls && s.calls[t].Load?
    case GiveUp(t) => t in s.calls && s.calls[t].Try? && ToValue(s.calls[t].seen) <= 0
    case Cas(t, _) => t in s.calls && s.calls[t].Try? && ToValue(s.calls[t].seen) > 0
    case LoadFlag(t) => t in s.calls && s.calls[t].ReadShared?
    case Sleep(t) => t in s.calls && s.calls[t].Futex? && s.word == s.calls[t].flag
    case Again(t) => t in s.calls && s.calls[t].Futex? && s.word != s.calls[t].flag
    case Refused(t) => t in s.calls && s.calls[t].Futex?
    case Wake(t) => t in s.calls && s.calls[t].Asleep?
    case Expire(t) => t in s.calls && s.calls[t].Asleep?
    case Post => Sane(s.word) && ToValue(s.word) < VALUE_MAX
  }

  function Goto(s: State, t: Tid, p: Phase): State {
    s.(calls := s.calls[t := p])
  }

  function Finish(s: State, t: Tid, ret: Return): State {
    s.(calls := s.calls - {t}, log := s.log + [ret])
  }

  /** The decrement found the value not positive. */
  function GiveUpEffect(s: State, t: Tid): State
    requires t in s.calls && s.calls[t].Try?
  {
    match s.calls[t].c
    case Direct => Finish(s, t, Return(t, true, ToValue(s.calls[t].seen), 0))
    case First => Goto(s, t, ReadShared)
    case Loop(flag) => Goto(s, t, Futex(flag))
  }

  function CasEffect(s: State, t: Tid, spurious: bool): State
    requires t in s.calls && s.calls[t].Try?
  {
    var p := s.calls[t];
    if s.word != p.seen || spurious then Goto(s, t, p.(seen := s.word))
    else
      Finish(s, t, Return(t, p.c.Direct?, if p.c.Direct? then ToValue(p.seen) else 0, 1)).(
        word := Decremented(p.seen, p.shared), decs := s.decs + 1)
  }

  function Effect(s: State, a: Action): State
    requires Enabled(s, a)
  {
    match a
    case CallDec(t) => Goto(s, t, Load(Direct))
    case CallWait(t, clock, nsec) =>
      if (clock != CLOCK_MONOTONIC && clock != CLOCK_REALTIME)
         || (nsec.Some? && (nsec.value < 0 || nsec.value >= 1_000_000_000))
      then Finish(s, t, Return(t, false, -1, 0))
      else Goto(s, t, Load(First))
    case LoadWord(t) => Goto(s, t, Try(s.calls[t].c, s.word, SharedBit(s.word)))
    case GiveUp(t) => GiveUpEffect(s, t)
    case Cas(t, spurious) => CasEffect(s, t, spurious)
    case LoadFlag(t) => Goto(s, t, Load(Loop(SharedBit(s.word))))
    case Sleep(t) => Goto(s, t, Asleep(s.calls[t].flag, s.posts))
    case Again(t) => Goto(s, t, Load(Loop(s.calls[t].flag)))
    case Refused(t) => Goto(s, t, Load(Loop(s.calls[t].flag)))
    case Wake(t) => Goto(s, t, Load(Loop(s.calls[t].flag)))
    case Expire(t) => Finish(s, t, Return(t, false, -1, 0))
    case Post => s.(word := Posted(s.word), posts := s.posts + 1)
  }

  // ----- invariant

  /** Value, posts and decrements balance; the shared flag is the initial one. */
  ghost predicate WordInv(w0: uint32, s: State) {
    && Sane(s.word) && SharedBit(s.word) == SharedBit(w0)
    && ToValue(s.word) == ToValue(w0) + s.posts - s.decs
  }

  ghost predicate PhaseInv(w0: uint32, s: State, p: Phase) {
    match p
    case Load(c) => c.Loop? ==> c.flag == SharedBit(w0)
    case Try(c, seen, shared) =>
      && (c.Loop? ==> c.flag == SharedBit(w0))
      && Sane(seen) && SharedBit(seen) == shared == SharedBit(w0)
    case ReadShared => true
    case Futex(flag) => flag == SharedBit(w0)
    case Asleep(flag, posts) =>
      flag == SharedBit(w0) && posts <= s.posts && ToValue(s.word) <= s.posts - posts
  }

  /** What a return value says about the permits taken. */
  ghost predicate Honest(r: Return) {
    && r.taken <= 1
    && (r.direct ==> (r.r > 0 <==> r.taken == 1))
    && (!r.direct ==> (r.r == 0 <==> r.taken == 1) && (r.r == -1 <==> r.taken == 0))
  }

  ghost predicate Inv(w0: uint32, s: State) {
    && WordInv(w0, s)
    && (forall t :: t in s.calls ==> PhaseInv(w0, s, s.calls[t]))
    && (forall n :: 0 <= n < |s.log| ==> Honest(s.log[n]))
    && s.decs == Permits(s.log)
  }

  /** Permits handed out by finished calls. */
  function Permits(log: seq<Return>): nat
    decreases |log|
  {
    if log == [] then 0 else Permits(log[..|log| - 1]) + log[|log| - 1].taken
  }

  lemma FinishPermits(log: seq<Return>, r: Return)
    ensures Permits(log + [r]) == Permits(log) + r.taken
  {
    assert (log + [r])[..|log|] == log;
  }

  lemma CasKeeps(w0: uint32, s: State, t: Tid, spurious: bool)
    requires Inv(w0, s) && Enabled(s, Cas(t, spurious))
    ensures Inv(w0, CasEffect(s, t, spurious))
  {
    var p := s.calls[t];
    if s.word == p.seen && !spurious {
      DecrementedValue(s.word);
      FinishPermits(s.log, Return(t, p.c.Direct?, if p.c.Direct? then ToValue(p.seen) else 0, 1));
    }
  }

  lemma GotoKeeps(w0: uint32, s: State, t: Tid, p: Phase)
    requires Inv(w0, s) && PhaseInv(w0, s, p)
    ensures Inv(w0, Goto(s, t, p))
  {
  }

  lemma FinishKeeps(w0: uint32, s: State, t: Tid, r: Return)
    requires Inv(w0, s) && Honest(r) && r.taken == 0
    ensures Inv(w0, Finish(s, t, r))
  {
    FinishPermits(s.log, r);
  }

  lemma PostKeeps(w0: uint32, s: State)
    requires Inv(w0, s) && Enabled(s, Post)
    ensures Inv(w0, Effect(s, Post))
  {
    PostedValue(s.word);
  }

  lemma EffectKeeps(w0: uint32, s: State, a: Action)
    requires Inv(w0, s) && Enabled(s, a)
    ensures Inv(w0, Effect(s, a))
  {
    match a
    case CallDec(t) => GotoKeeps(w0, s, t, Load(Direct));
    case CallWait(t, _, _) =>
      GotoKeeps(w0, s, t, Load(First));
      FinishKeeps(w0, s, t, Return(t, false, -1, 0));
    case LoadWord(t) => GotoKeeps(w0, s, t, Try(s.calls[t].c, s.word, SharedBit(s.word)));
    case GiveUp(t) =>
      match s.calls[t].c {
        case Direct => FinishKeeps(w0, s, t, Return(t, true, ToValue(s.calls[t].seen), 0));
        case First => GotoKeeps(w0, s, t, ReadShared);
        case Loop(flag) => GotoKeeps(w0, s, t, Futex(flag));
      }
    case Cas(t, spurious) => CasKeeps(w0, s, t, spurious);
    case LoadFlag(t) => GotoKeeps(w0, s, t, Load(Loop(SharedBit(s.word))));
    case Sleep(t) => GotoKeeps(w0, s, t, Asleep(s.calls[t].flag, s.posts));
    case Again(t) => GotoKeeps(w0, s, t, Load(Loop(s.calls[t].flag)));
    case Refused(t) => GotoKeeps(w0, s, t, Load(Loop(s.calls[t].flag)));
    case Wake(t) => GotoKeeps(w0, s, t, Load(Loop(s.calls[t].flag)));
    case Expire(t) => FinishKeeps(w0, s, t, Return(t, false, -1, 0));
    case Post => PostKeeps(w0, s);
  }

  // ----- whole runs

  ghost predicate Run(s: State, acts: seq<Action>, s': State)
    decreases |acts|
  {
    if acts == [] then s' == s
    else Enabled(s, acts[0]) && Run(Effect(s, acts[0]), acts[1..], s')
  }

  lemma {:induction false} RunKeeps(w0: uint32, s: State, acts: seq<Action>, s': State)
    requires Inv(w0, s) && Run(s, acts, s')
    ensures Inv(w0, s')
    decreases |acts|
  {
    if acts != [] {
      EffectKeeps(w0, s, acts[0]);
      RunKeeps(w0, Effect(s, acts[0]), acts[1..], s');
    }
  }

  /** In every run the value is the initial value plus the posts minus the permits of the calls that
      finished, it stays between 0 and SEM_VALUE_MAX, and the shared flag never changes. */
  lemma PermitsAreConserved(w0: uint32, acts: seq<Action>, s: State)
    requires Sane(w0) && Run(Init(w0), acts, s)
    ensures ToValue(s.word) == ToValue(w0) + s.posts - Permits(s.log)
    ensures 0 <= ToValue(s.word) <= VALUE_MAX && SharedBit(s.word) == SharedBit(w0)
  {
    RunKeeps(w0, Init(w0), acts, s);
  }

  /** `ndk_sem_dec` returns a positive value, and `sem_clockwait` returns 0, exactly when the call
      took one permit; otherwise it took none. */
  lemma ReturnsAreHonest(w0: uint32, acts: seq<Action>, s: State, n: nat)
    requires Sane(w0) && Run(Init(w0), acts, s) && n < |s.log|
    ensures Honest(s.log[n])
  {
    RunKeeps(w0, Init(w0), acts, s);
  }

  /** The futex call puts a thread to sleep exactly when the value is 0 at that instant. */
  lemma SleepsOnlyAtZero(w0: uint32, acts: seq<Action>, s: State, t: Tid)
    requires Sane(w0) && Run(Init(w0), acts, s) && t in s.calls && s.calls[t].Futex?
    ensures Enabled(s, Sleep(t)) <==> ToValue(s.word) == 0
    ensures Enabled(s, Again(t)) <==> ToValue(s.word) > 0
  {
    RunKeeps(w0, Init(w0), acts, s);
  }

  /** No post is slept through: while a thread is asleep, every permit available was posted after it
      fell asleep. So a post ordered before the futex call makes that call answer EAGAIN. */
  lemma SleeperMissesNoPost(w0: uint32, acts: seq<Action>, s: State, t: Tid)
    requires Sane(w0) && Run(Init(w0), acts, s) && t in s.calls && s.calls[t].Asleep?
    ensures s.calls[t].posts <= s.posts && ToValue(s.word) <= s.posts - s.calls[t].posts
  {
    RunKeeps(w0, Init(w0), acts, s);
  }

  // ----- why calls return

  /** The calls among `log` that returned -1 from `sem_clockwait`, in order. */
  function GaveUp(log: seq<Return>): seq<Tid>
    decreases |log|
  {
    if log == [] then []
    else
      var r := log[|log| - 1];
      GaveUp(log[..|log| - 1]) + if !r.direct && r.r == -1 then [r.t] else []
  }

  /** The call that an action ends by a bad argument, the deadline or a signal. */
  function Ends(a: Action): seq<Tid> {
    match a
    case CallWait(t, clock, nsec) =>
      if clock in {CLOCK_REALTIME, CLOCK_MONOTONIC} && (nsec.Some? ==> 0 <= nsec.value <= 999_999_999) then [] else [t]
    case Expire(t) => [t]
    case _ => []
  }

  function Ended(acts: seq<Action>): seq<Tid>
    decreases |acts|
  {
    if acts == [] then [] else Ends(acts[0]) + Ended(acts[1..])
  }

  lemma GaveUpSnoc(log: seq<Return>, r: Return)
    ensures GaveUp(log + [r]) == GaveUp(log) + if !r.direct && r.r == -1 then [r.t] else []
  {
    assert (log + [r])[..|log|] == log;
  }

  lemma GaveUpSame(s: State, s': State)
    requires s'.log == s.log || exists r :: s'.log == s.log + [r] && (r.direct || r.r != -1)
    ensures GaveUp(s'.log) == GaveUp(s.log)
  {
    if s'.log != s.log {
      var r :| s'.log == s.log + [r] && (r.direct || r.r != -1);
      GaveUpSnoc(s.log, r);
    }
  }

  lemma StepEnds(s: State, a: Action)
    requires Enabled(s, a)
    ensures GaveUp(Effect(s, a).log) == GaveUp(s.log) + Ends(a)
  {
    var s' := Effect(s, a);
    if Ends(a) != [] {
      GaveUpSnoc(s.log, Return(a.t, false, -1, 0));
    } else {
      if s'.log != s.log {
        assert s'.log == s.log + [s'.log[|s.log|]];
      }
      GaveUpSame(s, s');
    }
  }

  lemma {:induction false} RunEnds(s: State, acts: seq<Action>, s': State)
    requires Run(s, acts, s')
    ensures GaveUp(s'.log) == GaveUp(s.log) + Ended(acts)
    decreases |acts|
  {
    if acts != [] {
      StepEnds(s, acts[0]);
      RunEnds(Effect(s, acts[0]), acts[1..], s');
    }
  }

  /** In every run the calls of `sem_clockwait` that returned -1 are exactly those that were given a bad clock or
      time, reached their deadline or were interrupted, in the order of those events. */
  lemma OnlyEndedGiveUp(w0: uint32, acts: seq<Action>, s: State)
    requires Run(Init(w0), acts, s)
    ensures GaveUp(s.log) == Ended(acts)
  {
    RunEnds(Init(w0), acts, s);
  }

  /** What a finished decrement returns: the value at that instant, which it lowered by one if it was positive;
      otherwise a value that was not positive when it was read. */
  lemma DecrementReturnsValue(w0: uint32, acts: seq<Action>, s: State, a: Action)
    requires Sane(w0) && Run(Init(w0), acts, s) && Enabled(s, a)
    requires |Effect(s, a).log| > |s.log| && Effect(s, a).log[|s.log|].direct
    ensures var s', r := Effect(s, a), Effect(s, a).log[|s.log|].r;
            if r > 0 then r == ToValue(s.word) && ToValue(s'.word) == r - 1
            else a.GiveUp? && r == ToValue(s.calls[a.t].seen) && s'.word == s.word
  {
    RunKeeps(w0, Init(w0), acts, s);
    if a.Cas? {
      DecrementedValue(s.word);
    }
  }

  // ----- a call that is left alone takes a permit that is there

  /** The call of thread `t` is a `sem_clockwait`. */
  predicate Waits(s: State, t: Tid) {
    t in s.calls
    && match s.calls[t]
       case Load(c) => !c.Direct?
       case Try(c, _, _) => !c.Direct?
       case _ => true
  }

  /** The next step of thread `t` itself, if it is not asleep: nothing fails that need not. */
  function OwnStep(s: State, t: Tid): Action
    requires t in s.calls
  {
    match s.calls[t]
    case Load(_) => LoadWord(t)
    case Try(_, seen, _) => if ToValue(seen) <= 0 then GiveUp(t) else Cas(t, false)
    case ReadShared => LoadFlag(t)
    case Futex(flag) => if s.word == flag then Sleep(t) else Again(t)
    case Asleep(_, _) => Wake(t)
  }

  /** How many own steps are left, while the value is positive. */
  function StepsLeft(s: State, t: Tid): nat
    requires t in s.calls
  {
    match s.calls[t]
    case Load(_) => 2
    case Try(_, seen, _) => if seen == s.word then 1 else if ToValue(seen) > 0 then 2 else 5
    case ReadShared => 3
    case Futex(_) => 3
    case Asleep(_, _) => 3
  }

  /** One own step: it takes the permit and returns 0, or gets nearer. */
  lemma OwnStepHelps(w0: uint32, s: State, t: Tid)
    requires Inv(w0, s) && Waits(s, t) && ToValue(s.word) > 0
    ensures var a, s' := OwnStep(s, t), Effect(s, OwnStep(s, t));
            && Enabled(s, a)
            && (if StepsLeft(s, t) == 1 then
                  s'.log == s.log + [Return(t, false, 0, 1)] && ToValue(s'.word) == ToValue(s.word) - 1
                else
                  && Waits(s', t) && StepsLeft(s', t) < StepsLeft(s, t)
                  && s'.word == s.word && s'.log == s.log)
  {
    DecrementedValue(s.word);
  }

  /** From any point inside `sem_clockwait`, asleep or not: if the value is positive and no other thread steps
      in, the call takes a permit and returns 0, after at most five steps. */
  lemma {:induction false} LeftAloneTakes(w0: uint32, s: State, t: Tid) returns (acts: seq<Action>, s': State)
    requires Inv(w0, s) && Waits(s, t) && ToValue(s.word) > 0
    ensures Run(s, acts, s') && |acts| <= StepsLeft(s, t) <= 5
    ensures forall a :: a in acts ==> !a.Post? && a.t == t
    ensures s'.log == s.log + [Return(t, false, 0, 1)] && ToValue(s'.word) == ToValue(s.word) - 1
    decreases StepsLeft(s, t)
  {
    var a := OwnStep(s, t);
    OwnStepHelps(w0, s, t);
    EffectKeeps(w0, s, a);
    if StepsLeft(s, t) == 1 {
      acts, s' := [], Effect(s, a);
    } else {
      acts, s' := LeftAloneTakes(w0, Effect(s, a), t);
    }
    assert ([a] + acts)[1..] == acts;
    acts := [a] + acts;
  }

  /** Being woken, refused or told that the word has changed is never the end of a call: its next step is
      the load of another decrement. */
  lemma TriesAgain(s: State, a: Action, b: Action)
    requires (a.Wake? || a.Again? || a.Refused?) && Enabled(s, a)
    requires !b.Post? && b.t == a.t && Enabled(Effect(s, a), b)
    ensures Waits(Effect(s, a), a.t) && b == LoadWord(a.t)
  {
  }
}
