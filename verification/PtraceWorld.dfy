/** The ptrace engine and the kernel it listens to, run together.

    The kernel is any environment that stops tracees in any interleaving, subject to
    ptrace(2): a tracee does nothing while it is stopped; entry and exit stops
    alternate; event stops are reported only if they were asked for (`configure`
    asks for them only when following) and an exec or fork event comes between the
    entry and the exit stop of its call; a new tracee starts outside a call.
    A stop is handed over by `waitpid` some time after it began; the history of a
    tracee (`acts`, `execd`) advances at the hand-over, nothing happens to it in between. */
module PtraceWorld {
  import opened Common
  import opened PtraceEngine

  datatype Stop =
    | EnterStop(regs: Regs)
    | ExitStop(regs: Regs)
    | ExecStop
    | ForkStop(event: nat, child: Pid, tgid: Pid)
    | SignalStop(sig: Signo)
    | Death(code: int)
    | Killed(sig: Signo)

  datatype Motion = Running | Waiting(stop: Stop) | Held | Gone

  /** One traced thread, of process `tgid`. `base` is how many syscall events carried its tid
      before this life began; `born` orders the births of a run. */
  datatype Tracee = Tracee(
    motion: Motion, acts: seq<Act>, execd: bool, creator: Pid, born: nat, base: nat, tgid: Pid)

  /** A death or a signal there was to tell, of thread `tid`. `known` says that its process can be
      told: by looking it up, from the cache, or because thread and process have the same id. */
  datatype Notice = Notice(event: Event, tid: Pid, known: bool)

  /** The system. `out` is everything `next_event` has returned; `happened` are the deaths and the
      signals it should have told of; `procReadable` says that the status of a thread that has not
      been reaped can always be read. */
  datatype Sys = Sys(
    tracees: map<Pid, Tracee>,
    tr: State,
    out: seq<Event>,
    delivered: seq<WaitStatus>,
    clock: U64,
    births: nat,
    happened: seq<Notice>,
    procReadable: bool)

  datatype Label =
    | Stops(tid: Pid, stop: Stop)                              // the kernel stops a tracee
    | LetGo                                                    // next_event resumes the pending one
    | Deliver(tid: Pid, now: U64, tgidAnswer: Option<Pid>)     // waitpid replies, the engine handles it

  predicate Living(s: Sys, t: Pid) {
    t in s.tracees && !s.tracees[t].motion.Gone?
  }

  /** What ptrace(2) says about when a stop can occur. */
  predicate StopAllowed(s: Sys, t: Pid, stop: Stop)
    requires t in s.tracees
  {
    match stop
    case EnterStop(_) => !InCall(s.tracees[t].acts)
    case ExitStop(_) => InCall(s.tracees[t].acts)
    case ExecStop => s.tr.follow && InCall(s.tracees[t].acts)
    case ForkStop(event, _, _) =>
      s.tr.follow && InCall(s.tracees[t].acts) && event in {1, 2, 3}
    case _ => true
  }

  predicate Dying(stop: Stop) {
    stop.Death? || stop.Killed?
  }

  predicate SyscallStop(stop: Stop) {
    stop.EnterStop? || stop.ExitStop?
  }

  /** What /proc says of a thread whose stop has just been handed over. A dead thread that does not
      lead its process was reaped by that, so there is nothing left to read. */
  predicate TgidAnswers(k: Tracee, t: Pid, procReadable: bool, answer: Option<Pid>)
    requires k.motion.Waiting?
  {
    && (answer.Some? ==> answer.value == k.tgid)
    && (if Dying(k.motion.stop) then t != k.tgid ==> answer.None? else procReadable ==> answer.Some?)
  }

  predicate Enabled(s: Sys, l: Label) {
    match l
    case Stops(t, stop) => t in s.tracees && s.tracees[t].motion.Running? && StopAllowed(s, t, stop)
                         && (stop.ForkStop? ==> !Living(s, stop.child))
    case LetGo => s.tr.pending.Some?
    case Deliver(t, now, tgidAnswer) =>
      && s.tr.pending.None? && s.tr.live != {}
      && t in s.tracees && s.tracees[t].motion.Waiting? && s.clock <= now
      && TgidAnswers(s.tracees[t], t, s.procReadable, tgidAnswer)
  }

  /** What `waitpid` reports for a stop, in the numbers of the kernel: an exec event is 4, and the events
      for fork, vfork and clone are 1, 2 and 3. */
  function StatusOf(t: Pid, stop: Stop): WaitStatus {
    match stop
    case EnterStop(_) => PtraceSyscall(t)
    case ExitStop(_) => PtraceSyscall(t)
    case ExecStop => PtraceEvent(t, 4)
    case ForkStop(event, _, _) => PtraceEvent(t, event)
    case SignalStop(sig) => Stopped(t, sig)
    case Death(code) => Exited(t, code)
    case Killed(sig) => Signaled(t, sig)
  }

  const NO_REGS := Regs(0, 0, [0, 0, 0, 0, 0, 0])

  /** The answers of a system in which no ptrace call fails. */
  function AnswersOf(stop: Stop, now: U64, tgidAnswer: Option<Pid>): Answers {
    Answers(Some(if SyscallStop(stop) then stop.regs else NO_REGS), now, tgidAnswer,
            if stop.ForkStop? then Some(stop.child) else None, true)
  }

  function ActsAfter(acts: seq<Act>, stop: Stop): seq<Act> {
    match stop
    case EnterStop(regs) => acts + [Enter(regs.origRax, regs.args)]
    case ExitStop(regs) => acts + [Exit(TwosComplement(regs.rax))]
    case _ => acts
  }

  /** The tracee once its stop has been handed over: dead, or held until resumed. */
  function HandedOver(k: Tracee): Tracee
    requires k.motion.Waiting?
  {
    var stop := k.motion.stop;
    k.(motion := if Dying(stop) then Gone else Held,
       acts := ActsAfter(k.acts, stop),
       execd := k.execd || stop.ExecStop?)
  }

  /** What a stop of `t` gives the engine to tell besides syscalls; `cached` if it already knows
      the process of `t`. */
  function Happening(k: Tracee, t: Pid, cached: bool): (notices: seq<Notice>)
    requires k.motion.Waiting?
    ensures |notices| <= 1
  {
    match k.motion.stop
    case Death(code) => [Notice(ProcessExit(k.tgid, code), t, cached || t == k.tgid)]
    case Killed(sig) => [Notice(ProcessExit(k.tgid, 128 + sig), t, cached || t == k.tgid)]
    case SignalStop(sig) =>
      if sig == 19 || sig == 5 then [] else [Notice(Event.Signal(k.tgid, sig), t, true)]
    case _ => []
  }

  /** The kernel side of resume requests; one for a tracee that is not held has no effect. */
  function Released(tracees: map<Pid, Tracee>, requests: seq<Resume>): (r: map<Pid, Tracee>)
    ensures r.Keys == tracees.Keys
  {
    if requests == [] then tracees
    else
      var before := Released(tracees, requests[..|requests| - 1]);
      var t := requests[|requests| - 1].pid;
      if t in before && before[t].motion.Held?
      then before[t := before[t].(motion := Running)]
      else before
  }

  function StopsStep(s: Sys, t: Pid, stop: Stop): Sys
    requires Enabled(s, Stops(t, stop))
  {
    var tracees := s.tracees[t := s.tracees[t].(motion := Waiting(stop))];
    if stop.ForkStop? then
      var newborn := Tracee(Running, [], false, t, s.births, |EventsOf(s.out, stop.child)|, stop.tgid);
      s.(tracees := tracees[stop.child := newborn], births := s.births + 1)
    else s.(tracees := tracees)
  }

  function Emitted(o: Outcome): seq<Event> {
    if o.Emit? then [o.event] else []
  }

  /** The engine moves to `h`; the resume requests it issued reach the kernel. */
  function EngineStep(s: Sys, tracees: map<Pid, Tracee>, h: Handled): Sys
    requires |s.tr.issued| <= |h.state.issued|
  {
    s.(tracees := Released(tracees, h.state.issued[|s.tr.issued|..]),
       tr := h.state,
       out := s.out + Emitted(h.outcome))
  }

  function Step(s: Sys, l: Label): Sys
    requires Enabled(s, l)
  {
    match l
    case Stops(t, stop) => StopsStep(s, t, stop)
    case LetGo => EngineStep(s, s.tracees, TakePending(s.tr, true))
    case Deliver(t, now, tgidAnswer) =>
      var stop := s.tracees[t].motion.stop;
      var h := Handle(s.tr, StatusOf(t, stop), AnswersOf(stop, now, tgidAnswer));
      EngineStep(s, s.tracees[t := HandedOver(s.tracees[t])], h)
        .(delivered := s.delivered + [StatusOf(t, stop)], clock := now,
          happened := s.happened + Happening(s.tracees[t], t, t in s.tr.tgid))
  }

  /** The request each stop deserves: its own signal, unless that is SIGSTOP (19) or SIGTRAP (5). */
  function Owed(status: WaitStatus): seq<Resume> {
    match status
    case PtraceSyscall(t) => [Resume(t, None)]
    case PtraceEvent(t, _) => [Resume(t, None)]
    case Stopped(t, sig) => [Resume(t, if sig == 19 || sig == 5 then None else Some(sig))]
    case _ => []
  }

  function OwedFor(delivered: seq<WaitStatus>): seq<Resume> {
    if delivered == [] then []
    else OwedFor(delivered[..|delivered| - 1]) + Owed(delivered[|delivered| - 1])
  }

  /** A run may start from any engine that has just been set up: every traced thread
      is running outside a call, the stops of the set-up have been answered, and nothing
      has been reported. */
  predicate Init(s: Sys) {
    && s.tr.live == s.tracees.Keys
    && s.tr.inflight == map[] && s.tr.pending.None?
    && s.tr.tgid.Keys <= s.tr.live
    && (forall t :: t in s.tr.tgid ==> s.tr.tgid[t] == s.tracees[t].tgid)
    && s.out == [] && s.happened == [] && s.tr.issued == OwedFor(s.delivered)
    && forall t :: t in s.tracees ==>
         s.tracees[t].motion.Running? && s.tracees[t].acts == [] && !s.tracees[t].execd
         && s.tracees[t].base == 0 && s.tracees[t].born < s.births
  }

  ghost predicate IsRun(s: Sys, labels: seq<Label>)
    decreases |labels|
  {
    labels != [] ==> Enabled(s, labels[0]) && IsRun(Step(s, labels[0]), labels[1..])
  }

  ghost function Run(s: Sys, labels: seq<Label>): Sys
    requires IsRun(s, labels)
    decreases |labels|
  {
    if labels == [] then s else Run(Step(s, labels[0]), labels[1..])
  }

  ghost predicate Reachable(s: Sys) {
    exists s0, labels :: Init(s0) && IsRun(s0, labels) && Run(s0, labels) == s
  }

  /** A stop that has begun stays the kind of stop that could occur. */
  ghost predicate StopsAllowed(s: Sys) {
    forall t :: t in s.tracees && s.tracees[t].motion.Waiting? ==> StopAllowed(s, t, s.tracees[t].motion.stop)
  }
}
