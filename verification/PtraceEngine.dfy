/** `crates/syren-trace/src/ptrace.rs`: the `PtraceTracer` state machine.

    Everything the engine asks of the operating system while it deals with one wait
    status is an `Answers` value; a failed call is an answer too. The functions say
    what one step does to the fields, taken as a value (`State`). */
module PtraceEngine {
  import opened Common

  type Signo = nat
  const SIGTRAP: Signo := 5
  const SIGSTOP: Signo := 19

  const EVENT_FORK := 1
  const EVENT_VFORK := 2
  const EVENT_CLONE := 3
  const EVENT_EXEC := 4

  datatype Regs = Regs(origRax: U64, rax: U64, args: Args)

  datatype Inflight = Inflight(nr: U64, args: Args, enterNs: U64)

  /** One `PTRACE_SYSCALL` request: which tracee to let go, and with which signal. */
  datatype Resume = Resume(pid: Pid, sig: Option<Signo>)

  /** `nix::sys::wait::WaitStatus` as far as the engine looks at it. */
  datatype WaitStatus =
    | PtraceSyscall(pid: Pid)
    | Exited(pid: Pid, code: int)
    | Signaled(pid: Pid, sig: Signo)
    | PtraceEvent(pid: Pid, event: nat)
    | Stopped(pid: Pid, sig: Signo)
    | Continued(pid: Pid)
    | StillAlive

  /** What the system answers while one status is handled: the registers, the clock,
      the `Tgid:` line of /proc, the event message, and whether the resume succeeds. */
  datatype Answers = Answers(
    regs: Option<Regs>, now: U64, tgid: Option<Pid>, child: Option<Pid>, resumes: bool)

  /** The fields of the engine, and every resume request that succeeded so far. */
  datatype State = State(
    follow: bool,
    live: set<Pid>,
    inflight: map<Pid, Inflight>,
    tgid: map<Pid, Pid>,
    pending: Option<Resume>,
    issued: seq<Resume>)

  /** `Result<Option<Event>>` of one step. */
  datatype Outcome = Quiet | Emit(event: Event) | Fail

  datatype Handled = Handled(state: State, outcome: Outcome)

  function TgidOf(s: State, pid: Pid, answer: Option<Pid>): (State, Pid) {
    if pid in s.tgid then (s, s.tgid[pid])
    else
      var t := if answer.Some? then answer.value else pid;
      (s.(tgid := s.tgid[pid := t]), t)
  }

  function Forget(s: State, pid: Pid): State {
    s.(live := s.live - {pid}, inflight := s.inflight - {pid}, tgid := s.tgid - {pid})
  }

  /** `ptrace::syscall(pid, sig)?` followed by `next`. */
  function Resumed(s: State, r: Resume, succeeds: bool, next: Outcome): Handled {
    if succeeds then Handled(s.(issued := s.issued + [r]), next) else Handled(s, Fail)
  }

  function OnSyscallStop(s: State, pid: Pid, a: Answers): Handled {
    if pid in s.inflight then
      var enter := s.inflight[pid];
      var s1 := s.(inflight := s.inflight - {pid});
      if a.regs.None? then Handled(s1, Fail)
      else
        var (s2, tgid) := TgidOf(s1.(pending := Some(Resume(pid, None))), pid, a.tgid);
        Handled(s2, Emit(Syscall(SyscallEvent(
          tgid, pid, enter.nr, enter.args, AsI64(a.regs.value.rax),
          enter.enterNs, SatSub(a.now, enter.enterNs)))))
    else if a.regs.None? then Handled(s, Fail)
    else
      var enter := Inflight(a.regs.value.origRax, a.regs.value.args, a.now);
      Resumed(s.(inflight := s.inflight[pid := enter]), Resume(pid, None), a.resumes, Quiet)
  }

  /** The signal to pass on: the stops the engine itself causes are swallowed. */
  function Deliverable(sig: Signo): Option<Signo> {
    if sig == SIGSTOP || sig == SIGTRAP then None else Some(sig)
  }

  function Handle(s: State, status: WaitStatus, a: Answers): Handled {
    match status
    case PtraceSyscall(pid) => OnSyscallStop(s, pid, a)
    case Exited(pid, code) =>
      var (s1, tgid) := TgidOf(s, pid, a.tgid);
      Handled(Forget(s1, pid), Emit(ProcessExit(tgid, code)))
    case Signaled(pid, sig) =>
      var (s1, tgid) := TgidOf(s, pid, a.tgid);
      Handled(Forget(s1, pid), Emit(ProcessExit(tgid, 128 + sig)))
    case PtraceEvent(pid, event) =>
      var s1 :=
        if event == EVENT_EXEC then s.(inflight := s.inflight - {pid})
        else if s.follow && event in {EVENT_FORK, EVENT_VFORK, EVENT_CLONE} && a.child.Some?
        then s.(live := s.live + {a.child.value})
        else s;
      Resumed(s1, Resume(pid, None), a.resumes, Quiet)
    case Stopped(pid, sig) =>
      if !a.resumes then Handled(s, Fail)
      else
        var s1 := s.(issued := s.issued + [Resume(pid, Deliverable(sig))]);
        if Deliverable(sig).None? then Handled(s1, Quiet)
        else
          var (s2, tgid) := TgidOf(s1, pid, a.tgid);
          Handled(s2, Emit(Signal(tgid, sig)))
    case Continued(_) => Handled(s, Quiet)
    case StillAlive => Handled(s, Quiet)
  }

  /** Letting go of the tracee left stopped at its syscall exit by the previous call. */
  function TakePending(s: State, succeeds: bool): Handled {
    if s.pending.None? then Handled(s, Quiet)
    else Resumed(s.(pending := None), s.pending.value, succeeds, Quiet)
  }

  /** One reply of `waitpid`. */
  datatype Wait = Got(status: WaitStatus, answers: Answers) | NoChild | WaitFailed

  /** How a call of `next_event` ends; `Blocked` when `waitpid` has no reply yet. */
  datatype Verdict = Ready(event: Event) | Done | Failed | Blocked

  datatype CallResult = CallResult(state: State, verdict: Verdict, used: nat)

  /** `next_event`, fed with the replies of `waitpid` in order. */
  function NextEvent(s: State, resumes: bool, waits: seq<Wait>): (r: CallResult)
    ensures r.used <= |waits|
    decreases |waits|
  {
    var taken := TakePending(s, resumes);
    if taken.outcome.Fail? then CallResult(taken.state, Failed, 0)
    else if taken.state.live == {} then CallResult(taken.state, Done, 0)
    else if waits == [] then CallResult(taken.state, Blocked, 0)
    else
      match waits[0]
      case NoChild => CallResult(taken.state, Done, 1)
      case WaitFailed => CallResult(taken.state, Failed, 1)
      case Got(status, answers) =>
        var h := Handle(taken.state, status, answers);
        match h.outcome
        case Emit(event) => CallResult(h.state, Ready(event), 1)
        case Fail => CallResult(h.state, Failed, 1)
        case Quiet =>
          var rest := NextEvent(h.state, resumes, waits[1..]);
          CallResult(rest.state, rest.verdict, rest.used + 1)
  }
}
