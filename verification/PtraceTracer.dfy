/** The ptrace engine in the form it has in `crates/syren-trace/src/ptrace.rs`: an object
    whose methods update its fields, each method proved against its function in
    `PtraceEngine`. */
module PtraceObject {
  import opened Common
  import opened PtraceEngine
  import Engine = PtraceEngine

  class PtraceTracer {
    const follow: bool
    var live: set<Pid>
    var inflight: map<Pid, Inflight>
    var tgid: map<Pid, Pid>
    var pending: Option<Resume>
    var leader: Option<Pid>
    /** Every `PTRACE_SYSCALL` request that succeeded, oldest first. */
    var issued: seq<Resume>

    ghost function View(): State
      reads this
    {
      State(follow, live, inflight, tgid, pending, issued)
    }

    /** `spawn`: the child sits at its first stop, is configured and let go. */
    constructor Spawn(child: Pid, follow: bool)
      ensures View() == State(follow, {child}, map[], map[child := child], None, [Resume(child, None)])
      ensures leader == Some(child)
    {
      this.follow := follow;
      live, inflight, tgid := {child}, map[], map[child := child];
      pending, leader, issued := None, Some(child), [Resume(child, None)];
    }

    constructor Empty(follow: bool)
      ensures View() == State(follow, {}, map[], map[], None, []) && leader == None
    {
      this.follow := follow;
      live, inflight, tgid := {}, map[], map[];
      pending, leader, issued := None, None, [];
    }

    /** `attach`: every pid is attached, configured and let go in turn; with none supplied there
        is nothing to trace. */
    static method Attach(pids: seq<Pid>, follow: bool) returns (tracer: Option<PtraceTracer>)
      ensures tracer.None? <==> pids == []
      ensures tracer.Some? ==>
        && fresh(tracer.value) && tracer.value.leader == Some(pids[0])
        && tracer.value.View()
           == State(follow, set p | p in pids, map[], map[], None,
                    seq(|pids|, i requires 0 <= i < |pids| => Resume(pids[i], None)))
    {
      if pids == [] {
        return None;
      }
      var t := new PtraceTracer.Empty(follow);
      t.leader := Some(pids[0]);
      for k := 0 to |pids|
        invariant t.leader == Some(pids[0])
        invariant t.View() == State(follow, set p | p in pids[..k], map[], map[], None,
                                    seq(k, i requires 0 <= i < k => Resume(pids[i], None)))
      {
        assert pids[..k + 1] == pids[..k] + [pids[k]];
        t.live := t.live + {pids[k]};
        t.issued := t.issued + [Resume(pids[k], None)];
      }
      assert pids[..|pids|] == pids;
      tracer := Some(t);
    }

    method TgidOf(pid: Pid, answer: Option<Pid>) returns (t: Pid)
      modifies this`tgid
      ensures (View(), t) == Engine.TgidOf(old(View()), pid, answer)
    {
      if pid in tgid {
        return tgid[pid];
      }
      t := if answer.Some? then answer.value else pid;
      tgid := tgid[pid := t];
    }

    method Forget(pid: Pid)
      modifies this`live, this`inflight, this`tgid
      ensures View() == Engine.Forget(old(View()), pid)
    {
      live := live - {pid};
      inflight := inflight - {pid};
      tgid := tgid - {pid};
    }

    method OnSyscallStop(pid: Pid, a: Answers) returns (o: Outcome)
      modifies this
      ensures Handled(View(), o) == Engine.OnSyscallStop(old(View()), pid, a)
      ensures leader == old(leader)
    {
      if pid in inflight {
        var enter := inflight[pid];
        inflight := inflight - {pid};
        if a.regs.None? {
          return Fail;
        }
        pending := Some(Resume(pid, None));
        var t := TgidOf(pid, a.tgid);
        o := Emit(Syscall(SyscallEvent(
          t, pid, enter.nr, enter.args, AsI64(a.regs.value.rax),
          enter.enterNs, SatSub(a.now, enter.enterNs))));
      } else {
        if a.regs.None? {
          return Fail;
        }
        inflight := inflight[pid := Inflight(a.regs.value.origRax, a.regs.value.args, a.now)];
        if !a.resumes {
          return Fail;
        }
        issued := issued + [Resume(pid, None)];
        o := Quiet;
      }
    }

    method Handle(status: WaitStatus, a: Answers) returns (o: Outcome)
      modifies this
      ensures Handled(View(), o) == Engine.Handle(old(View()), status, a)
      ensures leader == old(leader)
    {
      match status {
        case PtraceSyscall(pid) =>
          o := OnSyscallStop(pid, a);
        case Exited(pid, code) =>
          var t := TgidOf(pid, a.tgid);
          Forget(pid);
          o := Emit(ProcessExit(t, code));
        case Signaled(pid, sig) =>
          var t := TgidOf(pid, a.tgid);
          Forget(pid);
          o := Emit(ProcessExit(t, 128 + sig));
        case PtraceEvent(pid, event) =>
          if event == EVENT_EXEC {
            inflight := inflight - {pid};
          } else if follow && event in {EVENT_FORK, EVENT_VFORK, EVENT_CLONE} {
            if a.child.Some? {
              live := live + {a.child.value};
            }
          }
          if !a.resumes {
            return Fail;
          }
          issued := issued + [Resume(pid, None)];
          o := Quiet;
        case Stopped(pid, sig) =>
          if !a.resumes {
            return Fail;
          }
          issued := issued + [Resume(pid, Deliverable(sig))];
          if Deliverable(sig).None? {
            return Quiet;
          }
          var t := TgidOf(pid, a.tgid);
          o := Emit(Signal(t, sig));
        case Continued(_) =>
          o := Quiet;
        case StillAlive =>
          o := Quiet;
      }
    }

    method NextEvent(resumes: bool, waits: seq<Wait>) returns (v: Verdict, used: nat)
      modifies this
      ensures CallResult(View(), v, used) == Engine.NextEvent(old(View()), resumes, waits)
      ensures leader == old(leader)
    {
      used := 0;
      while true
        invariant used <= |waits|
        invariant leader == old(leader)
        invariant
          var rest := Engine.NextEvent(View(), resumes, waits[used..]);
          CallResult(rest.state, rest.verdict, rest.used + used)
          == Engine.NextEvent(old(View()), resumes, waits)
        decreases |waits| - used
      {
        if pending.Some? {
          var r := pending.value;
          pending := None;
          if !resumes {
            return Failed, used;
          }
          issued := issued + [r];
        }
        if live == {} {
          return Done, used;
        }
        if used == |waits| {
          return Blocked, used;
        }
        var w := waits[used];
        assert waits[used..][1..] == waits[used + 1..];
        used := used + 1;
        match w {
          case NoChild =>
            return Done, used;
          case WaitFailed =>
            return Failed, used;
          case Got(status, answers) =>
            var o := Handle(status, answers);
            match o {
              case Emit(event) =>
                return Ready(event), used;
              case Fail =>
                return Failed, used;
              case Quiet =>
            }
        }
      }
    }
  }
}
