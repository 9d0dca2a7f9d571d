/** Runs cut into calls of `next_event`: what its caller may rely on. */
module PtraceCalls {
  import opened Common
  import opened PtraceEngine
  import opened PtraceWorld
  import opened PtraceInvariants
  import opened PtraceRuns

  // ---------------------------------------------------------------- runs and calls of next_event

  predicate Speaks(s: Sys, l: Label)
    requires Enabled(s, l)
  {
    l.Deliver? &&
    Handle(s.tr, StatusOf(l.tid, s.tracees[l.tid].motion.stop),
           AnswersOf(s.tracees[l.tid].motion.stop, l.now, l.tgidAnswer)).outcome.Emit?
  }

  /** A stretch of a run in which `next_event` returns at most at the end. */
  ghost predicate OneCall(s: Sys, labels: seq<Label>)
    decreases |labels|
  {
    labels != [] ==>
      Enabled(s, labels[0]) && (Speaks(s, labels[0]) ==> |labels| == 1) && OneCall(Step(s, labels[0]), labels[1..])
  }

  /** What `waitpid` and the calls after it reply at a hand-over. */
  function Reply(s: Sys, l: Label): Wait
    requires l.Deliver? && Enabled(s, l)
  {
    Got(StatusOf(l.tid, s.tracees[l.tid].motion.stop),
        AnswersOf(s.tracees[l.tid].motion.stop, l.now, l.tgidAnswer))
  }

  /** The replies along a stretch of a run. */
  ghost function Script(s: Sys, labels: seq<Label>): seq<Wait>
    requires IsRun(s, labels)
    decreases |labels|
  {
    if labels == [] then []
    else
      var l := labels[0];
      (if l.Deliver? then [Reply(s, l)] else []) + Script(Step(s, l), labels[1..])
  }

  ghost predicate SpeaksLast(s: Sys, labels: seq<Label>)
    requires IsRun(s, labels)
    decreases |labels|
  {
    labels != [] && (if |labels| == 1 then Speaks(s, labels[0]) else SpeaksLast(Step(s, labels[0]), labels[1..]))
  }

  lemma {:induction false} OneCallIsRun(s: Sys, labels: seq<Label>)
    requires OneCall(s, labels)
    ensures IsRun(s, labels)
    decreases |labels|
  {
    if labels != [] {
      OneCallIsRun(Step(s, labels[0]), labels[1..]);
    }
  }

  /** Resuming the pending tracee first is what the next call does anyway. */
  lemma NextEventTakes(s: Sys, waits: seq<Wait>)
    requires Enabled(s, LetGo)
    ensures NextEvent(s.tr, true, waits) == NextEvent(Step(s, LetGo).tr, true, waits)
  {
  }

  lemma NextEventDelivers(s: Sys, l: Label, waits: seq<Wait>)
    requires l.Deliver? && Enabled(s, l)
    requires waits != [] && waits[0] == Reply(s, l)
    requires StopAllowed(s, l.tid, s.tracees[l.tid].motion.stop)
    ensures var s', r := Step(s, l), NextEvent(s.tr, true, waits);
      if Speaks(s, l) then s'.out != [] && r == CallResult(s'.tr, Ready(s'.out[|s'.out| - 1]), 1)
      else var rest := NextEvent(s'.tr, true, waits[1..]);
        r == CallResult(rest.state, rest.verdict, rest.used + 1)
  {
    HandleStep(s.tr, l.tid, s.tracees[l.tid].motion.stop, l.now, l.tgidAnswer);
  }

  /** The call ended at `s'` with the event just reported, or went on from there with `more`. */
  ghost predicate CallEnds(r: CallResult, s': Sys, used: nat, speaks: bool, more: seq<Wait>) {
    if speaks
    then s'.out != [] && r == CallResult(s'.tr, Ready(s'.out[|s'.out| - 1]), used)
    else
      var rest := NextEvent(s'.tr, true, more);
      r == CallResult(rest.state, rest.verdict, used + rest.used)
  }

  /** A call of `next_event` that finds the replies of the stretch, and then `more`, makes the
      steps of the stretch; if none of them reports anything it goes on with `more`. */
  ghost predicate TellsCall(s: Sys, labels: seq<Label>, more: seq<Wait>)
    requires IsRun(s, labels)
  {
    CallEnds(NextEvent(s.tr, true, Script(s, labels) + more),
             Run(s, labels), |Script(s, labels)|, SpeaksLast(s, labels), more)
  }

  lemma CallEndsLater(r: CallResult, s': Sys, used: nat, speaks: bool, more: seq<Wait>)
    requires CallEnds(r, s', used, speaks, more)
    ensures CallEnds(CallResult(r.state, r.verdict, r.used + 1), s', used + 1, speaks, more)
  {
  }

  lemma TellsCallSilently(s: Sys, labels: seq<Label>, more: seq<Wait>)
    requires OneCall(s, labels) && IsRun(s, labels) && labels != [] && !labels[0].Deliver?
    requires TellsCall(Step(s, labels[0]), labels[1..], more)
    ensures TellsCall(s, labels, more)
  {
    var rest := Script(Step(s, labels[0]), labels[1..]);
    assert Script(s, labels) == rest;
    assert SpeaksLast(s, labels) ==> |labels| > 1;
    if labels[0].LetGo? {
      NextEventTakes(s, rest + more);
    }
  }

  lemma TellsCallSpeaking(s: Sys, labels: seq<Label>, more: seq<Wait>)
    requires IsRun(s, labels) && |labels| == 1 && labels[0].Deliver? && StopsAllowed(s) && Speaks(s, labels[0])
    ensures TellsCall(s, labels, more)
  {
    var s' := Step(s, labels[0]);
    assert Run(s', labels[1..]) == s' && Script(s', labels[1..]) == [];
    assert Script(s, labels) == [Reply(s, labels[0])];
    NextEventDelivers(s, labels[0], Script(s, labels) + more);
  }

  lemma CallGoesOn(tr: State, tr1: State, w: Wait, rest: seq<Wait>, more: seq<Wait>, s': Sys, speaks: bool)
    requires var r := NextEvent(tr1, true, rest + more);
      NextEvent(tr, true, [w] + (rest + more)) == CallResult(r.state, r.verdict, r.used + 1)
    requires CallEnds(NextEvent(tr1, true, rest + more), s', |rest|, speaks, more)
    ensures CallEnds(NextEvent(tr, true, [w] + rest + more), s', |[w] + rest|, speaks, more)
  {
    assert [w] + rest + more == [w] + (rest + more);
    CallEndsLater(NextEvent(tr1, true, rest + more), s', |rest|, speaks, more);
  }

  lemma OneStepLater(s: Sys, labels: seq<Label>)
    requires IsRun(s, labels) && labels != [] && labels[0].Deliver? && !Speaks(s, labels[0])
    ensures Script(s, labels) == [Reply(s, labels[0])] + Script(Step(s, labels[0]), labels[1..])
    ensures Run(s, labels) == Run(Step(s, labels[0]), labels[1..])
    ensures SpeaksLast(s, labels) == SpeaksLast(Step(s, labels[0]), labels[1..])
  {
  }

  lemma TellsCallQuietly(s: Sys, labels: seq<Label>, more: seq<Wait>)
    requires IsRun(s, labels) && labels != [] && labels[0].Deliver? && StopsAllowed(s) && !Speaks(s, labels[0])
    requires TellsCall(Step(s, labels[0]), labels[1..], more)
    ensures TellsCall(s, labels, more)
  {
    var s1, later := Step(s, labels[0]), labels[1..];
    OneStepLater(s, labels);
    QuietReply(s, labels[0], s1, Script(s1, later) + more);
    CallGoesOn(s.tr, s1.tr, Reply(s, labels[0]), Script(s1, later), more, Run(s, labels), SpeaksLast(s, labels));
  }

  lemma QuietReply(s: Sys, l: Label, s1: Sys, rest: seq<Wait>)
    requires l.Deliver? && Enabled(s, l) && StopsAllowed(s) && !Speaks(s, l) && s1 == Step(s, l)
    ensures var r := NextEvent(s1.tr, true, rest);
      NextEvent(s.tr, true, [Reply(s, l)] + rest) == CallResult(r.state, r.verdict, r.used + 1)
  {
    assert ([Reply(s, l)] + rest)[1..] == rest;
    NextEventDelivers(s, l, [Reply(s, l)] + rest);
  }

  /** Calling `next_event` with the replies of a stretch of a run is making its steps. */
  lemma {:induction false} NextEventMakesTheSteps(s: Sys, labels: seq<Label>, more: seq<Wait>)
    requires OneCall(s, labels) && Inv(s)
    ensures IsRun(s, labels) && TellsCall(s, labels, more)
    decreases |labels|
  {
    OneCallIsRun(s, labels);
    if labels == [] {
      assert Script(s, labels) + more == more;
    } else {
      StepKeepsInv(s, labels[0]);
      NextEventMakesTheSteps(Step(s, labels[0]), labels[1..], more);
      if !labels[0].Deliver? {
        TellsCallSilently(s, labels, more);
      } else if Speaks(s, labels[0]) {
        TellsCallSpeaking(s, labels, more);
      } else {
        TellsCallQuietly(s, labels, more);
      }
    }
  }

  /** The last event and the tracee left stopped agree. */
  ghost predicate StoppedForReader(s: Sys) {
    s.out != [] &&
    var e := s.out[|s.out| - 1];
    s.tr.pending == if e.Syscall? then Some(Resume(e.ev.tid, None)) else None
  }

  lemma SpeakingStep(s: Sys, l: Label)
    requires Enabled(s, l) && Speaks(s, l) && StopsAllowed(s)
    ensures StoppedForReader(Step(s, l))
  {
    HandleStep(s.tr, l.tid, s.tracees[l.tid].motion.stop, l.now, l.tgidAnswer);
  }

  lemma {:induction false} LastOneSpeaks(s: Sys, labels: seq<Label>)
    requires IsRun(s, labels) && Inv(s) && SpeaksLast(s, labels)
    ensures StoppedForReader(Run(s, labels))
    decreases |labels|
  {
    if |labels| == 1 {
      SpeakingStep(s, labels[0]);
      assert labels[1..] == [];
    } else {
      StepKeepsInv(s, labels[0]);
      LastOneSpeaks(Step(s, labels[0]), labels[1..]);
    }
  }

  /** What the caller of `next_event` finds in the world, given the verdict. */
  ghost predicate SafeVerdict(s: Sys, v: Verdict) {
    && (v.Ready? && v.event.Syscall? ==>
          forall t :: t in s.tracees ==> (s.tracees[t].motion.Held? <==> t == v.event.ev.tid))
    && (!(v.Ready? && v.event.Syscall?) ==> forall t :: t in s.tracees ==> !s.tracees[t].motion.Held?)
    && (v.Done? ==> forall t :: t in s.tracees ==> s.tracees[t].motion.Gone?)
    && !v.Failed?
  }

  lemma SafeAfterSpeaking(s: Sys)
    requires OnlyPendingHeld(s) && StoppedForReader(s)
    ensures SafeVerdict(s, Ready(s.out[|s.out| - 1]))
  {
  }

  lemma SafeAfterSilence(s: Sys)
    requires OnlyPendingHeld(s) && NobodyLost(s) && s.tr.pending.None?
    ensures SafeVerdict(s, if s.tr.live == {} then Done else Blocked)
  {
    if s.tr.live == {} {
      forall t | t in s.tracees
        ensures s.tracees[t].motion.Gone?
      {
        LostNeedsOlder(s, t);
      }
    }
  }

  /** `waitpid` says that there is no child only when every tracee is gone. */
  ghost predicate Truthful(s: Sys, more: seq<Wait>) {
    more == [] || (more == [NoChild] && forall t :: t in s.tracees ==> s.tracees[t].motion.Gone?)
  }

  /** What a caller of `next_event` may rely on, after any history: a returned syscall event
      leaves its own thread, and nobody else, held for reading its memory: handed over and not yet
      resumed. Any other answer leaves nobody held. The end is announced only when no tracee is alive,
      and is announced once `waitpid` says so. */
  lemma NextEventIsSafe(s: Sys, labels: seq<Label>, more: seq<Wait>)
    requires Reachable(s) && OneCall(s, labels) && IsRun(s, labels)
    requires SpeaksLast(s, labels) || Run(s, labels).tr.pending.None?
    requires Truthful(Run(s, labels), more)
    ensures var s', r := Run(s, labels), NextEvent(s.tr, true, Script(s, labels) + more);
      && r.state == s'.tr && SafeVerdict(s', r.verdict)
      && (r.verdict.Ready? <==> SpeaksLast(s, labels))
      && (more != [] && !SpeaksLast(s, labels) ==> r.verdict.Done?)
  {
    ReachableInv(s);
    RunKeepsInv(s, labels);
    NextEventMakesTheSteps(s, labels, more);
    if SpeaksLast(s, labels) {
      LastOneSpeaks(s, labels);
      SafeAfterSpeaking(Run(s, labels));
    } else {
      SafeAfterSilence(Run(s, labels));
    }
  }
}
