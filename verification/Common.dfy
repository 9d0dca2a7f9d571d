/** The vocabulary shared by the tracing backends and the decoder: machine words,
    the events of `syren-common`, and the reference meaning of "completed call". */
module Common {
  datatype Option<+T> = None | Some(value: T)

  const TWO63 := 0x8000_0000_0000_0000
  const TWO64 := 0x1_0000_0000_0000_0000
  const TWO32 := 0x1_0000_0000

  type U64 = n: nat | n < TWO64
  type U32 = n: nat | n < TWO32
  type Byte = n: nat | n < 256
  type Pid = nat

  /** The six argument registers. */
  type Args = s: seq<U64> | |s| == 6 witness [0, 0, 0, 0, 0, 0]

  /** The number a 64-bit register holds if it is read as signed. */
  function TwosComplement(x: U64): int {
    (x + TWO63) % TWO64 - TWO63
  }

  /** Rust's `x as i64` on a `u64`. */
  function AsI64(x: U64): (r: int)
    ensures -TWO63 <= r < TWO63 && (r - x) % TWO64 == 0
    ensures r == TwosComplement(x)
  {
    if x < TWO63 then x else x - TWO64
  }

  /** Rust's `x as u64` on an `i64`. */
  function AsU64(x: int): (r: U64)
    ensures (r - x) % TWO64 == 0
  {
    x % TWO64
  }

  /** Rust's `saturating_sub` on `u64`. */
  function SatSub(a: U64, b: U64): (r: U64)
    ensures b <= a ==> r + b == a
    ensures a <= b ==> r == 0
  {
    if b <= a then a - b else 0
  }

  /** A completed syscall, `syren_common::SyscallEvent`. */
  datatype SyscallEvent = SyscallEvent(
    pid: Pid, tid: Pid, nr: U64, args: Args, retval: int, tsEnter: U64, duration: U64)

  datatype Event =
    | Syscall(ev: SyscallEvent)
    | ProcessExit(pid: Pid, code: int)
    | Signal(pid: Pid, signal: nat)

  /** What a reader of the trace cares about in one call: `name(args) = ret`. */
  datatype Call = Call(nr: U64, args: Args, retval: int)

  function CallOf(ev: SyscallEvent): Call {
    Call(ev.nr, ev.args, ev.retval)
  }

  function CallsOf(evs: seq<SyscallEvent>): (calls: seq<Call>)
    ensures |calls| == |evs|
    ensures forall i :: 0 <= i < |evs| ==> calls[i] == CallOf(evs[i])
  {
    seq(|evs|, i requires 0 <= i < |evs| => CallOf(evs[i]))
  }

  /** What one thread does at the syscall boundary, in order. */
  datatype Act =
    | Enter(nr: U64, args: Args)
    | Exit(retval: int)

  predicate InCall(acts: seq<Act>) {
    acts != [] && acts[|acts| - 1].Enter?
  }

  /** The reference: each return joined with the entry right before it. A return with
      no entry right before it completes nothing, and neither does an entry that is
      never followed by a return. */
  function Completed(acts: seq<Act>): seq<Call> {
    if acts == [] then []
    else
      var before, last := acts[..|acts| - 1], acts[|acts| - 1];
      if last.Exit? && InCall(before)
      then Completed(before) + [Call(before[|before| - 1].nr, before[|before| - 1].args, last.retval)]
      else Completed(before)
  }

  /** The syscall events of thread `tid`, in stream order. */
  function EventsOf(out: seq<Event>, tid: Pid): seq<SyscallEvent> {
    if out == [] then []
    else
      var before, last := out[..|out| - 1], out[|out| - 1];
      EventsOf(before, tid) + if last.Syscall? && last.ev.tid == tid then [last.ev] else []
  }

  lemma EventsOfAppend(out: seq<Event>, e: Event, tid: Pid)
    ensures EventsOf(out + [e], tid)
         == EventsOf(out, tid) + if e.Syscall? && e.ev.tid == tid then [e.ev] else []
  {
    assert (out + [e])[..|out|] == out;
  }

  /** The call one more act completes, if it completes one. */
  function Completes(acts: seq<Act>, a: Act): seq<Call> {
    if a.Exit? && InCall(acts) then [Call(acts[|acts| - 1].nr, acts[|acts| - 1].args, a.retval)] else []
  }

  lemma CompletedAppend(acts: seq<Act>, a: Act)
    ensures Completed(acts + [a]) == Completed(acts) + Completes(acts, a)
  {
    assert (acts + [a])[..|acts|] == acts;
  }

  // ---------------------------------------------------------------- time

  function EndOf(ev: SyscallEvent): nat {
    ev.tsEnter + ev.duration
  }

  /** Syscall events end in stream order, and those of one thread do not overlap. */
  ghost predicate InOrder(out: seq<Event>) {
    forall i, j :: 0 <= i < j < |out| && out[i].Syscall? && out[j].Syscall? ==>
      && EndOf(out[i].ev) <= EndOf(out[j].ev)
      && (out[i].ev.tid == out[j].ev.tid ==> EndOf(out[i].ev) <= out[j].ev.tsEnter)
  }
}
