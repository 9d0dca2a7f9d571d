/** `crates/syren-ebpf/src/main.rs`: the three in-kernel programs and their maps.

    A `Hit` is one firing of a tracepoint, with whatever the kernel answers to the
    program during it; `Arm` is user space seeding the target set. The functions say
    what one hit does to the maps, taken as a value. */
module BpfModel {
  import opened Common

  const MAX_ENTERS := 10_240
  const MAX_TARGETS := 4_096
  const MAX_SYSCALLS := 512
  const CAP_BYTES := 128

  datatype EnterData = EnterData(nr: U64, args: Args, ts: U64)

  /** `syren_common::ebpf::Record`; `cap` is the whole fixed-size buffer. */
  datatype Record = Record(
    pid: Pid, tid: Pid, nr: U64, args: Args, retval: int, tsEnter: U64, duration: U64,
    capAddr: U64, capLen: nat, cap: seq<Byte>)

  /** `bpf_probe_read_user_str_bytes`: it fails, or fills the buffer with `n` bytes and a NUL. */
  datatype StrRead = NoStr | Str(buf: seq<Byte>, n: nat)

  predicate StrReadOk(r: StrRead) {
    r.Str? ==>
      && |r.buf| == CAP_BYTES && r.n < CAP_BYTES && r.buf[r.n] == 0
      && forall i :: 0 <= i < r.n ==> r.buf[i] != 0
  }

  /** The helper's answer if it is asked for the string at an address. */
  type Strings = U64 -> StrRead

  datatype RawEnter = RawEnter(id: int, args: Args)

  datatype Hit =
    | SysEnter(tid: Pid, raw: Option<RawEnter>, ts: U64)
    | SysExit(tid: Pid, tgid: Pid, ret: Option<int>, now: U64, room: bool, strings: Strings)
    | Forked(parent: Pid, child: Pid)
    | Arm(tid: Pid)

  function Zeros(n: nat): (s: seq<Byte>)
    ensures |s| == n && forall i :: 0 <= i < n ==> s[i] == 0
  {
    seq(n, i => 0)
  }

  /** The argument slot captured for a syscall number, 0 for none. */
  type PathArgs = s: seq<nat> | |s| == MAX_SYSCALLS witness Zeros(MAX_SYSCALLS)

  /** The maps; `ring` is every record ever submitted, oldest first. */
  datatype Maps = Maps(patharg: PathArgs, enters: map<Pid, EnterData>, targets: set<Pid>, ring: seq<Record>)

  /** `HashMap::insert` with flags 0: an existing key is overwritten, a new one needs room. */
  function InsertEnter(m: map<Pid, EnterData>, tid: Pid, e: EnterData): map<Pid, EnterData> {
    if tid in m || |m| < MAX_ENTERS then m[tid := e] else m
  }

  function InsertTarget(m: set<Pid>, tid: Pid): set<Pid> {
    if tid in m || |m| < MAX_TARGETS then m + {tid} else m
  }

  /** The address `capture_path` would read, if any. */
  function CaptureAddr(patharg: PathArgs, nr: U64, args: Args): Option<U64> {
    var n := nr % TWO32;
    if n >= MAX_SYSCALLS || patharg[n] == 0 || patharg[n] > 6 || args[patharg[n] - 1] == 0
    then None
    else Some(args[patharg[n] - 1])
  }

  const EMPTY_CAP: seq<Byte> := Zeros(CAP_BYTES)

  function Captured(patharg: PathArgs, r: Record, strings: Strings): Record {
    var addr := CaptureAddr(patharg, r.nr, r.args);
    if addr.None? then r
    else
      match strings(addr.value)
      case NoStr => r
      case Str(buf, n) =>
        r.(capAddr := addr.value, capLen := if n < CAP_BYTES then n + 1 else CAP_BYTES, cap := buf)
  }

  function MakeRecord(
      patharg: PathArgs, e: EnterData, tid: Pid, tgid: Pid, ret: Option<int>, now: U64, strings: Strings): Record
  {
    Captured(patharg,
             Record(tgid, tid, e.nr, e.args, if ret.Some? then ret.value else 0, e.ts, SatSub(now, e.ts),
                    0, 0, EMPTY_CAP),
             strings)
  }

  function TryEnter(m: Maps, tid: Pid, raw: Option<RawEnter>, ts: U64): Maps {
    if tid !in m.targets || raw.None? then m
    else m.(enters := InsertEnter(m.enters, tid, EnterData(AsU64(raw.value.id), raw.value.args, ts)))
  }

  function TryExit(m: Maps, tid: Pid, tgid: Pid, ret: Option<int>, now: U64, room: bool, strings: Strings): Maps {
    if tid !in m.enters then m
    else
      var m1 := m.(enters := m.enters - {tid});
      if !room then m1
      else m1.(ring := m.ring + [MakeRecord(m.patharg, m.enters[tid], tid, tgid, ret, now, strings)])
  }

  function TryFork(m: Maps, parent: Pid, child: Pid): Maps {
    if parent in m.targets then m.(targets := InsertTarget(m.targets, child)) else m
  }

  function Step(m: Maps, h: Hit): Maps {
    match h
    case SysEnter(tid, raw, ts) => TryEnter(m, tid, raw, ts)
    case SysExit(tid, tgid, ret, now, room, strings) => TryExit(m, tid, tgid, ret, now, room, strings)
    case Forked(parent, child) => TryFork(m, parent, child)
    case Arm(tid) => m.(targets := InsertTarget(m.targets, tid))
  }

  function Start(patharg: PathArgs): Maps {
    Maps(patharg, map[], {}, [])
  }

  /** The maps after a history of hits, in any interleaving of any number of threads. */
  function After(patharg: PathArgs, hits: seq<Hit>): Maps {
    if |hits| == 0 then Start(patharg)
    else Step(After(patharg, hits[..|hits| - 1]), hits[|hits| - 1])
  }
}

/** The programs in the form they have in the source: global maps updated in place, a
    reserved ring slot filled field by field. */
module BpfPrograms {
  import opened Common
  import opened BpfModel
  import Model = BpfModel

  /** A reserved slot of the ring buffer. */
  class Slot {
    var pid: Pid
    var tid: Pid
    var nr: U64
    var args: Args
    var retval: int
    var tsEnter: U64
    var duration: U64
    var capAddr: U64
    var capLen: nat
    var cap: seq<Byte>

    constructor ()
      ensures cap == EMPTY_CAP
    {
      args := [0, 0, 0, 0, 0, 0];
      cap := EMPTY_CAP;
    }

    ghost function Value(): Record
      reads this
    {
      Record(pid, tid, nr, args, retval, tsEnter, duration, capAddr, capLen, cap)
    }

    function Submitted(): (r: Record)
      reads this
      ensures r == Value()
    {
      Record(pid, tid, nr, args, retval, tsEnter, duration, capAddr, capLen, cap)
    }
  }

  class Programs {
    const patharg: PathArgs
    var enters: map<Pid, EnterData>
    var targets: set<Pid>
    var ring: seq<Record>

    ghost function View(): Maps
      reads this
    {
      Maps(patharg, enters, targets, ring)
    }

    constructor (patharg: PathArgs)
      ensures View() == Start(patharg)
    {
      this.patharg := patharg;
      enters, targets, ring := map[], {}, [];
    }

    method TryEnter(tid: Pid, raw: Option<RawEnter>, ts: U64)
      modifies this`enters
      ensures View() == Model.TryEnter(old(View()), tid, raw, ts)
    {
      if tid !in targets {
        return;
      }
      if raw.None? {
        return;
      }
      enters := InsertEnter(enters, tid, EnterData(AsU64(raw.value.id), raw.value.args, ts));
    }

    method CapturePath(r: Slot, enter: EnterData, strings: Strings)
      requires r.nr == enter.nr && r.args == enter.args
      modifies r`capAddr, r`capLen, r`cap
      ensures r.Value() == Captured(patharg, old(r.Value()), strings)
    {
      var nr := enter.nr % TWO32;
      if nr >= MAX_SYSCALLS {
        return;
      }
      var idx1 := patharg[nr];
      if idx1 == 0 || idx1 > 6 {
        return;
      }
      var addr := enter.args[idx1 - 1];
      if addr == 0 {
        return;
      }
      match strings(addr) {
        case NoStr =>
        case Str(buf, n) =>
          r.cap := buf;
          r.capAddr := addr;
          r.capLen := if n < CAP_BYTES then n + 1 else CAP_BYTES;
      }
    }

    method TryExit(tid: Pid, tgid: Pid, ret: Option<int>, now: U64, room: bool, strings: Strings)
      modifies this`enters, this`ring
      ensures View() == Model.TryExit(old(View()), tid, tgid, ret, now, room, strings)
    {
      if tid !in enters {
        return;
      }
      var enter := enters[tid];
      enters := enters - {tid};
      if !room {
        return;
      }
      var r := new Slot();
      r.pid := tgid;
      r.tid := tid;
      r.nr := enter.nr;
      r.args := enter.args;
      r.retval := if ret.Some? then ret.value else 0;
      r.tsEnter := enter.ts;
      r.duration := SatSub(now, enter.ts);
      r.capAddr := 0;
      r.capLen := 0;
      ghost var plain := r.Value();
      CapturePath(r, enter, strings);
      assert r.Value() == Captured(patharg, plain, strings);
      ring := ring + [r.Submitted()];
    }

    method TryFork(parent: Pid, child: Pid)
      modifies this`targets
      ensures View() == Model.TryFork(old(View()), parent, child)
    {
      if parent in targets {
        targets := InsertTarget(targets, child);
      }
    }

    /** `arm`: user space seeds the target set; a refused seed is an error. */
    method Arm(tids: seq<Pid>) returns (ok: bool)
      modifies this`targets
      ensures ok ==> View() == old(View()).(targets := old(targets) + set t | t in tids)
      ensures old(targets) <= targets <= old(targets) + set t | t in tids
      ensures !ok ==> |targets| >= MAX_TARGETS && exists t :: t in tids && t !in targets
    {
      for k := 0 to |tids|
        invariant targets == old(targets) + set t | t in tids[..k]
      {
        if tids[k] !in targets && |targets| >= MAX_TARGETS {
          return false;
        }
        assert tids[..k + 1] == tids[..k] + [tids[k]];
        targets := InsertTarget(targets, tids[k]);
      }
      assert tids[..|tids|] == tids;
      ok := true;
    }
  }
}
