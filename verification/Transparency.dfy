/** From the tracepoint to the printed line: what the in-kernel capture does to a signature. */
module Transparency {
  import opened Common
  import opened Syscalls
  import opened Render
  import opened BpfModel
  import opened BpfRuns
  import opened EbpfStream
  import opened PathCapture
  import opened Signature

  // ---------------------------------------------------------------- without a capture

  lemma NoCaptureIsHonest(proc: Reader, mem: Memory)
    requires Honest(proc, mem)
    ensures Honest(EbpfRead(None, proc), mem)
  {
    forall a: nat, len: nat
      ensures EbpfRead(None, proc)(a, len) == proc(a, len)
    {
    }
  }

  lemma NoCaptureNoPath(proc: Reader, mem: Memory, addr: U64)
    requires Honest(proc, mem) && addr + PATH_CAP <= TWO64
    ensures PathText(EbpfRead(None, proc), addr) == PathText(proc, addr)
  {
    NoCaptureIsHonest(proc, mem);
    ReadCstrIsChunkFree(EbpfRead(None, proc), mem, addr, PATH_CAP);
    ReadCstrIsChunkFree(proc, mem, addr, PATH_CAP);
  }

  /** A record's capture fits, and begins at the call's path argument. */
  lemma CaptureOfRecord(p: PathArgs, hits: seq<Hit>, i: nat, j: nat, r: Record, mem: Memory) returns (c: Capture)
    requires Joins(p, hits, i, j, r) && HelperHonest(hits[j].strings, mem) && CaptureOf(r).Some?
    requires r.nr < MAX_SYSCALLS && 0 < p[r.nr] <= 6
    ensures CaptureOf(r) == Some(c) && CaptureFits(mem, c) && c.addr == r.args[p[r.nr] - 1] != 0
  {
    RecordsCaptureWhatIsThere(p, hits, i, j, r, mem);
    c := CaptureOf(r).value;
  }

  /** The path argument a record was captured for is shown as it stands in memory. */
  lemma PathShownAlike(p: PathArgs, hits: seq<Hit>, i: nat, j: nat, r: Record, proc: Reader, mem: Memory)
    requires Joins(p, hits, i, j, r) && HelperHonest(hits[j].strings, mem) && Honest(proc, mem)
    requires r.nr < MAX_SYSCALLS && 0 < p[r.nr] <= 6 && r.args[p[r.nr] - 1] + PATH_CAP <= TWO64
    ensures PathText(EbpfRead(CaptureOf(r), proc), r.args[p[r.nr] - 1]) == PathText(proc, r.args[p[r.nr] - 1])
  {
    if CaptureOf(r).Some? {
      var c := CaptureOfRecord(p, hits, i, j, r, mem);
      CapturedPathIsTransparent(c, proc, mem);
    } else {
      NoCaptureNoPath(proc, mem, r.args[p[r.nr] - 1]);
    }
  }

  // ---------------------------------------------------------------- one argument

  /** When an argument is shown through the capture as it stands in memory. */
  ghost predicate ArgWell(consts: Constants, info: SyscallInfo, k: nat, args: Args, c: Capture, mem: Memory)
    requires k < |info.args| && c.bytes != []
  {
    consts(info.name, info.args[k].name, args[k], args).None? ==>
      match info.args[k].ty
      case Path => PathWell(c, mem, args[k])
      case Buf => c.addr <= args[k] <= End(c) ==> BufWell(c, mem, args[k], WantedOf(info.args, k, args))
      case _ => true
  }

  lemma ArgTransparency(
      consts: Constants, info: SyscallInfo, k: nat, args: Args, c: Capture, proc: Reader, mem: Memory)
    requires CaptureFits(mem, c) && Exhaustive(proc, mem) && c.addr != 0
    requires k < |info.args| && info.name != "setsockopt"
    requires info.args[k].ty.Path? ==> args[k] + PATH_CAP <= TWO64
    ensures RenderArg(consts, info.name, info.args, k, args, EbpfRead(Some(c), proc))
         == RenderArg(consts, info.name, info.args, k, args, proc)
       <==> ArgWell(consts, info, k, args, c, mem)
  {
    match info.args[k].ty {
      case Path =>
        ExhaustiveIsHonest(proc, mem);
        PathTransparency(c, proc, mem, args[k]);
      case Buf =>
        if c.addr <= args[k] <= End(c) {
          BufTransparency(c, proc, mem, args[k], WantedOf(info.args, k, args));
        }
      case _ =>
    }
  }

  /** Nothing was captured: nothing can show. */
  lemma ArgWithoutCapture(consts: Constants, info: SyscallInfo, k: nat, args: Args, proc: Reader, mem: Memory)
    requires Honest(proc, mem) && k < |info.args|
    requires info.args[k].ty.Path? ==> args[k] + PATH_CAP <= TWO64
    ensures RenderArg(consts, info.name, info.args, k, args, EbpfRead(None, proc))
         == RenderArg(consts, info.name, info.args, k, args, proc)
  {
    if info.args[k].ty.Path? {
      NoCaptureNoPath(proc, mem, args[k]);
    }
  }

  // ---------------------------------------------------------------- the whole line

  /** Two lines of a syscall are the same exactly if every argument is shown the same. */
  lemma LinesDifferInArguments(consts: Constants, info: SyscallInfo, nr: U64, args: Args, a: Reader, b: Reader)
    requires info.args != []
    ensures SignatureText(Decode(consts, Some(info), nr, args, a))
         == SignatureText(Decode(consts, Some(info), nr, args, b))
       <==> forall k :: 0 <= k < |info.args| ==>
              RenderArg(consts, info.name, info.args, k, args, a) == RenderArg(consts, info.name, info.args, k, args, b)
  {
    var da, db := Decode(consts, Some(info), nr, args, a), Decode(consts, Some(info), nr, args, b);
    SignatureReadsBack(consts, Some(info), nr, args, a);
    SignatureReadsBack(consts, Some(info), nr, args, b);
    if SignatureText(da) == SignatureText(db) {
      assert Values(da.args) == Values(db.args);
      forall k | 0 <= k < |info.args|
        ensures RenderArg(consts, info.name, info.args, k, args, a)
             == RenderArg(consts, info.name, info.args, k, args, b)
      {
        assert Values(da.args)[k] == da.args[k].value && Values(db.args)[k] == db.args[k].value;
      }
    }
    if forall k :: 0 <= k < |info.args| ==>
         RenderArg(consts, info.name, info.args, k, args, a) == RenderArg(consts, info.name, info.args, k, args, b) {
      assert da.args == db.args;
    }
  }

  /** A capture is only ever made for a syscall with a path among its arguments. */
  lemma CaptureNeedsAPath(p: PathArgs, hits: seq<Hit>, i: nat, j: nat, r: Record, info: SyscallInfo, mem: Memory)
    requires Joins(p, hits, i, j, r) && HelperHonest(hits[j].strings, mem)
    requires r.nr == info.number && FromTable(p, info) && CaptureOf(r).Some?
    ensures CaptureFits(mem, CaptureOf(r).value) && CaptureOf(r).value.addr != 0
    ensures exists k :: 0 <= k < |info.args| && info.args[k].ty.Path?
  {
    RecordsCaptureWhatIsThere(p, hits, i, j, r, mem);
    assert r.nr < 512 && p[r.nr] != 0 && IsSlot(info, p[r.nr]);
  }

  /** For every call: the line printed from an eBPF record is the line printed from the thread's
      memory, exactly if no path argument points into the last 32 bytes of a capture that was cut
      short, and no buffer argument reaches out of the capture from inside it. */
  lemma SignatureTransparency(
      consts: Constants, info: SyscallInfo, p: PathArgs, hits: seq<Hit>, i: nat, j: nat, r: Record,
      proc: Reader, mem: Memory)
    requires Joins(p, hits, i, j, r) && HelperHonest(hits[j].strings, mem) && Exhaustive(proc, mem)
    requires r.nr == info.number && FromTable(p, info)
    requires info.name == "setsockopt" ==> forall a :: a in info.args ==> !a.ty.Path?
    requires forall k :: 0 <= k < |info.args| && info.args[k].ty.Path? ==> r.args[k] + PATH_CAP <= TWO64
    ensures CaptureOf(r).Some? ==> CaptureOf(r).value.bytes != []
    ensures SignatureText(Decode(consts, Some(info), r.nr, r.args, EbpfRead(CaptureOf(r), proc)))
         == SignatureText(Decode(consts, Some(info), r.nr, r.args, proc))
       <==> CaptureOf(r).None?
            || forall k :: 0 <= k < |info.args| ==> ArgWell(consts, info, k, r.args, CaptureOf(r).value, mem)
  {
    var read := EbpfRead(CaptureOf(r), proc);
    ExhaustiveIsHonest(proc, mem);
    if CaptureOf(r).Some? {
      CaptureNeedsAPath(p, hits, i, j, r, info, mem);
    }
    if info.args != [] {
      LinesDifferInArguments(consts, info, r.nr, r.args, read, proc);
      forall k | 0 <= k < |info.args|
        ensures RenderArg(consts, info.name, info.args, k, r.args, read)
             == RenderArg(consts, info.name, info.args, k, r.args, proc)
           <==> CaptureOf(r).None? || ArgWell(consts, info, k, r.args, CaptureOf(r).value, mem)
      {
        if CaptureOf(r).None? {
          ArgWithoutCapture(consts, info, k, r.args, proc, mem);
        } else {
          ArgTransparency(consts, info, k, r.args, CaptureOf(r).value, proc, mem);
        }
      }
    }
  }

  /** An argument that is shown without looking into the traced memory. */
  predicate FromRegisters(meta: ArgInfo) {
    !meta.ty.Path? && !meta.ty.Buf?
  }

  /** In particular for every call whose only argument in memory is its first path, nothing of the
      127-byte buffer shows, however long the path. */
  lemma SignatureShownAlike(
      consts: Constants, info: SyscallInfo, p: PathArgs, hits: seq<Hit>, i: nat, j: nat, r: Record,
      proc: Reader, mem: Memory)
    requires Joins(p, hits, i, j, r) && HelperHonest(hits[j].strings, mem) && Honest(proc, mem)
    requires r.nr == info.number < 512 && FromTable(p, info) && p[info.number] != 0 && info.name != "setsockopt"
    requires r.args[p[info.number] - 1] + PATH_CAP <= TWO64
    requires forall k :: 0 <= k < |info.args| && k != p[info.number] - 1 ==> FromRegisters(info.args[k])
    ensures SignatureText(Decode(consts, Some(info), r.nr, r.args, EbpfRead(CaptureOf(r), proc)))
         == SignatureText(Decode(consts, Some(info), r.nr, r.args, proc))
  {
    var read := EbpfRead(CaptureOf(r), proc);
    PathShownAlike(p, hits, i, j, r, proc, mem);
    forall k | 0 <= k < |info.args|
      ensures RenderArg(consts, info.name, info.args, k, r.args, read)
           == RenderArg(consts, info.name, info.args, k, r.args, proc)
    {
      if k == p[info.number] - 1 {
        assert info.args[k].ty.Path?;
      }
    }
    LinesDifferInArguments(consts, info, r.nr, r.args, read, proc);
  }
}
