/** Serving the in-kernel path capture to the decoder, and what the reader of the trace
    sees of it: `EbpfMemory` and `path_arg_slot` of `crates/syren-trace/src/ebpf.rs`. */
module PathCapture {
  import opened Common
  import opened Render
  import opened Text
  import opened Syscalls
  import opened BpfModel
  import opened BpfRuns
  import opened EbpfStream

  // ---------------------------------------------------------------- which argument is captured

  function FirstPath(args: seq<ArgInfo>): (i: Option<nat>)
    ensures i.None? ==> forall a :: a in args ==> !a.ty.Path?
    ensures i.Some? ==> i.value < |args| && args[i.value].ty.Path? && forall j :: 0 <= j < i.value ==> !args[j].ty.Path?
  {
    if |args| == 0 then None
    else if args[0].ty.Path? then Some(0)
    else
      var rest := FirstPath(args[1..]);
      if rest.None? then None else Some(rest.value + 1)
  }

  /** The 1-based slot of the first path argument; none for the exec calls. */
  function PathArgSlot(s: SyscallInfo): (slot: Option<nat>) {
    if s.name == "execve" || s.name == "execveat" then None
    else
      var idx := FirstPath(s.args);
      if idx.Some? && s.number < MAX_SYSCALLS && idx.value < 6 then Some(idx.value + 1) else None
  }

  /** The in-kernel table says of a syscall what the syscall table says. */
  predicate FromTable(p: PathArgs, s: SyscallInfo) {
    s.number < 512 ==> IsSlot(s, p[s.number])
  }

  /** `v` is the 1-based place of the first path argument, 0 if there is none or for an exec call. */
  predicate IsSlot(s: SyscallInfo, v: nat) {
    if s.name in {"execve", "execveat"} || forall a :: a in s.args ==> !a.ty.Path? then v == 0
    else 1 <= v <= |s.args| && s.args[v - 1].ty.Path? && forall j :: 0 <= j < v - 1 ==> !s.args[j].ty.Path?
  }

  lemma SlotIsSlot(s: SyscallInfo)
    requires s.number < 512
    ensures IsSlot(s, if PathArgSlot(s).Some? then PathArgSlot(s).value else 0)
  {
    var i := FirstPath(s.args);
    assert i.Some? ==> s.args[i.value] in s.args;
  }

  /** `populate_patharg`. */
  method PopulatePatharg(table: seq<SyscallInfo>) returns (p: PathArgs)
    requires forall i, j :: 0 <= i < j < |table| ==> table[i].number != table[j].number
    ensures forall i :: 0 <= i < |table| && PathArgSlot(table[i]).Some? ==>
              p[table[i].number] == PathArgSlot(table[i]).value
    ensures forall n :: 0 <= n < MAX_SYSCALLS && p[n] != 0 ==>
              exists i :: 0 <= i < |table| && table[i].number == n && PathArgSlot(table[i]) == Some(p[n])
    ensures forall s :: s in table ==> FromTable(p, s)
  {
    p := Zeros(MAX_SYSCALLS);
    for k := 0 to |table|
      invariant forall i :: 0 <= i < k && PathArgSlot(table[i]).Some? ==>
                  p[table[i].number] == PathArgSlot(table[i]).value
      invariant forall n :: 0 <= n < MAX_SYSCALLS && p[n] != 0 ==>
                  exists i :: 0 <= i < k && table[i].number == n && PathArgSlot(table[i]) == Some(p[n])
    {
      var slot := PathArgSlot(table[k]);
      if slot.Some? {
        ghost var was := p;
        p := p[table[k].number := slot.value];
        forall n | 0 <= n < MAX_SYSCALLS && p[n] != 0
          ensures exists i :: 0 <= i < k + 1 && table[i].number == n && PathArgSlot(table[i]) == Some(p[n])
        {
          if n == table[k].number {
            assert PathArgSlot(table[k]) == Some(p[n]);
          } else {
            assert was[n] == p[n];
          }
        }
      }
    }
    forall s | s in table && s.number < 512
      ensures FromTable(p, s)
    {
      SlotIsSlot(s);
    }
  }

  // ---------------------------------------------------------------- the reader over a capture

  /** `EbpfMemory::read`: the capture where it reaches, the process's memory elsewhere. */
  function EbpfRead(capture: Option<Capture>, proc: Reader): Reader {
    (addr: nat, len: nat) =>
      if capture.Some? && capture.value.addr <= addr < capture.value.addr + |capture.value.bytes|
      then
        var bytes, off := capture.value.bytes, addr - capture.value.addr;
        Some(bytes[off..if off + len < |bytes| then off + len else |bytes|])
      else proc(addr, len)
  }

  /** How a path argument is shown. */
  function PathText(read: Reader, addr: U64): string {
    var s := Cstr(read, addr, PATH_CAP);
    if s.Some? then Quote(s.value) else PtrOrNull(addr)
  }

  // ---------------------------------------------------------------- the capture is what was there

  /** `bpf_probe_read_user_str_bytes` over mapped memory, asked for 128 bytes. It copies the string, cut
      to 127 bytes, but only if it meets no unmapped memory before a NUL; and it may fail all the
      same, for memory that is not present. */
  ghost predicate HelperHonest(strings: Strings, mem: Memory) {
    forall a: U64 {:trigger strings(a)} :: strings(a).Str? ==>
      var s := StringAt(mem, a, CAP_BYTES);
      var n := if |s| < CAP_BYTES then |s| else CAP_BYTES - 1;
      && (|s| == CAP_BYTES || a + |s| in mem)
      && StrReadOk(strings(a)) && strings(a).n == n && strings(a).buf[..n] == s[..n]
  }

  /** The address of the NUL that closes a capture. */
  function End(c: Capture): nat
    requires c.bytes != []
  {
    c.addr + |c.bytes| - 1
  }

  /** A capture of the string at its address: the bytes, and a NUL which is the real one
      unless the buffer was too small. */
  ghost predicate CaptureFits(mem: Memory, c: Capture) {
    && 1 <= |c.bytes| <= 128
    && Stand(mem, c.addr, c.bytes[..|c.bytes| - 1]) && 0 !in c.bytes[..|c.bytes| - 1]
    && c.bytes[|c.bytes| - 1] == 0
    && End(c) in mem && (|c.bytes| < 128 ==> mem[End(c)] == 0)
  }

  /** The string goes on where the capture ends. */
  ghost predicate CutShort(mem: Memory, c: Capture)
    requires c.bytes != []
  {
    End(c) in mem && mem[End(c)] != 0
  }

  /** A string that stands in memory, cut to `n` bytes and closed with a NUL, makes a capture. */
  lemma CutFits(mem: Memory, a: U64, there: seq<Byte>, n: nat)
    requires n <= |there| && n < CAP_BYTES && Stand(mem, a, there) && 0 !in there
    requires a + n in mem && (n < CAP_BYTES - 1 ==> mem[a + n] == 0)
    ensures CaptureFits(mem, Capture(a, there[..n] + [0]))
  {
    var bytes := there[..n] + [0];
    assert bytes[..n] == there[..n];
  }

  /** What an honest helper copies makes a capture that fits. */
  lemma HelperFits(strings: Strings, mem: Memory, a: U64)
    requires HelperHonest(strings, mem) && strings(a).Str?
    ensures StrReadOk(strings(a)) && CaptureFits(mem, Capture(a, strings(a).buf[..strings(a).n + 1]))
  {
    var s, there := strings(a), StringAt(mem, a, CAP_BYTES);
    StringAtIsMaximal(mem, a, CAP_BYTES);
    assert StrReadOk(s) && s.buf[..s.n] == there[..s.n];
    CutFits(mem, a, there, s.n);
    assert s.buf[..s.n + 1] == there[..s.n] + [0];
  }

  /** Every capture user space receives was taken that way, at the call's path argument; and there is
      one whenever the call has such an argument and the helper could read it. */
  lemma RecordsCaptureWhatIsThere(p: PathArgs, hits: seq<Hit>, i: nat, j: nat, r: Record, mem: Memory)
    requires Joins(p, hits, i, j, r) && HelperHonest(hits[j].strings, mem)
    ensures CaptureOf(r).Some? <==> Captures(p, r.nr, r.args, hits[j].strings)
    ensures CaptureOf(r).Some? ==>
      && CaptureFits(mem, CaptureOf(r).value)
      && CaptureOf(r).value.addr == r.args[p[r.nr % 0x1_0000_0000] - 1] != 0
  {
    if Captures(p, r.nr, r.args, hits[j].strings) {
      HelperFits(hits[j].strings, mem, r.args[p[r.nr % 0x1_0000_0000] - 1]);
    }
  }

  // ---------------------------------------------------------------- when the capture does not show

  /** Equal, or with the first `k` bytes in common. */
  predicate Alike(x: seq<Byte>, y: seq<Byte>, k: nat) {
    x == y || (k <= |x| && k <= |y| && x[..k] == y[..k])
  }

  lemma ReadFromStops(read: Reader, a: U64, room: nat, chunk: seq<Byte>, pos: nat)
    requires room > 0 && read(a, Want(room)) == Some(chunk)
    requires pos < |chunk| && chunk[pos] == 0 && 0 !in chunk[..pos]
    ensures ReadFrom(read, a, room) == chunk[..pos]
  {
    assert forall i :: 0 <= i < pos ==> chunk[i] == chunk[..pos][i] && chunk[i] != 0;
  }

  lemma ReadFromGoesOn(read: Reader, a: U64, room: nat, chunk: seq<Byte>)
    requires room > 0 && read(a, Want(room)) == Some(chunk) && a + room <= TWO64
    requires chunk != [] && |chunk| <= room && 0 !in chunk
    ensures ReadFrom(read, a, room)
         == chunk + if |chunk| < room then ReadFrom(read, a + |chunk|, room - |chunk|) else []
  {
  }

  /** The part of the captured string at and behind address `a`, as far as there is room. */
  function Inside(c: Capture, a: nat, room: nat): seq<Byte>
    requires c.bytes != [] && c.addr <= a <= End(c)
  {
    var n := |c.bytes| - 1;
    c.bytes[a - c.addr..if a - c.addr + room < n then a - c.addr + room else n]
  }

  lemma InsideStands(c: Capture, mem: Memory, a: nat, room: nat)
    requires CaptureFits(mem, c) && c.addr <= a <= End(c)
    ensures var x := Inside(c, a, room);
      Stand(mem, a, x) && 0 !in x && |x| <= room && (|x| < room ==> a + |x| == End(c))
  {
    var s, x := c.bytes[..|c.bytes| - 1], Inside(c, a, room);
    forall i | 0 <= i < |x|
      ensures x[i] == s[a - c.addr + i] && x[i] != 0
    {
      assert s[a - c.addr + i] in s;
    }
    forall i | a <= i < a + |x|
      ensures i in mem && mem[i] == x[i - a]
    {
      assert x[i - a] == s[i - c.addr];
    }
  }

  /** What the first chunk read inside a capture holds: all that is asked for, or the rest and the NUL. */
  lemma InsideChunk(c: Capture, a: nat, room: nat, chunk: seq<Byte>)
    requires 1 <= |c.bytes| <= 128 && c.bytes[|c.bytes| - 1] == 0 && c.addr <= a <= End(c) && room > 0
    requires var off := a - c.addr;
      chunk == c.bytes[off..if off + Want(room) < |c.bytes| then off + Want(room) else |c.bytes|]
    ensures var x := Inside(c, a, room); chunk == if |x| < room then x + [0] else x
  {
    var x, off, n := Inside(c, a, room), a - c.addr, |c.bytes| - 1;
    if |x| < room {
      assert x == c.bytes[off..n] && chunk == c.bytes[off..n + 1];
    } else {
      assert Want(room) == room && x == c.bytes[off..off + room];
    }
  }

  lemma InsideIsRead(c: Capture, proc: Reader, mem: Memory, a: nat, room: nat)
    requires CaptureFits(mem, c) && c.addr <= a <= End(c) && a + room <= TWO64 && a < TWO64
    ensures ReadFrom(EbpfRead(Some(c), proc), a, room) == Inside(c, a, room)
  {
    var x := Inside(c, a, room);
    InsideStands(c, mem, a, room);
    if room > 0 {
      var read := EbpfRead(Some(c), proc);
      var chunk := read(a, Want(room)).value;
      InsideChunk(c, a, room, chunk);
      if |x| < room {
        assert chunk[..|x|] == x;
        ReadFromStops(read, a, room, chunk, |x|);
      } else {
        ReadFromGoesOn(read, a, room, chunk);
      }
    }
  }

  /** Reading from inside a capture gives what is there, up to the end of the capture. */
  lemma InsideReads(c: Capture, proc: Reader, mem: Memory, a: nat, room: nat)
    requires CaptureFits(mem, c) && c.addr <= a <= End(c) && a < TWO64 && a + room <= TWO64
    ensures var x, y := ReadFrom(EbpfRead(Some(c), proc), a, room), StringAt(mem, a, room);
      x == y || (CutShort(mem, c) && x < y && a + |x| == End(c))
  {
    InsideIsRead(c, proc, mem, a, room);
    InsideStands(c, mem, a, room);
    var x := Inside(c, a, room);
    StringAcrossChunk(mem, a, room, x);
    assert x + [] == x;
  }

  lemma AlikeBehind(chunk: seq<Byte>, x: seq<Byte>, y: seq<Byte>, k: nat)
    requires |chunk| <= k && Alike(x, y, k - |chunk|)
    ensures Alike(chunk + x, chunk + y, k)
  {
    if x != y {
      assert (chunk + x)[..k] == chunk + x[..k - |chunk|];
      assert (chunk + y)[..k] == chunk + y[..k - |chunk|];
    }
  }

  /** `x` is `y`, except that the end of a capture that was cut short can look like the end. */
  ghost predicate ReadWell(c: Capture, mem: Memory, a: nat, x: seq<Byte>, y: seq<Byte>)
    requires c.bytes != []
  {
    if CutShort(mem, c) && a <= End(c) then Alike(x, y, End(c) - a) else x == y
  }

  /** Reading through a capture from outside it: one chunk of real memory, then on from there. */
  lemma OutsideStep(c: Capture, proc: Reader, mem: Memory, a: nat, room: nat, chunk: seq<Byte>)
    requires CaptureFits(mem, c) && !(c.addr <= a <= End(c)) && a < TWO64 && a + room <= TWO64
    requires room > 0 && proc(a, Want(room)) == Some(chunk) && TruePrefix(mem, a, Want(room), chunk)
    requires 0 !in chunk && |chunk| < room ==>
      ReadWell(c, mem, a + |chunk|, ReadFrom(EbpfRead(Some(c), proc), a + |chunk|, room - |chunk|),
               StringAt(mem, a + |chunk|, room - |chunk|))
    ensures ReadWell(c, mem, a, ReadFrom(EbpfRead(Some(c), proc), a, room), StringAt(mem, a, room))
  {
    var read := EbpfRead(Some(c), proc);
    assert read(a, Want(room)) == Some(chunk);
    var pos := FirstNul(chunk);
    if pos.Some? {
      StringUpToNul(mem, a, room, chunk, pos.value);
      ReadFromStops(read, a, room, chunk, pos.value);
    } else {
      StringAcrossChunk(mem, a, room, chunk);
      ReadFromGoesOn(read, a, room, chunk);
      if |chunk| < room && CutShort(mem, c) && a + |chunk| <= End(c) {
        AlikeBehind(chunk, ReadFrom(read, a + |chunk|, room - |chunk|),
                    StringAt(mem, a + |chunk|, room - |chunk|), End(c) - a);
      }
    }
  }

  lemma OutsideNothing(c: Capture, proc: Reader, mem: Memory, a: nat, room: nat)
    requires c.bytes != [] && Honest(proc, mem) && !(c.addr <= a <= End(c)) && a !in mem && room > 0 && a < TWO64
    ensures ReadWell(c, mem, a, ReadFrom(EbpfRead(Some(c), proc), a, room), StringAt(mem, a, room))
  {
    var got := proc(a, Want(room));
    assert EbpfRead(Some(c), proc)(a, Want(room)) == got && (got.None? || got.value == []);
  }

  lemma HonestChunk(proc: Reader, mem: Memory, a: nat, room: nat) returns (chunk: seq<Byte>)
    requires Honest(proc, mem) && room > 0 && a in mem
    ensures proc(a, Want(room)) == Some(chunk) && TruePrefix(mem, a, Want(room), chunk)
  {
    chunk := proc(a, Want(room)).value;
  }

  lemma {:induction false} CaptureReads(c: Capture, proc: Reader, mem: Memory, a: nat, room: nat)
    requires CaptureFits(mem, c) && Honest(proc, mem) && a < TWO64 && a + room <= TWO64
    ensures ReadWell(c, mem, a, ReadFrom(EbpfRead(Some(c), proc), a, room), StringAt(mem, a, room))
    decreases room
  {
    if c.addr <= a <= End(c) {
      InsideWell(c, proc, mem, a, room);
    } else if room == 0 {
      NoRoomWell(c, proc, mem, a);
    } else if a !in mem {
      OutsideNothing(c, proc, mem, a, room);
    } else {
      var chunk := HonestChunk(proc, mem, a, room);
      if |chunk| < room {
        CaptureReads(c, proc, mem, a + |chunk|, room - |chunk|);
      }
      OutsideStep(c, proc, mem, a, room, chunk);
    }
  }

  lemma InsideWell(c: Capture, proc: Reader, mem: Memory, a: nat, room: nat)
    requires CaptureFits(mem, c) && c.addr <= a <= End(c) && a < TWO64 && a + room <= TWO64
    ensures ReadWell(c, mem, a, ReadFrom(EbpfRead(Some(c), proc), a, room), StringAt(mem, a, room))
  {
    InsideReads(c, proc, mem, a, room);
  }

  lemma NoRoomWell(c: Capture, proc: Reader, mem: Memory, a: nat)
    requires c.bytes != [] && a < TWO64
    ensures ReadWell(c, mem, a, ReadFrom(EbpfRead(Some(c), proc), a, 0), StringAt(mem, a, 0))
  {
  }

  lemma AlikeQuotes(x: seq<Byte>, y: seq<Byte>, k: nat)
    requires Alike(x, y, k) && k > MAX_STR
    ensures Quote(x) == Quote(y)
  {
    if x != y {
      assert Shown(x) == x[..k][..MAX_STR] == y[..k][..MAX_STR] == Shown(y);
    }
  }

  /** A string of at most 32 bytes is not shown like any longer one that begins with it. */
  lemma PrefixQuotesDiffer(x: seq<Byte>, y: seq<Byte>)
    requires x < y && |x| <= MAX_STR
    ensures Quote(x) != Quote(y)
  {
    var more := Shown(y)[|x|..];
    assert Shown(y) == x + more;
    FlatMapAppends(Escape, x, more);
    var n := 1 + |EscapeAll(x)|;
    assert Quote(x)[n] == '"' && |Quote(x)| == n + 1;
    if more != [] {
      assert Quote(y)[n] == Escape(more[0])[0];
    } else {
      assert |y| > MAX_STR && |Quote(y)| == n + 4;
    }
  }

  lemma PathTextIn(read: Reader, addr: U64, z: seq<Byte>)
    requires Cstr(read, addr, PATH_CAP) == Some(z)
    ensures PathText(read, addr) == Quote(z)
  {
  }

  lemma CstrInside(c: Capture, proc: Reader, addr: U64)
    requires c.bytes != [] && 0 < c.addr <= addr <= End(c)
    ensures Cstr(EbpfRead(Some(c), proc), addr, PATH_CAP) == Some(ReadFrom(EbpfRead(Some(c), proc), addr, PATH_CAP))
  {
  }

  lemma MappedInside(c: Capture, mem: Memory, addr: nat)
    requires CaptureFits(mem, c) && c.addr <= addr <= End(c)
    ensures addr in mem
  {
    assert addr < End(c) ==> addr < c.addr + |c.bytes[..|c.bytes| - 1]|;
  }

  /** The strings read inside the capture and in memory: the same, or the capture's breaks off at its
      end. */
  lemma InsideStrings(c: Capture, proc: Reader, mem: Memory, addr: U64)
    requires CaptureFits(mem, c) && addr + PATH_CAP <= TWO64 && c.addr <= addr <= End(c)
    ensures var x, y := ReadFrom(EbpfRead(Some(c), proc), addr, PATH_CAP), StringAt(mem, addr, PATH_CAP);
      if CutShort(mem, c) then x < y && |x| == End(c) - addr else x == y
  {
    InsideIsRead(c, proc, mem, addr, PATH_CAP);
    InsideReads(c, proc, mem, addr, PATH_CAP);
    InsideStands(c, mem, addr, PATH_CAP);
    StringAtIsMaximal(mem, addr, PATH_CAP);
  }

  /** The texts of an address inside the capture, and how the strings they come from differ. */
  lemma InsideTexts(c: Capture, proc: Reader, mem: Memory, addr: U64) returns (x: seq<Byte>, y: seq<Byte>)
    requires CaptureFits(mem, c) && addr + PATH_CAP <= TWO64 && 0 < c.addr <= addr <= End(c)
    requires Cstr(proc, addr, PATH_CAP) == CStringIn(mem, addr, PATH_CAP)
    ensures PathText(EbpfRead(Some(c), proc), addr) == Quote(x) && PathText(proc, addr) == Quote(y)
    ensures if CutShort(mem, c) then x < y && |x| == End(c) - addr else x == y
  {
    x, y := ReadFrom(EbpfRead(Some(c), proc), addr, PATH_CAP), StringAt(mem, addr, PATH_CAP);
    MappedInside(c, mem, addr);
    CstrInside(c, proc, addr);
    PathTextIn(EbpfRead(Some(c), proc), addr, x);
    PathTextIn(proc, addr, y);
    InsideStrings(c, proc, mem, addr);
  }

  lemma TransparencyInside(c: Capture, proc: Reader, mem: Memory, addr: U64)
    requires CaptureFits(mem, c) && addr + PATH_CAP <= TWO64 && 0 < c.addr <= addr <= End(c)
    requires Cstr(proc, addr, PATH_CAP) == CStringIn(mem, addr, PATH_CAP)
    ensures PathText(EbpfRead(Some(c), proc), addr) == PathText(proc, addr) <==> PathWell(c, mem, addr)
  {
    var x, y := InsideTexts(c, proc, mem, addr);
    if CutShort(mem, c) {
      if |x| <= MAX_STR {
        PrefixQuotesDiffer(x, y);
      } else {
        AlikeQuotes(x, y, |x|);
      }
    }
  }

  lemma PathTextOf(read: Reader, addr: U64)
    requires addr != 0
    ensures var got := read(addr, Want(PATH_CAP));
      PathText(read, addr)
      == if got.None? || got.value == [] then Hex(addr) else Quote(ReadFrom(read, addr, PATH_CAP))
  {
  }

  lemma TransparencyOutside(c: Capture, proc: Reader, mem: Memory, addr: U64)
    requires CaptureFits(mem, c) && Honest(proc, mem) && addr + PATH_CAP <= TWO64
    requires addr != 0 && !(c.addr <= addr <= End(c))
    ensures PathText(EbpfRead(Some(c), proc), addr) == PathText(proc, addr)
  {
    var read := EbpfRead(Some(c), proc);
    PathTextOf(read, addr);
    PathTextOf(proc, addr);
    assert read(addr, Want(PATH_CAP)) == proc(addr, Want(PATH_CAP));
    OutsideStrings(c, proc, mem, addr);
  }

  lemma OutsideStrings(c: Capture, proc: Reader, mem: Memory, addr: U64)
    requires CaptureFits(mem, c) && Honest(proc, mem) && addr + PATH_CAP <= TWO64
    requires addr != 0 && !(c.addr <= addr <= End(c))
    ensures Quote(ReadFrom(EbpfRead(Some(c), proc), addr, PATH_CAP)) == Quote(ReadFrom(proc, addr, PATH_CAP))
  {
    HonestReads(proc, mem, addr, PATH_CAP);
    CaptureReads(c, proc, mem, addr, PATH_CAP);
    var x, y := ReadFrom(EbpfRead(Some(c), proc), addr, PATH_CAP), StringAt(mem, addr, PATH_CAP);
    if CutShort(mem, c) && addr < c.addr {
      assert End(c) - addr > MAX_STR;
      AlikeQuotes(x, y, End(c) - addr);
    } else {
      assert x == y;
    }
  }

  /** The address does not point into the last 32 bytes of a capture that was cut short. */
  ghost predicate PathWell(c: Capture, mem: Memory, addr: nat)
    requires c.bytes != []
  {
    !(CutShort(mem, c) && addr <= End(c) <= addr + 32)
  }

  /** Showing a path argument through the capture gives the same text as showing it from the
      thread's unchanged memory, exactly unless the argument points into the last 32 bytes of
      a capture that was cut short. */
  lemma PathTransparency(c: Capture, proc: Reader, mem: Memory, addr: U64)
    requires CaptureFits(mem, c) && Honest(proc, mem) && addr + PATH_CAP <= TWO64 && c.addr != 0
    ensures PathText(EbpfRead(Some(c), proc), addr) == PathText(proc, addr) <==> PathWell(c, mem, addr)
  {
    ReadCstrIsChunkFree(proc, mem, addr, PATH_CAP);
    if c.addr <= addr <= End(c) {
      TransparencyInside(c, proc, mem, addr);
    } else {
      assert PathWell(c, mem, addr);
      if addr != 0 {
        TransparencyOutside(c, proc, mem, addr);
      }
    }
  }

  /** The captured argument itself: whatever the length of the path, the reader of the trace
      cannot tell the capture from the memory. */
  lemma CapturedPathIsTransparent(c: Capture, proc: Reader, mem: Memory)
    requires CaptureFits(mem, c) && Honest(proc, mem) && 0 < c.addr && c.addr + PATH_CAP <= TWO64
    ensures PathText(EbpfRead(Some(c), proc), c.addr) == PathText(proc, c.addr)
  {
    PathTransparency(c, proc, mem, c.addr);
  }

  // ---------------------------------------------------------------- a path that is shown wrongly

  /** A page with a path of 200 letters at its start. */
  const LONG_PATH: Memory := map a: nat | 0x1000 <= a < 0x2000 :: if a < 0x1000 + 200 then 97 else 0
  const LONG_CAPTURE := Capture(0x1000, seq(127, i => 97) + [0])

  lemma LongCaptureFits()
    ensures CaptureFits(LONG_PATH, LONG_CAPTURE) && CutShort(LONG_PATH, LONG_CAPTURE)
    ensures End(LONG_CAPTURE) == 0x1000 + 127
  {
    var bytes := LONG_CAPTURE.bytes;
    assert bytes[..|bytes| - 1] == seq(127, i => 97);
  }

  /** The exception does occur: the capture of that path shows too little of it to a second path
      argument that points 100 bytes into it. */
  lemma SecondPathMisread(proc: Reader)
    requires Honest(proc, LONG_PATH)
    ensures CaptureFits(LONG_PATH, LONG_CAPTURE)
    ensures PathText(EbpfRead(Some(LONG_CAPTURE), proc), 0x1000 + 100) != PathText(proc, 0x1000 + 100)
  {
    LongCaptureFits();
    PathTransparency(LONG_CAPTURE, proc, LONG_PATH, 0x1000 + 100);
  }

  // ---------------------------------------------------------------- buffers

  /** How a buffer argument is shown, `want` bytes of it at most. */
  function BufText(read: Reader, addr: U64, want: nat): string {
    var got := read(addr, want);
    if got.Some? && got.value != [] then Quote(got.value) else Hex(addr)
  }

  /** What is mapped from an address on, at most `len` bytes. */
  function MappedFrom(mem: Memory, a: nat, len: nat): seq<Byte>
    decreases len, a
  {
    if len == 0 || a !in mem then [] else [mem[a]] + MappedFrom(mem, a + 1, len - 1)
  }

  /** A reader that shows all there is at once, as `/proc/<tid>/mem` does. */
  ghost predicate Exhaustive(read: Reader, mem: Memory) {
    forall a: nat, len: nat {:trigger read(a, len)} ::
      (if read(a, len).Some? then read(a, len).value else []) == MappedFrom(mem, a, len)
  }

  lemma {:induction false} MappedStands(mem: Memory, a: nat, len: nat)
    ensures |MappedFrom(mem, a, len)| <= len && Stand(mem, a, MappedFrom(mem, a, len))
    ensures MappedFrom(mem, a, len) == [] <==> len == 0 || a !in mem
    decreases len
  {
    if len > 0 && a in mem {
      MappedStands(mem, a + 1, len - 1);
      var rest := MappedFrom(mem, a + 1, len - 1);
      forall i | a <= i < a + 1 + |rest|
        ensures i in mem && mem[i] == ([mem[a]] + rest)[i - a]
      {
        assert i > a ==> ([mem[a]] + rest)[i - a] == rest[i - (a + 1)];
      }
    }
  }

  lemma ExhaustiveIsHonest(read: Reader, mem: Memory)
    requires Exhaustive(read, mem)
    ensures Honest(read, mem)
  {
    forall a: nat, len: nat | len > 0
      ensures if a in mem then read(a, len).Some? && TruePrefix(mem, a, len, read(a, len).value)
              else read(a, len).None? || read(a, len).value == []
    {
      MappedStands(mem, a, len);
    }
  }

  lemma StandPart(mem: Memory, a: nat, chunk: seq<Byte>, i: nat, j: nat)
    requires Stand(mem, a, chunk) && i <= j <= |chunk|
    ensures Stand(mem, a + i, chunk[i..j])
  {
    forall k | a + i <= k < a + j
      ensures k in mem && mem[k] == chunk[i..j][k - (a + i)]
    {
      assert chunk[i..j][k - (a + i)] == chunk[k - a];
    }
  }

  lemma {:induction false} MappedAcross(mem: Memory, a: nat, len: nat, chunk: seq<Byte>)
    requires |chunk| <= len && Stand(mem, a, chunk)
    ensures MappedFrom(mem, a, len) == chunk + MappedFrom(mem, a + |chunk|, len - |chunk|)
    decreases |chunk|
  {
    if |chunk| > 0 {
      assert mem[a] == chunk[0];
      StandPart(mem, a, chunk, 1, |chunk|);
      MappedAcross(mem, a + 1, len - 1, chunk[1..]);
      assert chunk == [chunk[0]] + chunk[1..];
    }
  }

  /** The part of the capture a reader is given. */
  function Given(c: Capture, addr: nat, want: nat): seq<Byte>
    requires c.bytes != [] && c.addr <= addr <= End(c)
  {
    c.bytes[addr - c.addr..if addr - c.addr + want < |c.bytes| then addr - c.addr + want else |c.bytes|]
  }

  lemma SliceOfPrefix(bytes: seq<Byte>, n: nat, i: nat, j: nat)
    requires i <= j <= n <= |bytes|
    ensures bytes[..n][i..j] == bytes[i..j]
  {
  }

  lemma GivenInside(c: Capture, mem: Memory, addr: nat, want: nat)
    requires CaptureFits(mem, c) && c.addr <= addr && addr + want <= End(c)
    ensures Given(c, addr, want) == MappedFrom(mem, addr, want)
  {
    var off, n := addr - c.addr, |c.bytes| - 1;
    SliceOfPrefix(c.bytes, n, off, off + want);
    StandPart(mem, c.addr, c.bytes[..n], off, off + want);
    MappedAcross(mem, addr, want, c.bytes[off..off + want]);
    assert c.bytes[off..off + want] + [] == c.bytes[off..off + want];
  }

  /** Where the capture ends: the rest of the string, the closing byte, and then what is there goes
      on. */
  lemma GivenBeyond(c: Capture, mem: Memory, addr: nat, want: nat)
    requires CaptureFits(mem, c) && c.addr <= addr <= End(c) < addr + want
    ensures var s := c.bytes[addr - c.addr..|c.bytes| - 1];
      && Given(c, addr, want) == s + [0]
      && MappedFrom(mem, addr, want) == s + ([mem[End(c)]] + MappedFrom(mem, End(c) + 1, want - |s| - 1))
  {
    var off, n := addr - c.addr, |c.bytes| - 1;
    var all, s := c.bytes[..n], c.bytes[off..n];
    assert s == all[off..n];
    StandPart(mem, c.addr, all, off, n);
    MappedAcross(mem, addr, want, s);
  }

  predicate StartsWithNul(t: string) {
    |t| >= 2 && t[0] == '\\' && t[1] == '0'
  }

  lemma OnlyNulStartsSo(b: Byte, rest: string)
    ensures StartsWithNul(Escape(b) + rest) <==> b == 0
  {
  }

  lemma QuoteBehind(s: seq<Byte>, b: Byte, more: seq<Byte>)
    requires |s| < MAX_STR
    ensures var q, n := Quote(s + ([b] + more)), 1 + |EscapeAll(s)|;
      n <= |q| && exists rest :: q[n..] == Escape(b) + rest
  {
    var z := s + ([b] + more);
    var shown := Shown(z)[|s| + 1..];
    assert Shown(z) == s + ([b] + shown);
    FlatMapAppends(Escape, s, [b] + shown);
    FlatMapAppends(Escape, [b], shown);
    FlatMapOne(Escape, b);
    var dots := if |z| > MAX_STR then "..." else "";
    Regroup(EscapeAll(s), Escape(b), EscapeAll(shown), dots);
    assert Quote(z) == "\"" + (EscapeAll(s) + (Escape(b) + EscapeAll(shown))) + "\"" + dots;
  }

  lemma Regroup(e: string, m: string, t: string, dots: string)
    ensures var q := "\"" + (e + (m + t)) + "\"" + dots;
      1 + |e| <= |q| && q[1 + |e|..] == m + (t + "\"" + dots)
  {
  }

  /** A NUL does not print like any other byte, whatever follows it. */
  lemma NulDiffers(s: seq<Byte>, b: Byte, more: seq<Byte>)
    requires |s| < MAX_STR && b != 0
    ensures Quote(s + [0]) != Quote(s + ([b] + more))
  {
    var n := 1 + |EscapeAll(s)|;
    QuoteBehind(s, 0, []);
    QuoteBehind(s, b, more);
    var zero: seq<Byte> := [0];
    assert zero + [] == [0];
    var x, y := Quote(s + [0]), Quote(s + ([b] + more));
    var restX :| x[n..] == Escape(0) + restX;
    var restY :| y[n..] == Escape(b) + restY;
    OnlyNulStartsSo(0, restX);
    OnlyNulStartsSo(b, restY);
  }

  /** When a buffer inside the capture is shown as it stands in memory: if all that is shown lies
      before the end of the capture, or just there, or nothing comes after. */
  ghost predicate BufWell(c: Capture, mem: Memory, addr: nat, want: nat)
    requires c.bytes != [] && c.addr <= addr <= End(c)
  {
    var room := End(c) - addr;
    want <= room || (if CutShort(mem, c) then room >= 32 else want == room + 1 || End(c) + 1 !in mem)
  }

  /** What the closing byte of the capture, and what comes after it, do to the text. */
  lemma BeyondTheEnd(s: seq<Byte>, b: Byte, more: seq<Byte>)
    requires |s| + 1 + |more| <= MAX_STR + 1
    ensures Quote(s + [0]) == Quote(s + ([b] + more)) <==> if b == 0 then more == [] else |s| >= MAX_STR
  {
    var x, y := s + [0], s + ([b] + more);
    if b == 0 {
      assert y == x + more;
      if more != [] {
        PrefixQuotesDiffer(x, y);
      } else {
        assert y == x;
      }
    } else if |s| < MAX_STR {
      NulDiffers(s, b, more);
    } else {
      assert Shown(x) == s == Shown(y);
    }
  }

  /** The text of some bytes read, or of none. */
  function BytesText(addr: U64, bytes: seq<Byte>): string {
    if bytes != [] then Quote(bytes) else Hex(addr)
  }

  lemma BufTexts(c: Capture, proc: Reader, mem: Memory, addr: U64, want: nat)
    requires Exhaustive(proc, mem) && c.bytes != [] && c.addr <= addr <= End(c)
    ensures BufText(EbpfRead(Some(c), proc), addr, want) == BytesText(addr, Given(c, addr, want))
    ensures BufText(proc, addr, want) == BytesText(addr, MappedFrom(mem, addr, want))
  {
  }

  lemma BytesTextsBeyond(addr: U64, x: seq<Byte>, y: seq<Byte>, s: seq<Byte>, b: Byte, more: seq<Byte>)
    requires x == s + [0] && y == s + ([b] + more) && |s| + 1 + |more| <= MAX_STR + 1
    ensures BytesText(addr, x) == BytesText(addr, y) <==> if b == 0 then more == [] else |s| >= MAX_STR
  {
    BeyondTheEnd(s, b, more);
    assert |x| > 0 && |y| > 0;
  }

  /** How what is given and what is there go on behind the part of the string they share. */
  lemma SplitAtTheEnd(c: Capture, mem: Memory, addr: nat, want: nat) returns (s: seq<Byte>, b: Byte, more: seq<Byte>)
    requires CaptureFits(mem, c) && c.addr <= addr <= End(c) && End(c) - addr < want <= MAX_STR + 1
    ensures Given(c, addr, want) == s + [0] && MappedFrom(mem, addr, want) == s + ([b] + more)
    ensures |s| == End(c) - addr && |s| + 1 + |more| <= MAX_STR + 1
    ensures b == 0 <==> !CutShort(mem, c)
    ensures more == [] <==> want == |s| + 1 || End(c) + 1 !in mem
  {
    s, b := c.bytes[addr - c.addr..|c.bytes| - 1], mem[End(c)];
    more := MappedFrom(mem, End(c) + 1, want - |s| - 1);
    GivenBeyond(c, mem, addr, want);
    MappedStands(mem, End(c) + 1, want - |s| - 1);
  }

  lemma BufCondition(c: Capture, mem: Memory, addr: nat, want: nat, n: nat, b: Byte, more: seq<Byte>)
    requires c.bytes != [] && c.addr <= addr <= End(c) && n == End(c) - addr < want <= MAX_STR + 1
    requires b == 0 <==> !CutShort(mem, c)
    requires more == [] <==> want == n + 1 || End(c) + 1 !in mem
    ensures BufWell(c, mem, addr, want) <==> if b == 0 then more == [] else n >= MAX_STR
  {
  }

  lemma BufBeyond(c: Capture, mem: Memory, addr: U64, want: nat, x: string, y: string)
    requires CaptureFits(mem, c) && c.addr <= addr <= End(c) && End(c) - addr < want <= MAX_STR + 1
    requires x == BytesText(addr, Given(c, addr, want)) && y == BytesText(addr, MappedFrom(mem, addr, want))
    ensures x == y <==> BufWell(c, mem, addr, want)
  {
    var s, b, more := SplitAtTheEnd(c, mem, addr, want);
    BytesTextsBeyond(addr, Given(c, addr, want), MappedFrom(mem, addr, want), s, b, more);
    BufCondition(c, mem, addr, want, |s|, b, more);
  }

  /** A buffer argument that points into the capture: the text through the capture is the text from
      memory exactly if the buffer ends before the capture does, or just with it, or nothing is
      mapped behind; or, with the string going on, if the difference lies behind the 32 bytes shown. */
  lemma BufTransparency(c: Capture, proc: Reader, mem: Memory, addr: U64, want: nat)
    requires CaptureFits(mem, c) && Exhaustive(proc, mem) && c.addr <= addr <= End(c) && want <= MAX_STR + 1
    ensures BufText(EbpfRead(Some(c), proc), addr, want) == BufText(proc, addr, want) <==> BufWell(c, mem, addr, want)
  {
    BufTexts(c, proc, mem, addr, want);
    if want <= End(c) - addr {
      GivenInside(c, mem, addr, want);
    } else {
      BufBeyond(c, mem, addr, want, BufText(EbpfRead(Some(c), proc), addr, want), BufText(proc, addr, want));
    }
  }

  /** So is a buffer argument of 32 bytes there. */
  lemma BufferMisread(proc: Reader, want: nat)
    requires Exhaustive(proc, LONG_PATH) && want == 32
    ensures CaptureFits(LONG_PATH, LONG_CAPTURE)
    ensures BufText(EbpfRead(Some(LONG_CAPTURE), proc), 0x1000 + 100, want) != BufText(proc, 0x1000 + 100, want)
  {
    LongCaptureFits();
    BufTransparency(LONG_CAPTURE, proc, LONG_PATH, 0x1000 + 100, want);
  }

  /** There are such readers, for any memory. */
  lemma ExhaustiveReaderExists(mem: Memory) returns (read: Reader)
    ensures Exhaustive(read, mem) && Honest(read, mem)
  {
    read := (a: nat, len: nat) => Some(MappedFrom(mem, a, len));
    ExhaustiveIsHonest(read, mem);
  }
}
