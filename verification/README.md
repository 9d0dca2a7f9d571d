# Syren, modelled and proved

Syren turns an interleaved stream of kernel notifications about many threads into one event per
completed syscall, with two backends (ptrace and eBPF), a decoder that prints each call, a summary
table and a filter. This project models those parts and proves what they keep over whole runs.
`dafny verify dfyconfig.toml` checks everything.

## How it is laid out

| files | what they hold |
|---|---|
| `Common.dfy`, `Text.dfy`, `Syscalls.dfy` | events, the reference meaning of "completed call", number formats, splitting text, the shape of the syscall table |
| `PtraceEngine.dfy`, `PtraceTracer.dfy` | the ptrace tracer: its steps as functions, and the class whose methods are proved against them |
| `PtraceWorld.dfy` | the kernel as an environment that stops any thread at any time, and runs of both together |
| `PtraceInvariants.dfy`, `PtraceRuns.dfy`, `PtraceCalls.dfy` | what every step keeps, what every run guarantees, what a caller of `next_event` may rely on |
| `BpfPrograms.dfy`, `BpfRuns.dfy` | the three in-kernel programs and their bounded maps, over every history of tracepoint hits |
| `EbpfTracer.dfy` | the user-space half, reading a ring to which the kernel can write between any two of its steps |
| `Agreement.dfy` | both backends against the same thread |
| `Render.dfy`, `Capture.dfy`, `Flags.dfy`, `Signature.dfy`, `Transparency.dfy` | following strings, quoting, the in-kernel path capture, flag words, whole lines |
| `Summary.dfy`, `Filter.dfy` | the summary table, the `-e` filter |

Code that updates fields or loops is a class or a method; its `ensures` ties it to a function, and
the lemmas then relate that function to an independent reference: `Completed` (the calls of a
history of entries and returns), `OwedFor` (the resume each stop deserves), `happened` (the deaths
and signals there were to tell), `Descendant` (lines of forks), `Joins` (entry and return of one
record), `StringAt` (the string in memory), `Unquote`, `Parse` and `ReadSignature` (readers of the
printed text), `StatOf` and `TotalOf` (what records say about a name, and in all), `AsksFor` (what
a filter token asks for).

## Where the code does less than it says

Each of these is the code as it stands, with the exact condition proved.

- Exec events invert pairing. A following ptrace tracer drops the open entry of an `execve` at its
  exec event, so its exit stop is taken for an entry. From then on every stop of that thread is
  taken for its opposite. Between two calls the stream is right if and only if the thread has had no
  exec event (`StreamTellsCompletedCalls`; `ExecEventMispairs` gives the run).
- A death can be told of the wrong process. `waitpid` has already reaped a dead thread when the engine
  looks up its process id, so for a thread that does not lead its process nothing is left to read.
  With all of /proc readable, the exit event carries the right process id if and only if the engine
  has it in its cache (after one reported call it has) or thread and process have the same id;
  otherwise it carries the thread's own id (`DeathsAndSignalsAreTold`, `DeathTold`; `DeathMisnamed`
  gives the run).
- "The same event stream". Started by `spawn`, the eBPF backend also reports what the child does
  between being armed and its program's start: the `execve` that starts it, failed attempts along the
  search path, and the `read` of the start pipe if the child only reaches it once armed. ptrace starts
  after that. A call that a thread is inside when it becomes a target is not reported. `BackendsAgree` carries these calls as `before`; `SpawnTellsMore` gives a history.
- The path capture is served for any address inside it. A path argument that points into the last
  32 bytes of a capture that was cut short is shown wrongly, and no other is (`PathTransparency`;
  `SecondPathMisread` gives one). A buffer argument inside the capture is shown wrongly exactly if it
  reaches out of it and the difference shows (`BufTransparency`; `BufferMisread` gives one). The argument that was captured never
  is (`CapturedPathIsTransparent`).
- Quoting writes octal escapes without leading zeros, so `[1, '3']` and `[11]` print alike. The
  round trip holds if and only if no one- or two-digit escape is followed by an octal digit
  (`QuoteRoundTrip`).
- Open flags lose bit 0o4000000 when O_DSYNC is clear and bit 0o20000000 when O_DIRECTORY is clear,
  and nothing else (`OpenReadsBack`; `LoneBitsAreLost` gives two such words).
- Whether a filter with an unknown token is accepted depends on where `all` stands
  (`AcceptedWhen`, `OrderDecidesAcceptance`).

## Model

| member | source | states |
|---|---|---|
| PtraceObject.PtraceTracer.Spawn | crates/syren-trace/src/ptrace.rs:55-90 | the fields after set-up: the child live, its process id known, one resume issued |
| PtraceObject.PtraceTracer.Attach | crates/syren-trace/src/ptrace.rs:92-108 | nothing to trace exactly for an empty list; otherwise all pids live and each resumed once |
| PtraceObject.PtraceTracer.TgidOf | crates/syren-trace/src/ptrace.rs:127-134 | the process id is asked for once and then cached, falling back to the tid |
| PtraceObject.PtraceTracer.Forget | crates/syren-trace/src/ptrace.rs:223-227 | a dead thread leaves all three collections, the rest stays |
| PtraceObject.PtraceTracer.OnSyscallStop | crates/syren-trace/src/ptrace.rs:193-221 | exact new state and event of a syscall stop, failed calls included |
| PtraceObject.PtraceTracer.Handle | crates/syren-trace/src/ptrace.rs:136-191 | exact new state and event of every wait status, failed calls included |
| PtraceObject.PtraceTracer.NextEvent | crates/syren-trace/src/ptrace.rs:231-250 | the loop does what `NextEvent` of the model does with the replies of waitpid |
| PtraceInvariants.StepKeepsInv | crates/syren-trace/src/ptrace.rs:136-227 | every step of engine or kernel keeps pairing, histories, ids, resumes, time and the knowledge of who is alive |
| PtraceRuns.SpawnBegins | crates/syren-trace/src/ptrace.rs:81-87 | a spawned tracer can begin a run |
| PtraceRuns.AttachBegins | crates/syren-trace/src/ptrace.rs:96-107 | an attached tracer can begin a run |
| PtraceRuns.PairingIsExact | crates/syren-trace/src/ptrace.rs:193-221 | in every reachable state a thread is in flight iff "inside a call" differs from "has had an exec event"; a dead one leaves nothing behind |
| PtraceRuns.StreamTellsCompletedCalls | crates/syren-trace/src/ptrace.rs:110-221 | a thread's syscall events are its completed calls in order, with one process id, unless it had an exec event; between calls if and only if; exec events need following |
| Common.AsI64 | crates/syren-trace/src/ptrace.rs:204 | the return value is the register read as a signed 64-bit number |
| PtraceRuns.ExecEventMispairs | crates/syren-trace/src/ptrace.rs:153-155 | a reachable run in which one execve makes the stream miss a completed call |
| PtraceRuns.EveryStopResumedOnce | crates/syren-trace/src/ptrace.rs:153-218 | every stop handed over is resumed once, in order, with the signal it stopped for, or with none for signals 19 (SIGSTOP) and 5 (SIGTRAP) and all other stops; the only thread whose stop was handed over and that is not yet resumed is the pending one |
| PtraceRuns.DeathsAndSignalsAreTold | crates/syren-trace/src/ptrace.rs:127-187 | every death and every delivered signal is told once, in order, with its code; while /proc can be read, all syscall events and signals carry their thread's process id, and a death does iff that id was cached or is the thread's own, and otherwise carries the tid |
| PtraceRuns.DeathTold | crates/syren-trace/src/ptrace.rs:140-151 | the exact exit event a death brings, from what the engine has cached |
| PtraceRuns.DeathMisnamed | crates/syren-trace/src/ptrace.rs:140-144 | a reachable run that tells the end of process 2 where thread 2 of process 1 ended |
| PtraceRuns.LostNeedsOlder | crates/syren-trace/src/ptrace.rs:158-168 | a living thread the engine does not know would need an older such thread |
| PtraceRuns.NoPrematureEnd | crates/syren-trace/src/ptrace.rs:238-240 | when `live` is empty no traced thread is alive, even if children stop or die before their parent's fork event |
| PtraceRuns.CallEndsNow | crates/syren-trace/src/ptrace.rs:194-207 | a reported call ends when its exit stop is handled: the subtraction never saturates |
| PtraceRuns.StreamIsTimely | crates/syren-trace/src/ptrace.rs:193-207 | calls end in stream order over all threads, calls of one thread do not overlap, nothing lies in the future |
| PtraceRuns.FailsExactly | crates/syren-trace/src/ptrace.rs:136-221 | handling fails exactly if it needs registers or a resume and does not get them; it then resumes nothing and keeps exactly what the stop itself changed |
| PtraceRuns.NothingToFollow | crates/syren-trace/src/ptrace.rs:153-172 | a fork event that is not followed, or whose message cannot be read, only resumes |
| PtraceRuns.CallEndsAtOnce | crates/syren-trace/src/ptrace.rs:235-245 | how a call ends without a stop: a refused resume, nobody live, no child, a failed wait |
| PtraceCalls.NextEventMakesTheSteps | crates/syren-trace/src/ptrace.rs:231-250 | one call makes exactly the steps of its stretch of the run and returns the event of the last, or goes on |
| PtraceCalls.NextEventIsSafe | crates/syren-trace/src/ptrace.rs:231-250 | after any history: a syscall event leaves exactly its own thread held, its stop handed over and not resumed, any other answer nobody; the end is announced only when nobody is alive, and is announced once waitpid says so |
| BpfPrograms.Programs.TryEnter | crates/syren-ebpf/src/main.rs:74-86 | exact new maps of a sys_enter hit |
| BpfPrograms.Programs.TryExit | crates/syren-ebpf/src/main.rs:88-125 | exact new maps and record of a sys_exit hit, full ring and failed read included |
| BpfPrograms.Programs.CapturePath | crates/syren-ebpf/src/main.rs:128-148 | exact capture fields of the reserved record |
| BpfPrograms.Programs.TryFork | crates/syren-ebpf/src/main.rs:164-172 | a child of a target becomes one if there is room |
| BpfPrograms.Programs.Arm | crates/syren-trace/src/ebpf.rs:152-167 | all seeds are in, or the map was full and one is missing |
| BpfRuns.MapsFit | crates/syren-ebpf/src/main.rs:41-96 | over every history open entries belong to targets, so an entry never lacks room |
| BpfRuns.TargetsOnlyGrow | crates/syren-ebpf/src/main.rs:164-172 | no target is ever dropped |
| BpfRuns.TargetsAreTheDescendants | crates/syren-ebpf/src/main.rs:164-172 | every target is a seed or descends from one by forks in order; all of these are targets if and only if no insertion met a full map |
| BpfRuns.EntersArePaired | crates/syren-ebpf/src/main.rs:74-96 | an entry is open iff its thread is inside a call it entered as a target, and holds that call |
| BpfRuns.RecordsAreTheReportedCalls | crates/syren-ebpf/src/main.rs:88-125 | whatever other threads do, a thread's records are its completed calls in order, less those entered before it was a target and those that found the ring full |
| BpfRuns.FinishesAreTheCompletedCalls | crates/syren-ebpf/src/main.rs:74-125 | the calls meant there are the completed calls of the thread's own history |
| BpfRuns.NothingLost | crates/syren-ebpf/src/main.rs:74-125 | with no refused reservation, every call a thread entered and finished since it became a target, whatever it did before, and nothing else |
| BpfRuns.SeenSince | crates/syren-ebpf/src/main.rs:74-79 | what counts is what the thread does behind the hit that makes it a target |
| BpfRuns.FirstMakesTarget | crates/syren-ebpf/src/main.rs:164-172 | while there is room, a thread becomes a target at the first hit that arms it or forks it from a seed or a descendant of one |
| BpfRuns.RecordsJoinHits | crates/syren-ebpf/src/main.rs:74-148 | each record joins a target's entry to that thread's next return, with its registers, times, ids and capture; no entry feeds two records; records come in order of their returns |
| BpfRuns.RecordsInOrder | crates/syren-ebpf/src/main.rs:83-117 | under a clock that never runs backwards, records end in ring order over all threads, and those of one thread do not overlap |
| EbpfStream.ExitOnce | crates/syren-trace/src/ebpf.rs:209-215 | the stream has one exit, behind exactly the records before it, and every record in ring order |
| EbpfStream.OwnCapture | crates/syren-trace/src/ebpf.rs:169-178 | each event of the stream has its own record's ids, number, arguments, return value and duration, its entry time from the baseline on (0 before it), and its capture; the exit carries none |
| EbpfStream.StreamTellsRecords | crates/syren-trace/src/ebpf.rs:169-178 | the stream tells of a thread what its records tell, exit or no exit |
| EbpfStream.StreamIsTimely | crates/syren-trace/src/ebpf.rs:275-285 | calls end in stream order over all threads, calls of one thread do not overlap, the baseline being read before anything is armed |
| EbpfObject.EbpfTracer.constructor | crates/syren-trace/src/ebpf.rs:77-93 | the tracer starts with an empty stream, not finished |
| EbpfObject.EbpfTracer.DrainRing | crates/syren-trace/src/ebpf.rs:169-178 | the ring is empty at the end, everything submitted before is taken, the stream stays the merge of the records; the queue is empty afterwards only if it was and the ring held no record |
| EbpfObject.EbpfTracer.EnqueueExit | crates/syren-trace/src/ebpf.rs:209-215 | the exit goes behind every record submitted before |
| EbpfObject.EbpfTracer.LivenessDone | crates/syren-trace/src/ebpf.rs:180-207 | it asks, and ends the stream exactly unless the answer is that the child, or somebody watched, is alive; the code is the child's own, 128 plus the signal that killed it, or 0 |
| EbpfObject.EbpfTracer.ExitComesLast | crates/syren-trace/src/ebpf.rs:180-215 | all records a dead process will ever have, whichever of its threads made them, come before the exit |
| EbpfObject.EbpfTracer.NextEvent | crates/syren-trace/src/ebpf.rs:224-250 | an event is handed out whenever one is queued or a record is in the ring, with its own capture as `current`; the end only when finished with queue and ring empty and the whole stream handed out; it goes on waiting only while somebody is found alive; exit and its code are as `liveness_done` found and never move |
| Agreement.BackendsAgree | crates/syren-trace/src/ptrace.rs:193-227 | on a thread that, since it became a target, crosses the syscall boundary as ptrace saw it, the streams tell the same calls without an exec event; between calls if and only if; what it did before does not matter |
| Agreement.BackendsAgreeOnTheFollowed | crates/syren-ebpf/src/main.rs:164-172 | the same for every seed and every thread descended from one, from the first hit on that arms or forks it, while the target map and the ring have room |
| Agreement.SpawnTellsMore | crates/syren-trace/src/ebpf.rs:111-136 | of a child just spawned, armed while it waits for the start pipe, eBPF tells the execve and ptrace nothing |
| Render.ReadCstr | crates/syren-decode/src/render.rs:15-35 | the loop computes `Cstr`, for any reader |
| Render.ReadCstrIsChunkFree | crates/syren-decode/src/render.rs:15-35 | through any honest reader the result is the string in memory, and none exactly for a null or unmapped address |
| Render.StringAtIsMaximal | crates/syren-decode/src/render.rs:10-14 | that string has no NUL, is mapped, and stops only at the cap, a NUL or unmapped memory |
| Render.QuoteBytes | crates/syren-decode/src/render.rs:39-59 | the loop computes `Quote` |
| Render.QuoteShape | crates/syren-decode/src/render.rs:39-59 | printable ASCII, at most 133 characters |
| Render.PlainTextUnchanged | crates/syren-decode/src/render.rs:44-52 | printable text other than quotes and backslashes is printed as it is |
| Render.QuoteRoundTrip | crates/syren-decode/src/render.rs:39-59 | a reader recovers the shown bytes and whether there were more, if and only if no short escape is followed by an octal digit |
| Render.QuoteIsAmbiguous | crates/syren-decode/src/render.rs:51 | two byte strings that print alike |
| PathCapture.FirstPath | crates/syren-trace/src/ebpf.rs:330 | the first path argument, or that there is none |
| PathCapture.PopulatePatharg | crates/syren-trace/src/ebpf.rs:309-332 | of every syscall below 512 the in-kernel table holds the place of the first path argument, or 0 if there is none or for execve and execveat; and nothing else |
| PathCapture.RecordsCaptureWhatIsThere | crates/syren-ebpf/src/main.rs:128-148 | a record has a capture exactly if its call has a path argument that is not null and the helper could read it; it is the string there as it was in memory, up to 127 bytes |
| PathCapture.CaptureReads | crates/syren-trace/src/ebpf.rs:262-272 | reading from anywhere through a capture differs from memory only by ending at the end of a capture that was cut short |
| PathCapture.PathTransparency | crates/syren-trace/src/ebpf.rs:262-272 | exactly when a path is shown the same through the capture as from memory |
| PathCapture.SecondPathMisread | crates/syren-trace/src/ebpf.rs:262-272 | a memory, a capture of it and an address for which it is not |
| PathCapture.BufTransparency | crates/syren-decode/src/lib.rs:176-190 | exactly when a buffer inside the capture is shown the same |
| PathCapture.BufferMisread | crates/syren-decode/src/lib.rs:176-190 | a buffer of 32 bytes for which it is not |
| PathCapture.CapturedPathIsTransparent | crates/syren-ebpf/src/main.rs:128-148 | the captured argument always is, however long the path |
| Transparency.PathShownAlike | crates/syren-trace/src/ebpf.rs:248-272 | the path of a record is shown as from memory, captured or not |
| Transparency.SignatureTransparency | crates/syren-decode/src/lib.rs:66-190 | for every call, exactly when the whole line from an eBPF record is the line from memory: every path and every buffer meets its condition |
| Transparency.SignatureShownAlike | crates/syren-decode/src/lib.rs:117-162 | it is for every call whose only argument in memory is its first path |
| FlagText.WordsAreNumbers | crates/syren-decode/src/flags.rs:1-5 | sets of bit positions and 64-bit numbers are the same |
| FlagText.Join | crates/syren-decode/src/flags.rs:132-143 | the loop computes `JoinLead` |
| FlagText.LosesExactly | crates/syren-decode/src/flags.rs:121-128 | for any table, decoded bits and leftover together add no bit, and lack exactly the nameable bits that lie in no flag wholly present |
| FlagText.SinglesLoseNothing | crates/syren-decode/src/flags.rs:107-128 | a table of single bits loses nothing |
| FlagText.ProtReadsBack | crates/syren-decode/src/flags.rs:70-72 | reading a printed PROT word gives it back |
| FlagText.MapReadsBack | crates/syren-decode/src/flags.rs:91-104 | reading a printed MAP word gives it back |
| FlagText.OpenReadsBack | crates/syren-decode/src/flags.rs:79-88 | reading a printed open word gives it back less exactly two conditional bits |
| FlagText.LoneBitsAreLost | crates/syren-decode/src/flags.rs:31-33 | two words that print like no flag at all |
| FlagText.OpenTokens | crates/syren-decode/src/flags.rs:79-88 | the access mode comes first, then the flags, then what no flag covers |
| FlagText.MapTokens | crates/syren-decode/src/flags.rs:91-104 | a mapping type comes first, by name, then the flags, then what no flag covers |
| FlagText.SetTokens | crates/syren-decode/src/flags.rs:107-118 | any other set is its word for zero, the whole number, or the flags and what no flag covers |
| FlagText.PresentInOrder | crates/syren-decode/src/flags.rs:121-123 | the flags shown are in table order, each once |
| FlagText.OpenNumbers | crates/syren-decode/src/flags.rs:15-34 | every name of the open table has the source's number |
| FlagText.ProtNumbers | crates/syren-decode/src/flags.rs:37-44 | every name of the PROT table has the source's number |
| FlagText.MapNumbers | crates/syren-decode/src/flags.rs:47-64 | every name of the MAP table has the source's number |
| Text.HexReadsBack | crates/syren-decode/src/flags.rs:114 | hexadecimal numbers can be read back |
| Signature.ScalarReadsBack | crates/syren-decode/src/lib.rs:148-174 | a number shown from its register can be read back from its text, of a descriptor the lower half; only null and -100 have names |
| Signature.NamedLineShows | crates/syren-decode/src/lib.rs:141-144 | a symbolic name, where there is one, is what the line shows |
| Signature.TypedLineReadsBack | crates/syren-decode/src/lib.rs:148-161 | from the line of a known syscall, the register of every numeric argument |
| Signature.FlagsLineReadsBack | crates/syren-decode/src/lib.rs:157-159 | of every flags argument, by call and argument name: the open flags less two conditional bits, the PROT and MAP flags in full, any other as a number |
| Signature.PathLineShows | crates/syren-decode/src/lib.rs:150-152 | of every path argument, the string in memory, quoted, up to 4096 bytes; the pointer if it is null or leads nowhere |
| Signature.BufLineShows | crates/syren-decode/src/lib.rs:176-190 | of every buffer argument, the bytes in memory, quoted, as many as its size says; the pointer if there are none |
| Signature.OptvalLineShows | crates/syren-decode/src/lib.rs:192-206 | of a socket option of four bytes, the signed number they make, otherwise the pointer |
| Signature.RawLineReadsBack | crates/syren-decode/src/lib.rs:208-216 | from the line of a syscall without argument metadata, its name or number and all six registers: those not shown are zero |
| Signature.MakeSignature | crates/syren-decode/src/lib.rs:66-78 | the loop computes `SignatureText` |
| Signature.ArgIsToken | crates/syren-decode/src/lib.rs:134-206 | every rendered argument is non-empty, closes its quotes and has no comma outside them |
| Signature.SignatureReadsBack | crates/syren-decode/src/lib.rs:66-216 | for every event and every memory, the name and the rendered values can be read back from the line |
| SummaryObject.SummarySink.Record | crates/syren-output/src/summary.rs:36-46 | the tally lists exactly the names fed, with all their records |
| SummaryObject.SummarySink.SortedRows | crates/syren-output/src/summary.rs:50-53 | the one table the records call for, whatever order the map lists its names in |
| SummaryObject.SummarySink.GrandTotal | crates/syren-output/src/summary.rs:49 | the time of all records |
| SummaryObject.SummarySink.Finish | crates/syren-output/src/summary.rs:48-84 | that table, by time descending, then calls descending, then name ascending; the rounded-down time per call of each row; and totals that are both the sum of the rows and of the records |
| SummaryModel.RowOrder | crates/syren-output/src/summary.rs:51-53 | the order of rows is strict and total on different names |
| SummaryModel.SortedIsUnique | crates/syren-output/src/summary.rs:51-53 | a sorted table is determined by its rows |
| SummaryModel.OrderOfRecordsIsIrrelevant | crates/syren-output/src/summary.rs:36-46 | a name's statistics do not depend on the order of the records |
| SummaryModel.TableAddsUp | crates/syren-output/src/summary.rs:62-74 | the rows add up to the records |
| SummaryModel.UsecsRoundDown | crates/syren-output/src/summary.rs:66 | usecs * 1000 * calls <= time < (usecs + 1) * 1000 * calls |
| SummaryModel.SummaryIsDeterministic | crates/syren-output/src/summary.rs:48-84 | the same records in any order give the same rows |
| FilterModel.SplitOnce | crates/syren-cli/src/filter.rs:30 | nothing exactly if the separator is missing, otherwise the parts around the first one |
| FilterModel.ParseCategoryFinds | crates/syren-common/src/lib.rs:90-92 | the first category of that name, ignoring case, or none |
| FilterModel.FindByNameFinds | crates/syren-common/src/lib.rs:159-161 | the first syscall of exactly that name, or none |
| FilterModel.UnknownMeans | crates/syren-cli/src/filter.rs:41-49 | a token is unknown exactly if neither table has it |
| FilterModel.IgnoringCaseMeans | crates/syren-common/src/lib.rs:90-92 | equal letter by letter, up to the case of an ASCII letter |
| FilterModel.TokensPieceByPiece | crates/syren-cli/src/filter.rs:37 | the tokens are those of the pieces between the commas |
| FilterModel.PieceMeans | crates/syren-cli/src/filter.rs:37 | a piece is the token between its spaces, or none |
| FilterModel.SpacesAre | crates/syren-cli/src/filter.rs:37 | the characters trimmed are the 25 of Unicode's White_Space |
| FilterModel.ReadTokens | crates/syren-cli/src/filter.rs:37-51 | the tokens of one expression: the end they bring, or all their numbers |
| FilterModel.FromExprs | crates/syren-cli/src/filter.rs:24-55 | the nested loops compute `Verdict`: the first item that stops decides, else all numbers together |
| FilterModel.AcceptedMeaning | crates/syren-cli/src/filter.rs:24-63 | an accepted list allows a number iff it is empty, says `all`, or asks for the number, a category before a name |
| FilterModel.AcceptedWhen | crates/syren-cli/src/filter.rs:30-51 | accepted iff no bad item comes before the first `all` |
| FilterModel.RefusedBecause | crates/syren-cli/src/filter.rs:30-49 | a refusal names the first bad item |
| FilterModel.ReorderingsAgree | crates/syren-cli/src/filter.rs:24-63 | accepted lists of the same items allow the same numbers |
| FilterModel.WithoutAll | crates/syren-cli/src/filter.rs:24-63 | without `all` order does not decide acceptance, and only numbers of the table pass, so none of 2^32 or more |
| FilterModel.OrderDecidesAcceptance | crates/syren-cli/src/filter.rs:30-40 | with `all` it does: two orders, one accepted |
| FilterModel.CommaIsAnotherExpression | crates/syren-cli/src/filter.rs:29-51 | `a,b` means what `a` and `b` mean as two expressions, if `b` has no qualifier |
| FilterModel.NamesRoundTrip | crates/syren-cli/src/filter.rs:29-63 | a filter written from names of the table allows exactly their numbers |

## Left out

- System calls themselves: ptrace, waitpid, fork, exec, kill, poll, /proc reads, loading and attaching BPF, finding a program. Their answers are inputs, and a failed ptrace call ends the call with an error.
- `PtraceWorld` does not contain: a multi-threaded exec that changes a tid, group stops and seccomp stops, SIGKILL of a thread that is already stopped, a ptrace call that fails. A fork event's child is a tid that is not in use.
- `BpfRuns` gives each history of a tid to one thread: a tid that is used again after a death inside a call is not separated from its predecessor.
- `EbpfObject.Kernel` is the assumed kernel: what it still has to submit is a finite sequence of which any part can arrive at any time, and a process that waitpid or kill report dead submits nothing more.
- `wait_ring` only passes time; `NextEvent` of the eBPF tracer gives up after a number of fruitless waits that its caller chooses, where the source waits for ever.
- The branch of `liveness_done` with neither a child nor a watched process: no way of constructing the tracer leads there.
- `MemoryReader` is a function value instead of a trait, and `Honest` its contract; the same memory is read throughout, so a change between two reads of one string is not covered.
- String reads whose range would wrap around 2^64 are excluded from the theorems about memory (the loop itself wraps); a capture is taken not to wrap either.
- Bytes of a ring slot behind `cap_len` are zero where the source leaves them as they were; nothing reads them.
- Flag words are sets of bit positions, equal to 64-bit numbers by `WordsAreNumbers`.
- The tables of syscalls, categories and constants are parameters: any table of plain names, at most six arguments a call, one line a number. Symbolic constants are any function to plain names.
- SignatureTransparency: says nothing of a `setsockopt` with a path among its arguments, which no table has, and takes memory to be shown as far as it is mapped, as /proc/<tid>/mem does; `PathTransparency` holds for any honest reader.
- Rust's counters in the summary (u64, u128) are unbounded here. The columns "% time" and "seconds" and the layout of the table are not modelled.
- Rust's `sort_by` is insertion into a sorted sequence; only the order it must produce matters.
- `retval_str`, error names, JSON and text output, colours, the command line, logging, and the self-arming benchmark of the in-kernel program.
- The clock of the ptrace tracer stays below 2^64 nanoseconds.
