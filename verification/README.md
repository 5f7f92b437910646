# A model of ygw's buffer, fiber runtime, URL codec and stream transfers

This project models the parts of the ygw server framework where most of the state and most of the arithmetic live,
and proves what they promise. Each module follows one source file or one protocol.

| module | models |
|---|---|
| `MachineInts` | the widths of C integers and the conversions between them |
| `Ascii` | characters as bytes |
| `Bytes` | overwriting a range of a flat buffer; blocks of equal size laid end to end |
| `ByteArrays` | the growable byte buffer: a chain of heap nodes with a cursor, refining a flat sequence with a position |
| `Codec` | fixed-width layouts in both byte orders, base-128 varints, zigzag, with the widths and wrap-around of C integers |
| `Fields` | the typed writes and reads of the buffer, each against a function on byte sequences |
| `RoundTrip` | lists of fields: what was written is what is read |
| `Streams` | fixed-size transfers over a socket that moves any positive amount per call |
| `Url`, `Query` | percent-encoding with a lazily created output; `key=value` parsing into a case-insensitive map |
| `SizeLines` | the generated machine that parses chunk-size lines |
| `Chunks`, `ChunkFraming` | the chunked branch of a response, on any input; when it sees the chunks that were sent |
| `Timers` | the ordered timer set, its wake-up flag, expiry and clock rollover |
| `IoManager` | per-descriptor registrations, the pending count and epoll's copy of them |
| `Schedulers`, `Workers` | the run queue; any number of workers as a step system |
| `DoIo` | the blocking protocol of the hooked calls as a step system |

Objects the source changes in place are classes here (`Node`, `ByteArray`, `Timer`, `TimerManager`, `FdContext`,
`IOManager`, `Scheduler`, `HttpRequest`, `SocketStream`), and each method is proved against a function of the old
state. The two step systems have one step per locked region; their theorems are about every finite run.

Foreign behaviour is a parameter: `now` is a clock reading, `addr` and `probe` are addresses the allocator gives,
`allowed` says whether `epoll_ctl` succeeds, `schedule` and `takes` are how much each transfer moves, `host` is the
byte order of the machine, `response` is what the generated parser makes of a text that starts with `HTTP/`.

## What turned out not to hold

For each of these the code is modelled as it is, and the exact condition is proved.

- A read of no bytes at `position == capacity` dereferences a null cursor (`ByteArray.Read`). So an empty
  length-prefixed string that ends the data exactly at the end of a node cannot be read back (`WriteThenRead`).
- `Read(buf, size, position)` starts in the cursor's node, whatever node `position` is in; it reads from `position`
  exactly when both are in the same node (`ReadStartIsPosition`). Its comment promises any position.
- A string longer than its length prefix can say is written whole and read back cut (`FieldRoundTrip`).
- `UrlDecode(UrlEncode(s, p), q)` is not `s` exactly when spaces were written as `+` (`p`), are not read back so
  (`!q`), and `s` has one (`UrlRoundTrip`). The comment at server_frame/util.cc:703 leaves `=` out of the characters
  that the table passes through.
- The assertion in `TriggerEvent` stops the program exactly when something reported is ready, epoll accepts the
  change, and something reported is no longer waited for (`IOManager.Dispatch`); `StaleReport` gets there.
- The wait handed to `epoll_wait` is at most three seconds unless the time to the next timer has bit 31 set; then it
  is negative, and the wait has no limit (`TimeoutCapped`; a timer 25 days ahead is enough).
- A chunk-size line in which a read ends loses its beginning: the parser starts afresh on every call and consumes the
  text of an unfinished line (server_frame/http/http_parser.cc:317-326). A line of digits is understood exactly when
  the last part of it begins with a digit and the digits lost announce nothing, that is, are zeros (`PlainKept`,
  `OnlyZerosLost`). Otherwise the response is refused although no read failed (`RefusedRun`), or a wrong size is used
  and a truncated body can be returned as complete (`TruncatedRun`). Over the whole body the sizes seen are those sent
  exactly when every line is kept (`Framed`).
- A timeout is lost exactly when the callback ends before `AddEvent`, or its `CancelEvent` fails in `epoll_ctl`
  (`LostExactly`, `LostRun`, `FailedCancelRun`). The call then waits until its key is woken by something else
  (`LostUntilWoken`).
- A chunk may announce the size -1, when its number ends in eight `F`s or is too large (`AnnouncesMinusOne`). With
  nothing buffered behind the line one byte is read and two are taken off the body, which is returned as complete,
  one byte shorter than it was (`MinusOneTurn`; `MinusOneRun` ends with an empty body). The body throws a
  `length_error` exactly when a size is below -1, or is -1 with something buffered, or is -1 with an empty body and one
  more byte to come (`ThrowsExactly`).
- The assertion in `SwapIn` falls due in a run, for a worker that has taken an entry of a fiber, exactly when at some
  step another worker that has taken one resumes that fiber (`FiresExactly`). Scheduling a fiber again while it is held
  leads there as soon as two workers may take its entries (`ScheduledAgainFires`, `ScheduledWhileTakenFires`); while a
  fiber is scheduled only when no place holds it, it cannot (`NeverTwice`). A scheduler has a run that meets it if and
  only if it has two workers (`SomeRunFires`, `ScheduledTwice`).
- The result of a fixed-size transfer is its length only below two gigabytes (`ReportedLength`). Of a length of 2^63
  bytes or more nothing is moved, and the result is that length cut to `int` (`Ended`).

## Assumptions of the step systems

A yield (the state change and the context switch) and the worker's bookkeeping after `SwapIn` are one step. The
lookup and growth of the descriptor table are one step. A worker takes an entry and counts itself active in one step,
because both happen under the scheduler's lock. A callback runs on a fiber that nothing else refers to.

## Model

| member | source | states |
|---|---|---|
| ByteArrays.ByteArray.constructor | server_frame/bytearray.cc:55-65 | one node, empty, cursor on it |
| ByteArrays.ByteArray.Write | server_frame/bytearray.cc:427-468 | for every node size exactly the range from the position is overwritten in the flat contents and every other byte kept; size and position follow; no null node is entered |
| ByteArrays.ByteArray.Read | server_frame/bytearray.cc:470-504 | the slice from the position on, buffer unchanged; the two ways it fails: out of range, and a null cursor exactly at the end of the capacity |
| ByteArrays.ByteArray.ReadAt | server_frame/bytearray.cc:506-541 | which slice the positioned read returns, and when it runs off the chain |
| ByteArrays.ByteArray.ReadStartIsPosition | server_frame/bytearray.cc:513-516 | it reads from the position asked for if and only if that lies in the cursor's node |
| ByteArrays.ByteArray.SetPosition | server_frame/bytearray.cc:543-564 | fails exactly beyond the capacity; the cursor is the node of the new position, null at the end; the size only grows |
| ByteArrays.ByteArray.AddCapacity | server_frame/bytearray.cc:616-652 | enough whole nodes and none too many; contents kept; a null cursor moves to the first new node |
| ByteArrays.ByteArray.NodesFor | server_frame/bytearray.cc:629-629 | the rounded-up quotient covers the missing bytes with less than one node to spare |
| ByteArrays.ByteArray.CursorIsQuotient | server_frame/bytearray.cc:427-468 | the cursor is node number position / base size, and null if and only if the position is the capacity |
| ByteArrays.ByteArray.Clear | server_frame/bytearray.cc:412-425 | back to the first node alone, whose bytes stay |
| ByteArrays.ByteArray.GetReadBuffers | server_frame/bytearray.cc:687-722 | the iovecs are the pieces of the readable data from the cursor on, at most the length asked for |
| ByteArrays.ByteArray.GetReadBuffersAt | server_frame/bytearray.cc:724-766 | from any position the pieces gather to the slice as long as the unread data, or run off the chain exactly when that ends beyond the capacity |
| ByteArrays.ByteArray.GetWriteBuffers | server_frame/bytearray.cc:768-802 | room for the length, and iovecs that are its pieces; nothing written |
| ByteArrays.ByteArray.PiecesGathered | server_frame/bytearray.cc:687-802 | the pieces are in bounds and, in order, are one contiguous slice of the flat contents |
| ByteArrays.PiecesDisjoint | server_frame/bytearray.cc:687-802 | no two pieces share memory, and together they have the length asked for |
| ByteArrays.ByteArray.Scatter | server_frame/stream/socket_stream.cc:51-65 | filling the first bytes of the iovecs in order writes exactly that range of the flat contents |
| ByteArrays.ByteArray.ToString | server_frame/bytearray.cc:655-666 | the readable data, from any cursor |
| Codec.LayoutRoundTrip | server_frame/bytearray.cc:104-142 | an integer laid out in either byte order reads back, for every width |
| Codec.LayoutOfFrom | server_frame/bytearray.cc:265-309 | bytes read as an integer lay out to the same bytes |
| Codec.LayoutBytes | server_frame/bytearray.cc:104-142 | which byte stands where: byte i is bits 8i on in little-endian memory, and counted from the other end in big-endian memory |
| Codec.FromLayoutBytes | server_frame/bytearray.cc:265-309 | the same of the integer that is read |
| Codec.OneInTwoBytes | server_frame/bytearray.cc:104-123 | 1 in two bytes is 01 00 in little-endian and 00 01 in big-endian memory |
| Codec.SwapIsOtherOrder | server_frame/endian.h:28-53 | swapping and storing in one host order is storing in the other |
| Codec.VarintFits | server_frame/bytearray.cc:183-211 | a 32-bit value takes at most 5 bytes and a 64-bit value at most 10, so `tmp` is never overrun |
| Codec.VarintContinuation | server_frame/bytearray.cc:187-192 | every byte but the last carries the continuation bit |
| Codec.VarintGroups | server_frame/bytearray.cc:183-211 | byte i carries bits 7i to 7i + 6, and there are no more bytes than the value needs |
| Codec.VarintPrefixFree | server_frame/bytearray.cc:183-211 | no code is a proper prefix of another |
| Codec.VarintInjective | server_frame/bytearray.cc:183-211 | different values have different codes |
| Codec.VarintRoundTrip | server_frame/bytearray.cc:317-358 | the reader gets the value back whatever follows, and consumes exactly its bytes |
| Codec.ReadAnyVarint | server_frame/bytearray.cc:317-358 | whatever bytes are there, written so or not: the value is that of the groups up to the first byte without continuation bit, or up to those that fill the type, cut to the type |
| Codec.ReadShort | server_frame/bytearray.cc:317-358 | and when the data ends before that, all of it was consumed |
| Codec.ZigzagRoundTrip | server_frame/bytearray.cc:144-176 | zigzag inverts for every signed value, the minimum included |
| Codec.ZigzagOnto | server_frame/bytearray.cc:144-176 | and every unsigned value is the code of one |
| Codec.ZigzagMeaning | server_frame/bytearray.cc:144-166 | the code is 2v or -2v-1 in spite of the unsigned wrap-around |
| Fields.WriteFixed | server_frame/bytearray.cc:96-142 | on either host byte i behind the position is bits 8i on of the value, or counted from the other end in big-endian order |
| Fields.CollectVarint | server_frame/bytearray.cc:183-211 | the loop over `tmp` produces the varint |
| Fields.PrefixOfText | server_frame/bytearray.cc:227-249 | in front of a string stand two, four or eight bytes of its length, or a varint, cut to that type |
| Fields.WriteField | server_frame/bytearray.cc:96-254 | every typed write appends the encoding of its value |
| Fields.ReadFixed | server_frame/bytearray.cc:256-309 | the value of its type whose bytes, in the buffer's order, come next, or the failure of the read |
| Fields.ReadVarintLoop | server_frame/bytearray.cc:317-358 | the loop is the recursive reader, with what it consumed when the data runs short |
| Fields.ReadField | server_frame/bytearray.cc:256-410 | every typed read decodes the unread bytes and moves past what it used |
| RoundTrip.NumRoundTrip | server_frame/bytearray.cc:96-211 | every number of its type is read back as written |
| RoundTrip.FieldRoundTrip | server_frame/bytearray.cc:96-410 | a field is read back if and only if its length fits its prefix and it is no empty string at the end of the chain |
| RoundTrip.ListRoundTrip | server_frame/bytearray.cc:96-410 | lists of fields decode to their values, whatever follows |
| RoundTrip.WriteThenRead | server_frame/bytearray.cc:96-564 | for every base size, byte order and pair of hosts, writing a list, going back to 0 and reading it returns the values and ends where the writes ended |
| Streams.SocketStream.Write | server_frame/stream/socket_stream.cc:76-90 | what goes out is the slice the cursor moved over |
| Streams.SocketStream.Read | server_frame/stream/socket_stream.cc:51-65 | the buffer ends as if what arrived had been written to it |
| Streams.SocketStream.WriteFixSize | server_frame/stream/stream.cc:74-88 | the next `length` bytes on the wire, or as many as went before a failure, and the position says how many; nothing when `length` does not fit `int64_t` |
| Streams.SocketStream.ReadFixSize | server_frame/stream/stream.cc:40-53 | the same for what arrives |
| Streams.SocketStream.WriteFixSizeRaw | server_frame/stream/stream.cc:55-72 | a prefix of the memory goes out, all of it when the kernel makes progress |
| Streams.SocketStream.ReadFixSizeRaw | server_frame/stream/stream.cc:22-38 | a prefix of the memory is filled, the rest kept |
| Streams.ReportedLength | server_frame/stream/stream.cc:22-88 | the returned `int` is the length if and only if it is below two gigabytes |
| Streams.Exchange | server_frame/stream/stream.cc:40-88 | what one side writes the other reproduces, for any splitting of the transfers and any node sizes |
| Url.UrlEncode | server_frame/util.cc:704-745 | the lazily created output is the byte-by-byte encoding |
| Url.UrlDecode | server_frame/util.cc:747-788 | the lazily created output is the escape-by-escape decoding of any string, well formed or not |
| Url.EncodedForm | server_frame/util.cc:658-745 | which characters stand for themselves, and that every other byte is `+` or two upper-case digits |
| Url.DecodedForm | server_frame/util.cc:747-788 | a text of plain bytes and escapes, with digits in either case, decodes to what they stand for |
| Url.EveryText | server_frame/util.cc:747-788 | and every string is such a text |
| Url.UrlRoundTrip | server_frame/util.cc:704-788 | decoding undoes encoding, with the exact exception |
| Url.EncodedAlphabet | server_frame/util.cc:658-701 | encoded text holds unreserved characters, `%` and `+` only |
| Query.HttpRequest.ParseParam | server_frame/http/http.cc:279-295 | the loop ends on every string, and what it inserts |
| Query.HttpRequest.InitQueryParam | server_frame/http/http.cc:272-299 | parses once |
| Query.HttpRequest.InitBodyParam | server_frame/http/http.cc:301-315 | parses once, and only a form body |
| Query.FirstOccurrences | server_frame/http/http.cc:289-290 | for each class of keys the map keeps the first, and holds no others |
| Query.CanonicalIsLower | server_frame/http/http.cc:76-80 | keys without NUL are compared whole, ignoring case |
| Query.CutAtNul | server_frame/http/http.cc:76-80 | and what follows the first NUL does not count |
| Query.SameSpelling | server_frame/http/http.cc:76-80 | two keys agree in lower case if and only if they differ in the case of letters at most |
| Query.ParseJoined | server_frame/http/http.cc:279-297 | joined parameters parse to their first occurrences |
| Query.SubmitQuery | server_frame/http/http.cc:272-299 | through the request: every spelling of a key finds the first value, and nothing else is there |
| SizeLines.PlainLine | server_frame/http/parser/httpclient_parser.rl:150-156 | digits and a line end are a line of that size; digits alone are unfinished |
| SizeLines.AnnouncedNumber | server_frame/http/parser/httpclient_parser.rl:95-98 | digits in either case announce the sum of digit times power of sixteen, held to `LONG_MAX` and cut to `int` |
| SizeLines.LineGrammar | server_frame/http/parser/httpclient_parser.rl:119-156 | the machine accepts a text if and only if it is digits, extensions of one or more tokens with or without a value, and a line end |
| SizeLines.HeaderScans | server_frame/http/parser/httpclient_parser.rl:150-156 | and the size is that of the digits at the front |
| SizeLines.ParseSuffix | server_frame/http/parser/httpclient_parser.rl:150-156 | from anywhere in a size line on, the parser decides at its end, whatever follows |
| SizeLines.PrefixOfLine | server_frame/http/parser/httpclient_parser.rl:150-156 | the beginning of a size line is unfinished |
| SizeLines.LeadingZeros | server_frame/http/parser/httpclient_parser.rl:95-98 | digits can be lost without changing the value if and only if they are leading zeros |
| Chunks.Execute | server_frame/http/http_parser.cc:317-326 | a fresh parser; what it consumed leaves the buffer, all of it when the line is unfinished |
| Chunks.ReadLine | server_frame/http/http_connection.cc:87-113 | the loop is `LineFrom`, on any input |
| Chunks.TakePayload | server_frame/http/http_connection.cc:116-141 | what any announced size does to the body, for any split of payload and line end between buffer and reads: bytes appended and two dropped, a failed read, or a `length_error` |
| Chunks.RecvChunks | server_frame/http/http_connection.cc:83-145 | the branch is `BodyFrom`, on any input, any splitting and any announced size, negative ones included |
| Chunks.ThrowsExactly | server_frame/http/http_connection.cc:116-141 | for which announced sizes the body throws `length_error`, if and only if |
| ChunkFraming.LineSync | server_frame/http/http_connection.cc:87-113 | a size line is read with its size if and only if the parts cut off are unfinished and the last part is a line of that size |
| ChunkFraming.Framed | server_frame/http/http_connection.cc:83-145 | for every list of chunks and every splitting, the sizes announced are those of the chunks if and only if every line is kept and no read fails; then all payloads are put on the body and what follows is left |
| ChunkFraming.Receive | server_frame/http/http_connection.cc:83-145 | the same through the buffer |
| ChunkFraming.PlainKept | server_frame/http/http_connection.cc:100-106 | a line without extensions is kept if and only if its last part begins with a digit and announces the same size |
| ChunkFraming.OnlyZerosLost | server_frame/http/http_connection.cc:100-106 | below two gigabytes that means that only leading zeros were lost |
| ChunkFraming.WholeLineKept | server_frame/http/http_connection.cc:99-106 | a line in which no read ends is kept, extensions or not |
| ChunkFraming.TruncatedRun | server_frame/http/http_connection.cc:100-143 | a split for which an empty body is returned as complete |
| ChunkFraming.RefusedRun | server_frame/http/http_connection.cc:100-105 | a split for which the response is refused although no read failed |
| ChunkFraming.AnnouncesMinusOne | server_frame/http/parser/httpclient_parser.rl:95-98 | which numbers announce -1, if and only if |
| ChunkFraming.MinusOneTurn | server_frame/http/http_connection.cc:116-141 | with nothing buffered, -1 ends the body as complete and one byte shorter; or it throws, or a read fails |
| ChunkFraming.MinusOneRun | server_frame/http/http_connection.cc:83-145 | a run in which it returns an empty body as complete |
| Timers.ComparatorIsStrictOrder | server_frame/base/timer.cc:22-46 | a strict total order, null first and earlier deadlines first |
| Timers.SortedIsUnique | server_frame/base/timer.h:179-179 | the set is determined by its members |
| Timers.StartSurvives | server_frame/base/timer.cc:118-128 | the start time is kept by a change of period, wrap-around included |
| Timers.Timer.Cancel | server_frame/base/timer.cc:67-78 | true exactly while the callback is there; the timer leaves the set, and `end()` is never erased |
| Timers.Timer.Refresh | server_frame/base/timer.cc:80-98 | the deadline moves to now plus the period, the order is kept, and no wake-up is missed under a monotone clock |
| Timers.Timer.Reset | server_frame/base/timer.cc:100-131 | the period changes; without `from_now` the start does not; no wake-up is missed |
| Timers.TimerManager.LowerBound | server_frame/base/timer.cc:214-214 | the first timer not before the key |
| Timers.TimerManager.AddTimerLocked | server_frame/base/timer.cc:239-252 | a new first timer is announced, once between two looks |
| Timers.TimerManager.AddTimer | server_frame/base/timer.cc:145-152 | inserted at its deadline; any deadline below the one last seen is announced |
| Timers.TimerManager.GetNextTimer | server_frame/base/timer.cc:169-188 | the wait ends at the first deadline, is 0 if and only if one is due, and all ones for no timer |
| Timers.TimerManager.DetectClockRollover | server_frame/base/timer.cc:254-264 | the clock went back by more than 3 600 000 ms, or at all in the first hour of the epoch |
| Timers.TimerManager.DueCount | server_frame/base/timer.cc:213-218 | whatever address the probe has, the timers due are exactly those before the end found |
| Timers.TimerManager.ListExpiredCb | server_frame/base/timer.cc:190-237 | exactly the callbacks of the timers due, all on rollover, in order of deadline; left are the others and the recurring ones at now plus their period |
| Timers.Drive | server_frame/base/timer.cc:67-264 | after any operations under a clock that does not go back: unless an insertion was announced since the last look, no deadline is earlier than the one it saw; every timer added waits, was cancelled or has ended, and only one of these; a one-shot timer fired once if it ended, else not at all; the callbacks handed out are those of the timers that fired |
| IoManager.FdContext.TriggerEvent | server_frame/iomanager.cc:113-136 | the waiter goes to its scheduler and its context is empty |
| IoManager.IOManager.constructor | server_frame/iomanager.cc:142-167 | 32 idle descriptors of its own |
| IoManager.IOManager.ContextOf | server_frame/iomanager.cc:204-219 | the table reaches the descriptor, old states kept |
| IoManager.IOManager.AddEvent | server_frame/iomanager.cc:202-264 | the waiter is recorded, or nothing changes when `epoll_ctl` fails; the operation fits what epoll has; the second assertion cannot fire |
| IoManager.IOManager.DelEvent | server_frame/iomanager.cc:267-303 | when it succeeds, and that nobody is woken |
| IoManager.IOManager.CancelEvent | server_frame/iomanager.cc:307-341 | when it succeeds, and that exactly the one waiter is woken |
| IoManager.IOManager.CancelAll | server_frame/iomanager.cc:345-389 | all waiters of the descriptor are woken, reader first |
| IoManager.IOManager.Dispatch | server_frame/iomanager.cc:501-549 | who is woken by a report, and exactly when the assertion stops the program |
| IoManager.IOManager.DispatchAll | server_frame/iomanager.cc:490-550 | over a whole round without interference: it stops if and only if some report meets the assertion; otherwise exactly the ready waiters are scheduled, in order, the rest untouched |
| IoManager.StaleReport | server_frame/iomanager.cc:490-549 | a sequence of calls on a new manager that meets the assertion |
| IoManager.RegisterThenReport | server_frame/iomanager.cc:202-549 | on a new manager, one waiter and any flags: who is scheduled, with what, and when the assertion stops the program, if and only if |
| IoManager.BothWoken | server_frame/iomanager.cc:345-549 | a hang-up or `CancelAll` schedules reader and writer, the reader first |
| IoManager.AnyOrder | server_frame/iomanager.cc:202-549 | after any operations in any order, reports among them, every registration was deleted, scheduled exactly once, or still waits |
| IoManager.Drive | server_frame/iomanager.cc:202-549 | the object goes through any operations as the states do, and its pending count is the number of waiters |
| IoManager.ErrorIsReady | server_frame/iomanager.cc:503-516 | reading is ready by EPOLLIN, writing by EPOLLOUT, and on an error or hang-up everything waited for |
| IoManager.StepKeeps | server_frame/iomanager.cc:202-389 | epoll's copy, the pending count and the record of every registration (deleted, scheduled once, or still waiting) stay in step |
| IoManager.NothingPending | server_frame/iomanager.h:174-174 | the pending count is the number of waiters, and zero if and only if every context is empty |
| IoManager.IOManager.Stopping | server_frame/iomanager.cc:414-422 | stops only with no timer, no waiter and an idle scheduler |
| IoManager.TimeoutCapped | server_frame/iomanager.cc:455-465 | when the three-second cap works, and then no deadline is overslept |
| IoManager.LongTimerUncapped | server_frame/iomanager.cc:455-465 | a wait for which it does not |
| Schedulers.Scheduler.ScheduleNoLock | server_frame/base/scheduler.h:158-168 | null tasks are dropped; an empty queue calls for a wake-up |
| Schedulers.Scheduler.Schedule | server_frame/base/scheduler.h:83-96 | one task queued, at most one wake-up |
| Schedulers.Scheduler.ScheduleAll | server_frame/base/scheduler.h:103-119 | a batch keeps its order; one wake-up when the queue was empty and the batch was not |
| Schedulers.Scheduler.TakeTask | server_frame/base/scheduler.cc:208-241 | the earliest entry the worker may run is removed and counted; others are told exactly when something is left for them |
| Workers.InvStep | server_frame/base/scheduler.cc:203-315 | every step keeps: each entry queued or taken once, pinned ones by their thread, the active count equal to the busy workers |
| Workers.RunInv | server_frame/base/scheduler.cc:203-315 | over every run; what was taken stays taken by the same worker |
| Workers.StoppingMeansDone | server_frame/base/scheduler.cc:324-329 | `Stopping()` is true if and only if a stop was asked for and every accepted entry was taken and is over |
| Workers.RunThenStopping | server_frame/base/scheduler.cc:181-329 | the same at the end of every run from the start |
| Workers.WorkerExits | server_frame/base/scheduler.cc:292-338 | then a worker that scans or idles can exit |
| Workers.ExitSawStop | server_frame/base/scheduler.cc:292-338 | and in no run does a worker exit whose idle fiber did not end while `Stopping()` was true |
| Workers.EarliestFirst | server_frame/base/scheduler.cc:208-235 | a worker takes the earliest accepted entry it may run, and exits when there is none |
| Workers.ExclusiveStep | server_frame/base/fiber.cc:180-190 | a disciplined step keeps a fiber on one worker |
| Workers.NeverTwice | server_frame/base/fiber.cc:180-190 | in every disciplined run no fiber runs twice at once and the assertion in `SwapIn` cannot fire |
| Workers.FiresByStep | server_frame/base/fiber.cc:183-183 | a step makes the assertion due if and only if another worker resumes the fiber of an entry already taken |
| Workers.FiresExactly | server_frame/base/fiber.cc:183-183 | in every run the assertion falls due for a worker and its entry if and only if, at some step, another worker that has taken an entry of the same fiber resumes it |
| Workers.SomeRunFires | server_frame/base/fiber.cc:183-183 | a scheduler has a run that meets the assertion if and only if it has two workers |
| Workers.ScheduledAgainFires | server_frame/base/fiber.cc:183-183 | from any state in which a queued fiber is scheduled again and two workers may take its entries, the run goes on to the assertion |
| Workers.ScheduledWhileTakenFires | server_frame/base/fiber.cc:183-183 | and from any state in which a fiber is scheduled whose entry a worker has taken |
| Workers.ScheduledTwice | server_frame/base/fiber.cc:183-183 | that run: any two workers and one fiber scheduled twice |
| Workers.NotStranded | server_frame/base/scheduler.cc:247-259 | a worker that queued a ready fiber again exits only when that entry was taken or the fiber executes elsewhere |
| Workers.FibersKept | server_frame/base/scheduler.cc:244-259 | in every run a fiber executes on one worker at most, and one that came back ready is in a worker's hand, queued, or taken |
| Workers.KeptFromStart | server_frame/base/scheduler.cc:203-259 | so in every run from the start |
| Workers.EndedForGood | server_frame/base/scheduler.cc:244-259 | in every run a fiber that has ended is never resumed again |
| Workers.FinishedForGood | server_frame/base/scheduler.cc:244-259 | so is one that comes back `TERM` or `EXCEPT` |
| Workers.TakenGoesOn | server_frame/base/scheduler.cc:244-299 | an entry taken is resumed, dropped because its fiber has ended, or meets the assertion, and only one of these |
| DoIo.InvStep | server_frame/hook.cc:168-224 | every step keeps a blocked call in one place, each registration woken once, and timeouts with their own timers |
| DoIo.EveryRun | server_frame/hook.cc:168-224 | the same over every run: registered or queued, never both; queued exactly once; `ETIMEDOUT` only for a timed call, after a timer of that call ran |
| DoIo.EndsByStep | server_frame/hook.cc:168-224 | by which steps a call gets each of its results, and by which it tries again, if and only if |
| DoIo.TimedOutExactly | server_frame/hook.cc:213-220 | in every run a call has ended with `ETIMEDOUT` if and only if it looked at `TimerInfo` after a timer had marked it |
| DoIo.MarkedTimesOut | server_frame/hook.cc:208-220 | a call that is marked while it waits times out or is still on its way there, whatever happens |
| DoIo.NoStrayRun | server_frame/hook.cc:181-214 | in every run a timer in the set is the current one of a call that has not come back, so none is left behind |
| DoIo.LateCallback | server_frame/hook.cc:185-189 | a callback that comes too late changes nothing else |
| DoIo.LostByStep | server_frame/hook.cc:183-210 | one step loses a timeout if and only if it registers a call whose callback is over, or is that callback's failing `CancelEvent` |
| DoIo.LostExactly | server_frame/hook.cc:183-210 | in every run a waiting call has lost its timeout if and only if, in the order of the steps, the callback was over before the registration or failed to cancel it |
| DoIo.LostUntilWoken | server_frame/hook.cc:208-224 | a call that lost its timeout waits until its key is woken |
| DoIo.TimeoutWakes | server_frame/hook.cc:185-193 | otherwise the timer can run, and when its `CancelEvent` succeeds it wakes the waiting call |
| DoIo.TimeoutReturns | server_frame/hook.cc:185-220 | and the call can then be resumed and ends with `ETIMEDOUT` |
| DoIo.LostRun | server_frame/hook.cc:183-210 | a run that loses one before the registration |
| DoIo.FailedCancelRun | server_frame/iomanager.cc:327-336 | a run that loses one afterwards |
| DoIo.ReadyRun | server_frame/hook.cc:168-224 | a run that ends by readiness, with or without a timer: the call tries again, or for `connect` returns, and no timer is left |

## Left out

- `WriteToFile` and `ReadFromFile` (server_frame/bytearray.cc:566-614): files; their length computation is right only for some alignments.
- `WriteFloat`, `WriteDouble` and their reads: the bit pattern of a fixed-width field, nothing more.
- `ToHexString`, `operator<<` and the getters: printing.
- ByteArrays.ByteArray.NodesFor: integer rounding up instead of `ceil` on doubles, which agrees while the quotient is exact in a double.
- ByteArrays.ByteArray.Write: positions and sizes are unbounded numbers; `size_t` overflow and failing allocations are not modelled.
- Codec.ZigzagMeaning: negating the smallest integer, and doubling a positive one of 2^30 (2^62) or more in the signed type, are undefined in C++ and are taken to wrap around.
- Streams.SocketStream.Write: the address of an empty vector, taken when there is nothing to send, is passed on and not followed.
- Streams.SocketStream.Read: more pieces than one `recvmsg` or `sendmsg` accepts (IOV_MAX), which small nodes and long transfers can produce and which never makes progress.
- Url.UrlDecode: `isxdigit` of a negative `char` (server_frame/util.cc:764-765), undefined in C, is taken to be false.
- `InitCookies` (server_frame/http/http.cc:317-329): the same loop with another separator and trimmed keys.
- Chunks.RecvChunks: what a text starting with `HTTP/` parses to; a size within two of the largest `int` is reported as an overflow and not followed further; gzip; the body by content length.
- Timers.TimerManager.ListExpiredCb: the set changing between the two locks; with rollover, the announcement of earlier deadlines.
- Timers.TimerManager.AddTimer: deadlines that wrap around 64 bits are stored as such, and nothing is promised about their announcement.
- Timers.Drive: calls that read the clock in one order and take the lock in another; readings and periods of 2^63 milliseconds or more; an address that is given again while its timer lives.
- IoManager.IOManager.AddEvent: two threads growing the table at once, negative descriptors, and descriptors so large that the table's size leaves `int`.
- IoManager.IOManager.CancelAll: a descriptor closed while epoll still has it.
- IoManager.IOManager.DispatchAll: other threads' operations between two reports of a round, which `AnyOrder` and `Drive` have.
- Schedulers.Scheduler.Schedule: liveness of wake-ups across workers, which relies on the three-second cap.
- Workers.NeverTwice: races inside a yield, below the granularity of a step; reuse of a worker's callback fiber by a stale pointer.
- DoIo.EveryRun: `DelEvent` on a waiting call, which drops it unwoken; the early returns of `DoIo` for closed or non-blocking descriptors.
- `Start`, `Stop`, `SwitchTo` and thread creation: foreign calls around the loop that is modelled.
- `address.cc`, `uri.rl.cc`, `HttpConnectionPool`, the servlets, configuration, logging, database and mail code: outside the core.
