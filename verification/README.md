# A verified model of the SOCKS5 proxy

The proxy serves many clients from one thread: an event loop over non-blocking
sockets drives one state machine per connection, a helper thread does nothing but
name resolution, and a line protocol administers the process. This project models
that machinery in Dafny and proves what the design document (`docs/design.md`), the
management protocol document and RFC 1928 and RFC 1929 promise of it.

`dafny verify dfyconfig.toml` checks everything.

| file | models |
|---|---|
| `Bytes.dfy`, `Kernel.dfy` | bytes, C strings; the socket calls, with every outcome they can have |
| `Buffer.dfy` | `src/shared/buffer.c` |
| `Incremental.dfy`, `Hello.dfy`, `Auth.dfy`, `Request.dfy` | the three incremental parsers |
| `Selector.dfy` | `src/shared/selector.c`: table, descriptor sets, growth, dispatch |
| `Attempts.dfy` | the attempts of `src/shared/socks5.c` to reach a destination |
| `Relay.dfy`, `Session.dfy` | `src/shared/socks5.c` over `src/shared/stm.c`: one connection, from accept to close |
| `Protocol.dfy` | event loop and DNS worker, over all interleavings |
| `Slots.dfy` | the slots of all sessions as entries of the selector's table |
| `WorkQueue.dfy` | the linked job queue of `src/shared/dns_worker.c` |
| `ActiveList.dfy` | the list of live sessions, the pool, and the timeout sweep |
| `Framing.dfy`, `Mng.dfy` | `src/server/mng.c` |

## How the model is built

**Sockets.** `recv`, `send`, `connect`, `shutdown` and `SO_ERROR` return anything POSIX
allows, chosen afresh at each call. What the program must not do is a precondition:
`Kernel.Recv` has to be given room and `Kernel.Send` something to send, so that neither
happens is part of what is verified.

**Sessions.** `Session` has the fields of the C struct and, as ghost state, the byte
streams of both sockets. Each state has its own invariant (`InHelloRead` ...
`InCopying`, `InDone`, `InError`); `Inv` is the one of the current state and holds
between any two events. `OnRead`, `OnWrite`, `OnBlock` and `OnSweep` are the events.
Each is proved to keep `Inv` or to leave the session `Finished`, for every outcome of
every call, and `Sessions.Lifetime` is the loop that delivers them in any order. The
lemmas at the end of the class say what `Inv` means. A dispatch to a handler that a
state does not have is an `abort` in C and an `assert false` here.

**Threads.** `Protocol` is a state machine over whole systems, with one step for each
stretch of code between two synchronisation points: the queue, the raw pointer the
worker writes through, the notification list, slot and record reuse. What one event may
do to one session is kept general there; `SessionEvent` and `SessionNotified` run a
`Session` and prove that whatever it does is one of those steps.

**In-place code.** Buffer, parsers, selector, queue, active list and management session
are classes whose methods are tied to a function of the old state; what the source
promises is then proved of the functions, or kept as an invariant.

## Where the code does not do what one would expect

- `selector_register` compares the descriptor with `>` against the number of slots. The
  slot it then touches exists exactly when the descriptor is not that number
  (`RegisterInBounds`). The server creates its table with a slot for every descriptor,
  so there it cannot happen; a table created for 4 elements has 9 slots and is overrun
  by descriptor 9 (`RegisterBoundsExamples`).
- `docs/management-protocol.md` (section 2) has an over-long line answered by one error
  line. The code drops the byte that does not fit and treats the rest as a new line, so
  one request line gets one response exactly when it has at most 1023 bytes
  (`OneFramePerLine`, and `ScanLine` for what the others get).
- `docs/design.md` (section 4.2) has the connect timeout answer TTL expired, and otherwise
  the last connect error reported only once every address has failed. The code keeps
  that promise exactly when the timeout struck or no descriptor reached 1024, the limit
  of the selector (`DesignHolds`, and `Replied` for the reply that is sent): at the
  limit the registration is refused, the attempts end with a general failure, and the
  addresses behind that one are not tried (`GivenUp`; `RefusedEarly` has the input, two
  addresses and descriptor 1024 for the first).
- The `locked` branch of `require_auth` cannot be reached: a session is locked and
  closing at the same moment (`LockedCloses`).
- `handle_iteration` copies the attachment before it calls the read handler, so a write
  of the same turn can be dispatched with the attachment of a slot's former owner:
  exactly when both are ready, the read is wanted, and its handler leaves the descriptor
  registered for writing under another owner (`StaleOwner`; `StaleTurn` runs such an
  iteration). No handler of this server closes and reopens its own descriptor in one
  read.

## Model

| member | source | states |
|---|---|---|
| Sessions.Session.OnRead | src/shared/socks5.c:1121-1133 | whatever the sockets answer, a read event on an armed descriptor never aborts and leaves the session in its state's invariant or finished; streams only grow, the state number never falls, no reading state is left with unparsed input, and what the session knows of the user store is what the store held in the event that asked it |
| Sessions.Session.OnWrite | src/shared/socks5.c:1135-1147 | the same for a write event |
| Sessions.Session.OnBlock | src/shared/socks5.c:1149-1160 | the DNS notification finds the one state with a handler for it and moves it to CONNECTING or REQUEST_WRITE |
| Sessions.Session.OnSweep | src/shared/socks5.c:1244-1276 | an overdue connect is given up and its client told, any other overdue session is finished, RESOLV and what is in time stay untouched |
| Sessions.Session.Pump | src/shared/socks5.c:1098-1119 | terminates by (states left, input left); in a reading state it returns only with the read buffer empty; every handler it calls exists |
| Sessions.Lifetime | src/shared/socks5.c:1121-1166 | every sequence of events, from creation on, keeps the invariant until the session is finished |
| Sessions.Session.BytesConserved | src/shared/socks5.c:849-963 | in every reachable state, live or ended, client bytes are the three messages, then what went to the origin, then the unread rest, in order; client output is the replies, then what the origin sent; the byte counters are the lengths sent |
| Sessions.Session.References | src/shared/socks5.c:1025-1046 | the reference count is the registered descriptors plus one in RESOLV, and a live session is not in the pool |
| Sessions.Session.Waiting | src/shared/socks5.c:965-1014 | a live session has an armed descriptor or a resolution under way |
| Sessions.Session.DirectionsLive | src/shared/socks5.c:781-823 | in COPY a direction has its source or its sink armed if and only if it is not finished |
| Sessions.Session.Gate | src/shared/socks5.c:244-257 | whoever reads a request or has an origin was offered 0x00 with a store found empty, or chose 0x02 and passed the check of the store of that moment; an origin implies a complete recorded request |
| Sessions.Session.Replied | src/shared/socks5.c:677-745 | a request has one reply, on its way or sent in the event that ended the session, and it is the one of RFC 1928 section 6 for what happened: unsupported 0x07 or 0x08, job not taken 0x01, no address 0x04, descriptor refused 0x01, timeout 0x06, else the error of the last address, and 0x00 only with the origin reached; the design promise holds if and only if the timeout struck or no descriptor reached the limit |
| Sessions.Session.RefusalSent | src/shared/socks5.c:293-317 | a session that is done without a tunnel has sent one refusal whole; one for the methods counts nothing, one for the credentials counts one authentication failure and only for credentials the store refuses |
| Sessions.Session.CountedOnce | src/shared/socks5.c:677-745 | in every reachable state, live or ended, an attempt adds exactly one to origin-ok or origin-fail once CONNECTING is left, to origin-ok only if the origin was reached, and only for an admitted client |
| Sessions.Session.CountsAreLengths | src/shared/socks5.c:946-954 | the byte counters of a session are the lengths it sent, also after it ended |
| Sessions.Session.LogTrace | src/shared/socks5.c:177-186 | the log of a live session is OPEN if it reached COPY and nothing otherwise |
| Sessions.Session.CleanEnd | src/shared/socks5.c:762-779 | a tunnel that ends DONE delivered both ways exactly what was received, shut each side down once after EOF, and logged OPEN and CLOSE with the lengths sent |
| Sessions.Session.Finish | src/shared/socks5.c:1059-1094 | ends with both slots free, the record released by the last close, and the log complete: OPEN and CLOSE after COPY, FAIL with a destination only, else nothing |
| Sessions.Session.CloseAll | src/shared/socks5.c:1082-1094 | every descriptor of the session is registered when it is unregistered; the record is released by the last and not before |
| Sessions.Session.Unregister | src/shared/socks5.c:1162-1166 | a slot is freed and its reference dropped, and the record released with the last one |
| Sessions.Session.Destroy | src/shared/socks5.c:1025-1046 | the last reference releases, any other is dropped |
| Sessions.Session.Abort | src/shared/socks5.c:1121-1147 | a forced close is complete in every state but RESOLV, CONNECTING and DONE, and keeps the first reason |
| Sessions.Session.LogEvent | src/shared/socks5.c:159-175 | one line, CLOSE with both counts if the tunnel was logged open, else FAIL with the reason |
| Sessions.Session.PlainOrCarried | src/shared/socks5.c:849-871 | every state keeps either the books of the negotiation or those of the tunnel |
| Sessions.Session.ReadableState | src/shared/stm.c:53-63 | a descriptor armed for reading is in a state that has a read handler |
| Sessions.Session.WritableState | src/shared/stm.c:65-75 | a descriptor armed for writing is in a state that has a write handler |
| Sessions.Session.Closable | src/shared/socks5.c:1059-1094 | outside RESOLV and CONNECTING a session can be closed at any time |
| Sessions.Session.HandleFirst | src/shared/stm.c:26-34 | the first event runs the arrival hook of HELLO_READ and keeps the invariant |
| Sessions.Session.Jump | src/shared/stm.c:36-51 | whatever a handler leaves behind for a state, its arrival hook turns into that state's invariant, moving no bytes |
| Sessions.Session.HandleRead | src/shared/stm.c:53-63 | no dispatch reaches a missing handler; a reading state that is kept has used up its input |
| Sessions.Session.HandleWrite | src/shared/stm.c:65-75 | no dispatch reaches a missing handler |
| Sessions.Session.FillReadBuffer | src/shared/socks5.c:263-276 | recv is called only on an empty buffer and then has room; what it delivers is appended |
| Sessions.Session.FlushReply | src/shared/socks5.c:293-308 | sent and unsent bytes make up the reply, whatever send accepts |
| Sessions.Session.ReadHello | src/shared/socks5.c:259-291 | stops exactly after the greeting; a complete one is answered by the method the store of that moment requires |
| Sessions.Session.HelloProcess | src/shared/socks5.c:244-257 | the method is a function of the store being non-empty and of what was offered |
| Sessions.Session.WriteHello | src/shared/socks5.c:293-317 | the state after the last reply byte follows the method: DONE for 0xFF, AUTH_READ, or REQUEST_READ |
| Sessions.Session.ReadAuth | src/shared/socks5.c:365-397 | stops exactly after the credentials, which are judged by the store of that moment |
| Sessions.Session.AuthProcess | src/shared/socks5.c:348-363 | status 0x00 if and only if the store accepts; a refusal is counted once |
| Sessions.Session.WriteAuth | src/shared/socks5.c:399-420 | only status 0x00 leads on to REQUEST_READ |
| Sessions.Session.ReadRequest | src/shared/socks5.c:503-533 | stops exactly after the request; malformed ends in ERROR, unsupported in the reply for it |
| Sessions.Session.AcceptRequest | src/shared/socks5.c:449-480 | an address goes to CONNECTING and is never refused; a name goes to RESOLV with one more reference, or is refused with 0x01; the destination is recorded |
| Sessions.Session.SubmitJob | src/shared/socks5.c:459-477 | the reference is taken exactly when the job is; a job not taken is answered 0x01 |
| Sessions.Session.NoAttempt | src/shared/socks5.c:463-491 | the two refusals before any attempt: 0x01 for the job, 0x04 for the resolution |
| Sessions.Session.RefuseRequest | src/shared/socks5.c:437-448 | an unsupported request gets the code it is given for |
| Sessions.Session.Refuse | src/shared/socks5.c:437-448 | an error reply is produced whole and the client armed to get it |
| Sessions.Session.ResolvDone | src/shared/socks5.c:482-501 | the worker's reference is dropped; no address means reply 0x04, and only that; else CONNECTING with all of them |
| Sessions.Session.WriteRequest | src/shared/socks5.c:535-559 | COPY after reply 0x00 and DONE after any other |
| Sessions.Session.TryCandidates | src/shared/socks5.c:606-627 | the loop is the pure pursuit of its outcomes: it ends with an origin awaited, or with the client armed, all addresses failed or one refused by the selector |
| Sessions.Session.TryNext | src/shared/socks5.c:566-597 | one attempt takes the next address and ends in one of three ways, each with its descriptor and reference |
| Sessions.Session.ConnectingInit | src/shared/socks5.c:629-675 | establishes one of the two shapes of CONNECTING |
| Sessions.Session.RegisterOrigin | src/shared/socks5.c:585-597 | a descriptor below the limit gets its slot; at the limit descriptor and reference are taken back |
| Sessions.Session.WriteConnecting | src/shared/socks5.c:677-745 | SO_ERROR 0 is the only way to reply 0x00; an error leads to the next address, and with none left to the reply for it |
| Sessions.Session.ConnectDecided | src/shared/socks5.c:689-744 | SO_ERROR 0 means reply 0x00; an error means the next address, and with none left the reply is that error |
| Sessions.Session.ConnectFails | src/shared/socks5.c:714-744 | drops the origin, then tries the next address or concludes with this error |
| Sessions.Session.Conclude | src/shared/socks5.c:677-745 | the attempt is counted once and the reply of its fate produced |
| Sessions.Session.ConnectingTimeout | src/shared/socks5.c:749-760 | leaves no origin and the client armed with TTL expired, the addresses not yet tried untried; doing it again changes nothing |
| Sessions.Session.CopyInit | src/shared/socks5.c:849-871 | the bytes left unread become the first of the tunnel, interests match the buffers, OPEN is logged |
| Sessions.Session.UpdateInterests | src/shared/socks5.c:781-823 | both slots hold the interests recomputed from the buffers |
| Sessions.Session.ReadCopy | src/shared/socks5.c:873-912 | keeps conservation and the armed interests; DONE exactly when both directions are finished |
| Sessions.Session.WriteCopy | src/shared/socks5.c:914-963 | the same, and what was sent is counted for its direction |
| Sessions.Session.DropOrigin | src/shared/socks5.c:1059-1094 | closing the origin gives back its slot and one reference |
| Attempts.Conn.Next | src/shared/socks5.c:606-627 | an attempt moves one address from those left to those tried and keeps the record consistent |
| Attempts.Conn.Failed | src/shared/socks5.c:704-720 | a failure is recorded with its code; the attempts are exhausted exactly with no address left |
| Attempts.Conn.Expire | src/shared/socks5.c:749-760 | the timeout loses no address from the record |
| Attempts.StillTrying | src/shared/socks5.c:606-627 | while the loop goes on, every address so far was tried once, in order, and failed with the code on record |
| Attempts.GivenUp | src/shared/socks5.c:606-627 | the loop gives up with an address untried if and only if a registration before the last address was refused |
| Attempts.DesignHolds | docs/design.md:119-122 | the promise about failed connects is kept if and only if the timeout struck or no descriptor reached the limit; only a refusal or the timeout leaves an address untried |
| Attempts.RefusedEarly | docs/design.md:119-122 | with two addresses and descriptor 1024 for the first, the second is never tried and the promise is broken |
| Relay.NeverWedged | src/shared/socks5.c:781-807 | a settled direction is armed somewhere if and only if it is not finished, and a finished one delivered everything |
| Relay.Read | src/shared/socks5.c:873-911 | never asks for zero bytes; appends what arrives, records EOF, and shuts the sink down if nothing is left to send |
| Relay.Write | src/shared/socks5.c:914-962 | never sends zero bytes; removes what was accepted, and shuts the sink down after the last byte |
| Relay.ShutdownWrite | src/shared/socks5.c:768-779 | called exactly when EOF was seen, nothing is unsent and it was not called before, whether or not it succeeds |
| Protocol.StepKeeps | src/shared/dns_worker.c:30-63 | every step of the loop or the worker keeps the invariant: one job for each session in RESOLV and none for others, results written before notification, slots and records consistent |
| Protocol.SessionEvent | src/shared/socks5.c:1121-1147 | any socket event or sweep of a real session, with any outcome, is a step the protocol allows, moving the byte counters by what it sent: an Event, a Close, or nothing while in RESOLV |
| Protocol.SessionNotified | src/shared/socks5.c:1149-1160 | a notification delivered to the session it finds is handled, with exactly the addresses the worker wrote for it, and is the Deliver step |
| Protocol.EveryRun | src/shared/selector.c:485-535 | the invariant holds after every interleaving |
| Protocol.RunsAreSafe | src/shared/stm.c:77-87 | in no run does the block handler abort or the worker write outside a live session; pool bounded and disjoint; live is accepted minus closed |
| Protocol.NoteFindsItsSession | src/shared/selector.c:485-507 | every notification finds its own session registered at its descriptor, in RESOLV, with the result in place |
| Protocol.WriteLands | src/shared/dns_worker.c:46-58 | the worker's raw pointer points to a session in RESOLV that is not in the pool |
| Protocol.NoLostWakeup | src/shared/dns_worker.c:35-41 | a parked worker with no signal pending has an empty queue and is to go on |
| Protocol.JoinMeansDrained | src/shared/dns_worker.c:91-112 | once the worker has exited, every job ever submitted was taken, in order |
| Protocol.TotalsAreSums | src/shared/socks5.c:946-954 | in every run the global byte counters are the sum of what all sessions sent, live and closed |
| Slots.RunsMirror | src/shared/selector.c:336-432 | in every run the slots the sessions hold, with interests and attachments, are exactly the entries of the selector's table |
| Slots.StepMirrors | src/shared/selector.c:336-432 | every step of the protocol acts on the selector's table as a sequence of its operations, each of which takes effect |
| Slots.RearmMirrors | src/shared/socks5.c:677-823 | whatever an event does to a session's registration is a matter of dropping, adding or rearming the origin and rearming the client |
| Protocol.StepAccounts | src/shared/socks5.c:946-954 | every step moves the global counters by exactly what its session sent |
| Protocol.EventKeeps | src/shared/socks5.c:459-480 | any event, with or without a submitted job, keeps the invariant |
| Protocol.DeliverKeeps | src/shared/socks5.c:482-501 | delivering a notification keeps the invariant |
| Protocol.CloseKeeps | src/shared/socks5.c:1059-1094 | closing a session that is not in RESOLV leaves no job, slot or list entry behind |
| Protocol.AcceptKeeps | src/shared/socks5.c:1185-1235 | a new session takes a record and a slot nobody has |
| Protocol.TakeKeeps | src/shared/dns_worker.c:43-46 | taking a job moves it from the queue to the lookup |
| Protocol.ResolveKeeps | src/shared/dns_worker.c:46-58 | writing the result touches one waiting session and nothing else |
| Protocol.NotifyKeeps | src/shared/selector.c:510-535 | notifying moves the job to the list |
| WorkQueue.Queue.Submit | src/shared/dns_worker.c:114-141 | appends to the list; both ends are null together |
| WorkQueue.Queue.Take | src/shared/dns_worker.c:43-45 | removes the first job, none if and only if the queue is empty |
| ActiveList.Registry.New | src/shared/socks5.c:1278-1314 | the first spare record or a new one, cleared, on neither list |
| ActiveList.Registry.Add | src/shared/socks5.c:1175-1183 | the record becomes the first of a well-formed duplicate-free list, whose length is the live count |
| ActiveList.Registry.Bypass | src/shared/socks5.c:1064-1073 | the pointer changes leave a well-formed list without this record, the others in order |
| ActiveList.Registry.Unlink | src/shared/socks5.c:1064-1080 | removes exactly this record, keeps the order of the others, and counts it |
| ActiveList.Registry.Release | src/shared/socks5.c:1025-1046 | back to the front of the pool, or freed when it holds 50 |
| ActiveList.Registry.Close | src/shared/socks5.c:1059-1094 | from the list to the pool; list and pool stay disjoint and the live count is accepted minus closed |
| ActiveList.Registry.Sweep | src/shared/socks5.c:1244-1276 | for any set of sessions that are late: the sessions there were at the start are visited, each once and in order although some are closed on the way; exactly the late ones leave the list, and go to the pool in that order as far as it has room |
| ActiveList.SurvivorsAre | src/shared/socks5.c:1244-1276 | the survivors are exactly the sessions that are not late |
| ActiveList.Registry.Visit | src/shared/socks5.c:1250-1275 | the next record read before closing is the right one afterwards |
| Selectors.PowerAboveIsLeast | src/shared/selector.c:173-189 | the size computed from the bit count is the least power of two strictly above n |
| Selectors.NextCapacity | src/shared/selector.c:173-189 | the loop computes that power, capped at FD_SETSIZE, plus one |
| Selectors.CapacityExceeds | src/shared/selector.c:246-288 | growing for an acceptable n yields more than n slots |
| Selectors.RegisterInBounds | src/shared/selector.c:349-359 | the slot that registration touches exists if and only if the descriptor is not the table size |
| Selectors.RegisterBoundsExamples | src/server/main.c:182 | descriptor 9 misses a table created for 4; the server's table has a slot for every descriptor |
| Selectors.Selector.EnsureCapacity | src/shared/selector.c:246-288 | a successful growth keeps every slot and marks all new ones unused; an n above the limit or a failed allocation changes nothing |
| Selectors.Selector.UpdateFdSets | src/shared/selector.c:225-239 | exactly this descriptor's bits change, to its interest |
| Selectors.Selector.ItemsMaxFd | src/shared/selector.c:211-223 | the largest used descriptor, or 0 |
| Selectors.Selector.Register | src/shared/selector.c:336-377 | adds the slot or says why not; both sets and max_fd agree with the table |
| Selectors.Selector.Unregister | src/shared/selector.c:379-413 | removes the slot and recomputes max_fd; sets and max_fd agree with the table |
| Selectors.Selector.SetInterest | src/shared/selector.c:415-432 | changes one slot's interest; sets agree with the table |
| Selectors.Selector.HandleIteration | src/shared/selector.c:451-483 | for any behaviour of the handlers, the table and the calls made, with their attachments, are those of the fold over the descriptors up to the initial max_fd |
| Selectors.Selector.VisitSlot | src/shared/selector.c:458-482 | one turn of the loop: its calls are those due, and each handler acts on the table the one before left |
| Selectors.Selector.Handle | src/shared/selector.c:336-432 | any sequence of registrations, unregistrations and changes of interest acts on the table as its specification, and the indexes agree with it |
| Selectors.CallsAscend | src/shared/selector.c:458-482 | calls go up the descriptors, reads before writes; no event is dispatched twice, whatever the handlers do |
| Selectors.CalledExactlyWhenDue | src/shared/selector.c:458-482 | an event is dispatched if and only if it is ready and its slot wants it when its turn comes, with the attachment found when the iteration got to the slot |
| Selectors.StaleOwner | src/shared/selector.c:458-482 | a write reaches an owner other than the slot's present one if and only if both events are ready, the read is wanted, and its handler leaves the descriptor registered for writing under another owner |
| Selectors.StaleTurn | src/shared/selector.c:458-482 | an iteration whose read handler unregisters its descriptor and registers it again calls the old owner for the write |
| Incremental.FeedSplit | src/shared/request.c:13-126 | cutting the input anywhere changes neither the final state nor the deciding byte |
| Incremental.AnyFragmentation | src/shared/auth.c:10-65 | any sequence of chunks parses like the whole stream |
| Incremental.OnlyUsedBytesMatter | src/shared/hello.c:9-48 | what follows the deciding byte has no influence |
| Incremental.Extend | src/shared/socks5.c:278-283 | the parser resumed after a partial message has consumed what one parser of the whole would have |
| Hello.ParseIsReadMessage | src/shared/hello.c:9-48 | for every input the byte loop gives the verdict, methods and deciding byte of RFC 1928 section 3 |
| Hello.RoundTrip | src/shared/hello.c:9-48 | the byte loop reads any encoded greeting, followed by anything, back unchanged and stops at its end |
| Hello.AcceptedIsEncoded | src/shared/hello.c:9-48 | only encoded greetings are accepted |
| Hello.HelloParser.TakeByte | src/shared/hello.c:13-44 | one turn of the loop is the parser step; the 8-bit counter does not wrap |
| Hello.HelloParser.Consume | src/shared/hello.c:9-48 | the loop over the buffer stops at the deciding byte and leaves the rest in it |
| Auth.ParseIsReadMessage | src/shared/auth.c:10-65 | for every input the byte loop gives the verdict, credentials and deciding byte of RFC 1929 section 2 |
| Auth.RoundTrip | src/shared/auth.c:10-65 | the byte loop reads any name and password of 1 to 255 bytes, followed by anything, back unchanged and stops at their end |
| Auth.AcceptedIsEncoded | src/shared/auth.c:10-65 | only encoded credentials are accepted |
| Auth.AuthParser.TakeByte | src/shared/auth.c:13-62 | one turn of the loop is the parser step; counters do not wrap and indexes stay inside the arrays |
| Auth.AuthParser.Consume | src/shared/auth.c:10-65 | the loop over the buffer stops at the deciding byte and leaves the rest in it |
| Request.ParseIsReadMessage | src/shared/request.c:13-126 | for every input the byte loop gives the verdict, destination and deciding byte of RFC 1928 section 4 |
| Request.RoundTrip | test/stress/stress_client.c:84-128 | the byte loop reads every IPv4, IPv6 or 1-to-255-byte name request, followed by anything, back unchanged and stops at its end |
| Request.AcceptedIsEncoded | src/shared/request.c:13-126 | the byte loop accepts only encodings, with any reserved byte |
| Request.ParseAddr | src/shared/request.c:72-104 | the address bytes are collected in order and counted without wrap |
| Request.RequestParser.TakeByte | src/shared/request.c:17-120 | one turn of the loop is the parser step; no counter wraps, no index is out of bounds, and the over-long-name branch is dead |
| Request.RequestParser.Consume | src/shared/request.c:13-126 | the loop over the buffer stops at the deciding byte and leaves the rest in it |
| Buffers.Buffer.Fill | src/shared/buffer.c:49-55 | appends to the unread bytes |
| Buffers.Buffer.ReadAdv | src/shared/buffer.c:57-68 | removes from the front, and a drained buffer has its whole size free |
| Buffers.Buffer.Read | src/shared/buffer.c:70-80 | the first unread byte, or 0 and no change |
| Buffers.Buffer.Write | src/shared/buffer.c:82-88 | appends, or does nothing when full |
| Buffers.Buffer.Compact | src/shared/buffer.c:90-103 | the unread bytes are kept and everything else is free behind them |
| Framing.ScanText | src/server/mng.c:392-418 | text without a line end becomes one error for each 1024 bytes and the rest |
| Framing.ScanLine | src/server/mng.c:404-413 | how a line of any length is framed |
| Framing.OneFramePerLine | docs/management-protocol.md:28-36 | one line gets one frame if and only if it has at most 1023 bytes |
| Framing.JoinScans | docs/management-protocol.md:17-19 | requests of legal length, ended by LF or CRLF, are framed back to themselves |
| Framing.ScanGrows | src/server/mng.c:392-418 | more input only adds frames |
| Framing.TrimRight | src/server/mng.c:61-68 | removes all trailing white space and no word |
| Framing.NextToken | src/server/mng.c:70-90 | the first word from the cursor, and the rest of the words behind it |
| Management.MngSession.Refines | src/server/mng.c:392-478 | frames handled are the first of the received stream, each answered in turn by the interpreter; bytes sent are a prefix of the answers; input is asked for only when none is left |
| Management.MngSession.ProcessInput | src/server/mng.c:392-418 | stops at the first response or with the input used up |
| Management.MngSession.OnRead | src/server/mng.c:420-443 | keeps the refinement, sends nothing, and leaves OP_READ armed only with no input left |
| Management.MngSession.OnWrite | src/server/mng.c:445-478 | keeps the refinement for every pattern of partial sends |
| Management.MngSession.HandleLine | src/server/mng.c:323-357 | the answer to a line is the one the interpreter gives to its words |
| Management.MngSession.HandleAuth | src/server/mng.c:148-177 | the secret authenticates and clears the failures; the third failure locks and closes |
| Management.MngSession.HandleOther | src/server/mng.c:134-146 | nothing protected is done without authentication |
| Management.MngSession.QueueResponse | src/server/mng.c:110-132 | a response that does not fit is replaced by the error line; OP_WRITE is armed |
| Management.Lifetime | src/server/mng.c:359-478 | every sequence of events keeps the refinement |
| Management.LockedCloses | src/server/mng.c:134-177 | a locked session is closing, so the locked answer to other commands is never given |
| Management.AuthenticatedByAuth | src/server/mng.c:148-177 | an authenticated conversation contains the secret |
| Management.ProtectedAfterAuth | src/server/mng.c:323-357 | a protected command that was carried out came after the secret |

## Left out

- Process setup, arguments, signals, the command-line client and the stress programs, except the request encoder.
- `getaddrinfo`, address formatting and log-file writing: a resolution is any list of addresses, a log line its kind and figures. The user name in a log line is not followed.
- Clocks: whether a session is overdue is an arbitrary answer at each sweep. `last_activity` is set at creation and by reads in COPY, so the idle timeout of a tunnel can include its negotiation.
- 64-bit wrap-around of the byte counters.
- `struct socks5` keeps the states' data in unions; here each member has its own storage, so a read of a member that another has overwritten is not captured.
- The session works on the values of buffers and parsers (`Buf`, `HelloState` and so on). That the classes compute those values in place is proved beside it.
- A session does not hold a `Selector`; its slots are fields of its own, and `Slots` proves them to be the entries of one table.
- Closing of descriptors and their reuse by the kernel, beyond a new descriptor not being in the table (`Protocol.JustOpened`).
- Allocation failures of sessions, notifications and of the first table; grown slots are assumed to hold no interest until they are registered.
- `selector_destroy` and the final clean-up; the invariants are about runs before it.
- The connection limit and its rejections.
- Passing NULL for callbacks that the server always sets.
- What the protected management commands do to users, metrics and configuration, and the text they answer with: any response. The formatting error of `vsnprintf`.
- `next_token` writes NUL bytes into the line; here the line is cut without being changed. Bytes after a NUL in a line, a credential or a name are not seen, as in C.
- Selectors.Selector.Register: requires a descriptor other than the table size, the exact bound of `RegisterInBounds`; at that one descriptor the program touches memory behind the table.
- Selectors.Selector.Unregister: requires a descriptor below the table size, where every descriptor a caller has registered is; the program does not check it.
- Selectors.Selector.SetInterest: requires a descriptor below the table size, as for Unregister.
- Management.MngSession.Serve: promises only a response that fits the output buffer.
- Sessions.Session.OnSweep: takes the comparisons with the clock as arguments.
