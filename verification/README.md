# Verified models of libjingle's base and example code

Dafny models of the parts of libjingle in which several operations have to keep a global
promise, with proofs of those promises over every input, every interleaving or every run.
Where the source updates objects in place the model does too (classes, arrays, loops); a
protocol of several threads is a state machine over atomic steps; the I/O a routine meets
(partial writes, blocked streams, failing setups) is a parameter that ranges over
everything it may do.

| file | models |
|---|---|
| SpscQueue.dfy, Modular.dfy | the lock-free single-producer single-consumer ring, include/base/atomicops.h |
| SigSlot.dfy | the graph of signals and receivers, include/base/sigslot.h |
| Emission.dfy | re-entrant emission of a signal, include/base/sigslot.h |
| DebugLog.dfy | the streaming XMPP log, examples/call/call_main.cc |
| LinkedPtr.dfy | reference-linked pointers, include/base/linked_ptr.h |
| ScopedRefPtr.dfy | counted references, include/base/scoped_ref_ptr.h and refcount.h |
| SingletonFactory.dfy | the counted singleton factory, include/base/referencecountedsingletonfactory.h |
| TunnelPump.dfy | the file-to-tunnel copy loops, examples/pcp/pcp_main.cc |
| Url.dfy | the URL parser and printer, include/base/httpcommon-inl.h and httpcommon.h |
| MucClient.dfy | joining and leaving chat rooms, examples/call/callclient.cc and presencepushtask.cc |
| RenderedViews.dfy | the table of rendered views, examples/call/callclient.cc |
| StatusTruncation.dfy | UTF-8-safe truncation of a status, examples/call/presencepushtask.cc |
| RollingAccumulator.dfy | windowed statistics, include/base/rollingaccumulator.h |
| CryptString.dfy | the doubling buffer that leaves no copy behind, include/base/cryptstring.h |

`dafny verify dfyconfig.toml` checks the whole project.

## What turned out false, and exactly when it holds

- The ring is a FIFO forever exactly when its capacity divides 2^32
  (`SpscQueue.FifoForeverIffDivides`); every other capacity is safe for 2^32 pushes and not for
  one more (`SpscQueue.FifoIffIndexSafe`, `SpscQueue.NonDividingCapacityBreaks`).
- `Size()` is documented to stay in [0, capacity]. It does exactly on the producer's and on the
  consumer's thread, or for the capacities 0 and 2^32 - 1 (`SpscQueue.SizeInRangeByCaller`); on a
  third thread an empty queue can report 2^32 - 1 or one more than it holds
  (`SpscQueue.ThirdThreadUnderflow`, `SpscQueue.ThirdThreadOverflow`).
- The debug log hides the text after an authentication tag, but both directions share one flag:
  a text received between the tag and the password is hidden in its place and the password is
  printed (`DebugLog.PasswordShown`). Each direction's log is its own under every interleaving
  exactly when neither direction has an authentication tag while the other shows a text, or a
  text while the other hides one (`DebugLog.SeparateIffUndisturbed`).
- `disconnect` keeps the two sides of the signal graph in step exactly when the receiver has at
  most one connection to the signal (`SigSlot.World.Disconnect`); with more, destroying the
  receiver leaves dangling connections (`SigSlot.World.DisconnectThenDestroy`).
- Emission runs into an erased list node exactly when a slot erases the connection that is
  next in line (`Emission.Signal0.Emit`).
- Printing and parsing a URL is a normal form exactly when no NUL got into the host
  (`HttpUrl.NormalForm`).
- A room object leaks exactly when a full JID joins a room already filed under its bare JID
  (`MucClient.CallClient.JoinMuc`).
- Disabling a stream removes its own view exactly when no session at a lower address shows the
  same ssrc; otherwise it deletes that session's renderer (`RenderedViews.DisableRemovesOwn`).
- Adding a view leaks its renderer exactly when the key already has a view
  (`RenderedViews.StaticRenderedViews.AddStaticRenderedView`); RenderStream never lets it happen.
- A receiving pump writes all it received exactly when it does not close with bytes in its
  buffer; a failed read throws away what was collected since the last write
  (`TunnelPump.Pump.CollectBuffer`).
- `EnsureStorage` on its own loses the terminating NUL when it grows, unless the fresh memory
  happens to hold one (`CryptString.FormatCryptString.EnsureStorage`); every append writes it anew.

## Model

| member | source | states |
|---|---|---|
| SpscQueue.StepKeepsInv | include/base/atomicops.h:92-134 | every atomic step of either thread keeps outstanding items in their own cells, in order, as long as the pushes begun are index-safe |
| SpscQueue.StepKeepsCounts | include/base/atomicops.h:92-134 | every atomic step, for any capacity and any number of pushes, keeps the counters those of at most capacity outstanding items |
| SpscQueue.EveryInterleavingIsFifo | include/base/atomicops.h:92-151 | over every interleaving, wraparound included: popped values are a prefix of pushed values, at most capacity are outstanding, IsFull, IsEmpty and Size are exact, a value about to be returned is the oldest outstanding one; for capacities dividing 2^32, or at most 2^32 pushes; capacity 0 refuses everything |
| SpscQueue.PushAcceptedIffRoom | include/base/atomicops.h:89-107 | after every interleaving, wherever the consumer stands and whatever it does between the producer's steps, a push is accepted if and only if there is room when it begins; for every capacity and any number of pushes |
| SpscQueue.PopAcceptedIffItem | include/base/atomicops.h:109-134 | likewise a pop is accepted if and only if there is an item when it begins, and it then takes the oldest outstanding one |
| SpscQueue.NonDividingCapacityBreaks | include/base/atomicops.h:101-101 | for every other capacity, a run of 2^32 + 1 pushes after which the pop returns a later value than the one due |
| SpscQueue.FifoIffIndexSafe | include/base/atomicops.h:101-121 | all interleavings that begin at most n pushes are FIFO if and only if the capacity divides 2^32 or n is at most 2^32 |
| SpscQueue.FifoForeverIffDivides | include/base/atomicops.h:101-121 | all interleavings of any length are FIFO if and only if the capacity divides 2^32 |
| SpscQueue.SizeOnOwnThread | include/base/atomicops.h:149-151 | called on the producer's or the consumer's thread, with either counter read first, Size() is a size the queue had, within [0, capacity], for every capacity and any number of pushes |
| SpscQueue.ThirdThreadUnderflow | include/base/atomicops.h:149-151 | called on a third thread, an empty queue can show 2^32 - 1, above the capacity |
| SpscQueue.ThirdThreadOverflow | include/base/atomicops.h:149-151 | with the counters read the other way round it can show capacity + 1 |
| SpscQueue.SizeInRangeByCaller | include/base/atomicops.h:145-151 | Size() is within [0, capacity] on every run if and only if the caller is one of the two threads, or the capacity is 0 or 2^32 - 1; for either order of the reads |
| SpscQueue.PushCallEffect | include/base/atomicops.h:92-107 | a PushBack run through while the consumer stands anywhere changes nothing when full and otherwise writes one cell, counts one push and moves nothing else |
| SpscQueue.PopCallEffect | include/base/atomicops.h:112-134 | a PopFront run through while the producer stands anywhere takes the cell at the consumer's index; PeekFront changes nothing |
| SpscQueue.ZeroCapacityStuck | include/base/atomicops.h:79-82 | a queue of capacity 0 never changes |
| SpscQueue.FixedSizeLockFreeQueue.PushBack | include/base/atomicops.h:92-107 | run without interruption it is the producer's three steps of the state machine, and it reports whether a value was pushed |
| SpscQueue.FixedSizeLockFreeQueue.PeekFront | include/base/atomicops.h:112-123 | succeeds exactly when there is an item, and returns the cell at the consumer's index |
| SpscQueue.FixedSizeLockFreeQueue.PopFront | include/base/atomicops.h:128-134 | run without interruption it is the consumer's three steps, returning the value recorded as popped |
| SpscQueue.FixedSizeLockFreeQueue.Size | include/base/atomicops.h:149-151 | the size of the state machine's state |
| SpscQueue.FixedSizeLockFreeQueue.ClearAndResizeUnsafe | include/base/atomicops.h:138-143 | leaves the empty queue of the new capacity |
| SpscQueue.FixedSizeLockFreeQueue.constructor | include/base/atomicops.h:84-87 | the initial state of the state machine |
| SigSlot.Signal.Connect | include/base/sigslot.h:2244-2252 | appends one connection and registers the signal with the receiver |
| SigSlot.Signal.Copy | include/base/sigslot.h:535-549 | the copy has the same connections in order and every one of their receivers knows it |
| SigSlot.Signal.DisconnectAll | include/base/sigslot.h:564-579 | no connection is left and every former receiver has forgotten this signal |
| SigSlot.Signal.Disconnect | include/base/sigslot.h:599-617 | removes the first connection to the receiver only, and unregisters the signal whenever there was one |
| SigSlot.Signal.SlotDisconnect | include/base/sigslot.h:619-638 | erasing while walking leaves exactly the connections to others, in order |
| SigSlot.Signal.SlotDuplicate | include/base/sigslot.h:640-655 | walking the list it appends to, it terminates and leaves the original list followed by one retargeted copy of each old-target connection, in order |
| SigSlot.RetargetedAt | include/base/sigslot.h:640-655 | the copies call the member functions of the connections copied, in order, in new nodes |
| SigSlot.HasSlots.Copy | include/base/sigslot.h:474-486 | the copied receiver has the original's senders, each with its connections duplicated |
| SigSlot.HasSlots.DisconnectAll | include/base/sigslot.h:505-518 | no sender is left and none of them holds a connection to this receiver |
| SigSlot.TargetsWithout | include/base/sigslot.h:619-638 | after slot_disconnect exactly the other receivers are still targets |
| SigSlot.TargetsDuplicated | include/base/sigslot.h:640-655 | after slot_duplicate the new receiver is a target exactly when the old one was, and nobody else changed |
| SigSlot.CountWithoutFirst | include/base/sigslot.h:605-616 | disconnect lowers the number of connections to the receiver by one and to nobody else |
| SigSlot.World.CopySignal | include/base/sigslot.h:535-549 | copying a signal keeps sender sets and connection lists mirror images |
| SigSlot.World.CopyReceiver | include/base/sigslot.h:474-486 | copying a receiver keeps them mirror images |
| SigSlot.World.Connect | include/base/sigslot.h:2244-2252 | appends the one connection and keeps them mirror images |
| SigSlot.World.DestroySignal | include/base/sigslot.h:551-554 | destroying a signal keeps them mirror images: no sender set names it |
| SigSlot.World.DestroyReceiver | include/base/sigslot.h:500-503 | destroying a receiver keeps them mirror images: exactly the connections to it go |
| SigSlot.World.Disconnect | include/base/sigslot.h:599-617 | they stay mirror images if and only if the receiver had at most one connection |
| SigSlot.World.DisconnectThenDestroy | include/base/sigslot.h:607-612 | a dangling connection is left exactly when there was more than one |
| SigSlot.World.AnyRun | include/base/sigslot.h:474-655 | over every run of every operation and emission on any number of objects they are mirror images, no connection points to a destroyed receiver, every slot call went to a live receiver, and no erased connection comes back |
| SigSlot.World.EmitRound | include/base/sigslot.h:2260-2268 | one round calls a live receiver, whatever its slot does; it stops exactly when the slot destroyed the signal or erased the saved next connection |
| SigSlot.World.Emit | include/base/sigslot.h:2254-2269 | slots may do anything, emit and destroy included: the first call goes to the first connection, each further one to the connection behind it in the list as it stood when the call before began, each to a receiver alive at that moment; it ends with nothing left in line, or because its signal is gone, or because the connection in line is no longer in the list; finished, it called every connection that was there throughout; with slots that do nothing it finishes and calls the whole list |
| Emission.Signal0.Connect | include/base/sigslot.h:2244-2252 | appends a new list node |
| Emission.Signal0.CallOne | include/base/sigslot.h:2260-2268 | one round of the loop keeps the walk invariant or has erased the saved iterator |
| Emission.Signal0.Emit | include/base/sigslot.h:2254-2269 | for any slot bodies: the first call is the first connection and each further call the one next in line when the call before it began, up to the end of the list or to a slot that erases the connection next in line, which is the only way to dangle; the connections called are exactly those present at the start or appended before the last call began that no earlier-placed call erased |
| Emission.EmissionUnique | include/base/sigslot.h:2254-2269 | the list and the slot bodies settle the calls and the outcome: no other sequence of calls meets that description |
| Emission.SelfErasingSlots | include/base/sigslot.h:2254-2269 | if slots erase at most themselves, an emission finishes, and its calls are the whole list in order and then exactly the connections appended before the last call began |
| Emission.Signal0.EmitToSelfErasing | include/base/sigslot.h:2254-2269 | that law of the emit loop, for slots known beforehand to erase at most the connection they are called through |
| DebugLog.RescanPrintsNothing | examples/call/call_main.cc:140-180 | scanning leftover bytes again prints nothing and keeps them |
| DebugLog.NothingLost | examples/call/call_main.cc:140-180 | printed pieces and leftover concatenate to the stream |
| DebugLog.LogIsTheOnlyOne | examples/call/call_main.cc:109-182 | the log of a stream is the only one that cuts it after every '>' and before every '<' and hides exactly the texts that follow an authentication tag |
| DebugLog.IsAuthTagMeans | examples/call/call_main.cc:109-121 | for every text: an authentication tag is `<auth`, one byte up to a space (or above 0x7F where char is signed), and `mechanism` anywhere behind it |
| DebugLog.LogMeans | examples/call/call_main.cc:109-182 | the log of a stream told by its bytes: cut at the tags, hiding exactly the texts that follow a tag of that form with no text in between |
| DebugLog.EveryInterleaving | examples/call/call_main.cc:77-182 | over every interleaving of Input and Output: each direction is cut as its own bytes alone would be, and a text is hidden exactly when an authentication tag of either direction came before it with no text of either in between |
| DebugLog.HiddenIffNotInterrupted | examples/call/call_main.cc:158-176 | the text after an authentication tag of its own direction is hidden if and only if no text of the other direction was printed between them, further authentication tags aside |
| DebugLog.SeparateIffUndisturbed | examples/call/call_main.cc:77-182 | for any two streams, each direction's log is that of its own bytes alone under every cutting and interleaving, if and only if neither has an authentication tag while the other shows a text, or a text while the other hides one |
| DebugLog.PasswordShown | examples/call/call_main.cc:158-176 | authentication tag sent, text received, password sent: the received text is hidden and the password is printed |
| DebugLog.PasswordShownExample | examples/call/call_main.cc:158-176 | the same for `<auth mechanism>`, `a<` and `pw<` |
| DebugLog.ByteBuffer.Append | examples/call/call_main.cc:78-89 | growing or not, the buffer then holds what it held followed by the data |
| DebugLog.ByteBuffer.Keep | examples/call/call_main.cc:178-180 | exactly the unprinted rest moves to the front |
| DebugLog.Log.ScanByte | examples/call/call_main.cc:140-177 | one round of the scanning loop is one byte of the byte-at-a-time log |
| DebugLog.Log.DebugPrint | examples/call/call_main.cc:123-182 | scanning the buffer prints and keeps what feeding its bytes one at a time does |
| DebugLog.Log.Receive | examples/call/call_main.cc:77-91 | appending and rescanning from the front equals feeding only the new bytes |
| DebugLog.Log.Input | examples/call/call_main.cc:77-91 | is the received step of the two-direction log: feeds the received bytes, leaving the other direction's buffer alone |
| DebugLog.Log.Output | examples/call/call_main.cc:93-107 | is the sent step of the two-direction log: feeds the sent bytes, leaving the other direction's buffer alone |
| DebugLog.Log.InputChunks | examples/call/call_main.cc:77-91 | any sequence of Input calls leaves the log one call with all the bytes would |
| DebugLog.Log.OutputChunks | examples/call/call_main.cc:93-107 | any sequence of Output calls likewise |
| DebugLog.Log.Run | examples/call/call_main.cc:77-107 | any interleaving of Input and Output calls is a run of the two-direction log |
| LinkedPtrs.LinkedPtr.constructor | include/base/linked_ptr.h:60-61 | a ring of one |
| LinkedPtrs.LinkedPtr.UniqueIffAlone | include/base/linked_ptr.h:92-92 | unique() is true exactly in rings of size one |
| LinkedPtrs.LinkedPtr.Acquire | include/base/linked_ptr.h:99-110 | inserts this pointer after r, giving one closed ring that agrees on the pointee |
| LinkedPtrs.LinkedPtr.Release | include/base/linked_ptr.h:127-136 | leaves a closed ring of the others with their pointee, or deletes the pointee when alone |
| LinkedPtrs.Join | include/base/linked_ptr.h:64-65 | linking one pointer keeps every ring of the program and one ring per object |
| LinkedPtrs.Part | include/base/linked_ptr.h:62-63 | unlinking one keeps every ring, and deletes the object exactly when no other pointer in the program points to it |
| LinkedPtrs.Make | include/base/linked_ptr.h:60-61 | the new pointer points to the object handed over, which is adopted, and is a ring of its own; no other pointer changes |
| LinkedPtrs.Copy | include/base/linked_ptr.h:64-65 | a copy points where its original does, joins the ring and deletes nothing; no other pointer changes |
| LinkedPtrs.Destroy | include/base/linked_ptr.h:62-63 | destruction deletes the object if and only if no other pointer points to it |
| LinkedPtrs.Assign | include/base/linked_ptr.h:66-73 | the pointer then points where the other does; its old object is deleted if and only if no other pointer points to it; nothing happens on self-assignment |
| LinkedPtrs.DropKeepsAccounts | include/base/linked_ptr.h:127-136 | after a release every object is owned and undeleted or unowned and deleted exactly once |
| LinkedPtrs.CopyKeepsAccounts | include/base/linked_ptr.h:99-110 | after a copy likewise |
| LinkedPtrs.MakeKeepsAccounts | include/base/linked_ptr.h:60-61 | after a construction likewise |
| LinkedPtrs.AssignKeepsAccounts | include/base/linked_ptr.h:66-73 | after an assignment likewise |
| LinkedPtrs.AnyRun | include/base/linked_ptr.h:60-136 | over every run, live pointers form closed rings, one per object, and every object a pointer was made from is adopted and deleted exactly once, when its last pointer goes |
| ScopedRefPtrs.RefCounted.Release | include/base/refcount.h:76-82 | counts one less and deletes exactly at zero |
| ScopedRefPtrs.ScopedRefPtr.From | include/base/scoped_ref_ptr.h:91-105 | takes one reference |
| ScopedRefPtrs.ScopedRefPtr.Destructor | include/base/scoped_ref_ptr.h:107-110 | gives one back |
| ScopedRefPtrs.ScopedRefPtr.Assign | include/base/scoped_ref_ptr.h:127-139 | moves one reference from the old target to the new; its own target survives self-assignment |
| ScopedRefPtrs.Make | include/base/scoped_ref_ptr.h:91-94 | every count stays the number of references, deletion exactly at none |
| ScopedRefPtrs.Copy | include/base/scoped_ref_ptr.h:96-105 | likewise for copies |
| ScopedRefPtrs.Assign | include/base/scoped_ref_ptr.h:127-135 | likewise for assignment from a raw pointer |
| ScopedRefPtrs.AssignFrom | include/base/scoped_ref_ptr.h:137-144 | likewise for assignment from a smart pointer, itself included |
| ScopedRefPtrs.Destroy | include/base/scoped_ref_ptr.h:107-110 | likewise for destruction |
| ScopedRefPtrs.Detach | include/base/scoped_ref_ptr.h:121-125 | likewise for release(), whose reference is then the caller's |
| ScopedRefPtrs.GiveBack | include/base/refcount.h:76-82 | likewise when the caller gives it back |
| ScopedRefPtrs.Swap | include/base/scoped_ref_ptr.h:152-154 | likewise for swap, itself included |
| ScopedRefPtrs.SwapWithPlace | include/base/scoped_ref_ptr.h:146-150 | likewise for swap with a place that owns a reference or is null |
| ScopedRefPtrs.HoldersUpdate | include/base/scoped_ref_ptr.h:127-135 | retargeting one pointer moves exactly one holder |
| ScopedRefPtrs.AnyRun | include/base/scoped_ref_ptr.h:88-154 | over every run each count is the smart pointers plus the references handed out, and each object is deleted exactly once, never while referenced |
| SingletonFactory.StepKeepsInv | include/base/referencecountedsingletonfactory.h:68-92 | every atomic step of any pointer keeps the count, the instance and the alternation of setup and cleanup |
| SingletonFactory.EveryInterleaving | include/base/referencecountedsingletonfactory.h:54-164 | over every interleaving the count is the pointers with a share (held, being acquired, being released), setup and cleanup alternate, a valid pointer's instance exists, the ASSERTs of ReleaseInstance hold, and the destructor's holds exactly when nobody has a share |
| SingletonFactory.AcquireGets | include/base/referencecountedsingletonfactory.h:68-81 | after every interleaving, and with any steps of others in between, a pointer becomes valid if and only if somebody has a share or setup works; setup runs if and only if nobody has one |
| SingletonFactory.ReleaseGivesUp | include/base/referencecountedsingletonfactory.h:83-92 | likewise a release leaves the pointer empty, and cleans up if and only if nobody else has a share when it puts its own back |
| SingletonFactory.Factory.GetInstance | include/base/referencecountedsingletonfactory.h:68-81 | sets up only at count 0, counts one more unless setup failed, and says whether it did |
| SingletonFactory.Factory.ReleaseInstance | include/base/referencecountedsingletonfactory.h:83-92 | counts one less and cleans up exactly at zero |
| SingletonFactory.RcsfPtr.Acquire | include/base/referencecountedsingletonfactory.h:158-164 | takes a share only if it has none; valid afterwards if and only if it was, or the count was not zero, or setup works |
| SingletonFactory.RcsfPtr.Release | include/base/referencecountedsingletonfactory.h:133-138 | gives up the share it had, if any |
| TunnelPump.Pump.WriteBuffer | examples/pcp/pcp_main.cc:445-467 | for any partial writes, what was sent and what is still buffered is what was read from the file, in order; it stops only at the tunnel's first refusal, and otherwise all that was buffered is sent |
| TunnelPump.Pump.KeepFrom | examples/pcp/pcp_main.cc:454-455 | the memmove keeps exactly the unsent bytes |
| TunnelPump.Pump.FillBuffer | examples/pcp/pcp_main.cc:468-490 | for any fragmentation of reads the same; the end is reported only with nothing left to send |
| TunnelPump.Pump.OnWritable | examples/pcp/pcp_main.cc:442-492 | the same after the event; it returns open only when the tunnel blocked, with the bytes refused; it closes only at the end of the file, when the tunnel ended or failed, or when the file refused after all that was buffered was sent |
| TunnelPump.Pump.CollectBuffer | examples/pcp/pcp_main.cc:496-518 | what was written and what is buffered is what was received, in order; a failed read loses exactly what is buffered |
| TunnelPump.MovesArrive | examples/pcp/pcp_main.cc:493-518 | moves that fit the buffer arrive whole, or as far as there is anything incoming |
| TunnelPump.AllArrives | examples/pcp/pcp_main.cc:493-518 | a tunnel that keeps moving delivers everything incoming in one event, however much more than the buffer it is |
| TunnelPump.Pump.DrainBuffer | examples/pcp/pcp_main.cc:519-536 | all of it is written, or the pump closes and loses exactly the unwritten end of the buffer, which is not empty |
| TunnelPump.Pump.OnReadable | examples/pcp/pcp_main.cc:493-538 | unless the file refuses, the event takes exactly the bytes the tunnel gives up to a block with nothing buffered, an end or a failure, and closes exactly in the last two cases; open, the file holds all bytes received; closed, it lacks exactly the bytes lost |
| TunnelPump.Pump.OnStreamEvent | examples/pcp/pcp_main.cc:426-539 | each event keeps the promise of its direction and does what OnWritable or OnReadable promise; an event of the other kind changes nothing; the peer's closing loses nothing |
| TunnelPump.Pump.Run | examples/pcp/pcp_main.cc:426-539 | over any sequence of events: sent bytes are a prefix of the file and all of it when the end is reported; written bytes followed by the bytes lost are those received, none lost while open or when the peer closes; still open, a receiving pump has received the sum of what every read event gave |
| HttpUrl.PrintThenParse | include/base/httpcommon-inl.h:40-116 | every well-formed URL survives printing and parsing, default ports omitted or not, for every width of unsigned long |
| HttpUrl.SurvivesIffWellFormed | include/base/httpcommon-inl.h:40-116 | a URL survives if and only if it is well formed |
| HttpUrl.NormalForm | include/base/httpcommon-inl.h:40-99 | parsing, printing and parsing again gives the same URL if and only if no NUL got into the host, so always for NUL-free text |
| HttpUrl.ParsedIsWellFormed | include/base/httpcommon-inl.h:40-90 | everything parsed is well formed exactly when its host has no NUL |
| HttpUrl.PrintInjective | include/base/httpcommon-inl.h:92-116 | two well-formed URLs with one text are equal |
| HttpUrl.DecimalReadsBack | include/base/httpcommon-inl.h:104-109 | reading the digits printed for a number gives the number |
| HttpUrl.NulHostIsLost | include/base/httpcommon-inl.h:52-66 | behind a NUL in the host neither '/' nor ':' is found, so the host changes |
| HttpUrl.SchemeAndPort | include/base/httpcommon-inl.h:40-73 | the scheme is read in any letter case; a plain host gets port 80 for http and 443 for https |
| HttpUrl.OtherSchemesClear | include/base/httpcommon-inl.h:40-51 | any other text leaves the cleared URL |
| HttpUrl.StrToUlMeans | include/base/httpcommon-inl.h:65-68 | the port text: blanks and a sign are read, too large a number becomes the largest unsigned long, a negative one wraps |
| HttpUrl.Find | include/base/stringutils.h:178-186 | strchrn finds an occurrence no NUL precedes |
| HttpUrl.Url.SetUrl | include/base/httpcommon-inl.h:40-59 | the members become the parse of the text |
| HttpUrl.Url.SetAddress | include/base/httpcommon-inl.h:61-73 | host and port become those of the address |
| HttpUrl.Url.SetFullPath | include/base/httpcommon-inl.h:75-90 | path and query become those of the text; the ASSERT holds exactly when the text is empty or starts with '/' or '?', and exactly then the path starts with '/'; SetUrl always meets it |
| HttpUrl.Url.GetAddress | include/base/httpcommon-inl.h:101-110 | the host, with the port unless it is the default |
| HttpUrl.Url.GetUrl | include/base/httpcommon-inl.h:92-99 | the printed members |
| MucClient.CallClient.JoinMuc | examples/call/callclient.cc:1148-1170 | rooms stay filed under their own bare JID; a new room is joining under the nick given, or the user's own; a room leaks if and only if a full JID joins a room already filed |
| MucClient.CallClient.File | examples/call/callclient.cc:1167-1168 | filing a room leaks the one filed under the same JID, and nothing when there is none |
| MucClient.CallClient.LeaveMuc | examples/call/callclient.cc:1289-1320 | the room named, or some room when none is named, is Leaving afterwards; no other room changes, nor the map |
| MucClient.CallClient.OnMucJoined | examples/call/callclient.cc:1248-1256 | its ASSERT is a precondition, met at every call |
| MucClient.CallClient.OnMucStatusUpdate | examples/call/callclient.cc:1258-1276 | its ASSERT is a precondition, met at every call; only another user's departure changes the members |
| MucClient.CallClient.OnMucLeft | examples/call/callclient.cc:1322-1340 | the room is deleted once and unfiled; nothing else changes |
| MucClient.CallClient.OnPresence | examples/call/presencepushtask.cc:69-127 | own presence without a type and with a MUC item makes a joining room joined; own presence with a type unfiles it; another user's unavailable presence removes that member; nothing else changes; the ASSERTs hold |
| MucClient.CallClient.Run | examples/call/callclient.cc:1148-1340 | over every run keys are the rooms' bare JIDs and no room goes back from Leaving; with bare join JIDs every room created is filed or deleted exactly once |
| MucClient.Muc.constructor | examples/call/muc.h:39-40 | a joining room with its local JID, resource prepared |
| MucClient.BareAndFull | ThirdParty/xmpp/src/jid.cc:117-148 | the bare JIDs are those that are their own bare JID, the full ones the valid others |
| MucClient.LocalJidKeepsNick | ThirdParty/xmpp/src/jid.cc:232-271 | the local JID is the room with the nick if and only if the nick has at most 1023 bytes and no control byte but NUL; other control bytes become NUL |
| RenderedViews.StaticRenderedViews.Find | examples/call/callclient.cc:1461-1462 | finds the key or the place it belongs |
| RenderedViews.StaticRenderedViews.AddStaticRenderedView | examples/call/callclient.cc:1483-1496 | adds the view in key order with a new renderer and counts it; a key already present keeps its view, and exactly then the new renderer leaks |
| RenderedViews.StaticRenderedViews.RemoveStaticRenderedView | examples/call/callclient.cc:1498-1509 | removes and deletes exactly the first view showing the ssrc |
| RenderedViews.StaticRenderedViews.RemoveCallsStaticRenderedViews | examples/call/callclient.cc:1511-1523 | erasing while iterating removes exactly the views of the call's sessions |
| RenderedViews.StaticRenderedViews.RenderStream | examples/call/callclient.cc:1451-1479 | never leaks; enabling inserts a view for the key, or leaves the one there, and keeps all others; disabling deletes the renderer of the first view showing the ssrc, and leaves the stream's own view exactly when a session at a lower address shares the ssrc |
| RenderedViews.DisableRemovesOwn | examples/call/callclient.cc:1473-1478 | the view removed on disabling is the stream's own if and only if no session at a lower address shows the ssrc |
| RenderedViews.OwnedDeletedOrLeaked | examples/call/callclient.cc:1483-1523 | every renderer created is in the table once, deleted once or leaked once |
| RenderedViews.Run | examples/call/callclient.cc:1451-1523 | over any sequence of operations no renderer leaks and every one created is in the table once or deleted once |
| StatusTruncation.CleanCut | examples/call/presencepushtask.cc:64-67 | inside valid UTF-8 a cut is clean exactly in front of a byte IsUtf8FirstByte accepts |
| StatusTruncation.FirstByteNearby | examples/call/presencepushtask.cc:145-147 | such a byte is at most three positions back |
| StatusTruncation.ValidIffEncoded | examples/call/presencepushtask.cc:138-147 | the valid texts meant here are exactly the UTF-8 encodings of sequences of characters (section 3 of RFC 3629) |
| StatusTruncation.Truncate | examples/call/presencepushtask.cc:138-150 | valid text over 300 bytes becomes its longest valid prefix of at most 300 bytes, at least 297; any text is cut at the last first byte |
| RollingAccumulator.Accumulator.AddSample | include/base/rollingaccumulator.h:62-78 | the ring holds the last samples and the two running sums equal the sum and the sum of squares recomputed over them |
| RollingAccumulator.StaysInStep | include/base/rollingaccumulator.h:62-78 | subtracting the oldest and adding the newest is recomputing, for any summed function |
| RollingAccumulator.AdvanceIsMod | include/base/rollingaccumulator.h:77-77 | the next index is the original's remainder |
| RollingAccumulator.Accumulator.ComputeSum | include/base/rollingaccumulator.h:80-82 | the sum of the window |
| RollingAccumulator.Accumulator.ComputeMean | include/base/rollingaccumulator.h:84-89 | the mean of the window, 0 when empty |
| RollingAccumulator.Accumulator.ComputeVariance | include/base/rollingaccumulator.h:93-102 | the mean squared distance to the mean, never negative, zero exactly when all samples are equal |
| RollingAccumulator.VarianceLaw | include/base/rollingaccumulator.h:97-101 | for any samples E[x^2] - E[x]^2 is the mean squared distance to the mean, never negative, and zero exactly when all samples are equal |
| CryptString.GrownIsSize | include/base/cryptstring.h:136-140 | doubling keeps the capacity 32 times a power of two |
| CryptString.GrownIsLeast | include/base/cryptstring.h:136-140 | it stops at the least doubling that fits |
| CryptString.Zero | include/base/cryptstring.h:148-151 | the copying loop zeroes the whole block |
| CryptString.FormatCryptString.EnsureStorage | include/base/cryptstring.h:128-154 | contents kept, the old block all zero, fewer bytes ever copied than the capacity; the terminating NUL is kept if and only if nothing grew or the fresh memory holds one there |
| CryptString.FormatCryptString.Append | include/base/cryptstring.h:104-116 | contents are the concatenation followed by NUL; capacity stays 32 or below twice the length plus one |
| CryptString.FormatCryptString.Destructor | include/base/cryptstring.h:156-164 | every block ever used is all zero |
| CryptString.FormatCryptString.AppendAll | include/base/cryptstring.h:104-154 | all of this over any sequence of appends |

## Left out

- Weak memory and the ARM assembly of atomicops.h: each counter or cell access is one sequentially consistent step, with the 32-bit `size_t` of the only supported target.
- Allocation failure, and overflow of `int`, `size_t` and pointers other than the queue's counters and the URL's port: numbers are unbounded.
- sigslot arities 1 to 8 and the threading policies, which repeat the modelled code; the implicit copy assignment of a receiver.
- `World.AnyRun` and the other most general clients stand for any program that keeps to the stated preconditions; they choose operations and live objects freely.
- SigSlot.World.Emit: what undefined behaviour does after an emission ran into an erased connection or lost its signal; the model stops that emission there. Its slots make finitely many operations, chosen freely.
- Emission.Signal0.Emit: slot bodies are a finite script after which slots do nothing; an emission whose slots append forever has no end to speak of.
- DebugLog: timestamps, headers and indentation of the log.
- The pointees' own destructors, and raw pointers handed to two linked_ptr constructors.
- TunnelPump: what the peer does with the bytes; events after the pump closed; a file that claims to end early.
- HttpUrl: wide-character instantiations, `get_attribute` (it matches a name anywhere in the query), and the two-argument constructor.
- MucClient: JID parsing, and preparation of the node and domain (the JIDs given are prepared ones); the presence sent, which room is first in JID order, and random room names.
- RenderedViews: window positions, and the calls that hand renderers to the media engine.
- RollingAccumulator.Accumulator.ComputeVariance: floating-point rounding and the final cast to the sample type; a window of size 0, which the original cannot index.
- CryptString.FormatCryptString.Append: text that aliases the buffer; the overload for a password writes the same bytes through CopyTo and is covered by the same member.
- Message queues, HTTP message parsing, encoders, disk cache, NAT server, rate limiter, and the session and media layers: not part of this model.
- Sockets, TLS, threads, DBus and the platform wrappers: I/O or foreign calls.
