# Parlo: the messaging stack, modelled and proved in Dafny

Parlo is a C++ networking library. This project models the parts of it that decide what an application sees: the
incremental TCP framer and its encoder, the receive handler and the send guards of a client, the bounded blocking queue,
the heartbeat failure detector, the bodies of the internal packets, and the listener's registry of clients.
`dafny verify dfyconfig.toml` checks all of it.

| file | contents |
|---|---|
| `Bytes.dfy` | concatenation facts, fixed-width integers, little-endian byte strings |
| `Packet.dfy` | packets, their constructors and wire form (`Packet.cpp`) |
| `Framer.dfy` | the consumer loop as a state machine, the one-shot parser, runs of both threads (`ProcessingBuffer.cpp`) |
| `Framing.dfy` | framer against encoder: round trips, conservation of bytes, unique decodability |
| `ProcessingBuffer.dfy` | the framer as a mutable object, proved against the state machine |
| `Monitor.dfy` | the blocking queue as a transition system over any number of threads (`BlockingQueue.h`) |
| `BlockingQueue.dfy` | the queue as a mutable object, one method for each lock region |
| `Detector.dfy` | the failure detector under fine-grained interleaving, and as an object (`NetworkClient.cpp`) |
| `Codecs.dfy` | Goodbye and Heartbeat bodies (`GoodbyePacket.cpp`, `HeartbeatPacket.cpp`) |
| `Client.dfy` | send guards, dispatch, and the end-to-end statements (`NetworkClient.cpp`) |
| `NetworkClient.dfy` | the receiving client as a mutable object |
| `Listener.dfy` | the client registry (`Listener.cpp`) |

Each component has a specification on values (`Step`, `Apply`, `React`, ...) and, where the source mutates an object, a
class whose methods are proved to take exactly those steps. The `Valid()` of the framer, the queue, the detector and the
client says that the object is where a run of its specification has led (of which it keeps a ghost history, or which
exists), so everything proved about runs holds of the object; the `ValidImplies...` lemmas draw that conclusion. The
listener's `Valid()` is its queue's, with the facts about the log that the registry theorem needs.

## What was found

- No client can send, receive or connect as the source stands: lines 328, 378 and 494 of `NetworkClient.cpp` call
  `shared_from_this()` on an `Impl` that a `std::unique_ptr` owns (`Parlo.h` line 102), which in C++17 throws
  `std::bad_weak_ptr`. `Clients.SendAsync` has it in the exact condition for a write (`Sender.shared`), and
  `Clients.UnsharedSendNothing` says what follows from it. All that is proved of sending holds for a client for which that
  call succeeds, and all that is proved of receiving for a client that has got past it.
- The library's own heartbeats then end the receiver that gets them. `sendHeartbeatAsync` builds a 16-byte body, the
  decoder demands 17 bytes (it skips an id byte that the framer has already taken off) and throws on the processing
  thread. `Clients.PulseEndsReceiver` proves it end to end, `Clients.PulseHappens` gives the run and says exactly which
  clients can send such a heartbeat, and `Clients.ThrowsExactly` says exactly which packets a receiver survives.
- `receiveAsync` drops a chunk above 1024 bytes and carries on. `Framing.RoundTrip` shows that a packet list arrives
  if and only if no chunk was that long.
- A header announcing 0 to 3 bytes wedges the framer for good, and one announcing 4 ends its thread
  (`Framer.DeadForever`). `Framer.WedgedExactly` says that nothing else does: after any run, no continuation brings
  another packet if and only if all complete frames were delivered and the parser stands behind such a header.
  `Framer.DeadHappens` gives the run, for exactly those lengths.
- The compressing path of `sendAsync` can only throw, and only data of exactly 1024 bytes gets there
  (`Clients.SendAsync`).
- A heartbeat handled between the checker's unlocked read and its write leaves a live connection marked dead
  (`Detector.StaleDeathHappens`); `Detector.AliveExact` says that this is the only way for `isAlive` to be wrong at rest.
- A client whose goodbye is handled before it is queued stays registered (`Registry.EarlyGoodbyeStays`, with a run in
  `Registry.EarlyGoodbyeHappens`); `Registry.RegisteredExactly` says exactly who is registered.
- A payload above 65531 bytes wraps the length field; `Framing.SingleRoundTrip` gives the exact domain.

## Modelling decisions

- One iteration of the processing thread is atomic with respect to `addData`, because the mutex is held from the wait to
  the end of the callback. An iteration on an empty buffer is the thread waiting, and changes nothing.
- `size_t(currentLength - 4)` is compared with the size of a queue, which is below 2^63; `Framer.CastGuard` proves that the
  guard used here is the same for every such size.
- An exception that leaves the processing thread ends the program. In the model the thread stops for good and bytes may
  still arrive, which only allows more runs.
- `delivered` are the packets built for the packet handler. Both `NetworkClient` constructors install the same one.
- `queue.pop()` in `BlockingQueue.h` is read as removing the front; `std::deque` has no `pop`, and the line before reads
  the front.
- In the queue, one action is one lock region of one thread. `notify_one` may pick any sleeper, threads may barge in, and
  sleepers may wake spuriously.
- In the detector every lock, write, read and release is a step of its own. The counter is a 32-bit `int` and wraps. The
  detector object has one method for each lock region and for the unlocked read, which may alternate in any order.
- Every `sendAsync` call meets the sender in a state of its own (connected or not, held by a `shared_ptr` or not,
  round-trip time, compression).
- The receiving side starts where `receiveAsync` is past its own `shared_from_this()`, and the packet handler's calls of it
  on the `NetworkClient` succeed; so does the listener's in `Listener.cpp` line 88.
- The wire carries the buffers given to `async_write` whole and in the order of the calls. The source does not ensure
  either: line 379 of `NetworkClient.cpp` hands over a view of the caller's vector, which lines 523 and 571 pass as a
  temporary and which must outlive the write, and two threads may have writes in flight at once.
- The internal packets copy 64-bit numbers as they are in memory; a little-endian machine is assumed
  (`Bytes.Int64Layout`).
- zlib is an unknown function that may fail. The clock's resolution is a parameter of the codecs. A decoded time point
  that the receiver's clock cannot hold is an `OutOfRange` result; in the source it is a signed overflow.
- A new client object differs from those in the queue (`Registry.FreshAdds`), because it has just been allocated.

## Model

| member | source | states |
|---|---|---|
| Bytes.Int64RoundTrip | GoodbyePacket.cpp:41-63 | a signed 64-bit value copied to memory and back is unchanged, for every value |
| Bytes.Int64BytesRoundTrip | GoodbyePacket.cpp:54-63 | and every eight bytes read as such a value are written back unchanged |
| Bytes.Int64Layout | HeartbeatPacket.cpp:50-51 | the eight bytes are those of the two's complement value, the least significant at the lowest address |
| Packets.FramableMeaning | Packet.cpp:22-29 | the packets whose 16-bit length is exact are those the TCP constructor returns for payloads of 1 to 65531 bytes |
| Packets.BuildPacket | Packet.cpp:48-63 | the bytes pushed are the id, the compression flag, for UDP the reliability flag, the length low byte first, and the payload; nothing else |
| Packets.TcpWire | Packet.cpp:22-63 | a TCP packet fails exactly on an empty payload; else its bytes are the id, the flag as 0 or 1, 4 plus the payload length modulo 65536 low byte first, and the payload |
| Packets.UdpWire | Packet.cpp:31-63 | a UDP packet fails exactly on an empty payload; else its bytes are the id, both flags as 0 or 1, 5 plus the payload length modulo 65536 low byte first, and the payload |
| Packets.BuiltInjective | Packet.cpp:31-63 | two TCP packets, or two UDP packets, with the same wire form are the same packet, even when the length wrapped |
| Framer.CastGuard | ProcessingBuffer.cpp:120 | for every size a queue can have, the unsigned comparison is true exactly when the length is at least 4 and the body has arrived |
| Framer.ParseAppend | ProcessingBuffer.cpp:106-158 | parsing s then t equals parsing s, keeping what is left, and going on with t |
| Framer.StepParse | ProcessingBuffer.cpp:106-137 | an iteration delivers the first packet of the parse, if there is one, and leaves the parse of the rest |
| Framer.QuiescentMeaning | ProcessingBuffer.cpp:110-133 | the consumer stutters exactly in the states where no header or body is complete, which is where the parser stops |
| Framer.ParseEnds | ProcessingBuffer.cpp:119-128 | the parser always reaches such a state, and every packet it yields has an exact length and a body of 1 to 65531 bytes |
| Framer.StepProgress | ProcessingBuffer.cpp:107-136 | an iteration that changes anything shortens the buffer |
| Framer.DrainProgress | ProcessingBuffer.cpp:107-136 | k iterations deliver exactly the first k packets of the parse, and one more than there are packets reaches its final state, where the consumer rests |
| Framer.ScheduleIndependence | ProcessingBuffer.cpp:75-137 | after any interleaving and chunking, delivered followed by the parse of what is pending is the one-shot parse of all accepted bytes; at rest delivered is all of it |
| Framer.SchedulesAgree | ProcessingBuffer.cpp:75-137 | two schedules that accepted the same bytes and came to rest are in the same state |
| Framer.TakenIsOffered | ProcessingBuffer.cpp:75-83 | all offered bytes are accepted, in order, if and only if no chunk exceeds 1024 bytes |
| Framer.DeadForever | ProcessingBuffer.cpp:119-128 | after a declared length of 0 to 4 no continuation consumes or delivers anything; all earlier frames were delivered, as the parser says |
| Framer.DeadExactly | ProcessingBuffer.cpp:119-158 | where no frame can be read off, no further bytes whatever complete one if and only if the pending header announces 0 to 3 bytes or one announcing 4 has ended the thread |
| Framer.WedgedExactly | ProcessingBuffer.cpp:75-158 | after any run, no continuation of chunks and iterations delivers another packet if and only if nothing deliverable is pending and the parser stands behind a declared length of 0 to 4; at rest, if and only if the framer itself does |
| Framer.DeadHappens | ProcessingBuffer.cpp:119-158 | one header in one chunk and one iteration lead there exactly for the declared lengths 0 to 4 |
| Framer.DrainCompletes | ProcessingBuffer.cpp:107-137 | after any run, more iterations than there are packets deliver the whole one-shot parse |
| ProcessingBuffers.ProcessingBuffer.AddData | ProcessingBuffer.cpp:75-86 | a long chunk throws and changes nothing; any other is appended, byte by byte |
| ProcessingBuffers.ProcessingBuffer.At | ProcessingBuffer.cpp:88-98 | the byte at the index, or out of range exactly when the buffer is not that long |
| ProcessingBuffers.ProcessingBuffer.TakeHeaderBytes | ProcessingBuffer.cpp:140-158 | four bytes are popped into the header fields, or nothing happens when there are fewer |
| ProcessingBuffers.ProcessingBuffer.TakeBodyBytes | ProcessingBuffer.cpp:119-133 | the payload loop pops exactly the body and builds its packet; an empty body ends the thread |
| ProcessingBuffers.ProcessingBuffer.ProcessOnce | ProcessingBuffer.cpp:107-136 | one iteration on the fields is the step of the state machine, and returns the packet it handed over |
| ProcessingBuffers.ProcessingBuffer.ValidImpliesInvariants | ProcessingBuffer.cpp:75-158 | whatever was called, the object keeps the refinement of the one-shot parse and has lost no byte |
| Framing.ParseEncoded | ProcessingBuffer.cpp:106-158 | encoded packets followed by any unfinished rest parse to exactly those packets and that rest |
| Framing.StepConserves | ProcessingBuffer.cpp:119-158 | no iteration loses, duplicates or reorders a byte; only a flag byte above 1 is replaced by 1 |
| Framing.ReencodeParse | ProcessingBuffer.cpp:146-155 | re-encoding inverts parsing if and only if every flag byte that was read is 0 or 1 |
| Framing.NoByteLost | ProcessingBuffer.cpp:119-158 | in every reachable state delivered packets rebuilt, pending header and buffer are together the accepted stream, up to flag bytes above 1 |
| Framing.ParseCharacterised | ProcessingBuffer.cpp:106-158 | on streams with flags 0 or 1, an outcome is the parse if and only if it consists of exact frames and an unfinished rest and re-encodes to the stream |
| Framing.SingleRoundTrip | Packet.cpp:22-63 | a packet survives build and parse if and only if its payload has at most 65531 bytes |
| Framing.PrefixFree | Packet.cpp:48-63 | no frame's wire form is a proper prefix of another's |
| Framing.UniqueDecodability | Packet.cpp:48-63 | concatenated wire forms are equal, or one a prefix of the other, if and only if the packet lists are |
| Framing.ParseMonotone | ProcessingBuffer.cpp:106-158 | more input never takes back a packet |
| Framing.RoundTrip | NetworkClient.cpp:329-343 | chunks that concatenate to an encoded list: at rest exactly that list was delivered if and only if no chunk is too long; if none is, delivered always is a prefix and the framer ends empty |
| Framing.RoundTripDrained | ProcessingBuffer.cpp:75-137 | any such schedule followed by more iterations than packets delivers the list and ends in the initial state |
| Monitors.StepKeepsWakeups | BlockingQueue.h:32-80 | every lock region keeps the balance of items and free places against notified threads, spuriously woken ones not counted |
| Monitors.StepLinearizes | BlockingQueue.h:32-80 | every lock region keeps the log of completed operations a right history of a sequential bounded queue that ends in the present contents |
| Monitors.StepMoves | BlockingQueue.h:32-80 | where each thread is after a lock region: who completes is outside, who cannot sleeps with its own item, the notified sleeper is woken, and all others stay where they were |
| Monitors.CallsAccounted | BlockingQueue.h:32-64 | in every run, the calls of add and take() a thread has begun are, in order, those it completed, each add with its own item, and then the one it still waits in, with its item; the log is the operations so completed |
| Monitors.Reachable | BlockingQueue.h:32-80 | in every reachable state: a sleeping taker means at most as many items as notified takers yet to run, a sleeping adder at most as many free places as notified adders, size within capacity, and a linearizable log |
| Monitors.NoMutualBlocking | BlockingQueue.h:32-64 | with capacity above 0, adders and takers never sleep together without a notified thread on the way |
| Monitors.SleepIsJustified | BlockingQueue.h:34-58 | with no notified taker (adder) yet to run, takers sleep only on an empty queue (adders only on a full one) |
| Monitors.ResumingEnds | BlockingQueue.h:34-58 | each run of a woken thread lowers the number of threads inside plus the number of woken ones |
| Monitors.ResumingSettles | BlockingQueue.h:34-58 | so from every reachable state every run of woken threads alone is bounded in length, and ends, when none can run any more, exactly where every sleep is justified |
| Monitors.StrictFifo | BlockingQueue.h:32-64 | without take(item), items taken out followed by the contents are the items added, in order |
| Monitors.ItemsConserved | BlockingQueue.h:69-80 | with it, the items added are those taken out and those still there, with multiplicity |
| Monitors.OrderKept | BlockingQueue.h:69-80 | and what is left stands in the order of its add calls |
| Monitors.RemoveFirstShorter | BlockingQueue.h:71-74 | take(item) removes one occurrence and nothing else, with multiplicity |
| Monitors.RemoveFirstMeaning | BlockingQueue.h:71-74 | and it is the first occurrence: no equal item stands before it, and the items before and after it stay in place |
| BlockingQueues.BlockingQueue.Add | BlockingQueue.h:32-37 | with room the item is appended and a sleeping taker, if any, notified; on a full queue nothing is appended and the thread waits, carrying its item; no other thread moves, and the region is one action of the transition system |
| BlockingQueues.BlockingQueue.ResumeAdding | BlockingQueue.h:34-36 | the same after a wake-up, with the item the thread carried: the predicate is checked again |
| BlockingQueues.BlockingQueue.Take | BlockingQueue.h:56-64 | the front is returned and removed and a sleeping adder, if any, notified; on an empty queue the thread waits; no other thread moves |
| BlockingQueues.BlockingQueue.ResumeTaking | BlockingQueue.h:58-63 | the same after a wake-up: the predicate is checked again |
| BlockingQueues.BlockingQueue.TryTaking | BlockingQueue.h:41-52 | the front, removed, and a sleeping adder, if any, notified; on an empty queue nothing, and nobody is notified |
| BlockingQueues.BlockingQueue.Find | BlockingQueue.h:71 | the search stops at the first occurrence, or at the end if there is none |
| BlockingQueues.BlockingQueue.TakeThe | BlockingQueue.h:69-80 | the first equal item goes, all others stay in place and a sleeping adder, if any, is notified; without one nothing changes, and the result says so |
| BlockingQueues.BlockingQueue.ValidImpliesInvariant | BlockingQueue.h:32-80 | whatever was called, the object keeps the wake-up balance and the right history |
| Detector.TicksSinceResetMeaning | NetworkClient.cpp:540-543 | k ticks since the last reset means a stretch up to now with k ticks and no reset in it |
| Detector.StepKeepsInvariant | NetworkClient.cpp:534-556 | every step of either thread keeps the mutex ownership, the exact counter and the account of isAlive |
| Detector.CounterExact | NetworkClient.cpp:540-543 | the counter always is the number of ticks since the last reset, as a wrapping 32-bit int |
| Detector.LostCountExact | NetworkClient.cpp:540-554 | under any interleaving, the branch was taken since the last reset exactly once for each tick whose counter the checker has read and that reads above 6; until the counter wraps, these are all but the first 6 ticks |
| Detector.Accuracy | NetworkClient.cpp:545-554 | whenever the connection-lost branch is taken, a stretch up to then has 7 ticks and no reset |
| Detector.Completeness | NetworkClient.cpp:540-554 | whenever 8 ticks went by without a reset, under any interleaving, the branch was taken since the last reset |
| Detector.SeventhTickSuffices | NetworkClient.cpp:540-554 | the 7th tick is enough once the checker has read the counter after it |
| Detector.NeverLost | NetworkClient.cpp:545-554 | if every stretch with 7 ticks has a reset, the branch is never taken |
| Detector.LostTurnCompletes | NetworkClient.cpp:545-554 | between a taken branch and the next tick, isAlive is cleared once and the handler called once, whatever the receiver does in between |
| Detector.MidUpdate | NetworkClient.cpp:540-550 | counter above 6 with isAlive still set means one of the threads is in the middle of its update |
| Detector.AliveExact | NetworkClient.cpp:174-181 | with both threads at rest, isAlive agrees with the last 7 ticks if and only if its last write was not made on a value reset in between |
| Detector.StaleDeathHappens | NetworkClient.cpp:545-550 | such a state is reachable: both at rest, counter 0, isAlive false |
| Detector.TurnIsRun | NetworkClient.cpp:536-555 | an uninterrupted turn of either thread is one of the fine-grained runs |
| Detector.TurnExact | NetworkClient.cpp:536-555 | without interleaving isAlive holds exactly up to the 6th tick, and the branch is taken on exactly the ticks from the 7th on, until the 32-bit counter wraps |
| Detector.TurnsExact | NetworkClient.cpp:534-556 | after every sequence of whole turns from the start, isAlive and the counter are given by the check turns since the last heartbeat, and the turns that took the branch are exactly the 7th and later ones, until the 32-bit counter wraps |
| HeartbeatDetectors.HeartbeatDetector.ValidImpliesInvariant | NetworkClient.cpp:534-556 | between any two lock regions the object is in a reachable state of the fine-grained system |
| HeartbeatDetectors.HeartbeatDetector.CountMissed | NetworkClient.cpp:540-543 | the region that counts a tick is the fine-grained steps from its lock to its release |
| HeartbeatDetectors.HeartbeatDetector.ReadCounter | NetworkClient.cpp:545 | the unlocked read decides whether the branch is taken |
| HeartbeatDetectors.HeartbeatDetector.MarkDead | NetworkClient.cpp:547-550 | the region that clears isAlive, whatever the counter is by then |
| HeartbeatDetectors.HeartbeatDetector.CheckOnce | NetworkClient.cpp:536-555 | one uninterrupted turn, from any reachable state: lost exactly from the 7th tick since the last reset on, until the counter wraps, and isAlive is only ever cleared |
| HeartbeatDetectors.HeartbeatDetector.OnHeartbeat | NetworkClient.cpp:174-181 | a heartbeat, from any reachable state between two regions of the checker, leaves isAlive set and the counter 0 |
| Codecs.TruncDivCuts | GoodbyePacket.cpp:36 | duration_cast cuts toward zero, to a whole unit less than one unit away |
| Codecs.GoodbyeToByteArray | GoodbyePacket.cpp:27-40 | the 16 bytes read back as the timeout and as the send time cut to whole seconds, and decode without failing to just these two |
| Codecs.GoodbyeFromByteArray | GoodbyePacket.cpp:46-66 | throws exactly on fewer than 16 bytes, overflows exactly when the seconds do not fit; otherwise the timeout and the time are those in bytes 0 to 7 and 8 to 15, they encode to these bytes, and every encoding is undone |
| Codecs.GoodbyeRoundTrip | GoodbyePacket.cpp:27-66 | decoding an encoded Goodbye never overflows, keeps the timeout, cuts the send time to seconds toward zero, and encodes to the same bytes |
| Codecs.GoodbyeReencodes | GoodbyePacket.cpp:46-66 | re-encoding any body that decodes gives its first 16 bytes |
| Codecs.HeartbeatRoundTrip | HeartbeatPacket.cpp:44-77 | behind any one byte an encoded Heartbeat decodes to itself up to whole milliseconds, and stays so on a second pass |
| Codecs.HeartbeatReencodes | HeartbeatPacket.cpp:58-77 | re-encoding any body that decodes gives its bytes 1 to 16 |
| Codecs.HeartbeatToByteArray | HeartbeatPacket.cpp:44-55 | the 16 bytes read back as the elapsed time and as the time stamp cut to whole milliseconds |
| Codecs.HeartbeatFromByteArray | HeartbeatPacket.cpp:58-77 | throws exactly on fewer than 17 bytes, so on every encoding by itself; overflows exactly when the milliseconds do not fit; otherwise the fields are those in bytes 1 to 8 and 9 to 16, and every encoding behind one byte is undone |
| Codecs.HeartbeatNeedsLead | HeartbeatPacket.cpp:60-67 | an encoded Heartbeat throws exactly without a byte in front; behind one or more it decodes exactly if the time stamp then read fits the clock, and bytes after the 17th are ignored |
| Clients.SendAsync | NetworkClient.cpp:358-406 | the exact condition of each outcome: which data is written, unchanged, and for every other input which of the four exceptions is thrown, down to the thresholds and what zlib did |
| Clients.UnsharedSendNothing | NetworkClient.cpp:378 | clients for which it does not send nothing at all, whatever they try |
| Clients.WireIsEncoding | NetworkClient.cpp:358-388 | of any packets sent in turn, those that pass the guards are in the framer's domain and the wire carries exactly their encoding |
| Clients.ThrowsExactly | NetworkClient.cpp:161-208 | dispatching a list throws if and only if it has a heartbeat under 17 bytes, or data that does not decompress or is empty for an installed handler |
| Clients.DispatchExactly | NetworkClient.cpp:161-208 | for every list: the calls for the packets before the first that throws, in order, then the detector reset if that one is a heartbeat, and nothing more; a heartbeat that is accepted resets first and reports second |
| Clients.DataUntilThrow | NetworkClient.cpp:199-207 | and for every list the data handler sees exactly the application packets before the first that throws, uncompressed, in order |
| Clients.DataFiltered | NetworkClient.cpp:199-207 | otherwise the data handler sees exactly the packets with application ids, uncompressed, in order |
| Clients.InternalsReported | NetworkClient.cpp:162-197 | and every goodbye and heartbeat is reported exactly once to its handler, if installed |
| Clients.EventsAreDispatchedParse | NetworkClient.cpp:161-208 | under any schedule and chunking the handler calls are a prefix of those for the one-shot parse, and all of them once the client rests |
| Clients.EventsDrained | ProcessingBuffer.cpp:107-137 | after any schedule, more iterations than the parse has packets bring every client to rest with exactly those calls |
| Clients.EndToEnd | NetworkClient.cpp:329-388 | packets sent through sendAsync and received in any chunks that fit cause, at any time, the first, and after enough iterations exactly the calls of dispatching those whose sending did not throw |
| Clients.DataEndToEnd | NetworkClient.cpp:329-388 | and after enough iterations the data handler got exactly the application packets that were sent |
| Clients.PulseEndsReceiver | NetworkClient.cpp:517-523 | a heartbeat of the library's own making, after packets that are accepted and before any others, resets the detector, ends the receiver, and hides everything sent after it |
| Clients.PulseHappens | NetworkClient.cpp:517-523 | a client can send one if and only if it is connected and shared_from_this() succeeds, and two iterations after one arrives the receiver has thrown |
| Clients.PulsesResetOnce | NetworkClient.cpp:174-184 | so under any schedule and chunking a receiver whose stream has no longer heartbeats than that resets its detector at most once |
| Clients.FarewellArrives | NetworkClient.cpp:568-571 | a goodbye sent last is, after enough iterations, reported exactly once, after everything else |
| NetworkClients.NetworkClient.HandlePacket | NetworkClient.cpp:161-208 | throws exactly on what is not acceptable, then having done nothing but a heartbeat's reset; else makes exactly the packet's calls, the reset before the report; only a heartbeat touches the detector; this is the dispatch of the packet |
| NetworkClients.NetworkClient.Receive | NetworkClient.cpp:331-343 | a chunk reaches the buffer, or is dropped without a trace if too long |
| NetworkClients.NetworkClient.Process | ProcessingBuffer.cpp:107-136 | an iteration of the object is the step of the client, framer and handler together; the detector is reset if that step hands over a heartbeat and untouched otherwise |
| NetworkClients.NetworkClient.ValidImpliesInStep | NetworkClient.cpp:161-208 | whatever was called, the calls made are those for the delivered packets, and a prefix of those for the one-shot parse |
| Registry.ReplayIsExpected | Listener.cpp:138 | replaying the queue's log gives the accepted clients without a later removal, in accept order, each once |
| Registry.ExpectedMember | Listener.cpp:177-197 | a client is registered if and only if some accept of it has no removal event after it |
| Registry.RegistryCorrect | Listener.cpp:138-197 | this holds of the queue's contents after every concurrent run |
| Registry.RegisteredExactly | Listener.cpp:138-197 | so after every such run a client is queued if and only if some accept of it has no removal event after it |
| Registry.EarlyGoodbyeStays | Listener.cpp:124-138 | after every such run that logged a removal of c, then its add, and no removal later, c is still queued |
| Registry.EarlyGoodbyeHappens | Listener.cpp:124-138 | such a run exists for every client |
| Listeners.Listener.Accept | Listener.cpp:138 | the new client is appended and the registry stays correct |
| Listeners.Listener.RemoveClient | Listener.cpp:177-197 | the client is gone, the others keep their order, and a repeated event changes nothing |

## Left out

- Sockets, asio, linger options, thread creation and joining, sleeps, logging: I/O; the threads' interleavings are modelled, time is not.
- zlib: an unknown function; the compressing send path is modelled up to the exception it always ends in.
- `EncryptedPacket.h`, `EncryptionArgs.h`: calls into Crypto++.
- Stop flags, destructors and shutdown: a run may end anywhere, but no claim is made that a waiting thread is woken on shutdown.
- `bufferCount` reads the queue without the lock; it is not modelled.
- Packet handlers that call back into the buffer: they would deadlock on its mutex.
- UDP reception: the source has no UDP decoder; only the encoding is modelled.
- Round-trip time arithmetic and the overflow of a received heartbeat's time point inside the handler: only the decoder's length check is looked at.
- The listener's `onClientDisconnected` callback: nothing in the source can install it.
- Lock regions of the detector object that overlap in time: its methods are whole regions; steps inside them are interleaved in `Detector.Step`.
- Fairness of the operating system's scheduler: progress is stated as what woken threads reach when they run.
- Listeners.Listener.Accept: is stated for fewer than 2^64 - 1 clients, the default capacity, so that add does not wait.
