# Karyon, modelled and proved in Dafny

Karyon is a set of Rust libraries for peer-to-peer programs: async coordination
primitives, message framing over byte streams, STUN address discovery, a Kademlia
routing table, and the admission of peers. This project models the parts of it that
carry state across steps, and proves what they keep in every run or for every input.
`dafny verify dfyconfig.toml` checks all of it.

## How the code is modelled

- **Concurrent code is a state machine over its steps.** A step is what one task does
  between two points where another task may run: taking a mutex, testing a condition and
  registering, releasing, being polled, signalling, being dropped. A run is any sequence
  of states linked by steps, so a theorem about runs covers every interleaving. A hash
  map that is iterated becomes a free choice; a mutex becomes a field saying who holds it.
- **Objects changed in place are classes**: the waker table, the condvar future, the
  queue, byte buffer, framed reader and writer, routing table, bloom handle, token bucket,
  limiter and backoff. Their methods are specified by the functions and relations that
  the state machines use (`Poll`, `Drops`, `WakesOne`, `AddEntry`, ...). The framed reader
  carries the framing theorem in its own contract, and `Framed.ReaderFollowsWriter` states
  it of a reader and a writer object.
- **Pure code is functions** with lemmas about them.
- **Parameters.** Foreign code enters as a parameter with the law it is used for: a codec
  whose frames decode to their messages whatever follows and not before they are complete;
  a serialiser that reads back what it
  wrote; version requirements whose text parses back; lossy text decoding; an arbitrary
  set of bits per bloom item. Clocks, sockets, timeouts and failures are events that may
  happen at any step.

| module | what it models |
|---|---|
| `CondVar`, `CondVarLedger` | condition variable: waker table, future, hand-over on drop; every run of it |
| `CondWait`, `SharedCondWait` | flag with a condition variable: one waiter and signaller, as task groups use it; any number of them, of which the former is a special case |
| `AsyncQueue` | bounded queue shared by producers and consumers |
| `TaskGroup` | spawn, callback, panic, self-removal and cancellation of tasks |
| `Codec`, `Framed` | codec contract, framed reader and writer, byte pipe between them |
| `LengthCodec`, `BytesCodec` | length-prefixed codec and the serialised messages on it; codec without framing |
| `StunAttrs`, `StunMessage`, `StunWire` | STUN (RFC 5389, sections 6 and 15): attributes, messages, client check, server reply; the bytes on the wire |
| `Keys`, `RoutingTable`, `Bloom` | XOR distance and bucket index, the table, protocol filters |
| `Closest`, `ClosestLimits`, `TableQueries` | the bounded nearest scan, what it leaves out, and the other queries |
| `LoopbackCaps` | the subnet caps when loopback addresses are counted |
| `Lookup`, `RateLimit` | what the lookup service stores and answers; token bucket per source address |
| `Handshake` | two-party version handshake and the streams opened after it |
| `ConnQueue`, `Admission`, `TearDown` | queue of pending connections; slots, pool and peer tasks; the pushes between removing a peer and telling its waiter |
| `Multiplex` | one direction of a connection from send queue to per-protocol receive queues |
| `Backoff` | exponential backoff with 64-bit overflow |
| `Prelude`, `Seqs`, `Bits`, `Net` | counting over maps and sequences, bitwise XOR, addresses |

## Where a stronger claim fails

- A queue consumer cancelled after its condvar future resolved but before it has the mutex
  again does not hand its signal on. `AsyncQueue.CancelAfterWakeupLosesIt` reaches a state
  at rest with an item and a sleeping consumer; `AsyncQueue.NoSleeperBesideWork` holds for
  all runs without that cancellation, and `AsyncQueue.WorkBesideSleeperIsLostSignals` bounds
  the damage in all runs by the number of such cancellations, a bound reached for every
  number up to the capacity (`AsyncQueue.LostSignalsStrandWork`).
- One `CondWait::signal` wakes one waiter although the flag lets all of them through:
  `SharedCondWait.OneSignalForMany` reaches, for every n, a state with the flag set, nothing
  under way and n - 1 waiters asleep. In every run the sleepers beside a set flag are those
  that slept when it was set less those woken and dropped since
  (`SharedCondWait.SleepersBesideFlag`).
- Framing is proved for every codec that keeps the contract for the messages sent.
  `BytesCodec` keeps it for none (`BytesCodec.NeverExact`); a reader over it keeps the bytes
  and their order (`BytesCodec.BytesComeThrough`).
- `LengthCodec` reads back everything it accepts exactly when its limit is below 2^32
  (`LengthCodec.SoundIffLimitFits`); its `encode` returns the length of the whole
  destination buffer, not of the frame (`LengthCodec.EncodeInto`).
- A STUN error code comes back exactly when it is below 800 (`StunAttrs.ErrorRoundTripIff`).
- `closest_entries` is not a global nearest set: `ClosestLimits.NotTheNearest` gives, for
  every local key, a table with the target itself stored, eligible, and not returned. The
  result holds every eligible entry exactly when the limit does not cut the scan and buckets
  0 and 31, unless primary, hold none (`ClosestLimits.CoversTableIff`). Without a cut it is
  the nearest entries exactly when bucket 0 is primary or none of its eligible entries is as
  near as a returned one (`ClosestLimits.NearestIff`). With a cut, what is left out of the
  visited buckets lies in no nearer bucket by index (`ClosestLimits.NearerBucketsFirst`), and
  what is left out above the primary bucket is farther than what is returned from other
  buckets (`ClosestLimits.OmittedAboveIsFarther`).
- Two `::1` do not compete while `::1` and `::2` do (`RoutingTable.LoopbackNeighbours`).
  Counting every primary address, the caps of a /24 or /64 hold after every history exactly
  when the subnet has no loopback address (`LoopbackCaps.FullCapsIff`).
- A removed peer's slot comes back only if its shutdown gets through the bounded queues
  first: `TearDown.CanTellIff` says exactly when it still can, and `TearDown.NeverTold` that
  a full queue nobody drains keeps the slot for good.
- The comment on the DISCONNECTED status says failures rise; the code raises them only for
  unreachable and unstable, and the model follows the code.
- Backoff overflows 64 bits exactly when no doubling of the base reaches the maximum inside
  64 bits (`Backoff.DelaysAreExactIff`).

## Model

| member | source | states |
|---|---|---|
| CondVar.Wakers.Insert | core/src/async_util/condvar.rs:205-210 | a new waiter gets an id nobody else has, and nothing else in the table moves |
| CondVar.Wakers.Remove | core/src/async_util/condvar.rs:212-215 | returns whether the id was there and whether it was signalled; the rest of the table stays |
| CondVar.Wakers.Wake | core/src/async_util/condvar.rs:218-231 | whatever the iteration order: a signal marks and wakes exactly one unsignalled waiter if there is one, a broadcast marks all and wakes each unsignalled one exactly once |
| CondVar.CondVarAwait.PollOnce | core/src/async_util/condvar.rs:127-170 | the first poll registers and gives up the guard; a later one is ready exactly when its entry has been taken |
| CondVar.CondVarAwait.Drop | core/src/async_util/condvar.rs:173-191 | the entry goes, and a signal it held goes to another unsignalled waiter if one exists |
| CondVar.WakesOneCounts | core/src/async_util/condvar.rs:218-231 | a signal moves one waiter from unsignalled to signalled, and has no effect exactly when there is none to move |
| CondVar.WakesAllCounts | core/src/async_util/condvar.rs:94-96 | a broadcast moves all waiters to signalled |
| CondVar.PollCounts | core/src/async_util/condvar.rs:127-170 | a poll adds its own entry or takes its own signal and disturbs nobody else's |
| CondVar.DropsCounts | core/src/async_util/condvar.rs:173-191 | dropping a signalled waiter keeps the number of signals in the table unless nobody is left to take it |
| CondVarLedger.LedgerHolds | core/src/async_util/condvar.rs:124-231 | in every run the keys are exactly the ids of live registered waits, one each, and wake-ups delivered = waits resolved + signals not yet noticed + signals expired |
| CondVarLedger.ExpiryOnlyWithoutWaiters | core/src/async_util/condvar.rs:173-191 | a signal expires exactly when its holder is dropped and no unsignalled waiter exists |
| CondVarLedger.ReadyIffSignalled | core/src/async_util/condvar.rs:127-170 | in every run a poll is ready exactly when the wait's own entry carries a signal: no spurious and no missed wake-up |
| CondVarLedger.EntriesAreLatest | core/src/async_util/condvar.rs:127-170 | in every run the entry of each sleeping wait holds the waker of the task that polled it last |
| CondVarLedger.WokenAreLatest | core/src/async_util/condvar.rs:154-231 | in every run whoever a signal, a broadcast or a dropped waiter wakes is the latest poller of a wait that the step has just signalled; a broadcast wakes the latest poller of every sleeping wait |
| AsyncQueue.Queue.PushLocked | core/src/async_util/async_queue.rs:44-52 | under the mutex: appends and signals one consumer when there is room, else registers a wait and changes nothing |
| AsyncQueue.Queue.RecvLocked | core/src/async_util/async_queue.rs:54-62 | under the mutex: takes the front and signals one producer when there is an item, else registers a wait |
| AsyncQueue.QueueHolds | core/src/async_util/async_queue.rs:44-62 | in every interleaving with cancellations anywhere: mutual exclusion, first in first out within the capacity, condvar keys are the registered calls, and an unsignalled sleeper implies that every move open to it is spoken for |
| AsyncQueue.PushedAreArguments | core/src/async_util/async_queue.rs:44-62 | in every run what has been pushed is the arguments of the push calls, each once, in the order in which they moved, and each receive took one item |
| AsyncQueue.NothingLost | core/src/async_util/condvar.rs:77-86 | without a cancellation between resolving and re-locking no signal is ever lost |
| AsyncQueue.NoSleeperBesideWork | core/src/async_util/async_queue.rs:44-62 | if cancellation never hits a call between resolving and re-locking, then at rest a sleeping consumer means an empty queue and a sleeping producer a full one |
| AsyncQueue.WorkBesideSleeperIsLostSignals | core/src/async_util/condvar.rs:77-86 | in every run, work beside a sleeper at rest is at most the number of calls cancelled between resolving and re-locking |
| AsyncQueue.LostSignalsStrandWork | core/src/async_util/condvar.rs:77-86 | for every capacity and every k up to it, a run with k such cancellations that ends at rest with k items beside a sleeping consumer |
| AsyncQueue.CancelAfterWakeupLosesIt | core/src/async_util/condvar.rs:83-85 | a run with such a cancellation that ends at rest with an item queued and a consumer asleep |
| CondWait.Kept | core/src/async_util/condwait.rs:46-59 | every step keeps: mutex held exactly while testing or registering, table holds the waiter alone, a returned waiter saw the flag, and after a completed signal the waiter does not sleep unnoticed |
| CondWait.StepIsShared | core/src/async_util/condwait.rs:46-59 | every step with one waiter and one signaller is a step of the flag shared by any number |
| SharedCondWait.WaitsHold | core/src/async_util/condwait.rs:46-70 | the same discipline in every run with any number of waits, signals, broadcasts and resets |
| SharedCondWait.NobodyOversleeps | core/src/async_util/condwait.rs:55-65 | after a completed broadcast nobody sleeps unnoticed until a reset; with signals, nobody once as many have completed as slept when the flag was set |
| SharedCondWait.SleepersBesideFlag | core/src/async_util/condwait.rs:46-70 | in every run, while the flag is set, the waiters asleep unnoticed are those asleep when it was set less those woken and dropped since |
| SharedCondWait.SignalLeavesOthersAsleep | core/src/async_util/condwait.rs:56-59 | with the flag set in any run, a completing signal leaves somebody asleep iff at least two of those that slept when it was set still did; a broadcast leaves nobody |
| SharedCondWait.OneSignalForMany | core/src/async_util/condwait.rs:46-59 | for every n, a run of n waiters and one signal that ends with the flag set, nothing under way and n - 1 waiters asleep |
| SharedCondWait.ReturnsOnlyWhenSet | core/src/async_util/condwait.rs:46-70 | a wait returns holding the mutex and gives it back, and some signal or broadcast before it set the flag with no reset since |
| TaskGroup.GroupHolds | core/src/async_util/task_group.rs:101-150 | invariant of every run of spawns, tasks, panics and cancels: spawn holds the map lock until inserted, each handler has one holder, each canceller has seen done what it let go |
| TaskGroup.CancelWaitsForAll | core/src/async_util/task_group.rs:144-150 | `cancel` has returned only if every task it drained has finished its callback or panicked |
| TaskGroup.CallbackOnce | core/src/async_util/task_group.rs:247-266 | in every run a callback runs at most once, exactly once if finished; it is told Completed iff the future was ready, and once called, Cancelled iff the wait for the stop signal returned, which a canceller had set |
| TaskGroup.CancelledIsTold | core/src/async_util/task_group.rs:247-287 | once `cancel` has returned, a task it drained whose future was never ready has had exactly one callback, told Cancelled, unless it panicked before any |
| TaskGroup.NobodyOversleeps | core/src/async_util/task_group.rs:281-287 | neither the canceller nor the task sleeps unnoticed on a flag whose signal has completed |
| TaskGroup.MapEmptiesItself | core/src/async_util/task_group.rs:178-210 | once all tasks have taken their last step, normally or by panic, the map holds none of them |
| TaskGroup.OneCancellerEach | core/src/async_util/task_group.rs:144-150 | no two cancel calls ever hold the same handler |
| TaskGroup.EveryStepLeadsOn | core/src/async_util/task_group.rs:178-266 | in every run each step of a task, apart from those on its flags, takes it further and nothing takes it back, so there are at most seven |
| TaskGroup.TaskKept | core/src/async_util/task_group.rs:196-266 | every step of a task keeps its invariant, including panic, guard and self-removal |
| TaskGroup.CancelKept | core/src/async_util/task_group.rs:281-287 | every step of a canceller on a handler keeps the task's invariant |
| TaskGroup.GroupKept | core/src/async_util/task_group.rs:101-150 | every step of the group keeps all of it |
| Codec.StableExactIff | net/src/framed.rs:112-142 | a stable codec keeps the framing contract for a message iff the frame decodes on its own |
| Codec.StableFits | net/src/framed.rs:112-142 | an item a stable codec finds lies inside the buffer, which is all a framed reader asks of a codec |
| Codec.PrefixNeedsMore | net/src/framed.rs:112-142 | for every codec whose answers are stable, a proper prefix of a frame decodes to nothing yet |
| Codec.ParseResumes | net/src/framed.rs:112-142 | parsing may stop anywhere and resume on the remaining bytes: same messages, same rest, same error |
| Codec.FramesParse | net/src/framed.rs:112-142 | frames sent back to back parse to their messages, whatever follows |
| Codec.PrefixParse | net/src/framed.rs:112-142 | under the contract, parsing any prefix of a stream of frames yields exactly the complete frames in it, and stops inside the next |
| Framed.Buffer.ExtendFromSlice | net/src/buffer.rs:40-42 | appends |
| Framed.Buffer.Advance | net/src/buffer.rs:50-52 | drops exactly the given number of bytes from the front |
| Framed.FramedReader.TryItem | net/src/framed.rs:113-122 | one decode: a message is taken off the buffer whole, anything else leaves it alone |
| Framed.FramedReader.Pull | net/src/framed.rs:119-142 | what one read leads to: end of stream, failure, a message, a rejection, or the need for another read |
| Framed.FramedReader.ReadLoop | net/src/framed.rs:119-142 | the loop over reads, with every byte read either in the message returned or still buffered |
| Framed.FramedReader.RecvMsg | net/src/framed.rs:112-142 | for any codec: yields the first message of buffer ++ chunks read, keeps the rest, loses no byte on failure or cancellation; over frames that keep the contract nothing is rejected and a close is clean exactly at a frame boundary |
| Framed.FramedWriter.SendMsg | net/src/framed.rs:188-203 | bytes written ++ buffer is always the concatenation of accepted frames, after partial writes, failures and dropped calls; exactly the bytes the stream took have gone out, and the result says which of its answers ended the call |
| Framed.FramedWriter.Flush | net/src/framed.rs:191-203 | the write loop moves to the stream, in order, exactly what each write takes, and ends at a flush, a write of nothing, a failure or an answer still missing |
| Framed.ReaderFollowsWriter | net/src/framed.rs:112-203 | a reader that received a front of what a writer wrote has yielded a front of the messages accepted, rejected nothing, and waits empty exactly at a frame boundary |
| Framed.FollowingIsOnTrack | net/src/framed.rs:112-142 | the same from the reader's invariant, for any messages whose frames start with what was received |
| Framed.ParsedIsOnTrack | net/src/framed.rs:112-142 | the same from the position of a one-shot parse |
| Framed.PipeHolds | net/src/framed.rs:112-203 | in every run of a writer and a reader over a byte pipe, with any codec, no byte is lost or invented and the reader follows what was sent |
| Framed.PipeParses | net/src/framed.rs:112-142 | in every run with a stable codec the reader is where a one-shot parse of everything received would be, even over bytes nobody framed |
| Framed.FramingIsExact | net/src/framed.rs:112-203 | for every codec that keeps the contract for the messages accepted, every chunking, partial write and cancellation: messages yielded are a prefix of those accepted, none is rejected, a waiting reader holds no bytes exactly at a frame boundary, and once all bytes are through all messages are |
| Framed.StableFramingIsExact | net/src/framed.rs:112-203 | for a stable codec it is enough that each frame decodes on its own |
| Framed.PipeExact | net/src/framed.rs:112-203 | the same for any state with the invariant |
| LengthCodec.EncodeInto | net/src/codec/length_codec.rs:37-52 | appends length and payload, or refuses and changes nothing; the returned number is the length of the whole buffer |
| LengthCodec.U32RoundTrip | net/src/codec/length_codec.rs:29-52 | a length comes back modulo 2^32 |
| LengthCodec.LittleEndian | net/src/codec/length_codec.rs:29-64 | byte i of the prefix is digit i of the length to base 256, the least significant first |
| LengthCodec.IsStable | net/src/codec/length_codec.rs:54-79 | a decoded message or error is not changed by bytes that arrive later |
| LengthCodec.FrameableIff | net/src/codec/length_codec.rs:37-79 | a payload comes back with its exact length, whatever follows, and keeps the contract iff it is within the limit and below 2^32 |
| LengthCodec.DecodesIff | net/src/codec/length_codec.rs:54-79 | refused iff the prefix exceeds the limit, incomplete iff bytes are missing, else the payload is the bytes behind the prefix, as many as it says |
| LengthCodec.SoundIffLimitFits | net/src/codec/length_codec.rs:15-52 | everything the codec accepts comes back iff its limit is below 2^32 |
| LengthCodec.SerialisedFrames | p2p/src/codec.rs:31-57 | the peer message codec keeps the contract for a message iff its serialised form reads back and fits |
| LengthCodec.SerialisedIsStable | p2p/src/codec.rs:44-56 | and its answers are stable |
| LengthCodec.SerialisedDecodes | p2p/src/codec.rs:44-56 | a complete frame is refused iff its payload does not read back; every other answer is that of the length codec |
| BytesCodec.ItemsFit | net/src/codec/bytes_codec.rs:40-55 | the codec without framing meets that demand |
| BytesCodec.RefusedIff | net/src/codec/bytes_codec.rs:28-55 | bytes beyond the limit are refused both ways, any others are the message |
| BytesCodec.NeverExact | net/src/codec/bytes_codec.rs:24-55 | the codec without framing keeps the contract for no message |
| BytesCodec.BytesComeThrough | net/src/codec/bytes_codec.rs:24-55 | a framed reader over it returns the received bytes in order, up to what is still buffered |
| StunAttrs.XorInPlace | stun/src/attrs.rs:90-112 | the loop over the octets is the bytewise XOR with the key |
| StunAttrs.XorAddressOf | stun/src/attrs.rs:90-112 | the address with port and octets XOR-ed, the octets in place |
| StunAttrs.XorMappedBytes | stun/src/attrs.rs:88-135 | in the bytes of XOR-MAPPED-ADDRESS the port differs from the address's in exactly the bits of 0x2112, and each octet in exactly those of the matching octet of 0x2112A442, for IPv6 followed by the transaction id |
| StunAttrs.XorMappedRead | stun/src/attrs.rs:88-151 | an address read from such bytes differs from them in exactly those bits |
| StunAttrs.FlippedOnce | stun/src/attrs.rs:88-112 | so the bytes determine the address |
| StunAttrs.XorAddressInvolutive | stun/src/attrs.rs:90-112 | applied twice with the same transaction id it is the identity, for both families |
| StunAttrs.AddressRoundTrip | stun/src/attrs.rs:115-151 | every address decodes to itself |
| StunAttrs.ErrorRoundTripIff | stun/src/attrs.rs:154-169 | an error value decodes to itself iff the code is below 800 and the reason is text |
| StunAttrs.AttrRoundTripIff | stun/src/attrs.rs:30-85 | an encodable attribute, whatever follows it, decodes to itself with its exact padded length iff it is text, an error below 800, an address, or an unknown type that is not a known one |
| StunAttrs.DecodeAttr | stun/src/attrs.rs:58-85 | consumes at least the header, no more than is there, and a multiple of four |
| StunAttrs.EncodeAttrInto | stun/src/attrs.rs:30-55 | appends type, length, value and zero padding, or refuses an oversized value and changes nothing |
| StunWire.AttrBytes | stun/src/attrs.rs:12-55 | an encoded attribute is its type, the length of its value, the value and zeros up to a multiple of four, with the type numbers of the standard |
| StunWire.AttrAcceptedIff | stun/src/attrs.rs:58-85 | an attribute is found iff all its padded bytes are there and its value is not refused |
| StunWire.ValueRefusedIff | stun/src/attrs.rs:68-85 | refused are exactly the address values that are no address and error values without a code |
| StunWire.AddressBytes | stun/src/attrs.rs:115-129 | an address value is a zero, the family, the port and the octets |
| StunWire.AddressAcceptedIff | stun/src/attrs.rs:132-151 | a value is an address iff it has the length of its family, and then it is the one in its bytes |
| StunWire.ErrorBytes | stun/src/attrs.rs:154-161 | an error value is two zeros, the hundreds, the rest of the code and the reason |
| StunMessage.EncodeMessage | stun/src/msg.rs:116-133 | the loop over the attributes produces the encoding, refusing an oversized attribute or body |
| StunMessage.Walk | stun/src/msg.rs:162-183 | the loop with an offset, over any attribute decoder that advances, yields exactly the items that tile the body, or nothing if one does not decode |
| StunMessage.DecodeBody | stun/src/msg.rs:162-183 | with the STUN attribute decoder, those are exactly the attributes of the body |
| StunMessage.DecodeMessage | stun/src/msg.rs:136-183 | header checks and body, with incomplete input told apart from bad input |
| StunWire.HeaderBytes | stun/src/msg.rs:116-133 | an encoded message is its type, the length of the body, the cookie, the transaction id and the attributes |
| StunWire.WaitsIff | stun/src/msg.rs:136-155 | more bytes are asked for iff the header is incomplete, or sound and the body incomplete |
| StunWire.AcceptedIff | stun/src/msg.rs:136-183 | bytes are a message iff header and type are sound and attributes tile the body, and then it is the message they spell |
| StunMessage.BodyRoundTripIff | stun/src/msg.rs:116-183 | an encoded attribute list tiles its body and decodes to itself iff each attribute does |
| StunMessage.FrameableIff | stun/src/msg.rs:116-183 | an encodable message decodes to itself with its exact length, whatever follows, and keeps the contract iff its attributes are sound |
| StunMessage.IsStable | stun/src/codec.rs:22-24 | a decoded message or error is not changed by appending bytes |
| StunMessage.PrefixIncomplete | stun/src/msg.rs:136-155 | every proper prefix of every encoding, sound or not, is reported incomplete |
| StunMessage.MappedAddressOf | stun/src/msg.rs:101-113 | the first XOR-mapped address, else the first mapped one |
| StunMessage.AnswerKind | stun/src/client.rs:216-238 | another transaction is a mismatch, a request is no response, and a response or an error is answered as such |
| StunMessage.ResponseAnswer | stun/src/client.rs:216-222 | a response to its own request is answered by its first XOR-mapped address, failing that the first plain one, failing that by none |
| StunMessage.ErrorAnswer | stun/src/client.rs:223-238 | an error response is reported with the code and reason of its first ERROR-CODE, or as one without iff there is none |
| StunMessage.ReplyEncodableIff | stun/src/server.rs:211-219 | the reply can be encoded iff address and software attribute fit a 16-bit body |
| StunMessage.ReplyAnswers | stun/src/server.rs:211-219 | the reply survives the wire and, as sent, answers its request with the source |
| StunMessage.DiscoveryIsCorrect | stun/src/client.rs:216-238 | for every request, source and text, the client's check of the decoded reply, in front of any bytes, returns exactly the source the server saw |
| StunMessage.OtherTransactionRejected | stun/src/client.rs:216-222 | a reply is a transaction mismatch iff it answers another transaction |
| StunMessage.StreamDiscovery | stun/src/client.rs:207-214 | over a stream with any chunking, each reply yielded answers its own request with its own source |
| Keys.XorDistance | p2p/src/discovery/kademlia/routing_table/entry.rs:68-74 | the loop computes the bytewise XOR |
| Keys.DistanceBits | p2p/src/discovery/kademlia/routing_table/entry.rs:68-74 | each octet of the distance has exactly the bits in which the two keys differ |
| Keys.DistanceZero | p2p/src/discovery/kademlia/routing_table/entry.rs:68-74 | the distance is all zeros iff the keys are equal |
| Keys.DistanceInjective | p2p/src/discovery/kademlia/routing_table/entry.rs:68-74 | keys at the same distance from a target are equal |
| Keys.LexIsNumeric | p2p/src/discovery/kademlia/routing_table/mod.rs:169-200 | comparing distances byte by byte is comparing them as numbers |
| Keys.BucketIndexIff | p2p/src/discovery/kademlia/routing_table/mod.rs:298-311 | a key's bucket is k iff 256^k <= distance < 256^(k+1) |
| Keys.NoBucketIff | p2p/src/discovery/kademlia/routing_table/mod.rs:298-311 | only the local key has no bucket |
| Keys.FindBucket | p2p/src/discovery/kademlia/routing_table/mod.rs:298-311 | the scan for the first non-zero byte finds that bucket |
| RoutingTable.Table.Insert | p2p/src/discovery/kademlia/routing_table/mod.rs:71-108 | the table after an addition and its report, as in the history the invariants are about |
| RoutingTable.Table.SetStatus | p2p/src/discovery/kademlia/routing_table/mod.rs:127-137 | the table after a status update |
| RoutingTable.Table.Delete | p2p/src/discovery/kademlia/routing_table/mod.rs:222-232 | the table after a removal: no bucket holds the key any more, and each holds exactly its other entries, unchanged and in order |
| RoutingTable.Table.Contains | p2p/src/discovery/kademlia/routing_table/mod.rs:111-124 | looking into one bucket agrees with searching the whole table |
| RoutingTable.Table.Place | p2p/src/discovery/kademlia/routing_table/mod.rs:71-108 | the branches in the code's order compute the addition and its report |
| RoutingTable.RemoveFrom | p2p/src/discovery/kademlia/routing_table/bucket.rs:97-102 | the first entry with the key goes, the others keep their order |
| RoutingTable.RemoveLeavesOthers | p2p/src/discovery/kademlia/routing_table/mod.rs:222-232 | after every history a removal leaves in each bucket exactly the entries with other keys, unchanged and in order |
| RoutingTable.RemovedIsGone | p2p/src/discovery/kademlia/routing_table/mod.rs:222-232 | so the key is stored nowhere, and everything else still is |
| RoutingTable.RemoveCounts | p2p/src/discovery/kademlia/routing_table/mod.rs:222-232 | the number of entries falls by one iff the key was stored |
| RoutingTable.UpdateIn | p2p/src/discovery/kademlia/routing_table/bucket.rs:115-126 | only the first entry with the key changes |
| RoutingTable.Find | p2p/src/discovery/kademlia/routing_table/bucket.rs:97-131 | the position of the first entry with the key, or none if no entry has it |
| RoutingTable.FindIncompatible | p2p/src/discovery/kademlia/routing_table/mod.rs:98-104 | the first incompatible entry, or none if there is none |
| RoutingTable.TableHolds | p2p/src/discovery/kademlia/routing_table/mod.rs:71-137 | after every history each entry is in the bucket of its distance, no bucket exceeds 20, and no key repeats in a bucket |
| RoutingTable.KeysUnique | p2p/src/discovery/kademlia/routing_table/mod.rs:71-137 | after every history a key is at one place in the whole table and the local key at none |
| RoutingTable.ContainsIffStored | p2p/src/discovery/kademlia/routing_table/mod.rs:111-124 | `contains_key` holds iff some bucket holds the key |
| RoutingTable.OnlyIncompatibleDisplaced | p2p/src/discovery/kademlia/routing_table/mod.rs:71-108 | an entry leaves only by removal, or displaced while incompatible from a full bucket by an entry added there |
| RoutingTable.AddReports | p2p/src/discovery/kademlia/routing_table/mod.rs:71-108 | Added means new and now stored, Exists means it was stored, and anything but Added leaves the table alone |
| RoutingTable.AddChanges | p2p/src/discovery/kademlia/routing_table/mod.rs:71-108 | an addition puts the new entry last in its bucket, pending and without failures, displaces the first incompatible entry of a full bucket, and changes nothing else |
| RoutingTable.AddTurnedDownIff | p2p/src/discovery/kademlia/routing_table/mod.rs:71-108 | refused iff new and a subnet cap is reached; ignored iff new, within the caps, and the bucket is full without an incompatible entry |
| RoutingTable.OwnKeyIgnored | p2p/src/discovery/kademlia/routing_table/mod.rs:71-76 | adding the local key changes nothing and is reported as ignored |
| RoutingTable.UpdateTouchesOne | p2p/src/discovery/kademlia/routing_table/bucket.rs:115-126 | after every history an update touches the one entry with that key, and its failures rise exactly for unreachable and unstable |
| RoutingTable.CountBoth | p2p/src/discovery/kademlia/routing_table/mod.rs:320-347 | the counting loop with early exits decides the plain test on whole counts, for any matching rule |
| RoutingTable.SubnetRestricted | p2p/src/discovery/kademlia/routing_table/mod.rs:320-347 | so the source's test is the plain one: a count in the bucket or in the table at its cap |
| RoutingTable.SubnetCaps | p2p/src/discovery/kademlia/routing_table/mod.rs:320-375 | after every history each non-loopback /24 or /64 has at most one primary address per bucket and six in the table |
| RoutingTable.LoopbackNeighbours | p2p/src/discovery/kademlia/routing_table/mod.rs:351-375 | two `::1` do not match while `::1` and `::2` do |
| LoopbackCaps.FullCapsIff | p2p/src/discovery/kademlia/routing_table/mod.rs:320-375 | counting every primary address, the caps of a subnet hold after every history iff the subnet has no loopback address |
| LoopbackCaps.CompetesIff | p2p/src/discovery/kademlia/routing_table/mod.rs:351-375 | two entries compete iff their primary addresses agree in the first 24 bits of IPv4 or 64 of IPv6 and are not both loopback |
| LoopbackCaps.RefusedIff | p2p/src/discovery/kademlia/routing_table/mod.rs:71-108 | after every history a new entry with a non-loopback address is refused iff its bucket has an entry of the same subnet or the table has six |
| LoopbackCaps.CrowdedBucket | p2p/src/discovery/kademlia/routing_table/mod.rs:370-375 | for every local key and loopback address, two additions that leave two entries with that address in one bucket |
| LoopbackCaps.HasLoopbackIff | p2p/src/discovery/kademlia/routing_table/mod.rs:370-375 | the subnets with a loopback address are those of 127.0.0.0/8 and ::/64 |
| Closest.FindIndexes | p2p/src/discovery/kademlia/routing_table/mod.rs:140-160 | the loop yields the ring order |
| Closest.VisitsOnce | p2p/src/discovery/kademlia/routing_table/mod.rs:140-160 | that order visits the primary bucket and each of 1 to 30 once, nearest index first and the lower of two equally near |
| Closest.Collect | p2p/src/discovery/kademlia/routing_table/mod.rs:169-193 | the nested loops with early exit collect the eligible entries in visiting order up to the limit |
| Closest.PickAt | p2p/src/discovery/kademlia/routing_table/mod.rs:176-190 | of each bucket the wanted entries are taken in their order, and no others |
| Closest.FindClosest | p2p/src/discovery/kademlia/routing_table/mod.rs:169-200 | collected and sorted by distance |
| Closest.SortSorted | p2p/src/discovery/kademlia/routing_table/mod.rs:194-200 | the result of sorting never decreases in distance |
| Closest.ClosestIsExact | p2p/src/discovery/kademlia/routing_table/mod.rs:140-200 | after every history: stored, usable, matching entries of visited buckets only, in strictly increasing distance, and either the limit is reached or none is missing |
| ClosestLimits.NotTheNearest | p2p/src/discovery/kademlia/routing_table/mod.rs:169-200 | for every local key, a table in which the target itself is stored and eligible but another entry is returned |
| ClosestLimits.CoversTableIff | p2p/src/discovery/kademlia/routing_table/mod.rs:140-200 | after every history the result holds every eligible entry of the table iff the limit does not cut the scan and neither bucket 0 nor bucket 31, unless primary, holds one |
| ClosestLimits.NearerBucketsFirst | p2p/src/discovery/kademlia/routing_table/mod.rs:140-193 | an eligible entry of a visited bucket that is left out lies in no bucket nearer by index than that of a returned one |
| ClosestLimits.NearestIff | p2p/src/discovery/kademlia/routing_table/mod.rs:140-200 | after every history, if the limit does not cut: everything returned is nearer than everything eligible left out iff bucket 0 is primary or everything returned is nearer than its eligible entries |
| ClosestLimits.NearestWhenUncut | p2p/src/discovery/kademlia/routing_table/mod.rs:140-200 | so in particular when bucket 0 is primary or holds nothing eligible |
| ClosestLimits.OmittedAboveIsFarther | p2p/src/discovery/kademlia/routing_table/mod.rs:140-200 | whatever the cut, an eligible entry left out of a bucket above the primary one is farther than every returned entry of another bucket |
| ClosestLimits.UpperBucketIsFarther | p2p/src/discovery/kademlia/routing_table/mod.rs:298-311 | keys of a bucket above the target's own are farther from the target than keys of any lower bucket |
| TableQueries.EntriesWithItem | p2p/src/discovery/kademlia/routing_table/mod.rs:205-219 | the nested loops collect the usable entries that may hold the item, in table order |
| TableQueries.ItemEntriesAre | p2p/src/discovery/kademlia/routing_table/mod.rs:205-219 | those are exactly the usable entries of the table whose filter may contain the item |
| TableQueries.SnapshotIsFound | p2p/src/discovery/kademlia/routing_table/mod.rs:205-219 | after every history a stored entry with a snapshot taken after advertising an item is in the result iff it is usable |
| TableQueries.ReturnedIs | p2p/src/discovery/kademlia/routing_table/mod.rs:169-193 | whatever the limit, what `closest_entries` returns is stored in a visited bucket, neither unreachable nor unstable, and matches the filter |
| TableQueries.MarkedIsHidden | p2p/src/discovery/kademlia/routing_table/mod.rs:169-219 | after every history, a peer just marked unreachable or unstable is in no answer to either query |
| TableQueries.UnmarkedIsOffered | p2p/src/discovery/kademlia/routing_table/mod.rs:169-219 | in any other status it is in every answer its filter, its bucket and the limit allow |
| TableQueries.RandomEntry | p2p/src/discovery/kademlia/routing_table/mod.rs:276-295 | a stored entry with the status and a matching filter; none only if no entry has both |
| TableQueries.CompatibleEntryIsWanted | p2p/src/discovery/kademlia/routing_table/mod.rs:276-295 | the entry of a peer that advertises everything required and something preferred always qualifies |
| TableQueries.CompatiblePeerIsOffered | p2p/src/discovery/kademlia/routing_table/mod.rs:276-295 | while such an entry is stored with the wanted status, a random choice never comes back empty |
| Bloom.BloomRef.Add | p2p/src/discovery/kademlia/bloom.rs:87-100 | the filters become those of the longer history; empty flags change nothing |
| Bloom.BloomRef.Snapshot | p2p/src/discovery/kademlia/bloom.rs:103-105 | the filters of the whole history |
| Bloom.AdvertisedIsFound | p2p/src/discovery/kademlia/bloom.rs:19-28 | an advertised item is never reported missing, whatever else is advertised |
| Bloom.FiltersAre | p2p/src/discovery/kademlia/bloom.rs:87-100 | after every history each of the three filters has exactly the bits of its own items |
| Bloom.MaskBits | p2p/src/discovery/kademlia/bloom.rs:112-119 | an item sets the bits named by the low seven bits of each half of its hash |
| Bloom.RequiredIffAll | p2p/src/discovery/kademlia/bloom.rs:60-70 | a peer's filter covers the required filter iff it may contain every required item |
| Bloom.PreferredHolds | p2p/src/discovery/kademlia/bloom.rs:87-100 | the preferred filter holds every preferred item and is empty iff there is none |
| Bloom.CompatiblePeerMatches | p2p/src/discovery/kademlia/bloom.rs:60-70 | a peer advertising all required items and, if any are preferred, one of those always matches |
| Bloom.MatchesIff | p2p/src/discovery/kademlia/bloom.rs:60-70 | a peer matches iff it may have every required item and, where any is preferred, shares a bit with one |
| Bloom.MatchMeansRequired | p2p/src/discovery/kademlia/bloom.rs:60-70 | a match implies that every required item may be there |
| RateLimit.RateBucket.Allow | p2p/src/discovery/kademlia/refresh.rs:60-72 | refill up to the capacity, then take a token if there is a whole one |
| RateLimit.Limiter.Check | p2p/src/discovery/kademlia/refresh.rs:296-303 | decides each ping by the history of its own address alone |
| RateLimit.TokensBounded | p2p/src/discovery/kademlia/refresh.rs:60-72 | tokens stay between 0 and 5 in every run with a clock that does not run backwards |
| RateLimit.RateBound | p2p/src/discovery/kademlia/refresh.rs:60-72 | in every run, for every address, at most 5 + T/2 pings are let through in any stretch of T seconds |
| RateLimit.BurstOfFive | p2p/src/discovery/kademlia/refresh.rs:51-57 | five at once are let through |
| RateLimit.BoundIsReached | p2p/src/discovery/kademlia/refresh.rs:51-72 | for every n, 5 + n pings of one address let through in 2n seconds, so the bound is exact |
| RateLimit.SlowSourceNeverRefused | p2p/src/discovery/kademlia/refresh.rs:60-72 | a ping two seconds or more after the source's others is let through |
| RateLimit.RefusedPingIsFree | p2p/src/discovery/kademlia/refresh.rs:60-72 | a refused ping leaves its source, at any later time, the tokens it would have without it |
| Lookup.AcceptPeers | p2p/src/discovery/kademlia/lookup.rs:300-312 | what is kept of a Peers message: at most ten, all sound; refused if too long or if one peer is |
| Lookup.AcceptIff | p2p/src/discovery/kademlia/lookup.rs:300-312 | a Peers message is refused iff it has more than ten peers or a refused one; otherwise every peer left with an address is kept |
| Lookup.RefusedIff | p2p/src/discovery/kademlia/lookup.rs:503-519 | a peer is refused iff it has more than four addresses or more than three discovery addresses besides TLS; otherwise only the TLS ones go |
| Lookup.SoundIffUnchanged | p2p/src/discovery/kademlia/lookup.rs:497-519 | a peer passes validation unchanged and is reachable iff it has at most 4 addresses, at most 3 discovery addresses, none TLS, and some address |
| Lookup.TopUp | p2p/src/discovery/kademlia/lookup.rs:172-177 | the buffer is filled to ten from the end of the random peers |
| Lookup.ToppedUpIs | p2p/src/discovery/kademlia/lookup.rs:172-177 | all own peers first, then the random ones from the last backwards until there are ten or none is left |
| Lookup.FreshIs | p2p/src/discovery/kademlia/lookup.rs:197-222 | a random search adds exactly the peers that are neither this node nor stored, each once |
| Lookup.RandomPeersAre | p2p/src/discovery/kademlia/lookup.rs:147-222 | one refused answer fails the random searches; otherwise they found exactly the peers so added from their answers |
| Lookup.OwnPeersAre | p2p/src/discovery/kademlia/lookup.rs:225-249 | the searches for the own key found the peers of all accepted answers |
| Lookup.FoundIs | p2p/src/discovery/kademlia/lookup.rs:147-195 | the peers found are the own ones topped up, and each is added as it was found |
| Lookup.ReceivedIs | p2p/src/discovery/kademlia/lookup.rs:355-386 | a received peer is added, with its addresses in their places, iff it is not refused and keeps an address |
| Lookup.FoundSound | p2p/src/discovery/kademlia/lookup.rs:147-249 | everything a lookup adds is sound, whatever was answered |
| Lookup.DroppedIsGone | p2p/src/discovery/kademlia/refresh.rs:170-210 | in every history a peer that is dropped is stored nowhere any more |
| Lookup.StatusIsSet | p2p/src/discovery/kademlia/routing_table/mod.rs:127-137 | in every history a status change gives a stored peer that status and leaves its entry |
| Lookup.StoredIsSound | p2p/src/discovery/kademlia/lookup.rs:179-386 | in every history of received peers, lookups, status changes and removals every stored entry is sound |
| Lookup.ReplyIsAccepted | p2p/src/discovery/kademlia/lookup.rs:427-437 | in every history the answer to every FindPeer is the ten closest entries, field by field, and passes the receiver's checks unchanged |
| Handshake.ProtocolsIntersection | p2p/src/handshake.rs:197-210 | in any iteration order: exactly the protocols both sides have whose requirement parses and whose versions accept each other, each once |
| Handshake.ValidateVersion | p2p/src/handshake.rs:147-181 | version, identity, common and required protocols, checked in that order |
| Handshake.Perform | p2p/src/handshake.rs:77-109 | what one side sends, and that it succeeds iff it accepted the announcement and the same identity acknowledged; whatever arrives, the identity is the one the transport proved |
| Handshake.MatchIsSymmetric | p2p/src/handshake.rs:214-219 | both sides judge a pair of versions alike: a match iff each side's requirement accepts the other's version |
| Handshake.SharedIsSymmetric | p2p/src/handshake.rs:197-210 | both sides compute the protocols both have in versions that accept each other |
| Handshake.VerdictIs | p2p/src/handshake.rs:147-181 | incompatible version iff one side does not accept the other's; accepted iff also the identity is the verified one and the common protocols hold all that is required |
| Handshake.HandshakeHolds | p2p/src/handshake.rs:77-109 | in every run with timeouts and failures anywhere, what each side has written follows from its verdict on the other's announcement |
| Handshake.SideKept | p2p/src/handshake.rs:77-109 | every write, read, timeout or failure of one side keeps both sides' invariants |
| Handshake.Agreement | p2p/src/handshake.rs:77-193 | as soon as one side finishes, each side accepts the other's version, the other's validation has passed, both hold exactly the protocols both have in mutually accepted versions, those include everything required, and identities proved by the transport are the announced ones |
| Handshake.FinishesIffCompatible | p2p/src/handshake.rs:77-219 | both sides can finish iff each accepts the other's version, identities agree, and the protocols both have in mutually accepted versions are not empty and hold everything required |
| Handshake.OpenStreams | p2p/src/peer/connection.rs:366-393 | one stream per negotiated protocol, in any order |
| Handshake.AcceptStreams | p2p/src/peer/connection.rs:394-427 | accepts the first arrivals, as many as negotiated, iff each names a negotiated protocol |
| Handshake.OneStreamEachIff | p2p/src/peer/connection.rs:394-427 | those are one stream per protocol iff they name distinct protocols |
| Handshake.StreamsMatch | p2p/src/peer/connection.rs:354-431 | after a handshake both sides finished, the streams one side opens are accepted by the other in every arrival order, one per protocol |
| ConnQueue.NoConnectionStranded | p2p/src/conn_queue.rs:73-126 | in every run connections are taken in push order, once each, and the pool never sleeps unnoticed beside one whose push has signalled |
| ConnQueue.TakenInOrder | p2p/src/conn_queue.rs:73-126 | the k-th connection taken is the k-th one pushed |
| ConnQueue.QueueHolds | p2p/src/conn_queue.rs:73-126 | the invariant behind it |
| Admission.AdmissionHolds | p2p/src/peer_pool.rs:235-367 | invariant of every run before shutdown: permits conserved, and each connection is where queue, loop, map or peer task says |
| Admission.SlotsBoundPeers | p2p/src/listener.rs:348-412 | free permits + held permits = configured slots, and peers of a direction + free permits never exceed its slots |
| Admission.PeersOwnPermits | p2p/src/peer_pool.rs:305-344 | every peer in the map has a connection task of its own that still holds its permit |
| Admission.SlotsKept | p2p/src/connector.rs:103-261 | every step of accepting, dialling, queueing, admitting and closing conserves the permits |
| Admission.InvKept | p2p/src/peer_pool.rs:235-367 | every step keeps each connection accounted for |
| Admission.NoConnectionForgotten | p2p/src/peer_pool.rs:235-302 | every connection taken from the queue is being admitted, a peer, being torn down by its own task, or its waiter was told; until told it holds its slot |
| Admission.PeersWereLetIn | p2p/src/peer_pool.rs:235-344 | in every run whoever is in the map has the identity of its own handshake, was let in by the gate under it and was built; a refused identity never enters |
| Admission.RejectedForAReason | p2p/src/peer_pool.rs:235-344 | in every run a connection closed without having been a peer failed its handshake, was refused at the gate, had an identity already in the map, or could not be built |
| Admission.DealtWithInOrder | p2p/src/peer_pool.rs:235-302 | in every run connections are dealt with in the order in which they were queued |
| Admission.EveryStepLeadsOn | p2p/src/peer_pool.rs:235-367 | in every run each step takes its connection further and none takes any back, so a connection is the subject of at most 19 steps |
| Admission.RemovalIsOwn | p2p/src/peer_pool.rs:347-367 | a peer's task removes exactly its own entry, never a later connection of the same identity |
| Admission.ReleasedOnlyWhenTold | p2p/src/conn_queue.rs:73-81 | a slot is given back only for a connection never queued or told closed, never for a peer in the map |
| TearDown.CanTellIff | p2p/src/peer/mod.rs:148-157 | a shutdown under way can still tell the waiter iff every queue it has yet to push on has room or somebody who drains it |
| TearDown.ShutdownCanTellIff | p2p/src/peer/connection.rs:118-123 | the same when a shutdown starts, in terms of the queue levels, the writer task and the protocols |
| TearDown.NeverTold | p2p/src/peer/connection.rs:118-123 | once a queue to come is full and undrained the waiter is told in no continuation |
| Multiplex.MultiplexHolds | p2p/src/peer/connection.rs:216-296 | invariant of every run from shared send queue through framing to the receive queues |
| Multiplex.OrderKept | p2p/src/peer/connection.rs:101-116 | what a protocol has popped is a prefix, in order, of what was sent for it before the first message that ends the reader |
| Multiplex.SentAre | p2p/src/peer/connection.rs:101-116 | what counts as sent is what the send calls passed, in order |
| Multiplex.HandOversCount | p2p/src/peer/connection.rs:216-296 | in every run each hand-over passes on exactly one message: off the send queue, into the pipe, out of it |
| Multiplex.UntilStopIs | p2p/src/peer/connection.rs:248-290 | the part before the message that ends the reader is the longest front of messages of negotiated protocols |
| Multiplex.ReaderStopsIff | p2p/src/peer/connection.rs:248-290 | in every run a message ends the reader iff it is not of a negotiated protocol; else it goes to its own protocol |
| Multiplex.ShutdownsArrive | p2p/src/peer/connection.rs:118-123 | in every run each protocol's queue has been given one shutdown event for each time the shutdown reached it |
| Multiplex.NothingLeftBehind | p2p/src/peer/connection.rs:237-296 | when nothing is under way every protocol has received exactly what was sent for it |
| Multiplex.ConnectionCodecIsSound | p2p/src/codec.rs:31-57 | the connection's codec keeps the framing contract for everything it encodes if its serialiser reads back what it writes |
| Backoff.Backoff.Sleep | core/src/async_util/backoff.rs:58-76 | returns the delay of that call number since new or reset, or overflows |
| Backoff.Backoff.Reset | core/src/async_util/backoff.rs:79-82 | the next call is call number 0 again |
| Backoff.ClosedForm | core/src/async_util/backoff.rs:58-76 | the n-th delay, if nothing overflows, is min(base * 2^n, max) |
| Backoff.DelaysAreExactIff | core/src/async_util/backoff.rs:58-76 | it is that for every n iff some doubling of the base reaches the maximum within 64 bits; otherwise an overflow happens within 65 calls |
| Backoff.HalfRangeIsSafe | core/src/async_util/backoff.rs:58-76 | a positive base and a maximum up to 2^63 are always within the condition |

## Left out

- Sockets, TLS, QUIC, WebSocket and HTTP transports: foreign libraries; a stream is chunks and an end.
- Ed25519, X.509, SHA-256, SipHash, bincode, semver and serde_json: parameters with the law that is used.
- JSON-RPC client, server and macros; the SOCKS5 handshake; the event emitter, monitor, configuration and endpoint parsing: dispatch or straight-line code that would only add easy members.
- Swarm membership maps: their agreement rests on methods that do not interleave, which the code does not enforce.
- Progress that needs fairness or clocks: that a woken task is polled, that pings keep a peer alive, that a refresh reaches every entry.
- States after node shutdown starts, panics in connection tasks, and the order of Added and Removed events, for the admission theorems.
- Dropping a `TaskGroup` or a `cancel()` future, and `TaskGroup::remove` by a caller: the runs of the model have neither.
- `TaskGroup`, `Admission`, `ConnQueue`, `Multiplex`: update in place is modelled on values, one state per step; the methods they are made of are not classes here.
- The QUIC path's per-stream readers and writers: the single-pipe path with one protocol per stream.
- The length header in front of a QUIC stream's protocol name, the retry loop of `connect_internal`, and `advertised_addr`: easy members.
- `has_discovery_ip`, `refresh_candidates` and the refresh round: scans and retries that would only add easy members.
- Wrap-around of task ids, waiter ids, failure counters and the retry counter: unbounded here.
- RateLimit.RateBound: tokens and times are reals, so rounding of 64-bit floats is not modelled.
- Backoff.Backoff.Sleep: calls one at a time; two calls racing on the two atomics are not modelled.
- Flow information and scope ids of IPv6 socket addresses: not sent on the wire and not modelled.
