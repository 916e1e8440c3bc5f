# UDP transport fragmentation and reassembly (ockam)

This project models the part of ockam's UDP transport that splits and rebuilds messages.
A routed message is first CBOR-encoded. The encoding is then cut into datagram-sized fragments.
Every fragment is tagged with:
- a 16-bit routing number;
- its offset;
- the total fragment count.

The receiver rebuilds the message per peer in a sliding window of five routing numbers. Fragments may arrive in any order, may be duplicated, and nothing is retransmitted.

The model has four parts, one per source file:

- **`RoutingNumbers`** (`routing_number.rs`). The routing number is a value, with wrapping `+=`, `+`, `-` and `increment`. Its circular order `cmp` is proved to mean: "`a < b` exactly when `b` is 1 to 32768 steps ahead of `a`".
- **`TransportMessagesIterators`** (`transport_messages_iterator.rs`). This is the fragmenter.
  - `New` performs the size checks and computes `total = len / P + 1`.
  - The class `TransportMessagesIterator` keeps the `offset` cursor. `Next` advances it and is proved against the specification function `Fragments`.
  - The lemmas prove three things:
    - the byte range each fragment covers;
    - that the final fragment is empty exactly when the length is a multiple of `P`;
    - that the payloads concatenated in order give back the data.
- **`PendingMessages`** (`pending_message.rs`). This is the reassembler of one routing number.
  - The class `PendingMessage` has the source's fields: missing offsets, buffer, and held final part.
  - Each of its methods is proved against a pure function on the value `Reassembly`:
    - the constructor against `NewReassembly`;
    - `AddTransportMessageAndTryAssemble` against the transition `Assemble`;
    - `MergeLastPartIfNeeded` against `MergeLastPart`;
    - `DropMessage` against the old state with the buffer emptied.
  - `PendingMessageState` and `Take` model the slot states and `take`.
  - **`ReassemblyRoundTrip`** proves the round trip. Feed a fresh reassembler every fragment the iterator yields, in any order. It returns nothing until the last fragment, and then returns exactly the data.
- **`Windows`, `WindowProperties` and `PeerPendingRoutingMessageStorages`** (`peer_pending_routing_message_storage.rs`). This is the per-peer window.
  - `Window` is the value of the storage: the oldest number, five slots, and the buffer pool.
  - `WindowAbsorb` is the transition one fragment makes: the late-drop check, the shift with eviction and buffer recycling, and slot dispatch with decoding.
  - `WindowProperties` proves the window invariant and the shift arithmetic. It also proves concrete scenarios of our own and the round trip through a fresh window. The scenarios are: the first of two fragments; an eviction, with oldest 100 and then message 106; a late drop, with oldest 200 and message 150; and a used-up tombstone.
  - The class `PeerPendingRoutingMessageStorage` keeps the fixed array of slots, the buffer queue and the oldest number. It updates them in place as the source does. Each method is proved to change `Abs()` (the window it holds) exactly as the matching step of `WindowAbsorb` says.

Constants and foreign calls enter as parameters:
- `MAX_PAYLOAD_SIZE` and `CURRENT_VERSION` come from the `messages` module, which is not part of this model. They enter as the record `MessageConstants`, with a positive payload size.
- The CBOR encoder of the whole message enters `New` as an already encoded `Option` (None when encoding failed).
- The per-fragment encoder enters `Next` as a predicate saying whether encoding succeeds.
- The CBOR decoder of a reassembled message enters as a function `decode: seq<byte> -> Option<Msg>`.

A delivered message leaves its slot `FullyHandled`, a tombstone for that routing number (`peer_pending_routing_message_storage.rs:138`). A later fragment for it reaches the `FullyHandled` arm ("Already send out.", lines 122-125) and returns None. By then `take()` at line 109 has already reset the slot to `NotReceived`, and the early return does not put the tombstone back. So the first duplicate uses the tombstone up, and a later copy of a one-fragment message is decoded and delivered again. The model keeps this behaviour, and `WindowProperties.TombstoneUsedUp` states it.

## Model

| member | source | states |
|---|---|---|
| RoutingNumbers.New | implementations/rust/ockam/ockam_transport_udp/src/messages/routing_number.rs:27-29 | the routing number holds exactly the given value |
| RoutingNumbers.OverflowingAdd | implementations/rust/ockam/ockam_transport_udp/src/messages/routing_number.rs:48 | the sum modulo 2^16, with the flag set exactly when the true sum reaches 2^16, which is when the wrapped sum is below `a` |
| RoutingNumbers.WrappingAdd | implementations/rust/ockam/ockam_transport_udp/src/messages/routing_number.rs:69 | `wrapping_add` is the sum modulo 2^16 |
| RoutingNumbers.WrappingSub | implementations/rust/ockam/ockam_transport_udp/src/messages/routing_number.rs:87 | `wrapping_sub` is the difference modulo 2^16, never negative |
| RoutingNumbers.Cmp | implementations/rust/ockam/ockam_transport_udp/src/messages/routing_number.rs:42-65 | Equal exactly on equal numbers; Less exactly when `other` is 1 to 32768 steps ahead of `self`; Greater exactly when it is more than 32768 steps ahead |
| RoutingNumbers.Lt | implementations/rust/ockam/ockam_transport_udp/src/messages/routing_number.rs:36-40 | `a < b` via `partial_cmp`: `a != b` and `b` is 1 to 32768 steps ahead of `a` |
| RoutingNumbers.Gt | implementations/rust/ockam/ockam_transport_udp/src/messages/routing_number.rs:36-40 | `a > b` via `partial_cmp`: `a != b` and `b` is more than 32768 steps ahead of `a` |
| RoutingNumbers.AddAssign | implementations/rust/ockam/ockam_transport_udp/src/messages/routing_number.rs:67-71 | after `n += rhs` the new number lies exactly `rhs` steps ahead of `n` |
| RoutingNumbers.Add | implementations/rust/ockam/ockam_transport_udp/src/messages/routing_number.rs:73-81 | the raw `u16` of `n + rhs` lies exactly `rhs` steps ahead of `n` |
| RoutingNumbers.Sub | implementations/rust/ockam/ockam_transport_udp/src/messages/routing_number.rs:83-89 | the difference is the step count that, added to `rhs`, gives `self` |
| RoutingNumbers.Increment | implementations/rust/ockam/ockam_transport_udp/src/messages/routing_number.rs:31-33 | increment adds one, and `u16::MAX` wraps to 0 |
| RoutingNumbers.SubAfterAdd | implementations/rust/ockam/ockam_transport_udp/src/messages/routing_number.rs:73-89 | `(a + k) - a == k` for every `k: u16` |
| RoutingNumbers.AddAfterSub | implementations/rust/ockam/ockam_transport_udp/src/messages/routing_number.rs:73-89 | `b + (a - b) == a` |
| RoutingNumbers.SubIsDistance | implementations/rust/ockam/ockam_transport_udp/src/messages/routing_number.rs:83-89 | `a - b` is how far `a` lies ahead of `b` |
| RoutingNumbers.AddAssignTwice | implementations/rust/ockam/ockam_transport_udp/src/messages/routing_number.rs:67-71 | adding `j` then `k` is adding `j + k` modulo 2^16 |
| RoutingNumbers.CmpAntisymmetric | implementations/rust/ockam/ockam_transport_udp/src/messages/routing_number.rs:42-65 | away from distance 32768, `a < b` exactly when `b > a` |
| RoutingNumbers.HalfwayBothLess | implementations/rust/ockam/ockam_transport_udp/src/messages/routing_number.rs:48-63 | at distance exactly 32768 both `a < b` and `b < a` hold |
| RoutingNumbers.CmpFollowsEmissionOrder | implementations/rust/ockam/ockam_transport_udp/src/messages/routing_number.rs:42-65 | a number 1 to 32767 steps later is greater, and the earlier one is less |
| RoutingNumbers.ComparisonExamples | implementations/rust/ockam/ockam_transport_udp/src/messages/routing_number.rs:115-127 | `5 < 6`, `6 > 5`, `5 == 5`, `u16::MAX < 0`, `u16::MAX > u16::MAX - 1`, `0 > u16::MAX` |
| RoutingNumbers.IncrementOverflow | implementations/rust/ockam/ockam_transport_udp/src/messages/routing_number.rs:108-113 | incrementing `u16::MAX` gives 0 |
| TransportMessagesIterators.FragmentCount | implementations/rust/ockam/ockam_transport_udp/src/workers/pending_messages/transport_messages_iterator.rs:25-33 | fails with MessageLengthExceeded exactly when the length is above 16 MiB or `len / P + 1` exceeds `u16::MAX`; otherwise gives the block count `t >= 1` with `(t-1)·P <= len < t·P` |
| TransportMessagesIterators.PartEnd | implementations/rust/ockam/ockam_transport_udp/src/workers/pending_messages/transport_messages_iterator.rs:52-57 | a fragment ends within the data, at or after its start, and a non-final one ends exactly one block after its start |
| TransportMessagesIterators.Fragment | implementations/rust/ockam/ockam_transport_udp/src/workers/pending_messages/transport_messages_iterator.rs:59-65 | every fragment carries the current version, the iterator's routing number, its own offset and the common total |
| TransportMessagesIterators.Fragments | implementations/rust/ockam/ockam_transport_udp/src/workers/pending_messages/transport_messages_iterator.rs:47-81 | exactly `total` fragments, the `i`-th being fragment `i` |
| TransportMessagesIterators.FragmentPayload | implementations/rust/ockam/ockam_transport_udp/src/workers/pending_messages/transport_messages_iterator.rs:52-57 | a non-final fragment `i` carries exactly `data[i·P .. (i+1)·P]`; the final one carries `data[(total-1)·P ..]`, which is `len % P` bytes |
| TransportMessagesIterators.LastFragmentEmptyIffMultiple | implementations/rust/ockam/ockam_transport_udp/src/workers/pending_messages/transport_messages_iterator.rs:52-57 | the final fragment is empty exactly when the length is a multiple of `P` |
| TransportMessagesIterators.PayloadsPrefix | implementations/rust/ockam/ockam_transport_udp/src/workers/pending_messages/transport_messages_iterator.rs:52-65 | the first `k` fragments carry exactly the first `k` blocks of the data |
| TransportMessagesIterators.PayloadsReassemble | implementations/rust/ockam/ockam_transport_udp/src/workers/pending_messages/transport_messages_iterator.rs:52-65 | concatenating all payloads in offset order gives back exactly the data |
| TransportMessagesIterators.TransportMessagesIterator.constructor | implementations/rust/ockam/ockam_transport_udp/src/workers/pending_messages/transport_messages_iterator.rs:35-40 | the cursor starts at 0 and every fragment is still to come |
| TransportMessagesIterators.TransportMessagesIterator.New | implementations/rust/ockam/ockam_transport_udp/src/workers/pending_messages/transport_messages_iterator.rs:17-41 | an encoder failure is returned as an error; otherwise it fails with MessageLengthExceeded exactly when `FragmentCount` fails; on success a new iterator over the encoding, with the given routing number, the computed total and the cursor at 0 |
| TransportMessagesIterators.TransportMessagesIterator.Next | implementations/rust/ockam/ockam_transport_udp/src/workers/pending_messages/transport_messages_iterator.rs:47-81 | None once `offset == total`; otherwise the next fragment of the remaining sequence. If it encodes, it is returned and the remaining sequence loses its head; if not, an error is returned and the cursor stays |
| PendingMessages.PartsBelow | implementations/rust/ockam/ockam_transport_udp/src/workers/pending_messages/pending_message.rs:19-21 | the set holds exactly the offsets below `n`, so it has `n` elements |
| PendingMessages.Resize | implementations/rust/ockam/ockam_transport_udp/src/workers/pending_messages/pending_message.rs:42 | `resize(n, 0)` gives length `n`: old bytes below the old length, zeros after |
| PendingMessages.CopyFromSlice | implementations/rust/ockam/ockam_transport_udp/src/workers/pending_messages/pending_message.rs:90-91 | the source bytes land at `[begin, begin + len)` and every other byte is kept |
| PendingMessages.Place | implementations/rust/ockam/ockam_transport_udp/src/workers/pending_messages/pending_message.rs:72-91 | a non-final part lands at `[begin, begin + len)`; the buffer grows only when shorter than that end, with zeros; every other byte is unchanged |
| PendingMessages.MergeLastPart | implementations/rust/ockam/ockam_transport_udp/src/workers/pending_messages/pending_message.rs:32-45 | the held final part, if any, is appended to the buffer and no longer held; nothing else changes |
| PendingMessages.TryComplete | implementations/rust/ockam/ockam_transport_udp/src/workers/pending_messages/pending_message.rs:101-108 | gives a result exactly when no offset is missing, and that result is the merged buffer |
| PendingMessages.Assemble | implementations/rust/ockam/ockam_transport_udp/src/workers/pending_messages/pending_message.rs:47-109 | another total, an offset out of range or a duplicate offset: None and no change. Otherwise the offset is crossed off; a non-final part is placed at `offset·len` and a held final part stays held while the message is incomplete; the final part is held; the duplicate-final branch only crosses the offset off; the result is `Some(buffer ++ final part)` exactly when the last missing offset arrives |
| PendingMessages.NewReassemblyValid | implementations/rust/ockam/ockam_transport_udp/src/workers/pending_messages/pending_message.rs:16-30 | a new reassembler misses exactly the offsets below `total`, holds the given buffer and satisfies the invariant |
| PendingMessages.AssemblePreservesValid | implementations/rust/ockam/ockam_transport_udp/src/workers/pending_messages/pending_message.rs:47-109 | every fragment keeps the invariant: missing offsets in range, and a held final part means that offset was crossed off while another is still missing |
| PendingMessages.DuplicateLastPartUnreachable | implementations/rust/ockam/ockam_transport_udp/src/workers/pending_messages/pending_message.rs:94-96 | under the invariant, an accepted final fragment never finds a final part already held, so this branch never fires |
| PendingMessages.DuplicateIgnored | implementations/rust/ockam/ockam_transport_udp/src/workers/pending_messages/pending_message.rs:64-70 | a fragment fed a second time gives None and changes nothing |
| PendingMessages.PendingMessage.constructor | implementations/rust/ockam/ockam_transport_udp/src/workers/pending_messages/pending_message.rs:16-30 | the loop leaves exactly offsets `0 .. total-1` missing, the given buffer and no final part |
| PendingMessages.PendingMessage.MergeLastPartIfNeeded | implementations/rust/ockam/ockam_transport_udp/src/workers/pending_messages/pending_message.rs:32-45 | the fields change exactly as `MergeLastPart` says |
| PendingMessages.PendingMessage.AddTransportMessageAndTryAssemble | implementations/rust/ockam/ockam_transport_udp/src/workers/pending_messages/pending_message.rs:47-109 | the fields and the result are exactly those of `Assemble` on the old state |
| PendingMessages.PendingMessage.DropMessage | implementations/rust/ockam/ockam_transport_udp/src/workers/pending_messages/pending_message.rs:111-114 | the returned buffer is empty; only the buffer field changes |
| PendingMessages.Take | implementations/rust/ockam/ockam_transport_udp/src/workers/pending_messages/pending_message.rs:129-132 | returns the slot's old state, leaves NotReceived in it, and changes no other slot |
| ReassemblyRoundTrip.FeedPrefix | implementations/rust/ockam/ockam_transport_udp/src/workers/pending_messages/pending_message.rs:72-106 | before the last fragment of any arrival order, nothing is returned; every non-final block received is in place, and the final part is held once it has come |
| ReassemblyRoundTrip.NoEarlyResult | implementations/rust/ockam/ockam_transport_udp/src/workers/pending_messages/pending_message.rs:101-108 | no proper prefix of any arrival order completes the message |
| ReassemblyRoundTrip.ReassembleAnyOrder | implementations/rust/ockam/ockam_transport_udp/src/workers/pending_messages/pending_message.rs:72-106 | every fragment of `data`, fed once in any order into a reassembler on an empty buffer, gives `Some(data)` on the last and None before |
| ReassemblyRoundTrip.ReassembleInOrder | implementations/rust/ockam/ockam_transport_udp/src/workers/pending_messages/pending_message.rs:72-106 | feeding the fragments in offset order gives back `data` |
| Windows.NotReceivedSlots | implementations/rust/ockam/ockam_transport_udp/src/workers/pending_messages/peer_pending_routing_message_storage.rs:30 | `n` slots, all NotReceived |
| Windows.Recycled | implementations/rust/ockam/ockam_transport_udp/src/workers/pending_messages/peer_pending_routing_message_storage.rs:79-89 | evicted slots give the pool exactly one buffer per partial message among them, and every such buffer is empty |
| Windows.EvictOldest | implementations/rust/ockam/ockam_transport_udp/src/workers/pending_messages/peer_pending_routing_message_storage.rs:68-92 | dropping is closed over well-formed windows and leaves the oldest number alone |
| Windows.ShiftLeft | implementations/rust/ockam/ockam_transport_udp/src/workers/pending_messages/peer_pending_routing_message_storage.rs:95-100 | the move keeps five slots and leaves the oldest number and the pool alone |
| Windows.Advance | implementations/rust/ockam/ockam_transport_udp/src/workers/pending_messages/peer_pending_routing_message_storage.rs:60-104 | a shift keeps five slots |
| Windows.MakeRoom | implementations/rust/ockam/ockam_transport_udp/src/workers/pending_messages/peer_pending_routing_message_storage.rs:57-107 | the slot index is below 5 and the window keeps five slots |
| Windows.Deliver | implementations/rust/ockam/ockam_transport_udp/src/workers/pending_messages/peer_pending_routing_message_storage.rs:128-146 | storing the outcome changes neither the oldest number nor the pool |
| Windows.TakeAndDeliver | implementations/rust/ockam/ockam_transport_udp/src/workers/pending_messages/peer_pending_routing_message_storage.rs:109-146 | slot dispatch never moves the oldest number; it pops the first pooled buffer exactly when it starts a reassembler on an empty slot and the pool is not empty, and leaves the pool alone otherwise; a FullyHandled slot drops the fragment, returns None and is left NotReceived |
| Windows.WindowAbsorb | implementations/rust/ockam/ockam_transport_udp/src/workers/pending_messages/peer_pending_routing_message_storage.rs:44-54 | a fragment older than `oldest` in circular order returns None and changes nothing |
| Windows.NewWindow | implementations/rust/ockam/ockam_transport_udp/src/workers/pending_messages/peer_pending_routing_message_storage.rs:26-32 | the new window satisfies the window invariant |
| WindowProperties.NotLateIsNear | implementations/rust/ockam/ockam_transport_udp/src/workers/pending_messages/peer_pending_routing_message_storage.rs:46-57 | a fragment that passes the late check has `diff = rn - oldest` below 32768 |
| WindowProperties.ShiftFor | implementations/rust/ockam/ockam_transport_udp/src/workers/pending_messages/peer_pending_routing_message_storage.rs:60-65 | the shift is below 32768, so `oldest` moves forward in circular order |
| WindowProperties.MakeRoomPlacesFragment | implementations/rust/ockam/ockam_transport_udp/src/workers/pending_messages/peer_pending_routing_message_storage.rs:57-107 | for `diff >= 5`, the window returned is `Advance` of the old one by `diff - 4`, so `oldest` advances by `diff - 4`, and the fragment goes to slot 4; otherwise nothing moves and the slot is `diff`. Either way the slot's number is the fragment's routing number |
| WindowProperties.AdvanceEvicts | implementations/rust/ockam/ockam_transport_udp/src/workers/pending_messages/peer_pending_routing_message_storage.rs:68-102 | the first `min(shift, 5)` slots are evicted, each being partial pushing one empty buffer; slot `i` takes slot `i + shift` or becomes NotReceived; `oldest` gains `shift` |
| WindowProperties.AdvancePreservesValid | implementations/rust/ockam/ockam_transport_udp/src/workers/pending_messages/peer_pending_routing_message_storage.rs:19-21 | after a shift, slot `i` still holds the reassembler of `oldest + i` and the pool stays empty buffers |
| WindowProperties.DeliverPreservesValid | implementations/rust/ockam/ockam_transport_udp/src/workers/pending_messages/peer_pending_routing_message_storage.rs:128-146 | storing a reassembler for the slot's own number keeps the window invariant |
| WindowProperties.MakeRoomPreservesValid | implementations/rust/ockam/ockam_transport_udp/src/workers/pending_messages/peer_pending_routing_message_storage.rs:57-107 | making room keeps the window invariant |
| WindowProperties.TakeAndDeliverPreservesValid | implementations/rust/ockam/ockam_transport_udp/src/workers/pending_messages/peer_pending_routing_message_storage.rs:109-146 | dispatch to the slot of the fragment's own number keeps the window invariant |
| WindowProperties.WindowAbsorbPreservesValid | implementations/rust/ockam/ockam_transport_udp/src/workers/pending_messages/peer_pending_routing_message_storage.rs:19-21 | every call keeps the invariant: slot `i` in progress is for `oldest + i`, and every pooled buffer is empty |
| WindowProperties.OldestMovesForward | implementations/rust/ockam/ockam_transport_udp/src/workers/pending_messages/peer_pending_routing_message_storage.rs:102 | `oldest` gains exactly the shift and never moves backwards in circular order |
| WindowProperties.WindowAbsorbSlot | implementations/rust/ockam/ockam_transport_udp/src/workers/pending_messages/peer_pending_routing_message_storage.rs:109-146 | only the fragment's slot changes after the shift, and the pool loses its first buffer exactly when an empty slot starts a reassembler on it. A FullyHandled slot drops the fragment and is left NotReceived. Otherwise the slot's own reassembler, or a new one on the first pooled buffer, gets the fragment; the slot becomes FullyHandled on completion whatever the decode gives, and InProgress otherwise |
| WindowProperties.SingleFragmentCompletes | implementations/rust/ockam/ockam_transport_udp/src/workers/pending_messages/pending_message.rs:92-106 | a one-fragment message completes on its fragment, as the buffer followed by the payload |
| WindowProperties.TombstoneUsedUp | implementations/rust/ockam/ockam_transport_udp/src/workers/pending_messages/peer_pending_routing_message_storage.rs:109-125 | a fragment hitting a FullyHandled slot returns None but leaves the slot NotReceived, so the next copy of a one-fragment message is decoded and delivered again |
| WindowProperties.NewWindowIsEmpty | implementations/rust/ockam/ockam_transport_udp/src/workers/pending_messages/peer_pending_routing_message_storage.rs:26-32 | `oldest` is the given number, all five slots are NotReceived and the pool is empty |
| WindowProperties.FirstOfTwoScenario | implementations/rust/ockam/ockam_transport_udp/src/workers/pending_messages/peer_pending_routing_message_storage.rs:109-143 | fragment 0 of 2 for 100 at a fresh window with oldest 100 returns None and leaves slot 0 in progress |
| WindowProperties.EvictPartialScenario | implementations/rust/ockam/ockam_transport_udp/src/workers/pending_messages/peer_pending_routing_message_storage.rs:68-102 | shifting by 2 a window whose only partial message is at slot 0 empties every slot and pools one empty buffer |
| WindowProperties.OneFragmentAfterEviction | implementations/rust/ockam/ockam_transport_udp/src/workers/pending_messages/peer_pending_routing_message_storage.rs:60-140 | then the one-fragment message 106 shifts by 2, reuses the pooled buffer, moves `oldest` to 102, leaves slot 4 FullyHandled and returns the decoding of its payload |
| WindowProperties.EvictionScenario | implementations/rust/ockam/ockam_transport_udp/src/workers/pending_messages/peer_pending_routing_message_storage.rs:60-140 | the whole two-step scenario with oldest 100: fragment (100, 0 of 2), then (106, 0 of 1), gives shift 2, a recycled buffer, oldest 102, and the decoding of 106's payload |
| WindowProperties.LateDropScenario | implementations/rust/ockam/ockam_transport_udp/src/workers/pending_messages/peer_pending_routing_message_storage.rs:46-54 | with oldest 200, a fragment for 150 changes nothing and returns nothing |
| WindowProperties.AbsorbAtOldest | implementations/rust/ockam/ockam_transport_udp/src/workers/pending_messages/peer_pending_routing_message_storage.rs:109-146 | a fragment for `oldest`, with only slot 0 in use, goes to slot 0's reassembler and nothing else changes |
| WindowProperties.WindowFeedPrefix | implementations/rust/ockam/ockam_transport_udp/src/workers/pending_messages/peer_pending_routing_message_storage.rs:109-146 | while one message is incomplete, a fresh window's slot 0 holds exactly the state a lone reassembler reaches on the same fragments |
| WindowProperties.WindowFeedFollowsReassembler | implementations/rust/ockam/ockam_transport_udp/src/workers/pending_messages/peer_pending_routing_message_storage.rs:128-140 | a fresh window returns what a lone reassembler returns, decoded, for fragments of one number that complete only at the end |
| WindowProperties.WindowReassemblesAnyOrder | implementations/rust/ockam/ockam_transport_udp/src/workers/pending_messages/peer_pending_routing_message_storage.rs:128-140 | all fragments of one message, in any order, into a fresh window: None until the last, which returns the decoding of exactly the encoded message |
| PeerPendingRoutingMessageStorages.ShiftLeftInPlace | implementations/rust/ockam/ockam_transport_udp/src/workers/pending_messages/peer_pending_routing_message_storage.rs:95-100 | the array becomes its old contents from `shift` on, followed by `shift` NotReceived slots |
| PeerPendingRoutingMessageStorages.PeerPendingRoutingMessageStorage.constructor | implementations/rust/ockam/ockam_transport_udp/src/workers/pending_messages/peer_pending_routing_message_storage.rs:26-32 | the storage holds `NewWindow(rn)`: `oldest = rn`, all five slots NotReceived, an empty pool; it is valid |
| PeerPendingRoutingMessageStorages.PeerPendingRoutingMessageStorage.EvictSlot | implementations/rust/ockam/ockam_transport_udp/src/workers/pending_messages/peer_pending_routing_message_storage.rs:71-91 | slot `i` becomes NotReceived and, if it was partial, its cleared buffer is pushed onto the pool |
| PeerPendingRoutingMessageStorages.PeerPendingRoutingMessageStorage.DropOldest | implementations/rust/ockam/ockam_transport_udp/src/workers/pending_messages/peer_pending_routing_message_storage.rs:68-92 | the held window changes exactly as `EvictOldest` says |
| PeerPendingRoutingMessageStorages.PeerPendingRoutingMessageStorage.ShiftSlotsLeft | implementations/rust/ockam/ockam_transport_udp/src/workers/pending_messages/peer_pending_routing_message_storage.rs:94-100 | the held window changes exactly as `ShiftLeft` says |
| PeerPendingRoutingMessageStorages.PeerPendingRoutingMessageStorage.AdvanceBy | implementations/rust/ockam/ockam_transport_udp/src/workers/pending_messages/peer_pending_routing_message_storage.rs:65-102 | the held window changes exactly as `Advance` says |
| PeerPendingRoutingMessageStorages.PeerPendingRoutingMessageStorage.MoveOldest | implementations/rust/ockam/ockam_transport_udp/src/workers/pending_messages/peer_pending_routing_message_storage.rs:102 | only `oldest` changes, by a wrapping add of `shift` |
| PeerPendingRoutingMessageStorages.PeerPendingRoutingMessageStorage.MakeRoomFor | implementations/rust/ockam/ockam_transport_udp/src/workers/pending_messages/peer_pending_routing_message_storage.rs:57-107 | the held window and the returned slot are exactly those of `MakeRoom` |
| PeerPendingRoutingMessageStorages.PeerPendingRoutingMessageStorage.TakeSlot | implementations/rust/ockam/ockam_transport_udp/src/workers/pending_messages/peer_pending_routing_message_storage.rs:109 | returns the slot's old state, leaves NotReceived behind, and a returned reassembler is no longer held by any slot |
| PeerPendingRoutingMessageStorages.PeerPendingRoutingMessageStorage.PutSlot | implementations/rust/ockam/ockam_transport_udp/src/workers/pending_messages/peer_pending_routing_message_storage.rs:138-143 | only slot `index` changes, to the given state |
| PeerPendingRoutingMessageStorages.PeerPendingRoutingMessageStorage.StartMessage | implementations/rust/ockam/ockam_transport_udp/src/workers/pending_messages/peer_pending_routing_message_storage.rs:112-120 | a new reassembler for the fragment's number and total, on the first pooled buffer (popped) or on a new empty one |
| PeerPendingRoutingMessageStorages.PeerPendingRoutingMessageStorage.Store | implementations/rust/ockam/ockam_transport_udp/src/workers/pending_messages/peer_pending_routing_message_storage.rs:128-146 | the held window and the result are exactly those of `Deliver`: FullyHandled and the decoding on completion, the reassembler back in its slot otherwise |
| PeerPendingRoutingMessageStorages.PeerPendingRoutingMessageStorage.Dispatch | implementations/rust/ockam/ockam_transport_udp/src/workers/pending_messages/peer_pending_routing_message_storage.rs:109-146 | the held window and the result are exactly those of `TakeAndDeliver` |
| PeerPendingRoutingMessageStorages.PeerPendingRoutingMessageStorage.AddTransportMessageAndTryAssemble | implementations/rust/ockam/ockam_transport_udp/src/workers/pending_messages/peer_pending_routing_message_storage.rs:34-147 | the held window and the result are exactly those of `WindowAbsorb`, and the window invariant is kept |

## Left out

- CBOR encoding and decoding (`cbor_encode_preallocate`, `minicbor::decode`) are foreign library calls. They enter as parameters, as described above.
- `UdpRoutingMessage::from(LocalMessage)` and the `LocalMessage` type are not part of this model. `New` starts from the encoding.
- `RoutingNumber::default` draws a random number. Randomness is not modelled, and neither is the `default_is_random` test.
- RoutingNumbers.AddAssign and RoutingNumbers.Increment: the source mutates through `&mut self`. Here they return the new value, because `RoutingNumber` is a `Copy` value. The one in-place `+=` on a stored number is `oldest_routing_number += shift`, which is `PeerPendingRoutingMessageStorage.MoveOldest`.
- The `increment` unit test is left out. It uses a random start, and its `n1 + 1` overflows for `u16::MAX`. `IncrementOverflow` and the contract of `Increment` cover both cases.
- `MAX_PAYLOAD_SIZE`, `CURRENT_VERSION` and the layout of `UdpTransportMessage` belong to the `messages` module, which is not part of this model. The constants are the `MessageConstants` parameter, with a positive payload size.
- `tracing` calls (`trace!`, `warn!`, `error!`) only log, and are left out. So is the decode error printed on failure.
- The decoded message is returned as is. `into_owned()` only changes the lifetime.
- `Vec` capacity is not modelled. A cleared buffer is the empty sequence, so the pool holds empty sequences. Reusing a pooled buffer is therefore indistinguishable from allocating an empty one, apart from letting the pool shrink as the source does.
- Machine-width arithmetic on `usize` (`offset as usize * payload.len()` on the receive path, `offset * MAX_PAYLOAD_SIZE` on the send path) is unbounded here. On the receive path both factors come from the peer's datagram, and no size cap applies there. The product still fits a 64-bit `usize`, because `offset` is a `u16` and a UDP payload is under 64 KiB, so it stays below 2^32.
- `pending_routing_message_storage.rs` is not part of this model. It is the per-peer registry named in `workers/pending_messages/mod.rs`. The UDP workers, sockets and the transport that drive it are not part of this model either.
- The sender's loop over the iterator, and the network between sender and receiver, are not modelled. The round trip is stated for every arrival order of every fragment, each delivered once.
- Windows.EvictOldest: its contract states only the shape of the result (five slots, the same oldest number). What the eviction does is stated by WindowProperties.AdvanceEvicts.
- Windows.ShiftLeft: its contract states only the shape of the result (five slots, the same oldest number and pool). Where each slot goes is stated by WindowProperties.AdvanceEvicts.
- Windows.Advance: its contract states only that five slots remain. The new oldest number, slots and pool are stated by WindowProperties.AdvanceEvicts, and the invariant by WindowProperties.AdvancePreservesValid.
- Windows.MakeRoom has a contract that states only that the slot index is in range. WindowProperties.MakeRoomPlacesFragment states the rest: the window returned (unchanged for `diff < 5`, `Advance` by `diff - 4` otherwise), the shift amount and the slot.
- Windows.Deliver: its contract states only which fields stay. The slot outcome is stated by WindowProperties.WindowAbsorbSlot.
- Windows.TakeAndDeliver: its contract states which fields stay, the pool, and the FullyHandled case. The outcome of an empty or in-progress slot is stated by WindowProperties.WindowAbsorbSlot.
- Windows.WindowAbsorb has a contract that states only the late drop. The rest of the call is stated as follows. WindowProperties.MakeRoomPlacesFragment states that the window after a shift is `Advance` by `diff - 4`, and WindowProperties.AdvanceEvicts states that window's slots, pool and oldest number. WindowProperties.WindowAbsorbSlot covers the slot, the pool and the result. WindowProperties.OldestMovesForward covers the oldest number, and WindowProperties.WindowAbsorbPreservesValid the invariant.
- Windows.NewWindow has a contract that states only the invariant. Its contents are stated by WindowProperties.NewWindowIsEmpty.
