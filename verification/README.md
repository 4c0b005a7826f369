# naia message manager and unordered-unreliable receiver, in Dafny

This project models two parts of naia's shared messaging layer.

- **The message manager.** It owns one channel per configured channel index. It hands an application's message to the channel it names. Once per tick, it fans each per-tick call out over every channel: queue outgoing messages, write into a packet, read from a packet, and hand incoming messages to the application. It also remembers which (channel, message id) a packet carried, so that it can forward that packet's delivery notice to the channel.
- **The receiving half of an unordered-unreliable channel.** It is a FIFO queue of decoded messages. It is filled from a count-prefixed run of messages on the wire and drained whole by the application.

Modules:

- `Wire` (wire.dfy): `Option`, the 16-bit packet index and message id, and the packet as a sequence of abstract tokens. The tokens are a count header, a message id, a kind tag and a payload field.
- `Channels` (channels.dfy): channel modes and configuration. A channel is an abstract value: its index, its mode and the log of every call the manager has made on it. What the three channel implementations answer is a `Behaviour`: a record of functions of the channel's state and the packet, standing for the answers observed in one run.
- `MessageManager` (message_manager.dfy): the manager as the code is written. The channel map is a sequence in iteration order, with every lookup going through `Lookup`, the map's `get`. Each fan-out returns a trace of what every channel answered. The trace is characterised step by step (`IsWriteTrace`, `IsReadTrace`, `IsCollectTrace`).
- `UnorderedUnreliableReceiver` (receiver.dfy): the receiver. It also contains the matching writer (`WriteList`), used to state that reading back a written list yields exactly the written messages.
- `DeliveryTracking` (delivery_tracking.dfy): delivery bookkeeping done the way the manager's own documentation describes it. See "## Findings".

## Model

| member | source | states |
|---|---|---|
| MessageManager.New | shared/src/messages/message_manager.rs:31-58 | A new manager holds, under each configured index, a fresh channel of that mode exactly when the mode is unordered-unreliable, unordered-reliable or ordered-reliable, and nothing otherwise. Every channel it holds comes from a configuration entry. It has recorded no packet. |
| MessageManager.Lookup | shared/src/messages/message_manager.rs:87 | The map's `get`: a found channel carries the index asked for and is one of the map's channels, and nothing is found exactly when no channel carries the index. |
| MessageManager.Position | shared/src/messages/message_manager.rs:87 | Looking an index up finds a channel carrying that index, or reports that no channel carries it. |
| MessageManager.PositionOf | shared/src/messages/message_manager.rs:25 | In the channel map, each channel is found under its own index. |
| MessageManager.DispatchLookup | shared/src/messages/message_manager.rs:87-89 | Handing a call to one index is a map update: only the entry under that index handles the call, and a missing index changes nothing. |
| MessageManager.SendMessage | shared/src/messages/message_manager.rs:86-90 | The message goes to the channel with that index and to no other. Without such a channel, nothing changes. The packet map is untouched. |
| MessageManager.AnyOutgoing | shared/src/messages/message_manager.rs:78-83 | True exactly when some channel in the list reports outgoing messages. |
| MessageManager.HasOutgoingMessages | shared/src/messages/message_manager.rs:78-83 | True exactly when some channel in the map reports outgoing messages. |
| MessageManager.CollectOutgoingMessages | shared/src/messages/message_manager.rs:68-72 | Every channel, and only the channels, receives one collect-outgoing call with the round-trip time. The packet map and the set of channels are unchanged. |
| MessageManager.WriteMessages | shared/src/messages/message_manager.rs:94-110 | Each channel writes once, in iteration order, and sees the packet as the channels before it left it. The packet gains each channel's tokens, plus one zero-count header exactly for the channels that answered `None`. The packet map records the last reported pair. |
| MessageManager.WritePrefixFrame | shared/src/messages/message_manager.rs:100-109 | Partway through the loop, the channels already visited have received exactly one write and the rest are untouched. |
| MessageManager.WritePrefixTrace | shared/src/messages/message_manager.rs:100-109 | Partway through the loop, the packet holds what the visited channels emitted and the map holds what their ids recorded. |
| MessageManager.InsertEach | shared/src/messages/message_manager.rs:102-105 | Inserting each returned id under the same packet key leaves only the last id. An empty list leaves the map as it was. |
| MessageManager.RecordedLastId | shared/src/messages/message_manager.rs:100-105 | Recording a write changes only the written packet's entry. It changes that entry exactly when some channel returned ids, and then holds the last id of the last such channel. |
| MessageManager.WriteRecordsLastId | shared/src/messages/message_manager.rs:100-105 | After a write, the packet's entry is the last id of the last channel in iteration order that returned ids. Entries for other packets are untouched, and the map is unchanged when no channel returned ids. |
| MessageManager.IdleWrite | shared/src/messages/message_manager.rs:100-109 | When no channel has anything to write, the packet gains exactly one zero-count header per channel and nothing is recorded. |
| MessageManager.ReadMessages | shared/src/messages/message_manager.rs:113-122 | Each channel reads once, in iteration order, starting exactly where the one before it stopped. What is left is the packet minus everything the channels consumed. Nothing is recorded. |
| MessageManager.ReadPrefixTrace | shared/src/messages/message_manager.rs:119-121 | Partway through the loop, each visited channel read from where the previous one stopped, and the reader sits after all they consumed. |
| MessageManager.CollectIncomingMessages | shared/src/messages/message_manager.rs:60-66 | The output is the concatenation, in iteration order, of what each channel appended, and nothing else. Each channel receives one collect call. |
| MessageManager.CollectPrefixTrace | shared/src/messages/message_manager.rs:61-65 | Partway through the loop, the output is what the visited channels handed over, one channel after another. |
| MessageManager.NotifyPacketDelivered | shared/src/messages/message_manager.rs:128-134 | An unknown packet changes nothing. A recorded packet's notice goes, with the recorded id, to the recorded channel only. The entry is kept. |
| MessageManager.DeliveredTwiceForwardsTwice | shared/src/messages/message_manager.rs:128-134 | Because the entry is kept, a second notice for the same packet forwards the same id to the same channel again. |
| MessageManager.NotifyPacketDropped | shared/src/messages/message_manager.rs:136 | A drop notice changes nothing. |
| MessageManager.DropKeepsTracking | shared/src/messages/message_manager.rs:136 | After a drop, the packet is still tracked, and a later delivery notice forwards exactly what it would have forwarded without the drop. |
| MessageManager.StaleEntryAcknowledged | shared/src/messages/message_manager.rs:100-134 | A packet in which no channel wrote ids leaves in place what an earlier packet recorded under the same index. Its delivery notice forwards that earlier packet's id. |
| UnorderedUnreliableReceiver.New | shared/src/messages/unordered_unreliable_receiver.rs:17-21 | A new receiver's queue is empty. |
| UnorderedUnreliableReceiver.ReadMessage | shared/src/messages/unordered_unreliable_receiver.rs:23-36 | The kind tag is read first. The factory then rebuilds the message from the tokens after it, and reading resumes right after the payload it used. |
| UnorderedUnreliableReceiver.RecvMessage | shared/src/messages/unordered_unreliable_receiver.rs:38-40 | The message joins the back of the queue. |
| UnorderedUnreliableReceiver.RecvAllAppends | shared/src/messages/unordered_unreliable_receiver.rs:38-40 | Receiving several messages one by one appends them in arrival order. |
| UnorderedUnreliableReceiver.ReadMessages | shared/src/messages/unordered_unreliable_receiver.rs:44-55 | One count is read, then exactly that many messages. They join the queue in read order behind what it held, and reading stops right after them. |
| UnorderedUnreliableReceiver.DecodeRunLeavesSuffix | shared/src/messages/unordered_unreliable_receiver.rs:50-54 | Reading a run of messages only ever consumes a prefix of the stream. |
| UnorderedUnreliableReceiver.ZeroCountReadsNothing | shared/src/messages/unordered_unreliable_receiver.rs:50-54 | A count of zero consumes only the header and queues nothing. |
| UnorderedUnreliableReceiver.RunRoundTrip | shared/src/messages/unordered_unreliable_receiver.rs:50-54 | Reading back messages written one after another yields exactly those messages, in order, and stops right after them. |
| UnorderedUnreliableReceiver.ListRoundTrip | shared/src/messages/unordered_unreliable_receiver.rs:44-55 | Reading back a written list yields exactly the written messages, in order, and leaves what followed the list unread. |
| UnorderedUnreliableReceiver.CollectIncoming | shared/src/messages/unordered_unreliable_receiver.rs:57-59 | Collecting returns the whole queue, oldest first, and leaves it empty. |
| UnorderedUnreliableReceiver.CollectReturnsArrivalOrder | shared/src/messages/unordered_unreliable_receiver.rs:38-59 | Messages received into a new receiver come back from one collection in arrival order. |
| UnorderedUnreliableReceiver.CollectTwiceIsEmpty | shared/src/messages/unordered_unreliable_receiver.rs:57-59 | A second collection straight after the first returns nothing and changes nothing. |
| DeliveryTracking.ReportedPairs | shared/src/messages/message_manager.rs:100-105 | The pairs a tracked write remembers are exactly the (channel, id) pairs the channels returned. |
| DeliveryTracking.LastReportedIsLastPair | shared/src/messages/message_manager.rs:100-105 | The manager's entry for a packet is the last of the pairs the packet carried, and there is no entry when it carried none. |
| DeliveryTracking.ForwardAllLogs | shared/src/messages/message_manager.rs:129-132 | Forwarding a list of pairs gives each channel exactly the delivery notices for its own ids, in order. |
| DeliveryTracking.TrackWrite | shared/src/messages/message_manager.rs:94-110 | A tracked write leaves the channels and the packet exactly as the manager's write does. It remembers every pair the packet carried and replaces anything older under the same index. |
| DeliveryTracking.Deliver | shared/src/messages/message_manager.rs:126-134 | A delivery notice acknowledges every pair the packet carried and stops tracking the packet. An untracked packet changes nothing. |
| DeliveryTracking.Drop | shared/src/messages/message_manager.rs:136 | A dropped packet stops being tracked and the channels are untouched. |
| DeliveryTracking.DeliverTwiceIsDeliverOnce | shared/src/messages/message_manager.rs:126-134 | A repeated delivery notice acknowledges nothing more. |
| DeliveryTracking.DeliverAfterDrop | shared/src/messages/message_manager.rs:136 | A delivery notice after a drop acknowledges nothing. |
| DeliveryTracking.DeliverAfterWrite | shared/src/messages/message_manager.rs:100-134 | Delivering a packet acknowledges, on each channel, exactly the ids that channel wrote into it, whatever was tracked under that index before. |
| DeliveryTracking.ReusedIndexAcknowledgesNothing | shared/src/messages/message_manager.rs:100-134 | A packet in which no channel wrote ids acknowledges nothing when delivered, even under a reused index. |
| DeliveryTracking.AsWrittenAcknowledgesOnlyLastId | shared/src/messages/message_manager.rs:100-134 | As written: one ordered-reliable channel writes messages 1 and 2 into packet 7, and the delivery of packet 7 acknowledges message 2 only. |
| DeliveryTracking.TrackedAcknowledgesEveryId | shared/src/messages/message_manager.rs:100-134 | Tracked: the same packet's delivery acknowledges messages 1 and 2, in the order they were written. |

## Left out

- The three channel implementations are not part of this model: `UnorderedUnreliableChannel`, `UnorderedReliableChannel` and `OrderedReliableChannel`. Each channel is its index, its mode and the log of calls it has received. Its answers come from a `Behaviour`, and what it does on send, tick, write, read, collect and delivery is only recorded in its log.
- The bit-level `BitWriter`/`BitReader` codec, the list-header codec and the message-kind codec are left out. A packet is a sequence of abstract tokens, and a zero-count list header is one `ListHeader(0)` token.
- The entity-handle converter passed to write and read is left out. It is only passed through to the channels.
- The round-trip time is a `real` that is only passed through. f32 arithmetic is not modelled.
- The generic channel index type is `nat`. Only equality on indices is used.
- Every mode without an implementation is represented by `OtherMode`. The code builds no channel for any such mode.
- `HashMap` iteration order is unspecified. The channel list is the map in iteration order. `MessageManager.New` lists channels in configuration order, one admissible iteration order. Every other operation is stated against whatever order the list has.
- The writing manager and the reading manager are on different peers. Each builds its own `HashMap` with its own hasher, so the two iteration orders need not agree. The model does not relate the order in which one manager writes channel runs to the order in which the other reads them. `MessageManager.ReadMessages` only states that each channel reads where the one before it, in the reading manager's own order, stopped.
- The reliable channels decide when to resend a message by reading the clock themselves. The manager passes them only the round-trip time. That clock reading is not part of a channel's value, so a `Behaviour` stands for the answers observed in one run rather than for a function the channel is bound to. Every property is stated for one operation and any `Behaviour`, so none depends on the clock.
- `MessageManager.Valid` is required by every manager operation. It holds that channel indices are distinct and that every recorded packet names a channel. `New` establishes it and every operation preserves it. In the code, the first part is what a `HashMap` guarantees and the second follows from how entries are written.
- MessageManager.ReadLength: a channel that claims to read more tokens than remain is clamped to what remains. What the bit reader does when read past its end is not modelled.
- UnorderedUnreliableReceiver.PayloadLength: a factory that claims to use more tokens than remain is clamped likewise.
- UnorderedUnreliableReceiver.ReadMessage: a kind tag that fails to decode makes the code panic on `unwrap`. The model requires a decodable kind tag instead (`KindDecodes`), and `ReadMessages` requires the whole list to decode (`ListDecodes`).
- UnorderedUnreliableReceiver.ListRoundTrip: it assumes a factory that inverts the writer's encoding (`Inverts`). The factory itself is not part of this model.
- Message ids and packet indices are 16-bit values (`U16`). The manager does no arithmetic on them, so wrap-around never arises inside the model. The reuse of a packet index after wrap-around appears only as an input to the `StaleEntryAcknowledged` and `ReusedIndexAcknowledgesNothing` lemmas.
- The `#[derive(Event)]` code generator (src/event.rs) is left out. It generates code and has no runtime behaviour.
- The floating-point codecs for math types (shared/serde/src/impls/glam.rs, shared/serde/src/impls/bevy_transform.rs, shared/serde/src/impls.rs) are not part of this model.

## Findings

The `MessageManager` module models the code as written. The `DeliveryTracking` module reuses its channel fan-out and replaces only the packet map, with `seq` of (channel, id) pairs per packet, removed on delivery and on drop.

| source | as written | input that shows it | evidently intended | confidence | as-written member | corrected member |
|---|---|---|---|---|---|---|
| shared/src/messages/message_manager.rs:100-105 | Every id a channel returns is inserted under the same packet key, so each insert replaces the previous one and the packet keeps only the last (channel, id). | One ordered-reliable channel writes a list of messages 1 and 2 into packet 7 (count, then each message's id and kind) and returns ids 1 and 2. When packet 7 is delivered, the channel is told about message 2 only, so message 1 is never acknowledged. | A delivered packet acknowledges every message it carried. | not executed; medium: whether a lost acknowledgement matters depends on the channel implementations, which are not modelled | DeliveryTracking.AsWrittenAcknowledgesOnlyLastId | DeliveryTracking.DeliverAfterWrite |
| shared/src/messages/message_manager.rs:126-136 | The doc comment says a delivery stops tracking the packet, but the entry is never removed, and a drop is ignored. An entry outlives its packet. | Packet 7 records (0, 5). After the 16-bit packet index wraps, a new packet 7 carries no ids. Its delivery forwards message 5 again, whether the first packet 7 was delivered or dropped. | Delivery and drop stop tracking the packet, so a packet acknowledges only what it carried. | not executed; medium: needs a packet-index reuse, and its effect depends on the channel implementations | MessageManager.StaleEntryAcknowledged | DeliveryTracking.ReusedIndexAcknowledgesNothing |
