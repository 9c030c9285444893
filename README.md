# Partition exchange: exchange context and single-partition request

A Dafny model of two small stateful pieces of Apache Ignite's partition-map
exchange.

- `ExchangeContext` is the per-round capability record. Its constructor
  derives two flags from the negotiated protocol version: "fetch affinity on
  join" exactly at version 1, and "can merge exchanges" above version 1. It
  wraps the round's discovery events and keeps a set of cache-group ids. That
  set stays absent until the first request and then only grows.
- `GridDhtPartitionsSingleRequest` is the message that asks a peer for its
  partition state, optionally as a restore-state probe that names the
  exchange being recovered. It is encoded and decoded resumably: every
  `writeTo`/`readFrom` call either finishes or stops at a field that did not
  fit, and the writer's or reader's cursor records where it stopped.

Files:

- `types.dfy` (`Types`): Java integer widths, nullable references as
  `Option`, and the exchange id.
- `exchange_context.dfy` (`ExchangeContexts`): the context as a class. Its ghost
  `protocolVer` and ghost `requested` history are tied to the stored flags and set
  by `Valid()`. Beside it are the set operation `AddGroup` and the fold `AfterAdds`
  over a run of requests, with their lemmas.
- `message_io.dfy` (`MessageIo`): an abstract writer and reader. A buffer has
  room for a number of whole units. The header, the base-class field block and a
  nested exchange-id message are one unit each. A write succeeds exactly when the
  unit fits. A read succeeds exactly when the next unit is of the requested kind.
  The library's `beforeMessageRead` and `afterMessageRead` are stand-ins here:
  they return verdict flags of the reader that are fixed when the reader is
  built.
- `single_request.dfy` (`SingleRequest`): the message class. Its `WriteTo` and
  `ReadFrom` are proved equal to the functions `WriteStep` and `ReadStep` of the
  writer/reader state. Lemmas cover a single call, repeated partial calls and
  the write-then-read round trip.

The base class `GridDhtPartitionsAbstractMessage` is not part of this model.
Its `writeTo` becomes one abstract step of the same shape as this class's own:
it first writes the header (direct type and fields count) when it is not yet
written, then its own fields (cursor positions 0 to 4) as one unit carrying
`exchId` and `restoreState`, leaving the cursor at 5. Its `readFrom` consumes
that one unit. A completed write therefore emits the header, the base block and
then `restoreExchId`, and the header block of this class's `writeTo` finds the
header written and does nothing (`SubclassHeaderBlockIsNoOp`). The base-class
setter `restoreState`, used by `restoreStateRequest`, is the stand-in
`SetRestoreState`. `readFrom` never
reads a header: the transport reads the leading header to pick the message
class and hands `readFrom` the rest. The round trip follows that path: the
written output is the header followed by the chunks the reader receives.

Two facts about the code that a caller might not expect:

- The `ExchangeContext` constructor accepts any protocol version. One below 1
  turns both flags off (`FlagsExclusive`).
- `restoreStateRequest` accepts a null restore exchange id, so a restore probe
  may carry none. The model allows it too.

## Model

| member | source | states |
|---|---|---|
| ExchangeContexts.ExchangeContext.constructor | modules/core/src/main/java/org/apache/ignite/internal/processors/cache/ExchangeContext.java:46-52 | fetch-affinity flag iff version == 1, merge flag iff version > 1, any version accepted, group set absent, a fresh events object built from the future |
| ExchangeContexts.ExchangeContext.Events | modules/core/src/main/java/org/apache/ignite/internal/processors/cache/ExchangeContext.java:54-56 | returns the constant events field, i.e. the object created by the constructor |
| ExchangeContexts.ExchangeContext.FetchAffinityOnJoin | modules/core/src/main/java/org/apache/ignite/internal/processors/cache/ExchangeContext.java:62-64 | true iff the construction version was 1 |
| ExchangeContexts.ExchangeContext.CanMergeExchanges | modules/core/src/main/java/org/apache/ignite/internal/processors/cache/ExchangeContext.java:83-85 | true iff the construction version was above 1 |
| ExchangeContexts.FlagsExclusive | modules/core/src/main/java/org/apache/ignite/internal/processors/cache/ExchangeContext.java:46-49 | the two flags are never both true; a version of 0 or below gives both false |
| ExchangeContexts.ExchangeContext.AddGroupAffinityRequestOnJoin | modules/core/src/main/java/org/apache/ignite/internal/processors/cache/ExchangeContext.java:69-74 | new set = old set (empty if absent) plus the id, set now present, history extended by the id; only the set changes, the flags and events stay |
| ExchangeContexts.ExchangeContext.GroupsAffinityRequestOnJoin | modules/core/src/main/java/org/apache/ignite/internal/processors/cache/ExchangeContext.java:79-81 | null exactly while no group was requested, otherwise exactly the set of requested ids |
| ExchangeContexts.AddGroup | modules/core/src/main/java/org/apache/ignite/internal/processors/cache/ExchangeContext.java:69-74 | result present, contains the id and every old group, and nothing else |
| ExchangeContexts.AddGroupIsUnion | modules/core/src/main/java/org/apache/ignite/internal/processors/cache/ExchangeContext.java:70-73 | recording an id gives the old groups, absent read as empty, plus the id |
| ExchangeContexts.AddGroupIdempotent | modules/core/src/main/java/org/apache/ignite/internal/processors/cache/ExchangeContext.java:69-74 | recording the same id twice equals recording it once |
| ExchangeContexts.AddGroupCommutes | modules/core/src/main/java/org/apache/ignite/internal/processors/cache/ExchangeContext.java:69-74 | two recordings commute |
| ExchangeContexts.AfterAddsSnoc | modules/core/src/main/java/org/apache/ignite/internal/processors/cache/ExchangeContext.java:69-74 | one further request is one further AddGroup applied to the accumulated set |
| ExchangeContexts.AfterAddsIsUnion | modules/core/src/main/java/org/apache/ignite/internal/processors/cache/ExchangeContext.java:69-74 | a run of requests leaves an absent set absent only when empty, otherwise yields old groups union all requested ids |
| ExchangeContexts.AfterAddsOrderIndependent | modules/core/src/main/java/org/apache/ignite/internal/processors/cache/ExchangeContext.java:69-74 | two runs requesting the same ids, in any order and with any repetitions, give the same set |
| SingleRequest.GridDhtPartitionsSingleRequest.constructor | modules/core/src/main/java/org/apache/ignite/internal/processors/cache/distributed/dht/preloader/GridDhtPartitionsSingleRequest.java:42-44 | no exchange id, not a restore probe, restore exchange id null |
| SingleRequest.GridDhtPartitionsSingleRequest.WithExchangeId | modules/core/src/main/java/org/apache/ignite/internal/processors/cache/distributed/dht/preloader/GridDhtPartitionsSingleRequest.java:49-51 | the given exchange id, not a restore probe, restore exchange id null |
| SingleRequest.GridDhtPartitionsSingleRequest.RestoreStateRequest | modules/core/src/main/java/org/apache/ignite/internal/processors/cache/distributed/dht/preloader/GridDhtPartitionsSingleRequest.java:58-66 | a fresh message with the wrapping exchange id, restoreState true and the given restore exchange id |
| SingleRequest.GridDhtPartitionsSingleRequest.SetRestoreState | modules/core/src/main/java/org/apache/ignite/internal/processors/cache/distributed/dht/preloader/GridDhtPartitionsSingleRequest.java:61 | stand-in for the base-class setter `restoreState`: sets restoreState and nothing else |
| SingleRequest.GridDhtPartitionsSingleRequest.RestoreExchangeId | modules/core/src/main/java/org/apache/ignite/internal/processors/cache/distributed/dht/preloader/GridDhtPartitionsSingleRequest.java:68-70 | returns the stored restore exchange id |
| SingleRequest.GridDhtPartitionsSingleRequest.SetRestoreExchangeId | modules/core/src/main/java/org/apache/ignite/internal/processors/cache/distributed/dht/preloader/GridDhtPartitionsSingleRequest.java:72-74 | sets the restore exchange id and nothing else, so a following get returns it |
| SingleRequest.NoUpdateCounters | modules/core/src/main/java/org/apache/ignite/internal/processors/cache/distributed/dht/preloader/GridDhtPartitionsSingleRequest.java:77-84 | handler id is 0 and the update-counter map is empty for every cache id |
| SingleRequest.MessageConstants | modules/core/src/main/java/org/apache/ignite/internal/processors/cache/distributed/dht/preloader/GridDhtPartitionsSingleRequest.java:137-144 | direct type 48, fields count 6, and the own field's cursor 5 is the last field index |
| SingleRequest.GridDhtPartitionsSingleRequest.SuperWriteTo | modules/core/src/main/java/org/apache/ignite/internal/processors/cache/distributed/dht/preloader/GridDhtPartitionsSingleRequest.java:90-91 | the abstract base-class write: the header if not yet written, then, below cursor 5, one unit that moves the cursor to 5 when it fits |
| SingleRequest.SubclassHeaderBlockIsNoOp | modules/core/src/main/java/org/apache/ignite/internal/processors/cache/distributed/dht/preloader/GridDhtPartitionsSingleRequest.java:90-98 | after a successful base-class write the header is written, so this class's header block emits nothing and changes nothing |
| SingleRequest.GridDhtPartitionsSingleRequest.WriteTo | modules/core/src/main/java/org/apache/ignite/internal/processors/cache/distributed/dht/preloader/GridDhtPartitionsSingleRequest.java:87-110 | result and new writer state are WriteStep of the old writer state, the buffer and the message |
| SingleRequest.WriteStepEmitsPendingPrefix | modules/core/src/main/java/org/apache/ignite/internal/processors/cache/distributed/dht/preloader/GridDhtPartitionsSingleRequest.java:87-110 | a call emits the longest prefix of the still-owed units that fits, completes iff all fit, and sets cursor, header flag and room accordingly |
| SingleRequest.WriteStopsWhenBaseIncomplete | modules/core/src/main/java/org/apache/ignite/internal/processors/cache/distributed/dht/preloader/GridDhtPartitionsSingleRequest.java:90-91 | whenever the base write cannot complete, the call returns that failure: false, the cursor unchanged, field 5 never emitted (the header may already have gone out) |
| SingleRequest.PendingHeaderCount | modules/core/src/main/java/org/apache/ignite/internal/processors/cache/distributed/dht/preloader/GridDhtPartitionsSingleRequest.java:93-98 | the owed units hold the header once if it is unwritten and never otherwise |
| SingleRequest.HeaderWrittenOnce | modules/core/src/main/java/org/apache/ignite/internal/processors/cache/distributed/dht/preloader/GridDhtPartitionsSingleRequest.java:93-98 | output only grows, a completed call has written the header, a written header is never emitted again, and a call emits it at most once |
| SingleRequest.WriteAtRestoreExchId | modules/core/src/main/java/org/apache/ignite/internal/processors/cache/distributed/dht/preloader/GridDhtPartitionsSingleRequest.java:100-106 | at cursor 5 with the header written, a fitting write emits restoreExchId and moves to 6 returning true; one that does not fit returns false at 5 having emitted nothing |
| SingleRequest.WritePastRestoreExchId | modules/core/src/main/java/org/apache/ignite/internal/processors/cache/distributed/dht/preloader/GridDhtPartitionsSingleRequest.java:100-109 | past cursor 5 with the header written, a call emits nothing and returns true |
| SingleRequest.WriteStepProgress | modules/core/src/main/java/org/apache/ignite/internal/processors/cache/distributed/dht/preloader/GridDhtPartitionsSingleRequest.java:87-110 | from a writer that started at cursor 0, a call keeps the output a prefix of the encoding, never goes back, completes exactly at the end, and always completes given room for the whole message |
| SingleRequest.WriteAllEmitsEncodingOnce | modules/core/src/main/java/org/apache/ignite/internal/processors/cache/distributed/dht/preloader/GridDhtPartitionsSingleRequest.java:87-110 | over any sequence of buffers, a completed write has emitted the encoding exactly once and its cursor equals the fields count |
| SingleRequest.WriteAllCompletes | modules/core/src/main/java/org/apache/ignite/internal/processors/cache/distributed/dht/preloader/GridDhtPartitionsSingleRequest.java:87-110 | repeated calls complete once some buffer has room for the whole message |
| SingleRequest.WrittenStartsWithHeader | modules/core/src/main/java/org/apache/ignite/internal/processors/cache/distributed/dht/preloader/GridDhtPartitionsSingleRequest.java:87-110 | a completed write starts with the header carrying direct type 48 and fields count 6, followed by exactly the units readFrom consumes |
| MessageIo.MessageReader.BeforeMessageRead | modules/core/src/main/java/org/apache/ignite/internal/processors/cache/distributed/dht/preloader/GridDhtPartitionsSingleRequest.java:116-117 | stand-in for the library call: returns the reader's before-read verdict, a flag fixed when the reader is built |
| MessageIo.MessageReader.AfterMessageRead | modules/core/src/main/java/org/apache/ignite/internal/processors/cache/distributed/dht/preloader/GridDhtPartitionsSingleRequest.java:133 | stand-in for the library call: returns the reader's after-read verdict, a flag fixed when the reader is built |
| SingleRequest.GridDhtPartitionsSingleRequest.SuperReadFrom | modules/core/src/main/java/org/apache/ignite/internal/processors/cache/distributed/dht/preloader/GridDhtPartitionsSingleRequest.java:119-120 | the abstract base-class read: done from cursor 5 on, else one base unit that stores exchId and restoreState and moves the cursor to 5 |
| SingleRequest.GridDhtPartitionsSingleRequest.ReadFrom | modules/core/src/main/java/org/apache/ignite/internal/processors/cache/distributed/dht/preloader/GridDhtPartitionsSingleRequest.java:113-134 | result, new reader state and new message fields are ReadStep of the old reader state, the buffer and the old fields |
| SingleRequest.ReadStopsWhenNotReady | modules/core/src/main/java/org/apache/ignite/internal/processors/cache/distributed/dht/preloader/GridDhtPartitionsSingleRequest.java:116-117 | a failed beforeMessageRead makes the call return false with the cursor and the message unchanged |
| SingleRequest.ReadStopsWhenBaseIncomplete | modules/core/src/main/java/org/apache/ignite/internal/processors/cache/distributed/dht/preloader/GridDhtPartitionsSingleRequest.java:119-120 | an incomplete base read makes the call return false with the cursor and the message unchanged |
| SingleRequest.ReadAtRestoreExchId | modules/core/src/main/java/org/apache/ignite/internal/processors/cache/distributed/dht/preloader/GridDhtPartitionsSingleRequest.java:122-133 | at cursor 5 a complete read stores the value, moves to 6 and returns afterMessageRead; an incomplete one stores null and returns false at 5 |
| SingleRequest.ReadPastRestoreExchId | modules/core/src/main/java/org/apache/ignite/internal/processors/cache/distributed/dht/preloader/GridDhtPartitionsSingleRequest.java:122-133 | past cursor 5 a call reads nothing and returns afterMessageRead |
| SingleRequest.ReadStepOnChunk | modules/core/src/main/java/org/apache/ignite/internal/processors/cache/distributed/dht/preloader/GridDhtPartitionsSingleRequest.java:113-134 | a read over the next chunk of the payload completes iff the chunk is all that remains; otherwise it consumes the chunk and leaves the reader resumable on the remainder |
| SingleRequest.ReadAllDecodes | modules/core/src/main/java/org/apache/ignite/internal/processors/cache/distributed/dht/preloader/GridDhtPartitionsSingleRequest.java:113-134 | for any split of the payload into chunks, repeated reads yield the original fields and end at cursor 6 with nothing left over |
| SingleRequest.RoundTrip | modules/core/src/main/java/org/apache/ignite/internal/processors/cache/distributed/dht/preloader/GridDhtPartitionsSingleRequest.java:87-134 | a completed write split over any buffers, its leading header taken by the transport and the rest read back in any chunks, restores exchId, restoreState and restoreExchId, with the same outcome as one read of the whole payload |

## Left out

- The byte-level encoding of MessageWriter and MessageReader (`writeHeader`, `writeMessage`, `readMessage`) is not modelled. Each header, base block and nested message is one atomic unit, and a write either fits in the buffer or fails whole. So the model does not capture a nested message that is itself written in several parts.
- The verdicts of `beforeMessageRead` and `afterMessageRead` are opaque flags of the reader. The round trip assumes both succeed. A read of a unit of the wrong kind counts as incomplete. The decode faults the library raises are not modelled.
- The base class `GridDhtPartitionsAbstractMessage` is collapsed into one abstract step, as described above. Its fields other than `exchId` and `restoreState` are not modelled, and neither is the second constructor argument, which is always null here. Its source is not part of this model, so that it writes the header before its fields, as this class's generated writeTo does, is taken from that shared pattern rather than from its code. The collapsed base read does not consult `afterMessageRead`: where the real base read would, by the same pattern, return false before field 5 when that verdict is negative, the model goes on to read field 5 and moves the cursor to 6 (the call still returns false).
- Resetting the writer or reader between messages, and `setBuffer` on a real ByteBuffer, are left out. A buffer is only a room count on the write side and the list of available units on the read side. Units left over from one read call are handed back with the next chunk.
- The internals of `ExchangeDiscoveryEvents` and `GridDhtPartitionsExchangeFuture` are not modelled. The events object only remembers the future it was built from.
- ExchangeContexts.ExchangeContext.GroupsAffinityRequestOnJoin: returns the set as a value. The Java method returns the live HashSet, which a caller could mutate; that aliasing is not modelled.
- ExchangeContexts.ExchangeContext.AddGroupAffinityRequestOnJoin: takes an `int32`. A null boxed `Integer`, which a HashSet would also accept, is not modelled.
- `toString`, `Externalizable`, `serialVersionUID` and the Java Map and T2 types are serialisation and reflection plumbing and are left out. The counters map is a Dafny `map` to pairs of `int64`.
- Threading and merge orchestration belong to the exchange driver, which is not part of these files.
