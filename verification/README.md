# Verified models of openAUTOSAR protocol engines

Dafny models of the protocol engines and state managers of openAUTOSAR, with proofs of what they promise over whole
runs. `dafny verify dfyconfig.toml` checks the project.

| area | modules |
|---|---|
| End-to-end protection: framing, CRC-32, modular counters, receiver state | `Crc32`, `E2eFrame`, `E2eProtection`, `E2eDetection`, `E2eVerdicts`, `E2eRuns` |
| RTPS messages and the ACKNACK bitmap (OMG DDSI-RTPS 2.2, sections 9.4.2.6, 9.4.5.2, 9.4.5.3 and 9.4.5.6) | `Ascending`, `AckNackBitmap`, `RtpsMessage`, `RtpsRoundTrip`, `RtpsGrammar`, `RtpsCodec` |
| Reliable DDS writer and reader (section 8.4) | `DdsTypes`, `SampleEnvelope`, `ReliableWriter`, `ReliableReader`, `ReliableRuns`, `ReliableRecords`, `ReliableRepair`, `ReliableMessages`, `EndpointMatching` |
| Raw data streams: reassembly, duplicate window, bounded queue | `StreamChecksum`, `RawDataStream`, `RawDataStreamRuns`, `RawDataStreamContents`, `RawDataStreamReassembly` |
| Service registry: method calls and futures, subscriptions, fields | `ServiceKeys`, `SubscriptionQueue`, `ServiceRegistry`, `RegistryObject`, `RegistryCalls`, `RegistryRuns`, `RegistryAnswers`, `RegistryConservation`, `RegistryQueues`, `RegistryFields`, `RegistryOutcomes` |
| SPDP and SEDP parameter lists (section 9.4.2.11) | `ParameterList`, `DiscoveryValues`, `SedpEndpoint`, `SpdpParticipant`, `DiscoveryAnnouncements` |
| Key-value persistency over a directory of entry files | `EntryFile`, `KeyValueStore`, `PersistentStore`, `KeyValueRuns`, `KeyValueAnswers` |
| SOME/IP messages on a TCP stream | `SomeIpMessage`, `SomeIpStream`, `SomeIpDelivery` |
| Rate limiter of the API gateway | `RateLimiter` |
| A/B updates: slot backend and transaction manager | `UpdateManager`, `UpdateRuns` |
| Shared: octets, words, modular arithmetic, decimals | `Bytes`, `Words`, `Modular`, `Suffixes`, `Decimals`, `ServiceTypes` |

Each operation that changes state is a method of a class, or a method with the loop of the code, proved equal to a
function from the state before to the state after. Those functions are what the runs are made of: a run is any list of
operations with any arguments, and the main results are invariants over all of them, round trips in both directions,
and what a receiver can conclude from what it accepts.

Octets are numbers below 256, machine integers have their width written out, and 32-bit words under bitwise operations
are sequences of 32 binary digits, low digit first. A `Result` of the code is an `Option` here: which refusal came
first is kept where it decides the state left behind, its text is not. Whether the access policy allows an operation,
the clock, the datagrams a network delivers, the pieces `recv` and `send` work in and the order a directory lists its
files are arguments, or arbitrary; and so is which changes of a directory and which system calls fail.

Where the code does not keep to a property, the model follows the code and the exact condition is proved:

- An RTPS message whose ACKNACK bitmap wraps past 2^64 is parsed but cannot be serialized again
  (`RtpsRoundTrip.ParsedSerializes`, `WrappedDatagramIsParsed`).
- The size of an ACKNACK over almost all 64-bit numbers is reckoned too small; it is refused for another reason
  (`RtpsMessage.WidestSpanIsReckonedEmpty`, `ReckoningIsExact`).
- A reader never returns from a heartbeat that passes its checks and ends at 2^64 - 1
  (`ReliableReader.ReturnsUnlessAtLastNumber`, `ReliableRepair.SomeCallNeverReturns`).
- A repetition limit of 2^32 - 1 is no limit (`E2eRuns.LimitHoldsBelowSaturation`).
- Cutting an empty payload changes nothing, and a stale timestamp is not stale while the clock is within the timeout
  (`E2eRuns.TruncationDetected`, `StaleTimestampDetected`).
- A duplicate window that wraps in 64 bits forgets samples that are still queued
  (`RawDataStreamRuns.WrappedWindowForgets`).
- Restoring a backup leaves the files of entries the backup lacks (`KeyValueRuns.RestoreLeavesOldFiles`).
- A removal whose file cannot be erased is undone by reopening, and a migration that stops early leaves files behind
  (`KeyValueRuns.FailedRemovalReturns`, `MigrationMirrorsIfComplete`).
- A SOME/IP message with service id zero is received but cannot be sent (`SomeIpMessage.SerializeParsed`).

## Model

| member | source | states |
|---|---|---|
| `ReliableRuns.EveryRunIsSafe` | bsw/communication/dds-binding/src/dds_binding.cpp:1466-1739 | In every state of every run of one writer and one reader, over a network that drops, repeats and reorders datagrams and with arbitrary heartbeats and ACKNACKs: the history is the contiguous last min(depth, published) numbers ending at next-1, each with its own sample; each number is accepted at most once and with exactly the payload published under it; the received list is strictly ascending and is the set of accepted numbers |
| `ReliableRuns.StepKeepsSafe` | bsw/communication/dds-binding/src/dds_binding.cpp:1466-1820 | Every single operation, with any arguments, preserves that invariant |
| `ReliableRuns.EveryRunKeepsLimits` | bsw/communication/dds-binding/src/dds_binding.cpp:1661-1820 | In every state of every run the reader holds no more samples and writers than its profile allows, no writer has two records, and the last number of every record was received |
| `ReliableRuns.ExpiryIsExact` | bsw/communication/dds-binding/src/dds_binding.cpp:1163-1181 | Expiry removes exactly the writers whose lease has passed |
| `ReliableRepair.HeartbeatNamesHistory` | bsw/communication/dds-binding/src/dds_binding.cpp:1520-1554 | A heartbeat survives the wire and announces exactly the numbers still in the history |
| `ReliableRepair.AckNackNamesMissing` | bsw/communication/dds-binding/src/dds_binding.cpp:1741-1803 | The ACKNACK lists exactly the numbers of the announced range not yet received, is final exactly when there is none, and crosses the wire bitmap unchanged |
| `ReliableRepair.RepairsAreSent` | bsw/communication/dds-binding/src/dds_binding.cpp:1556-1602 | Every number an ACKNACK asks for from the history is found, and a datagram carrying it is sent |
| `ReliableRepair.LosslessRound` | bsw/communication/dds-binding/src/dds_binding.cpp:1520-1803 | After one heartbeat, its ACKNACK and the repairs, every number in the history has been received and accepted with the payload published under it, whatever else is delivered, in any order and any number of times, as long as each repair arrives once |
| `ReliableRepair.SecondAnswerIsEmpty` | bsw/communication/dds-binding/src/dds_binding.cpp:1520-1803 | After such a round the next one can follow, the two 32-bit counts permitting, and its heartbeat is answered with an ACKNACK that reaches the writer, names nothing and is final |
| `ReliableRepair.NothingMissingIsFinal` | bsw/communication/dds-binding/src/dds_binding.cpp:1741-1803 | To any heartbeat that passes the checks and asks only about received numbers a reader answers with an empty list and the final flag |
| `ReliableRepair.LastHeartbeatHangs` | bsw/communication/dds-binding/src/dds_binding.cpp:1741-1787 | A heartbeat about the number 2^64-1 alone is printed and parsed like any other, passes every check of a matched reader, and the call never returns |
| `ReliableRepair.SomeCallNeverReturns` | bsw/communication/dds-binding/src/dds_binding.cpp:1741-1787 | A concrete reader, writer and heartbeat for which that happens |
| `ReliableReader.ReturnsUnlessAtLastNumber` | bsw/communication/dds-binding/src/dds_binding.cpp:1741-1787 | The call returns exactly unless the heartbeat passes every check before the loop and its range ends at 2^64-1; it then answers with what the loop has collected, turn by turn in 64-bit arithmetic, when its variable first passes the last number |
| `ReliableReader.NotReceivedMembers` | bsw/communication/dds-binding/src/dds_binding.cpp:1780-1787 | The collected list is ascending and holds exactly the numbers of the range not in the received list |
| `ReliableWriter.DdsReliableWriter.BuildSample` | bsw/communication/dds-binding/src/dds_binding.cpp:1466-1518 | Refines `SampleBuilt`, which `ReliableMessages.BuiltSampleIsExact` is about: publishing in place: the new history, numbers and message, and the refusals in the order of the code; the history drops its oldest entry beyond the depth |
| `ReliableWriter.DdsReliableWriter.BuildHeartbeat` | bsw/communication/dds-binding/src/dds_binding.cpp:1520-1554 | Refines `HeartbeatBuilt`, which `ReliableMessages.HeartbeatIsExact` is about: announcing the first and last number held, under a new count |
| `ReliableWriter.DdsReliableWriter.BuildRepairSamples` | bsw/communication/dds-binding/src/dds_binding.cpp:1556-1602 | Refines `RepairSamplesBuilt`, which `ReliableMessages.RepairsAreExact` is about: looking up every number of a matched ACKNACK; one that is no longer held refuses the whole request |
| `ReliableWriter.DdsReliableWriter.BuildHistoricalSamples` | bsw/communication/dds-binding/src/dds_binding.cpp:1604-1639 | Refines `HistoricalSamplesBuilt`, which `ReliableMessages.LateJoinerCatchesUp` is about: replaying the whole history to a late joiner, each sample readdressed to it under its old number |
| `ReliableReader.DdsReliableReader.AcceptSample` | bsw/communication/dds-binding/src/dds_binding.cpp:1661-1739 | Refines `SampleAccepted`, which `ReliableRecords.VerdictIsExact` is about: accepting a sample: the writer record, the duplicate check, the limits, the sorted insertion and the counters, with the refusals in the order of the code |
| `ReliableReader.DdsReliableReader.BuildAckNack` | bsw/communication/dds-binding/src/dds_binding.cpp:1741-1803 | Refines `AckNackBuilt`, which `ReliableMessages.AnswerIsExact` is about: answering a heartbeat in place, the missing numbers collected by the loop of the code |
| `ReliableReader.DdsReliableReader.RemoveExpiredWriters` | bsw/communication/dds-binding/src/dds_binding.cpp:1805-1820 | Refines `WritersExpired`, which `ReliableRecords.ExpiryDropsLapsed` is about: dropping exactly the writers whose lease has passed and counting them as lost |
| `ReliableReader.RemoveExpiredWriterStates` | bsw/communication/dds-binding/src/dds_binding.cpp:1163-1181 | Refines `Unexpired`, which `ReliableRuns.ExpiryIsExact` is about: the erasing loop keeps exactly the writers within their lease, in order |
| `ReliableRecords.RecordsFollowTheLog` | bsw/communication/dds-binding/src/dds_binding.cpp:1661-1820 | In every state of every run, by the log of what was accepted and when: a writer has a record exactly while it was heard from and no expiry since came more than the lease later; it has one record, and that holds the time it was last heard from and the largest number heard since the record was made |
| `ReliableRecords.ExpiryDropsLapsed` | bsw/communication/dds-binding/src/dds_binding.cpp:1805-1820 | So in every reachable state expiry drops a recorded writer exactly if the lease is not zero and the writer was last heard from more than the lease ago; it returns and counts how many it dropped |
| `ReliableRecords.VerdictIsExact` | bsw/communication/dds-binding/src/dds_binding.cpp:1661-1739 | A message that concerns the reader is accepted exactly if there is room for its writer and for the sample, its number is new and its payload decodes; a refusal changes no record, and each counter moves exactly for its own reason, deadline misses included |
| `ReliableRecords.OthersAreIgnored` | bsw/communication/dds-binding/src/dds_binding.cpp:1661-1690 | A message of another participant, or without numbered data of the matched writer for this reader first, changes nothing |
| `ReliableMessages.BuiltSampleIsExact` | bsw/communication/dds-binding/src/dds_binding.cpp:1466-1518 | A sample is built exactly if profile, match and depth allow it, numbers are left, it is the mapping's own and topic, type and payload take at most 1334 octets; it is addressed to the matched reader, decodes to the payload under the next number and becomes the last history entry |
| `ReliableMessages.HeartbeatIsExact` | bsw/communication/dds-binding/src/dds_binding.cpp:1520-1554 | A heartbeat is built exactly if there is history; it names the first and last number held to the matched reader under the next count, with the final flag as asked |
| `ReliableMessages.AnswerIsExact` | bsw/communication/dds-binding/src/dds_binding.cpp:1741-1803 | A heartbeat is answered exactly if it is the matched writer's first to this reader and names 1 to 256 numbers, none of them zero; the answer asks that writer for exactly what is missing, from the first number on and under the next count, and nothing else of the reader changes |
| `ReliableMessages.OthersGetNoAnswer` | bsw/communication/dds-binding/src/dds_binding.cpp:1741-1803 | Heartbeats of anyone else are not answered |
| `ReliableMessages.RepairsAreExact` | bsw/communication/dds-binding/src/dds_binding.cpp:1556-1602 | Repairs are built exactly if the first ACKNACK of the matched reader names only numbers still held: one message for each, in the order asked, as stored under that number |
| `ReliableMessages.OthersAreRefused` | bsw/communication/dds-binding/src/dds_binding.cpp:1556-1602 | An ACKNACK of anyone else is refused and changes nothing |
| `ReliableMessages.ReplayIsHistory` | bsw/communication/dds-binding/src/dds_binding.cpp:1604-1639 | A replay is one message for each history entry, in order, the same as stored but addressed to the matched reader; it is built exactly for transient-local durability |
| `ReliableMessages.HistoryIsAddressed` | bsw/communication/dds-binding/src/dds_binding.cpp:1466-1518 | Over every run that publishes to one reader only, the whole history is addressed to that reader, which is what a repair round relies on |
| `ReliableMessages.LateJoinerCatchesUp` | bsw/communication/dds-binding/src/dds_binding.cpp:1604-1739 | Whomever the history was addressed to before, a reader with room to which it is replayed has in the end accepted every sample of it with the payload published under its number, whatever else is delivered, in any order and however often |
| `EndpointMatching.DiscoveryPairs` | bsw/communication/dds-binding/src/dds_binding.cpp:1012-1088 | A compatible reliable writer and reader of one service that announce themselves to each other end up with the pair of matches that a repair round and a replay rely on |
| `EndpointMatching.MatchingIsMutual` | bsw/communication/dds-binding/src/dds_binding.cpp:2145-2166 | A writer matches the announcement of a reader, as it arrives, exactly if the reader matches the writer's: if topics, types and policies agree and the participants differ |
| `EndpointMatching.MatchIsExact` | bsw/communication/dds-binding/src/dds_binding.cpp:982-1047 | A match is built exactly for an endpoint of the other role and another participant that announces the mapping's own topic, type and policies |
| `EndpointMatching.AcceptedMatchWasBuilt` | bsw/communication/dds-binding/src/dds_binding.cpp:1049-1079 | The operations accept exactly the matches built for a valid mapping and a named endpoint |
| `EndpointMatching.ProfileIsExact` | bsw/communication/dds-binding/src/dds_binding.cpp:84-192 | A reliable mapping names a whole service and topic, type and event, has the supported policies, and limits that can be kept |
| `SampleEnvelope.EncodeSamplePayload` | bsw/communication/dds-binding/src/dds_binding.cpp:308-347 | Refines `Encoded`, which `SampleEnvelope.DecodedIsEncoded` is about: the envelope octets, appended field by field |
| `SampleEnvelope.EnvelopeRoundTrip` | bsw/communication/dds-binding/src/dds_binding.cpp:308-408 | An envelope is decoded exactly by a mapping with the same service, instance, topic and type, and then to the payload that was encoded |
| `SampleEnvelope.DecodedIsEncoded` | bsw/communication/dds-binding/src/dds_binding.cpp:308-408 | A valid mapping decodes exactly the octets it encodes, to the sample they were encoded from |
| `RtpsRoundTrip.SerializedParses` | bsw/communication/dds-rtps/src/rtps_message.cpp:170-441 | Every message the serializer accepts, with any number of DATA, HEARTBEAT and ACKNACK submessages, parses back to the same message with each missing list sorted and without duplicates; the octets written are as many as computed beforehand and fit a datagram |
| `RtpsRoundTrip.ParsedSerializes` | bsw/communication/dds-rtps/src/rtps_message.cpp:276-441 | A parsed message serializes again exactly when no bitmap number wrapped past 2^64 and it fits a datagram, then to no more octets than were parsed, which parse to the same message |
| `RtpsGrammar.ParsedIsMessage` | bsw/communication/dds-rtps/src/rtps_message.cpp:276-441 | The parser accepts exactly the octets that are a message: the header of this version and vendor, and DATA, HEARTBEAT and ACKNACK submessages, octet for octet as they are laid out, one after the other to the end; it returns those of each kind in their order |
| `RtpsGrammar.SubmessageIsRead` | bsw/communication/dds-rtps/src/rtps_message.cpp:301-432 | The first submessage read is the one, of whatever length, that stands at the beginning; flags of other kinds and bits behind the bitmap do not matter |
| `RtpsGrammar.DataPrints` | bsw/communication/dds-rtps/src/rtps_message.cpp:200-221 | A DATA submessage is printed exactly with a number and 1 to 65515 octets of payload, in this layout |
| `RtpsGrammar.HeartbeatPrints` | bsw/communication/dds-rtps/src/rtps_message.cpp:222-246 | A HEARTBEAT is printed exactly with a range from 1 on and a count, in this layout |
| `RtpsGrammar.AckNackPrints` | bsw/communication/dds-rtps/src/rtps_message.cpp:247-274 | An ACKNACK is printed exactly with a base, a count and only numbers within 256 of the base, in this layout and a bitmap as short as they allow |
| `RtpsRoundTrip.WrappedDatagramIsParsed` | bsw/communication/dds-rtps/src/rtps_message.cpp:276-441 | A concrete datagram with an ACKNACK whose bitmap wraps past 2^64 is parsed to a message that the serializer refuses |
| `RtpsRoundTrip.WrappedNumberIsParsed` | bsw/communication/dds-rtps/src/rtps_message.cpp:381-423 | Its ACKNACK body asks for the number 0 behind the base 2^64-1 |
| `AckNackBitmap.AckNackBitmapWords` | bsw/communication/dds-rtps/src/rtps_message.cpp:84-138 | Refines `BitmapOf`, which `AckNackBitmap.BitmapRoundTrip` is about: the bitmap built in place by setting bits word by word; refused when a number lies before the base or 256 or more behind it |
| `AckNackBitmap.BitmapRoundTrip` | bsw/communication/dds-rtps/src/rtps_message.cpp:84-138 | The bits, high bit first in little-endian words, read back as exactly the missing numbers, ascending |
| `AckNackBitmap.ParsedListRewritable` | bsw/communication/dds-rtps/src/rtps_message.cpp:394-417 | A missing list read from a bitmap can be written again exactly when none of its numbers wrapped to before the base, and then in no more bits |
| `RtpsCodec.SerializedSize` | bsw/communication/dds-rtps/src/rtps_message.cpp:140-166 | Refines `ReckonedSize`, which `RtpsMessage.ReckoningIsExact` is about: the size as reckoned in 64-bit arithmetic, wraps included |
| `RtpsMessage.ReckoningIsExact` | bsw/communication/dds-rtps/src/rtps_message.cpp:140-200 | The wraps never show: if the octets a message would print to can be counted in 64 bits, the serializer that reckons so returns what one reckoning without wraps would |
| `RtpsMessage.WidestSpanIsReckonedEmpty` | bsw/communication/dds-rtps/src/rtps_message.cpp:155-162 | An ACKNACK over a span of 2^64-1 numbers is reckoned to need no bitmap word; it is refused all the same |
| `RtpsCodec.SerializeRtpsMessage` | bsw/communication/dds-rtps/src/rtps_message.cpp:170-274 | Refines `SerializedAsReckoned`, which `RtpsMessage.ReckoningIsExact` is about: serializing by appending, with every refusal of the code |
| `RtpsCodec.DeserializeRtpsMessage` | bsw/communication/dds-rtps/src/rtps_message.cpp:276-441 | Refines `Parsed`, which `RtpsGrammar.ParsedIsMessage` is about: the parse loop over a growing offset ends and yields what the recursive reading of the octets yields |
| `RtpsCodec.ReadMissing` | bsw/communication/dds-rtps/src/rtps_message.cpp:394-417 | Refines `MissingIn`, which `AckNackBitmap.BitmapRoundTrip` is about: the loop over the bitmap collects the numbers of the set bits in order |
| `E2eDetection.CorruptionRejected` | bsw/communication/e2e-protection/src/e2e_protection.cpp:304-445 | No receiver, whatever its state, accepts a frame that differs from a fault-free one within four consecutive octets before the CRC field, of the length and CRC fields, or behind them; and its state does not change |
| `E2eDetection.OneOctetRejected` | bsw/communication/e2e-protection/src/e2e_protection.cpp:304-445 | In particular a frame with exactly one wrong octet, header, CRC or payload, however long the payload |
| `E2eDetection.PayloadBurstRejected` | bsw/communication/e2e-protection/src/e2e_protection.cpp:291-445 | A payload error burst of up to 32 bits, not aligned to octets, is rejected |
| `E2eDetection.PassingFrameWasSent` | bsw/communication/e2e-protection/src/e2e_protection.cpp:365-445 | A frame that passes the stateless checks is octet for octet the one a sender emits for the payload, counter and time it carries |
| `E2eDetection.SentFramePasses` | bsw/communication/e2e-protection/src/e2e_protection.cpp:304-445 | Conversely every fault-free frame in time passes them with its payload |
| `E2eRuns.UntouchedFrameAccepted` | bsw/communication/e2e-protection/src/e2e_protection.cpp:365-445 | A receiver that has seen nothing accepts every untouched frame in time, with the original payload, and remembers its counter |
| `E2eVerdicts.VerdictIsExact` | bsw/communication/e2e-protection/src/e2e_protection.cpp:365-445 | The verdict on every well-formed frame: an unsound one is refused for its first fault and leaves the receiver as it is; a sound one is new to a receiver that has seen nothing, a repetition if it has the last counter, accepted up to the limit and counted, new and remembered if it is 1 to max_delta ahead round the counter range, and refused otherwise |
| `E2eVerdicts.WellFormedIsPrinted` | bsw/communication/e2e-protection/src/e2e_protection.cpp:150-220 | A frame can be taken apart exactly if it is the printed form of some header and payload |
| `E2eVerdicts.MalformedIsRefused` | bsw/communication/e2e-protection/src/e2e_protection.cpp:365-385 | A frame that cannot is refused for what is wrong with it and leaves the receiver as it is |
| `E2eVerdicts.ProtectionIsExact` | bsw/communication/e2e-protection/src/e2e_protection.cpp:304-363 | A frame is built exactly for a fit configuration, a payload whose length fits and a counter in range; without a fault it is the printed form of the configured header, sealed, and the payload |
| `E2eVerdicts.NextIsExact` | bsw/communication/e2e-protection/src/e2e_protection.cpp:272-289 | The next counter is one more, and zero after the last of its 4, 8, 16 or 32 bits |
| `E2eVerdicts.DeltaIsExact` | bsw/communication/e2e-protection/src/e2e_protection.cpp:136-148 | The distance is the number of steps forward from one counter to the other |
| `E2eVerdicts.ConfigIsFit` | bsw/communication/e2e-protection/src/e2e_protection.cpp:239-270 | A counter has 4, 8, 16 or 32 bits and nothing else in a configuration is zero or empty |
| `E2eRuns.ReceiverStep` | bsw/communication/e2e-protection/src/e2e_protection.cpp:410-444 | A rejected frame changes nothing but the repetition count; an accepted new one advances the counter by 1 to max_delta |
| `E2eRuns.AcceptedWasSent` | bsw/communication/e2e-protection/src/e2e_protection.cpp:365-445 | Whatever is accepted, as new or repeated, carries the payload of a frame a sender emitted in time |
| `E2eRuns.CountersAdvance` | bsw/communication/e2e-protection/src/e2e_protection.cpp:410-444 | Over any run of arriving frames the counters accepted as new advance by 1 to max_delta modulo the counter range each time |
| `E2eRuns.RepeatsAreBounded` | bsw/communication/e2e-protection/src/e2e_protection.cpp:410-423 | Between two new frames at most max_repetitions repeats are accepted, for max_repetitions below 2^32-1 |
| `E2eRuns.UnlimitedRepeats` | bsw/communication/e2e-protection/src/e2e_protection.cpp:410-423 | With max_repetitions at 2^32-1 any number n of copies of a repeated frame are all accepted, none of them as new |
| `E2eRuns.LimitHoldsBelowSaturation` | bsw/communication/e2e-protection/src/e2e_protection.cpp:410-423 | So the limit on accepted repeats holds over all runs exactly when it is below 2^32-1; at 2^32-1, 2^32 copies of one frame exceed it |
| `E2eRuns.AfterLosses` | bsw/communication/e2e-protection/src/e2e_protection.cpp:136-148 | The first frame to get through after k lost ones is accepted as new exactly when (k+1) modulo the counter range is 1 to max_delta |
| `E2eRuns.LossyChannelDelivers` | bsw/communication/e2e-protection/src/e2e_protection.cpp:272-444 | With fewer than max_delta losses in a row and frames in time, every frame that gets through is accepted with its payload, for any number of frames |
| `E2eRuns.DeltaOfAdvanced` | bsw/communication/e2e-protection/src/e2e_protection.cpp:136-148 | The distance to a counter n steps ahead is n modulo the counter range |
| `E2eRuns.AdvancedIsModular` | bsw/communication/e2e-protection/src/e2e_protection.cpp:272-289 | n applications of the sender counter add n modulo the counter range |
| `E2eRuns.CorruptCrcDetected` | bsw/communication/e2e-protection/src/e2e_protection.cpp:345-353 | The injected CRC fault is a CRC mismatch to every receiver |
| `E2eRuns.WrongDataIdDetected` | bsw/communication/e2e-protection/src/e2e_protection.cpp:323-343 | The injected data id fault is reported as such by every receiver |
| `E2eRuns.RepeatCounterDetected` | bsw/communication/e2e-protection/src/e2e_protection.cpp:323-343 | The injected repeated counter is reported as a repetition by the receiver in step with the sender |
| `E2eRuns.TruncationDetected` | bsw/communication/e2e-protection/src/e2e_protection.cpp:345-353 | The injected truncation is malformed exactly when there was a payload octet to cut off |
| `E2eRuns.StaleTimestampDetected` | bsw/communication/e2e-protection/src/e2e_protection.cpp:323-343 | The injected stale timestamp times out exactly when the clock of the receiver has passed the timeout and is not behind the sending time |
| `Crc32.CalculateCrc32` | bsw/communication/e2e-protection/src/e2e_protection.cpp:291-302 | Refines `Checksum`, which `Crc32.RegisterIsBitSerial` is about: the octet and bit loops compute the CRC |
| `Crc32.RegisterIsBitSerial` | bsw/communication/e2e-protection/src/e2e_protection.cpp:291-302 | The octet loop computes the bit-serial shift register of the whole message, low bit of each octet first |
| `Crc32.BurstDetected` | bsw/communication/e2e-protection/src/e2e_protection.cpp:291-302 | Two messages of one length that differ in a burst of at most 32 bits have different CRCs |
| `Crc32.FourOctetsDetected` | bsw/communication/e2e-protection/src/e2e_protection.cpp:291-302 | Two messages of one length that differ within four consecutive octets have different CRCs |
| `E2eFrame.ParseProtectedFrame` | bsw/communication/e2e-protection/src/e2e_protection.cpp:150-220 | Refines `Parsed`, which `E2eFrame.ParseSerialized` is about: the header checks in the order of the code |
| `E2eFrame.ParseSerialized` | bsw/communication/e2e-protection/src/e2e_protection.cpp:107-220 | A serialized frame parses to exactly its header and payload |
| `E2eFrame.SerializeParsed` | bsw/communication/e2e-protection/src/e2e_protection.cpp:150-220 | An accepted frame is the serialization of what was parsed |
| `E2eProtection.ProtectPayload` | bsw/communication/e2e-protection/src/e2e_protection.cpp:304-363 | Refines `Protected`, which `E2eVerdicts.ProtectionIsExact` is about: building a frame, with the fault to inject, by appending |
| `E2eProtection.CheckPayload` | bsw/communication/e2e-protection/src/e2e_protection.cpp:365-445 | Refines `Checked`, which `E2eVerdicts.VerdictIsExact` is about: checking a frame in place against the receiver state, or without one as a receiver that has seen nothing |
| `RawDataStreamReassembly.ReassembledInAnyOrder` | bsw/communication/raw-data-stream/src/raw_data_stream.cpp:262-329 | When the last missing fragment of a fresh sequence arrives, exactly one sample is enqueued, the fragments joined in index order, whatever order they came in and however interleaved with frames of other sequences and polls; none was enqueued before |
| `RawDataStreamReassembly.PieceIsDuplicateIfSeen` | bsw/communication/raw-data-stream/src/raw_data_stream.cpp:161-186 | A fragment of a sequence under way is a duplicate exactly when it was seen before |
| `RawDataStreamReassembly.WrongOctetIsCorrupt` | bsw/communication/raw-data-stream/src/raw_data_stream.cpp:74-104 | A frame whose non-zero checksum does not fit because one payload octet is wrong is rejected as corrupt and changes neither queue, fragments nor completed list |
| `RawDataStreamRuns.InvariantHolds` | bsw/communication/raw-data-stream/src/raw_data_stream.cpp:74-341 | In every reachable state: each pending entry has the byte total of its fragments, a sequence of its own and a fragment missing; what was enqueued is what was polled or dropped, in order, followed by what is queued; the completed list is the last queue_depth + max_fragments sequences enqueued, and no sequence is enqueued again while among them |
| `RawDataStreamRuns.CompletedIsDistinct` | bsw/communication/raw-data-stream/src/raw_data_stream.cpp:331-341 | The completed list never holds a sequence twice |
| `RawDataStreamRuns.QueueEndsCompleted` | bsw/communication/raw-data-stream/src/raw_data_stream.cpp:161-186 | Below wrap of the window the queued sequences are a suffix of the completed list, so the separate scan of the queue finds nothing more |
| `RawDataStreamRuns.ReceiptTells` | bsw/communication/raw-data-stream/src/raw_data_stream.cpp:74-305 | The receipt of every push names the sequence, the queue length afterwards and what was dropped; each counter of refusals moves exactly with its status, and a refused frame leaves queue and completed list alone |
| `RawDataStreamRuns.WrappedWindowForgets` | bsw/communication/raw-data-stream/src/raw_data_stream.cpp:336-341 | For every configuration whose window sum wraps, some run leaves a sample queued whose number is no longer remembered |
| `RawDataStreamContents.EverySampleIsExplained` | bsw/communication/raw-data-stream/src/raw_data_stream.cpp:74-341 | In every state of every run each queued, polled or dropped sample has the payload of the one frame, or the joined payloads of the fragments in index order, pushed under its sequence before, and its time and checksum |
| `RawDataStreamContents.JoinedRestores` | bsw/communication/raw-data-stream/src/raw_data_stream.cpp:313-329 | Cutting a payload into pieces anywhere and joining them again gives the payload |
| `RawDataStreamContents.WholeFrameIsQueued` | bsw/communication/raw-data-stream/src/raw_data_stream.cpp:249-260 | A whole frame that is valid, intact, in time and new is queued last with its own channel, sequence, time and payload, and that payload's checksum, if the queue has room or drops its oldest |
| `RawDataStreamContents.FullQueueRefuses` | bsw/communication/raw-data-stream/src/raw_data_stream.cpp:218-247 | If the queue is full and refuses, such a frame leaves it as it is |
| `RawDataStreamContents.RefusedFor` | bsw/communication/raw-data-stream/src/raw_data_stream.cpp:74-104 | A frame is malformed, corrupt, stale or a duplicate exactly if it is not valid, its checksum does not fit, it is late, or it was seen before, the first of these that holds |
| `RawDataStreamContents.LatestTimeMoves` | bsw/communication/raw-data-stream/src/raw_data_stream.cpp:74-104 | The latest time is the largest of the frames that were valid, intact and not late |
| `RawDataStreamContents.NewFramesAreCounted` | bsw/communication/raw-data-stream/src/raw_data_stream.cpp:74-104 | Exactly the frames that are acceptable, in time and new are counted as accepted |
| `RawDataStreamContents.PollTakesOldest` | bsw/communication/raw-data-stream/src/raw_data_stream.cpp:106-115 | A poll hands out the oldest queued sample and leaves the others in order |
| `RawDataStream.RawDataStreamChannel.Push` | bsw/communication/raw-data-stream/src/raw_data_stream.cpp:74-104 | Refines `Pushed`, which `RawDataStreamContents.EverySampleIsExplained` is about: pushing a frame in place: validation, checksum, staleness, duplicates, then enqueueing or reassembly |
| `RawDataStream.RawDataStreamChannel.PushFragmented` | bsw/communication/raw-data-stream/src/raw_data_stream.cpp:262-305 | Refines `PushedFragment`, which `RawDataStreamReassembly.ReassembledInAnyOrder` is about: storing a fragment in place, and on the last one assembling and enqueueing |
| `RawDataStream.RawDataStreamChannel.Enqueue` | bsw/communication/raw-data-stream/src/raw_data_stream.cpp:218-247 | Refines `Enqueued`, which `RawDataStreamRuns.InvariantHolds` is about: the two overflow policies: refuse, or drop the oldest |
| `RawDataStream.RawDataStreamChannel.Poll` | bsw/communication/raw-data-stream/src/raw_data_stream.cpp:106-115 | Refines `Polled`, which `RawDataStreamContents.PollTakesOldest` is about: taking the oldest sample |
| `RawDataStream.Assemble` | bsw/communication/raw-data-stream/src/raw_data_stream.cpp:313-329 | The joining loop concatenates the fragments in index order |
| `StreamChecksum.CalculateChecksum` | bsw/communication/raw-data-stream/src/raw_data_stream.cpp:55-62 | The checksum loop |
| `StreamChecksum.OneOctetShows` | bsw/communication/raw-data-stream/src/raw_data_stream.cpp:55-62 | Any one wrong octet changes the checksum, however long the payload |
| `RegistryRuns.InvariantHolds` | bsw/communication/ara-com-runtime/src/service_registry.cpp:275-1065 | In every reachable state each correlation id is in at most one place of queued calls, in-flight calls and queued results; the call of every unresolved future is queued or in flight unchanged; every future handed out is either unresolved or has its outcome; and calls, results, field values and field and trigger subscriptions belong to offered services |
| `RegistryRuns.SettledOnce` | bsw/communication/ara-com-runtime/src/service_registry.cpp:469-517 | A future gets an outcome only by the completion of its own call or the stop of its service, and keeps it |
| `RegistryRuns.OutcomeIsFinal` | bsw/communication/ara-com-runtime/src/service_registry.cpp:469-517 | Over every run an outcome, once there, is the same in every later state |
| `RegistryAnswers.ResultsAnswerTheirCalls` | bsw/communication/ara-com-runtime/src/service_registry.cpp:352-563 | Over every run: each call taken was submitted before; each answer was given, with the id, service and method, to a call taken before; and each result returned to a caller was given as such an answer before |
| `RegistryConservation.NothingIsLost` | bsw/communication/ara-com-runtime/src/service_registry.cpp:352-563 | As long as a service is not stopped, over every run the calls of each of its methods are taken in exactly the order queued, none left out and none twice, and the results given are those returned and those still queued, none lost and none doubled |
| `RegistryAnswers.RightResultIsReturned` | bsw/communication/ara-com-runtime/src/service_registry.cpp:519-563 | The result returned has the id asked for, and it and no other leaves the queue of the method; there is one exactly if one with the id is queued |
| `RegistryAnswers.ReturnedResultIsTheOnlyOne` | bsw/communication/ara-com-runtime/src/service_registry.cpp:519-563 | In a reachable state no other result with that id is queued anywhere |
| `RegistryAnswers.OldestCallIsTaken` | bsw/communication/ara-com-runtime/src/service_registry.cpp:428-457 | The oldest queued call of the method is taken, and is in flight from then on exactly if it expects a response |
| `RegistryAnswers.CompletionAnswers` | bsw/communication/ara-com-runtime/src/service_registry.cpp:469-517 | A result is accepted exactly for a call in flight on that very method; it is queued, returned and settles the future of the call |
| `RegistryAnswers.SubmissionQueues` | bsw/communication/ara-com-runtime/src/service_registry.cpp:352-397 | A call is queued last as given, under its own id or a new one that is free and not zero, exactly if its service is offered, it names a method, it is allowed and its id is not known |
| `RegistryAnswers.SubmissionPromises` | bsw/communication/ara-com-runtime/src/service_registry.cpp:399-426 | A future is handed out exactly for a call that is queued and expects a response |
| `RegistryConservation.NewIdIsFirstFree` | bsw/communication/ara-com-runtime/src/service_registry.cpp:375-384 | A new id is the first free one from the counter on, round the end and past zero, and the counter then stands behind it |
| `RegistryOutcomes.OfferMakesAvailable` | bsw/communication/ara-com-runtime/src/service_registry.cpp:94-115 | An offer is taken up exactly if it is complete and allowed, and makes its own service available and no other |
| `RegistryOutcomes.StopMarksOffer` | bsw/communication/ara-com-runtime/src/service_registry.cpp:117-129 | A stop succeeds exactly for a service that was ever offered, marks its offer and no other, and as failed if its endpoint was invalidated |
| `RegistryRuns.StopErasesExactly` | bsw/communication/ara-com-runtime/src/service_registry.cpp:999-1065 | Stopping a service leaves nothing of its calls, results, futures, field values, field and trigger subscriptions, and leaves those of every other service, and all event subscriptions, as they were |
| `RegistryRuns.StepKeepsInvariant` | bsw/communication/ara-com-runtime/src/service_registry.cpp:275-1065 | Every single operation preserves the invariant |
| `ServiceKeys.PrefixIdentifiesService` | bsw/communication/ara-com-runtime/src/service_registry.cpp:980-997 | A member key begins with a service key and a colon exactly when it belongs to that service |
| `ServiceKeys.KeyIsInjective` | bsw/communication/ara-com-runtime/src/service_registry.cpp:980-985 | Different services have different keys |
| `ServiceKeys.MemberKeyIsInjective` | bsw/communication/ara-com-runtime/src/service_registry.cpp:987-997 | Different members have different keys |
| `ServiceRegistry.SomeIdIsFree` | bsw/communication/ara-com-runtime/src/service_registry.cpp:375-384 | As long as fewer than 2^64-1 ids are known, one of the candidates the loop tries, wrapping round past zero, is free |
| `ServiceRegistry.LoopEndsIfIdsAreLeft` | bsw/communication/ara-com-runtime/src/service_registry.cpp:375-384 | The loop meets a free candidate exactly if some non-zero id is not known |
| `RegistryObject.Registrar.AllocateId` | bsw/communication/ara-com-runtime/src/service_registry.cpp:375-384 | The allocation loop ends with a non-zero id that is not known |
| `RegistryObject.Registrar.SubmitMethodCall` | bsw/communication/ara-com-runtime/src/service_registry.cpp:352-397 | Refines `Submitted`, which `RegistryAnswers.SubmissionQueues` is about: submitting a call in place under a given or a new id |
| `RegistryObject.Registrar.SubmitMethodCallFuture` | bsw/communication/ara-com-runtime/src/service_registry.cpp:399-426 | Refines `FutureSubmitted`, which `RegistryAnswers.SubmissionPromises` is about: submitting a call with a future |
| `RegistryObject.Registrar.TakeMethodCall` | bsw/communication/ara-com-runtime/src/service_registry.cpp:428-457 | Refines `CallTaken`, which `RegistryConservation.NothingIsLost` is about: taking the oldest call, in flight from then on if it expects a response |
| `RegistryObject.Registrar.CompleteMethodCall` | bsw/communication/ara-com-runtime/src/service_registry.cpp:469-517 | Refines `CallCompleted`, which `RegistryAnswers.ResultsAnswerTheirCalls` is about: completing a call in flight: the result is queued and its future settled |
| `RegistryObject.Registrar.TakeMethodResult` | bsw/communication/ara-com-runtime/src/service_registry.cpp:519-563 | Refines `ResultTaken`, which `RegistryConservation.NothingIsLost` is about: taking the first result with the id |
| `RegistryObject.Registrar.StopOffer` | bsw/communication/ara-com-runtime/src/service_registry.cpp:117-129 | Refines `Stopped`, which `RegistryRuns.StopErasesExactly` is about: stopping an offer and erasing the state of its service |
| `RegistryObject.Registrar.InvalidateEndpoint` | bsw/communication/ara-com-runtime/src/service_registry.cpp:870-882 | Refines `Stopped`, which `RegistryRuns.StopErasesExactly` is about: invalidating an endpoint erases the same state |
| `RegistryObject.Registrar.EraseMethodQueuesFor` | bsw/communication/ara-com-runtime/src/service_registry.cpp:999-1036 | The erasing loops over the method queues, calls in flight and futures |
| `RegistryObject.Registrar.Publish` | bsw/communication/ara-com-runtime/src/service_registry.cpp:275-314 | Refines `Published`, which `RegistryOutcomes.PublicationReaches` is about: numbering a sample and putting it into every matching queue |
| `RegistryObject.Registrar.SetField` | bsw/communication/ara-com-runtime/src/service_registry.cpp:575-615 | Refines `FieldSet`, which `RegistryOutcomes.LastValueIsRead` is about: storing and delivering a field value |
| `RegistryObject.Registrar.SubscribeField` | bsw/communication/ara-com-runtime/src/service_registry.cpp:676-720 | Refines `FieldSubscribed`, which `RegistryOutcomes.FieldSubscriptionIsNew` is about: subscribing to a field starts with its current value |
| `SubscriptionQueue.Deliver` | bsw/communication/ara-com-runtime/src/service_registry.cpp:303-311 | Refines `Delivered`, which `SubscriptionQueue.EveryRunKeepsSuffix` is about: the loop that makes room and appends |
| `SubscriptionQueue.EveryRunKeepsSuffix` | bsw/communication/ara-com-runtime/src/service_registry.cpp:275-330 | Over every run a queue is a contiguous suffix of what matched since subscribing, never longer than its depth; polls come in order, and an entry is lost only after depth newer ones matched |
| `RegistryQueues.SubscriptionSeesSuffix` | bsw/communication/ara-com-runtime/src/service_registry.cpp:275-330 | The same for an event subscription amid any other operations on the registry, with strictly increasing numbers below wrap of the counter |
| `RegistryQueues.FieldSubscriptionSeesSuffix` | bsw/communication/ara-com-runtime/src/service_registry.cpp:575-737 | The same for a field subscription, whose history begins with the value stored when it was made, until it is cancelled or its service stops |
| `RegistryQueues.TriggerSubscriptionSeesSuffix` | bsw/communication/ara-com-runtime/src/service_registry.cpp:739-868 | The same for a trigger subscription |
| `RegistryOutcomes.PolledEventsAreNext` | bsw/communication/ara-com-runtime/src/service_registry.cpp:275-330 | Over every run the polls of an event subscription hand out matched samples in the order sent, each at most once: at every poll the first that has not left the queue |
| `RegistryOutcomes.PolledFieldsAreNext` | bsw/communication/ara-com-runtime/src/service_registry.cpp:575-737 | The same for a field subscription, whose first entry is the value stored when it was made |
| `RegistryOutcomes.PolledTriggersAreNext` | bsw/communication/ara-com-runtime/src/service_registry.cpp:762-868 | The same for a trigger subscription |
| `RegistryOutcomes.PublicationReaches` | bsw/communication/ara-com-runtime/src/service_registry.cpp:275-314 | A sample is sent exactly if it is complete, its service offered and it is allowed; the next number is returned, every subscription to this event of this service receives it last, dropping one only if full, and no other notices |
| `RegistryOutcomes.FiringReaches` | bsw/communication/ara-com-runtime/src/service_registry.cpp:814-849 | The same for a trigger |
| `RegistryOutcomes.SettingReaches` | bsw/communication/ara-com-runtime/src/service_registry.cpp:575-615 | The same for a field, which can then be read back, while every other field reads as before |
| `RegistryOutcomes.LastValueIsRead` | bsw/communication/ara-com-runtime/src/service_registry.cpp:575-659 | Over every run a value that was set is what is read until the field is set again or its service stops |
| `RegistryOutcomes.ReadIsExact` | bsw/communication/ara-com-runtime/src/service_registry.cpp:630-659 | A field is read exactly if it is named, its service offered, reading allowed and a value stored |
| `RegistryOutcomes.IdsStayBelow` | bsw/communication/ara-com-runtime/src/service_registry.cpp:214-252 | Over every run in which the id counter does not wrap, no subscription of any kind has the id given out next |
| `RegistryOutcomes.EventSubscriptionIsNew` | bsw/communication/ara-com-runtime/src/service_registry.cpp:214-252 | So a subscription gets an id of its own and an empty queue; it is made exactly if the service is offered, the event named, the depth 1 to 64 and it is allowed |
| `RegistryOutcomes.FieldSubscriptionIsNew` | bsw/communication/ara-com-runtime/src/service_registry.cpp:676-720 | The same for a field, whose queue starts with the value that is read |
| `RegistryOutcomes.TriggerSubscriptionIsNew` | bsw/communication/ara-com-runtime/src/service_registry.cpp:762-801 | The same for a trigger |
| `RegistryOutcomes.UnsubscribeTakesOne` | bsw/communication/ara-com-runtime/src/service_registry.cpp:254-263 | Cancelling succeeds exactly for the id of a subscription of any kind, and leaves all others |
| `RegistryQueues.StepStaysApart` | bsw/communication/ara-com-runtime/src/service_registry.cpp:275-1065 | Every operation touches only its own kind of queue, and only those that number a sample move the counter, by one |
| `RegistryFields.FieldSubscriptionIsSeeded` | bsw/communication/ara-com-runtime/src/service_registry.cpp:676-720 | A new field subscription starts with exactly the stored value, if there is one |
| `RegistryFields.FieldsAreNumberedBelow` | bsw/communication/ara-com-runtime/src/service_registry.cpp:575-615 | In every reachable state below wrap every stored value carries a number given out before |
| `RegistryFields.FieldQueueEndsWithValue` | bsw/communication/ara-com-runtime/src/service_registry.cpp:575-737 | In every reachable state a non-empty field queue ends with the stored value |
| `RegistryFields.ReadAgreesWithQueue` | bsw/communication/ara-com-runtime/src/service_registry.cpp:630-659 | So a read of the field returns the last entry of each non-empty queue of its subscriptions |
| `SedpEndpoint.AnnouncementRoundTrip` | bsw/communication/dds-rtps/src/endpoint_discovery.cpp:168-395 | An endpoint announcement decodes to exactly the endpoint encoded, for all topic and type names |
| `SedpEndpoint.AnyOrderDecodes` | bsw/communication/dds-rtps/src/endpoint_discovery.cpp:274-395 | So does any permutation of its parameters with unknown ones inserted anywhere before the sentinel and anything behind it |
| `SedpEndpoint.StringRoundTrip` | bsw/communication/dds-rtps/src/endpoint_discovery.cpp:122-226 | A name of any length that fits is read back from its length-prefixed, terminated form |
| `DiscoveryAnnouncements.SedpPrints` | bsw/communication/dds-rtps/src/endpoint_discovery.cpp:168-210 | An endpoint is announced exactly if it is named, its policies are known and its names take at most 65530 octets, by these six parameters |
| `DiscoveryAnnouncements.SedpAnswer` | bsw/communication/dds-rtps/src/endpoint_discovery.cpp:274-395 | A printed list of parameters is accepted as an endpoint exactly if each of them is well formed and each of the six kinds is there, and every field is what the last parameter of its kind says |
| `SedpEndpoint.SerializeSedpPayload` | bsw/communication/dds-rtps/src/endpoint_discovery.cpp:168-210 | Refines `Serialized`, which `DiscoveryAnnouncements.SedpPrints` is about: the six parameters and the sentinel, appended |
| `SedpEndpoint.DeserializeSedpPayload` | bsw/communication/dds-rtps/src/endpoint_discovery.cpp:341-395 | Refines `Deserialized`, which `DiscoveryAnnouncements.SedpAnswer` is about: the parse loop over a growing offset |
| `SpdpParticipant.AnnouncementRoundTrip` | bsw/communication/dds-rtps/src/participant_discovery.cpp:154-367 | A participant announcement decodes to exactly the participant encoded, for every lease duration |
| `SpdpParticipant.AnyOrderDecodes` | bsw/communication/dds-rtps/src/participant_discovery.cpp:232-367 | So does any permutation with unknown parameters inserted |
| `SpdpParticipant.DurationRoundTrip` | bsw/communication/dds-rtps/src/participant_discovery.cpp:147-303 | Every lease in milliseconds is read back from its seconds and nanoseconds |
| `DiscoveryAnnouncements.SpdpPrints` | bsw/communication/dds-rtps/src/participant_discovery.cpp:154-191 | A participant is announced exactly if it names a vendor and neither endpoint set nor lease is zero, by these seven parameters |
| `DiscoveryAnnouncements.SpdpAnswer` | bsw/communication/dds-rtps/src/participant_discovery.cpp:232-367 | The same for a participant and its seven kinds; a duration is taken up to 4294967 seconds and comes to milliseconds modulo 2^32 |
| `SpdpParticipant.SerializeSpdpPayload` | bsw/communication/dds-rtps/src/participant_discovery.cpp:154-191 | Refines `Serialized`, which `DiscoveryAnnouncements.SpdpPrints` is about: the seven parameters and the sentinel, appended |
| `SpdpParticipant.DeserializeSpdpPayload` | bsw/communication/dds-rtps/src/participant_discovery.cpp:312-367 | Refines `Deserialized`, which `DiscoveryAnnouncements.SpdpAnswer` is about: the parse loop over a growing offset |
| `ParameterList.WriteParameter` | bsw/communication/dds-rtps/src/endpoint_discovery.cpp:104-114 | Refines `WithParameter`, which `ParameterList.PayloadDecodes` is about: a parameter appended and padded to a multiple of four octets |
| `ParameterList.WalkPayload` | bsw/communication/dds-rtps/src/endpoint_discovery.cpp:341-395 | Refines `WalkedPayload`, which `ParameterList.PayloadDecodes` is about: the parse loop at a growing offset visits the parameters up to the sentinel |
| `ParameterList.PayloadDecodes` | bsw/communication/dds-rtps/src/endpoint_discovery.cpp:341-395 | Walking any printed list visits exactly its parameters and stops at the sentinel |
| `ParameterList.OrderIsIrrelevant` | bsw/communication/dds-rtps/src/endpoint_discovery.cpp:274-339 | Decoding is unchanged by permuting parameters that commute |
| `ParameterList.UnknownAreIgnored` | bsw/communication/dds-rtps/src/endpoint_discovery.cpp:274-339 | Parameters that are ignored may stand anywhere |
| `DiscoveryValues.LocatorRoundTrip` | bsw/communication/dds-rtps/src/endpoint_discovery.cpp:150-254 | Address and port are read back from a locator |
| `KeyValueRuns.ReopenReturnsEntries` | bsw/runtime/persistency/src/persistency.cpp:408-789 | From an empty directory, after any run of Put, Remove and MigrateSchema, reopening it in whatever order the files come yields exactly the entries, puts no file aside, and the bytes stored are within the quota |
| `KeyValueRuns.RestoreReturnsBackup` | bsw/runtime/persistency/src/persistency.cpp:552-642 | Restoring a backup brings back exactly the backed-up entries, in whatever order the files come and whatever happened since |
| `KeyValueRuns.RestoreLeavesOldFiles` | bsw/runtime/persistency/src/persistency.cpp:600-642 | A restore leaves the directory in agreement with the entries exactly when no entry was stored that the backup lacks |
| `KeyValueRuns.RunKeepsMirror` | bsw/runtime/persistency/src/persistency.cpp:423-550 | After any run the directory holds exactly the files of the entries, every entry is sealed by its checksum and the quota is kept |
| `KeyValueRuns.LastWriteIsRead` | bsw/runtime/persistency/src/persistency.cpp:423-505 | After any run what is read under a key is what was last stored under it, and nothing if it was removed since, whatever writes were refused meanwhile |
| `KeyValueRuns.FailedRemovalReturns` | bsw/runtime/persistency/src/persistency.cpp:477-505 | A removal that cannot erase the file takes the entry from memory, and reopening brings it back |
| `KeyValueRuns.MigrationMirrorsIfComplete` | bsw/runtime/persistency/src/persistency.cpp:507-523 | A migration whose writing out stops early leaves directory and memory in agreement exactly if every entry was rewritten |
| `KeyValueAnswers.PutIsExact` | bsw/runtime/persistency/src/persistency.cpp:423-460 | A value is stored exactly if the store may be written, the key is safe, the value not empty and the quota kept; it is read back, no other key is touched, and its file tells key, value and schema version |
| `KeyValueAnswers.RemoveIsExact` | bsw/runtime/persistency/src/persistency.cpp:477-505 | A value is removed exactly if the store may be written, the policy allows it, the key is safe and there is one; it and its file are gone and no others |
| `KeyValueAnswers.MigrationIsExact` | bsw/runtime/persistency/src/persistency.cpp:507-523 | A migration goes forward only, rewrites every entry under the later version and touches no value |
| `KeyValueAnswers.ReadOnlyStays` | bsw/runtime/persistency/src/persistency.cpp:705-711 | A store that may only be read is the same after any run |
| `KeyValueAnswers.KeysAreKept` | bsw/runtime/persistency/src/persistency.cpp:477-505 | Where the policy forbids removal no key is lost over any run |
| `KeyValueAnswers.ConfigIsFit` | bsw/runtime/persistency/src/persistency.cpp:46-107 | A configuration is fit exactly if its application id is 1 to 64 letters, digits and -_. and neither schema version nor quota is zero |
| `KeyValueAnswers.DamageIsPutAside` | bsw/runtime/persistency/src/persistency.cpp:744-789 | Opening a directory with any damaged entry files, listed in any order, reads exactly the entries of the others, puts each damaged file aside under its name with the suffix for corrupt files, and counts them |
| `KeyValueAnswers.OpeningIsExact` | bsw/runtime/persistency/src/persistency.cpp:744-789 | Opening any directory, damaged files or not, succeeds exactly if the entries that can be read have safe keys and fit the quota together; each key has the first entry listed for it |
| `KeyValueAnswers.RestoringIsExact` | bsw/runtime/persistency/src/persistency.cpp:552-598 | The same for restoring a backup without damaged files; the schema version is then the latest among its entries and the present one |
| `KeyValueAnswers.DamageStopsRestore` | bsw/runtime/persistency/src/persistency.cpp:552-598 | Restoring gives up if any entry file is damaged, wherever it is listed |
| `KeyValueAnswers.DamageShows` | bsw/runtime/persistency/src/persistency.cpp:293-350 | A file whose value was cut short, lengthened or changed in one octet is damaged |
| `EntryFile.EntryRoundTrip` | bsw/runtime/persistency/src/persistency.cpp:293-390 | An entry file reads back as its key and entry |
| `EntryFile.FileNameIsInjective` | bsw/runtime/persistency/src/persistency.cpp:242-253 | Different keys have different file names |
| `EntryFile.ReadEntryIsSealed` | bsw/runtime/persistency/src/persistency.cpp:293-350 | What is read from a file carries the checksum of its value |
| `KeyValueAnswers.FileIsExact` | bsw/runtime/persistency/src/persistency.cpp:293-350 | A file of six lines and a value is an entry file exactly if the first line is the mark of the format, the sixth empty, and the others tell schema version, key, size and checksum, the last two of them fitting the value |
| `KeyValueAnswers.FileNameIsHex` | bsw/runtime/persistency/src/persistency.cpp:242-253 | A file is named by the octets of its key in lower-case hexadecimal, and .oakv |
| `KeyValueAnswers.ExtensionIsExact` | bsw/runtime/persistency/src/persistency.cpp:255-257 | An entry file has a name before that extension |
| `PersistentStore.Store.Put` | bsw/runtime/persistency/src/persistency.cpp:423-460 | Refines `Put`, which `KeyValueAnswers.PutIsExact` is about: storing a value in its file and in memory; a value that could not be written is not stored |
| `PersistentStore.Store.Remove` | bsw/runtime/persistency/src/persistency.cpp:477-505 | Refines `Remove`, which `KeyValueAnswers.RemoveIsExact` is about: removing both; if erasing the file fails, only the entry in memory is gone |
| `PersistentStore.Store.EnsureQuota` | bsw/runtime/persistency/src/persistency.cpp:713-728 | The summing loop: the other entries and the new value against the quota |
| `PersistentStore.Store.MigrateSchema` | bsw/runtime/persistency/src/persistency.cpp:507-523 | Refines `MigrateSchema`, which `KeyValueAnswers.MigrationIsExact` is about: rewriting every entry under a later schema version; if a write fails, memory is migrated and only some files are |
| `PersistentStore.Store.BackupTo` | bsw/runtime/persistency/src/persistency.cpp:525-550 | The backup directory holds exactly the files of the entries, or of some of them if a write fails; an unsafe path is refused |
| `PersistentStore.Store.RestoreFrom` | bsw/runtime/persistency/src/persistency.cpp:552-598 | Refines `RestoredFrom`, which `KeyValueAnswers.RestoringIsExact` is about: reading a backup file by file; an unreadable or damaged one leaves everything as it was, and if writing out fails memory holds the backup and only some files are rewritten |
| `PersistentStore.Store.OpenFilesystem` | bsw/runtime/persistency/src/persistency.cpp:408-421 | Refines `KeyValueAnswers.OpeningIsExact`, which `KeyValueRuns.ReopenReturnsEntries` is about: after the checks of the configuration, reading the directory file by file; a damaged file is renamed and counted; an error leaves the directory as the files read before it left it |
| `SomeIpStream.ConversationInOrder` | bsw/communication/someip-protocol/src/tcp_stream.cpp:54-194 | However sends and receives interleave, and however the system calls split the octets on either side, what is received is the first part of what was sent, unchanged and in order, and the octets read, under way and unwritten are the messages after it |
| `SomeIpStream.AllIsReceived` | bsw/communication/someip-protocol/src/tcp_stream.cpp:54-194 | Once nothing is left to write or read, everything sent has been received |
| `SomeIpDelivery.AllGetThrough` | bsw/communication/someip-protocol/src/tcp_stream.cpp:83-194 | Any messages that may be sent can be got through a quiet stream, all of them and in order |
| `SomeIpDelivery.SendingIsExact` | bsw/communication/someip-protocol/src/message.cpp:54-66 | A message is sent exactly if it names a service, has the protocol version, and fits a datagram with its header |
| `SomeIpStream.OutcomeIsReceived` | bsw/communication/someip-protocol/src/tcp_stream.cpp:162-194 | Reading piece by piece until nothing more is wanted gives what a call on the whole frame receives |
| `SomeIpStream.SentIsReceived` | bsw/communication/someip-protocol/src/tcp_stream.cpp:149-194 | Every message Send accepts passes the size and header checks of Receive, which returns it and leaves what follows |
| `SomeIpStream.Stream.ReadExact` | bsw/communication/someip-protocol/src/tcp_stream.cpp:54-81 | Reads exactly the octets wanted, however recv splits them and however often it is interrupted, or fails because the peer closed or a call failed |
| `SomeIpStream.Stream.WriteAll` | bsw/communication/someip-protocol/src/tcp_stream.cpp:83-108 | Writes everything, however little each send takes, or only a first part if a call fails |
| `SomeIpStream.Stream.Send` | bsw/communication/someip-protocol/src/tcp_stream.cpp:149-160 | A message is put on the stream whole, not at all if it is refused, or in part if a call fails |
| `SomeIpStream.Stream.Receive` | bsw/communication/someip-protocol/src/tcp_stream.cpp:162-194 | Whatever is received is the next message of the octets under way; without failing calls every call receives it |
| `SomeIpMessage.SerializeMessage` | bsw/communication/someip-protocol/src/message.cpp:54-89 | Refines `Serialized`, which `SomeIpMessage.ParseSerialized` is about: the message octets, appended |
| `SomeIpMessage.ParseSerialized` | bsw/communication/someip-protocol/src/message.cpp:54-129 | A serialized message parses back to itself |
| `SomeIpMessage.SerializeParsed` | bsw/communication/someip-protocol/src/message.cpp:91-129 | A parsed message serializes exactly when its service id is not zero and it fits, and then to the same octets |
| `RateLimiter.AdmissionIsLimited` | bsw/communication/automotive-api-gateway/src/automotive_api_gateway.cpp:327-358 | Over every run of requests at non-decreasing times, of this and other clients and routes, at most max_requests_per_window of a client are admitted in one counting window, and at most twice that in any interval as long as a window |
| `RateLimiter.RefusedExactlyWhenFull` | bsw/communication/automotive-api-gateway/src/automotive_api_gateway.cpp:327-358 | After every such run a request is turned away exactly while the current counting window of its client still runs and has admitted the limit |
| `RateLimiter.ClientsAreIndependent` | bsw/communication/automotive-api-gateway/src/automotive_api_gateway.cpp:327-358 | For two different non-empty client names, removing all requests of the one from any run changes no verdict of the other |
| `RateLimiter.OnlyOwnRequestsMatter` | bsw/communication/automotive-api-gateway/src/automotive_api_gateway.cpp:327-358 | Over any run the verdict on a client and route is that of its own requests alone |
| `RateLimiter.NamelessIsAnonymous` | bsw/communication/automotive-api-gateway/src/automotive_api_gateway.cpp:33-39 | Requests without a name share the window of the client named anonymous |
| `RateLimiter.AtMostTwice` | bsw/communication/automotive-api-gateway/src/automotive_api_gateway.cpp:327-358 | Windows that each hold at most the limit and begin a full window apart put at most twice the limit into any interval |
| `RateLimiter.RouteLimiter.IsRateLimited` | bsw/communication/automotive-api-gateway/src/automotive_api_gateway.cpp:327-358 | Refines `Limited`, which `RateLimiter.ClientsAreIndependent` is about: the window of a client and route, opened, restarted or counted in place |
| `UpdateRuns.EveryRunIsSound` | bsw/runtime/update-management/src/update_manager.cpp:34-258 | Over every run, with any injected backend failures: without a pending slot the active package is the last committed or the initial one; a pending slot occurs only while waiting for health confirmation or after a failure; only verified packages become active; no installed version goes back |
| `UpdateRuns.StepKeepsInvariant` | bsw/runtime/update-management/src/update_manager.cpp:34-258 | Every single operation preserves that invariant |
| `UpdateRuns.StepKeepsTrust` | bsw/runtime/update-management/src/update_manager.cpp:152-300 | Only packages that meet every demand of the policy ever pass verification, and the demands never change |
| `UpdateRuns.ActiveIsTrustworthy` | bsw/runtime/update-management/src/update_manager.cpp:34-300 | So in every reachable state the active package is the initial one, or was signed by a trusted signer and meets all other demands |
| `UpdateRuns.ActiveChangesOnlyAsAllowed` | bsw/runtime/update-management/src/update_manager.cpp:34-258 | The active package changes only by activating a verified, staged upgrade in the machine state the policy requires, with a non-zero boot budget, or by a rollback to the one before; a commit needs every health check and leaves it |
| `UpdateRuns.RollbackRestores` | bsw/runtime/update-management/src/update_manager.cpp:92-111 | A successful rollback of a pending slot restores the package and slot active before it and changes no version |
| `UpdateRuns.CommitUpgrades` | bsw/runtime/update-management/src/update_manager.cpp:209-226 | A commit sets the version of the active package for its cluster, later than the one before, and nothing else changes any version |
| `UpdateRuns.FailedHealthRollsBack` | bsw/runtime/update-management/src/update_manager.cpp:209-241 | In every reachable state that waits for health, failed health ends rolled back, with the committed package active, no pending slot, the slots swapped back and no version changed, unless a rollback failure was injected; then it ends failed with slots and packages as they were |
| `UpdateRuns.FullHealthCommits` | bsw/runtime/update-management/src/update_manager.cpp:209-241 | Full health there ends committed with the package under way active and its version installed, unless a commit failure was injected |
| `UpdateRuns.AbortRollsBack` | bsw/runtime/update-management/src/update_manager.cpp:243-258 | An abort for a reason rolls a pending slot back, or empties the inactive one, unless a rollback failure was injected |
| `UpdateRuns.VerifiedExactlyIfSound` | bsw/runtime/update-management/src/update_manager.cpp:260-300 | Verification passes exactly the packages that meet every demand, have every dependency installed, upgrade their cluster and fit |
| `UpdateRuns.TransferTakesPackage` | bsw/runtime/update-management/src/update_manager.cpp:133-150 | A package is taken exactly if it is complete and no transaction is under way |
| `UpdateRuns.StageInstalls` | bsw/runtime/update-management/src/update_manager.cpp:169-184 | Staging installs the package under way into the inactive slot, unless the installation fails |
| `UpdateRuns.ActivationSwaps` | bsw/runtime/update-management/src/update_manager.cpp:186-207 | Activation swaps the slots in the required machine state with a boot budget, unless it fails |
| `UpdateRuns.SuccessIsReported` | bsw/runtime/update-management/src/update_manager.cpp:133-258 | An operation reports success exactly if it reached its state from the state it belongs to |
| `UpdateRuns.OutOfTurnIsRefused` | bsw/runtime/update-management/src/update_manager.cpp:152-241 | Out of its state an operation is refused and changes nothing |
| `UpdateRuns.EveryStepIsAudited` | bsw/runtime/update-management/src/update_manager.cpp:332-340 | Every operation that does something leaves one audit event with the state it led to |
| `UpdateRuns.BackendIsExact` | bsw/runtime/update-management/src/update_manager.cpp:34-111 | By itself the backend refuses exactly what has no slot for it, and a refusal changes nothing but the injected failure |
| `UpdateManager.LessIsTransitive` | bsw/runtime/update-management/src/update_manager.cpp:317-324 | The order of versions is transitive |
| `UpdateManager.LessIsStrict` | bsw/runtime/update-management/src/update_manager.cpp:317-324 | The order of versions is strict |
| `UpdateManager.LessIsLexicographic` | bsw/runtime/update-management/src/update_manager.cpp:317-324 | One version is before another exactly if it ends first or has the smaller octet at the first place where they differ |
| `UpdateManager.RaucBackend.Activate` | bsw/runtime/update-management/src/update_manager.cpp:53-73 | Refines `ActivatedPending`, which `UpdateRuns.ActiveChangesOnlyAsAllowed` is about: swapping the slots in place and marking the new one pending |
| `UpdateManager.RaucBackend.RollbackSlot` | bsw/runtime/update-management/src/update_manager.cpp:92-111 | Refines `RolledBackPending`, which `UpdateRuns.RollbackRestores` is about: swapping back to the package active before |
| `UpdateManager.RaucBackend.CommitSlot` | bsw/runtime/update-management/src/update_manager.cpp:75-90 | Refines `CommittedPending`, which `UpdateRuns.EveryRunIsSound` is about: making the pending slot permanent |
| `UpdateManager.RaucBackend.Install` | bsw/runtime/update-management/src/update_manager.cpp:34-51 | Refines `InstalledInactive`, which `UpdateRuns.EveryRunIsSound` is about: installing into the inactive slot |
| `UpdateManager.UpdateTransaction.TransferPackage` | bsw/runtime/update-management/src/update_manager.cpp:133-150 | Refines `PackageTransferred`, which `UpdateRuns.TransferTakesPackage` is about: taking a package when no transaction is under way |
| `UpdateManager.UpdateTransaction.VerifyPackage` | bsw/runtime/update-management/src/update_manager.cpp:152-167 | Refines `PackageVerified`, which `UpdateRuns.VerifiedExactlyIfSound` is about: verifying the package under way |
| `UpdateManager.UpdateTransaction.StagePackage` | bsw/runtime/update-management/src/update_manager.cpp:169-184 | Refines `PackageStaged`, which `UpdateRuns.StageInstalls` is about: staging it through the backend |
| `UpdateManager.UpdateTransaction.Activate` | bsw/runtime/update-management/src/update_manager.cpp:186-207 | Refines `Activated`, which `UpdateRuns.ActivationSwaps` is about: activating it in the required machine state |
| `UpdateManager.UpdateTransaction.ConfirmHealth` | bsw/runtime/update-management/src/update_manager.cpp:209-241 | Refines `HealthConfirmed`, which `UpdateRuns.FailedHealthRollsBack` is about: committing or rolling back by the reported health |
| `UpdateManager.UpdateTransaction.AbortAndRollback` | bsw/runtime/update-management/src/update_manager.cpp:243-258 | Refines `Aborted`, which `UpdateRuns.AbortRollsBack` is about: rolling back for a stated reason |

## Left out

- ReliableReader.DdsReliableReader.BuildAckNack: requires that the heartbeat is not one of those for which the code never returns; `ReliableReader.ReturnsUnlessAtLastNumber` states exactly which these are.
- RegistryObject.Registrar.AllocateId: requires fewer than 2^64 - 1 known ids; with all of them known the loop of the code never meets a free one (`ServiceRegistry.LoopEndsIfIdsAreLeft`).
- RegistryObject.Registrar.SubmitMethodCall: requires the same when the call brings no id of its own.
- RegistryObject.Registrar.SubmitMethodCallFuture: requires the same when the call brings no id of its own.
- ReliableRepair.LosslessRound: for a history of at most 256 entries built for this reader, with nothing published meanwhile, room within the reader's limits, fewer than 2^64 - 1 samples published and neither 32-bit count about to wrap to zero; outside these the code refuses, or addresses its repairs to another reader.
- RegistryOutcomes.EventSubscriptionIsNew: as long as the 64-bit id counter has not wrapped; after that an id may be given out while a subscription still has it, and the older one keeps its queue.
- RegistryOutcomes.FieldSubscriptionIsNew: the same.
- RegistryOutcomes.TriggerSubscriptionIsNew: the same.
- ReliableMessages.LateJoinerCatchesUp: for a reader within whose limits everything published has room.
- E2eDetection.CorruptionRejected: a change of four octets across the edge between the CRC field and the octets behind it is not covered: it changes the CRC field and what it covers together.
- RtpsMessage.ReckoningIsExact: for messages that print, if at all, to fewer than 2^64 octets; no others fit the address space.
- PersistentStore.Store.EnsureQuota: sums the sizes of values held in memory as unbounded numbers; they fit the address space.
- RateLimiter.AdmissionIsLimited: for times that do not go back and one configuration of the route; requests that other checks of the gateway block before or after the limiter are not modelled.
- Several remote readers of one writer, several writers of one reader in the repair round, the best-effort writer and reader, the discovery cache, and the method and field envelopes of the DDS binding.
- Sockets, file handles and address parsing: locators are four octets and a port; temporary files, crashes between two writes, and errors while a directory is created or listed.
- Error texts, audit texts, deployment traces, snapshots and every conversion to text.
- Access policies and security events: whether an operation is authorized is an argument.
- Find handles, offer listings and capability queries of the service registry, and mutual exclusion of its callers.
- Import and export of files, shutdown and the remote client of the persistency layer; whether a backup path is safe and readable is an argument.
- Receipts and counters of the API gateway beyond its limiter.
- The meaning of version strings beyond their lexicographic order, which is what the update manager compares.
- The sorting and deduplication of the standard library in the ACKNACK list: a function with its specification stands for them.
