# Verified model of the LightAP communication core

This project models the parts of the LightAP communication middleware that carry its
guarantees, in Dafny, and proves what they promise: the lock-free service slots, the
two-array service registry, the end-to-end protection of profile 1, the binary and the framed
serializers, remote method calls over a stream socket, the plugin manager, and the latency
metrics and writer keys of the transport bindings.

Run `dafny verify dfyconfig.toml` in this directory to check everything.

| file | what it holds |
|---|---|
| `Common.dfy` | optional values, the 64-bit counter and the retry limit |
| `SeqLock.dfy` | the slot seqlock as an interleaving step system with any number of readers and writers |
| `ServiceRegistry.dfy`, `RegistryRuns.dfy` | the slot arrays and their operations; every run of operations against a simple map |
| `Octets.dfy`, `Crc8.dfy`, `CrcDivision.dfy`, `E2EProfile1.dfy` | bytes as bit strings, the CRC-8 as a linear map and as a long division, protector and checker |
| `Serialization.dfy` | the byte-order-aware serializer and deserializer |
| `MethodRpc.dfy`, `RpcExchange.dfy` | frames, caller and responder over a fragmenting socket; both running concurrently |
| `Bindings.dfy` | the two binding indexes, the library ledger, hot reload, selection |
| `LatencyMetrics.dfy` | the running integer average of iceoryx2 and DDS |
| `DdsKeys.dfy` | printing and parsing of DDS writer keys |

How the pieces are written. Code that updates objects in place is a class whose methods are
proved equal to a function of the old state (`AfterRegister`, `Stamped`, `Encode`, `AfterReload`
and so on); what the source promises is then proved about those functions, over all runs. The
seqlock and the two-party method call are step systems, because their guarantees are about
interleavings: one step is one atomic access, or one send or receive of any non-empty piece.

The caller and the responder appear twice. `MethodRpc.Call` and `MethodRpc.HandleClient` are the
loops of the source over a socket that cuts every send and receive as it likes; they are proved
equal to the functions `Received` and `Reply` of the bytes delivered. `RpcExchange` runs both
parties at once over two streams, with the same two functions and the same demand for bytes, and
proves that no interleaving changes the result and that every call returns.

Findings. Where the code does not do what its comments or its design say, the code is modelled
as it is, and a lemma says exactly when the intended property holds:

- Two overlapping writers make the slot counter even again, and a reader accepts a torn record.
  Every read that nobody disturbs is accepted exactly if the number of writers inside is even,
  whatever they have stored so far (`SeqLock.UndisturbedReadIsAcceptedExactlyIfEven`; an instance is
  `SeqLock.OverlappingWritersTearARead`). Callers have to serialise writers; then reads are
  linearizable (`SeqLock.SerialisedReadsAreLinearizable`).
- `Protect` computes the CRC before it writes counter and CRC into the buffer, `Check` computes
  it afterwards. A just-protected buffer passes only if the two writes cancel out
  (`E2EProfile1.SelfAcceptance`); `E2EProfile1.ProtectThenCheckCanFail` is a concrete failure.
- The slot mapping is documented as free of collisions. `QM_SERVICE_ID_MAX` is 0x0417, so 0x0001
  to 0x0017 collide with 0x0401 to 0x0417 and 0x0400 has no slot
  (`RegistryRuns.DocumentedRangesCollide`). Ids outside all ranges, 0xF3FF among them, fall back
  to the QM array.
- `UnregisterService` clears a slot whoever owns it (`RegistryRuns.UnregisterRemovesWhoeverIsThere`),
  and a QM service 0x03FF takes the broadcast slot of one array (`RegistryRuns.QmServiceBreaksTheMirror`);
  which operations keep the two arrays mirrored there is `RegistryRuns.MirrorKeptExactlyIf`, and
  `RegistryRuns.ContentKeptExactlyIf` without the counters.
- A refused broadcast registration can still have filled one array, exactly if the other one alone
  was occupied (`RegistryRuns.RefusedRegistrationChangesNothingExactlyIf`).
- A string of 2^32 characters or more is written with its length cut to 32 bits and does not come
  back (`Serialization.TextRoundTrip`).
- A handler that fails with error code 0 makes the remote call succeed with the message of an
  empty payload (`RpcExchange.ErrorCodeZeroBecomesAValue`). A request over the size limit of the
  responder is never answered; the caller sees a network failure. The exact condition for a
  faithful call is `RpcExchange.CallIsFaithfulExactlyIf`.
- Registering or loading under a name in use leaves the old object in the priority map only and
  drops its library handle (`Bindings.RegisterIsConsistentExactlyIfFresh`,
  `Bindings.LoadingAUsedNameLeaksALibrary`); such an object can still be selected and can no longer
  be unloaded (`Bindings.StaleObjectIsBestExactlyIf`, `Bindings.StaleObjectSurvivesUnload`).
- A reload never updates the priority of a retained binding (`Bindings.ReloadKeepsConsistent`) and
  never removes a static mapping (`Bindings.ReloadCannotRemap`).
- The running average overflows when `avg * (n - 1) + latency` reaches 2^64; it is exact, and for
  up to 2^32 sends close to the mean, throughout a run exactly if no send does that
  (`LatencyMetrics.ExactThroughoutExactlyIfStepsFit`, `LatencyMetrics.CloseThroughoutExactlyIfStepsFit`).
  A total below 2^64 is enough.
- DDS passes its first latency through a double, which loses 2^53 + 1 ns
  (`LatencyMetrics.DoubleLosesALatency`). Over DDS the average is close throughout a run exactly if
  the first latency survives and no send overflows (`LatencyMetrics.DdsCloseThroughoutExactlyIf`).

## Model

| member | source | states |
|---|---|---|
| `SeqLock.CounterCountsWrites` | source/registry/inc/SeqLock.hpp:86-104 | In every interleaving of any number of writers the counter is (writes begun + writes finished) mod 2^64, begun minus finished is the number of writers inside, and the counter is odd exactly when that number is. |
| `SeqLock.AcceptedReadMeetsNoBoundary` | source/registry/inc/SeqLock.hpp:158-192 | With overlapping writers and fewer than 2^64 increments meanwhile: during an accepted read no write begins or ends, the same writers stay inside, and their number is even. |
| `SeqLock.AcceptedReadIsSnapshot` | source/registry/inc/SeqLock.hpp:152-204 | No accepted read has exactly one writer inside. If at most one is, nobody is, and the read is untorn: no cell changed between the two loads, and every value copied, the counter included, is the one memory held throughout. |
| `SeqLock.UndisturbedReadIsAcceptedExactlyIfEven` | source/registry/inc/SeqLock.hpp:82-204 | In every run, for every call of Read during which nobody else takes a step, whatever it copies: once finished it was accepted if and only if the number of writers inside is even, and its log is what the slot holds, unfinished stores included. |
| `SeqLock.UndisturbedReadIsAccepted` | source/registry/inc/SeqLock.hpp:158-192 | Such reads exist from every reachable state with an even number of writers: a call that copies the counter and any cells in any order is accepted with exactly what the slot holds, without wrap-around. |
| `SeqLock.UndisturbedReadGivesUp` | source/registry/inc/SeqLock.hpp:163-173 | With an odd number of writers inside an undisturbed read gives up after exactly 1001 loads of the counter. |
| `SeqLock.FirstLoadPassesExactlyIfEven` | source/registry/inc/SeqLock.hpp:160-173 | In every run an attempt gets past its first load if and only if the number of writers inside is even at that instant. |
| `SeqLock.QuiescentSlotIsReplay` | source/registry/inc/SeqLock.hpp:81-104 | With serialised writers the slot is always the completed writes performed whole, one after the other, plus the stores of the one unfinished write. |
| `SeqLock.SerialisedReadsAreLinearizable` | source/registry/inc/SeqLock.hpp:152-204 | With serialised writers an accepted read returns the slot as the n writes begun so far leave it, performed whole in the order begun; these and no others were complete throughout the read, and the version checked and the one copied are 2n. |
| `SeqLock.WriteCommitsItsProgram` | source/registry/src/SharedMemoryRegistry.cpp:265-288 | With any overlap of writers: a write that ends has performed exactly the stores it was begun with, in order. |
| `SeqLock.SerialisedWriteIsPerformed` | source/registry/src/SharedMemoryRegistry.cpp:265-288 | With serialised writers a write that ends leaves in each cell the last value its program stores there, and what the cell held at its beginning where it stores none. |
| `SeqLock.CompletedWritesAreThoseBegun` | source/registry/inc/SeqLock.hpp:82-104 | With serialised writers the completed writes are, in order, the first programs begun, and a write in progress is the last one begun. |
| `SeqLock.AnyWriteCanComplete` | source/registry/inc/SeqLock.hpp:82-104 | From every reachable state a thread that is not writing can write any program to its end, store after store. |
| `SeqLock.OverlappingWritersTearARead` | source/registry/inc/SeqLock.hpp:82-91 | An instance: two overlapping writers and a reader that accepts one cell of an unfinished write beside an untouched one, although the slot held neither combination whenever nobody was writing. |
| `SeqLock.RetriesAreBounded` | source/registry/inc/SeqLock.hpp:126-204 | A read makes at most 1001 attempts and gives up only if each met an odd or a changed counter, each change taking its own increment; without odd counters and with fewer than 1001 increments it does not give up. |
| `ServiceRegistry.AssignedText` | source/registry/src/SharedMemoryRegistry.cpp:273-279 | After strncpy and the final NUL a character array holds the source string cut to the array size less one, whatever it held before. |
| `ServiceRegistry.SingleRegistry.RegisterService` | source/registry/src/SharedMemoryRegistry.cpp:240-291 | Not initialised, bad index and occupied slot are refused without change; otherwise exactly the addressed slot becomes the registration, with the counter two higher. |
| `ServiceRegistry.SingleRegistry.UnregisterService` | source/registry/src/SharedMemoryRegistry.cpp:293-312 | Clears the addressed slot and nothing else, whoever registered it, keeping only the counter, two higher. |
| `ServiceRegistry.SingleRegistry.UpdateHeartbeat` | source/registry/src/SharedMemoryRegistry.cpp:356-375 | Sets the heartbeat of the addressed slot and advances its counter by two, nothing else. |
| `ServiceRegistry.SingleRegistry.Read` | source/registry/inc/SeqLock.hpp:152-204 | The retry loop alone with a slot: the value if the counter is even, empty after 1001 attempts if it was left odd. |
| `ServiceRegistry.SingleRegistry.FindService` | source/registry/src/SharedMemoryRegistry.cpp:314-344 | Returns the record of the slot of the id if it is active and holds exactly this id, and nothing otherwise. |
| `ServiceRegistry.SingleRegistry.ReadSlot` | source/registry/src/SharedMemoryRegistry.cpp:346-354 | Returns the record of a slot unless the array is not mapped, the index is 0 or out of range, or the counter was left odd. |
| `ServiceRegistry.SharedMemoryRegistry.RegisterService` | source/registry/src/SharedMemoryRegistry.cpp:418-461 | Routes by id; a broadcast registration tries both arrays and reports the QM error first; slot 0 is refused. |
| `ServiceRegistry.SharedMemoryRegistry.UnregisterService` | source/registry/src/SharedMemoryRegistry.cpp:463-480 | Routes by id; a broadcast clears both arrays and reports the ASIL outcome. |
| `ServiceRegistry.SharedMemoryRegistry.UpdateHeartbeat` | source/registry/src/SharedMemoryRegistry.cpp:494-511 | Routes by id; a broadcast updates both arrays and reports the ASIL outcome. |
| `ServiceRegistry.SharedMemoryRegistry.FindService` | source/registry/src/SharedMemoryRegistry.cpp:482-492 | Looks in the ASIL array for ASIL ids and in the QM array for all others, broadcasts included. |
| `RegistryRuns.RunAgreesWithMap` | source/registry/src/SharedMemoryRegistry.cpp:240-375 | After every run each slot of both arrays agrees field by field with a simple map from slots to registrations, with strings cut to 15 and 79 characters, and no counter is left odd. |
| `RegistryRuns.FindRefinesMap` | source/registry/src/SharedMemoryRegistry.cpp:482-492 | After every run FindService(id) returns a record exactly if the map entry of the slot of the id was registered under exactly this id; the record carries that registration and the last heartbeat. |
| `RegistryRuns.EntryHasOrigin` | source/registry/src/SharedMemoryRegistry.cpp:240-312 | A map entry stems from a registration that found the slot empty, with no unregistration of the slot since, and its heartbeat is the last one given since. |
| `RegistryRuns.FoundExactlyIfLastFilledBy` | source/registry/src/SharedMemoryRegistry.cpp:418-511 | Found exactly if some registration of this very id filled the empty slot and nothing has unregistered the slot since, in terms of the operations alone. |
| `RegistryRuns.AtMostOneFound` | source/registry/inc/SharedMemoryRegistry.hpp:462-473 | Of the ids of one registry that collide modulo 1024 at most one is ever found. |
| `RegistryRuns.UnregisterRemovesWhoeverIsThere` | source/registry/src/SharedMemoryRegistry.cpp:293-312 | Unregistering b makes a unfindable exactly if b reaches the slot of a, and otherwise leaves the record of a as it is. |
| `RegistryRuns.RegistrationSucceedsIfFree` | source/registry/src/SharedMemoryRegistry.cpp:418-461 | After every run a registration succeeds exactly if its slot is not 0 and empty in every array it reaches. |
| `RegistryRuns.SuccessfulRegistrationIsFound` | source/registry/src/SharedMemoryRegistry.cpp:418-492 | After every run a registration that succeeds is found under its id, with all its data. |
| `RegistryRuns.OutcomesSayWhy` | source/registry/src/SharedMemoryRegistry.cpp:240-375 | On mapped arrays slot 0 is an invalid argument, a registration otherwise succeeds or is refused as not offered, and the other operations succeed. |
| `RegistryRuns.UnmappedArraysRefuse` | source/registry/src/SharedMemoryRegistry.cpp:249-251 | Before initialisation every operation is refused as not initialised, after the test for slot 0, and changes and finds nothing. |
| `RegistryRuns.RefusedRegistrationChangesNothingExactlyIf` | source/registry/src/SharedMemoryRegistry.cpp:418-461 | After every run a registration that reports an error leaves both arrays as they were, if and only if it is not a broadcast that finds slot 1023 occupied in exactly one array. |
| `RegistryRuns.ActiveSlotsBelong` | source/registry/inc/SharedMemoryRegistry.hpp:462-496 | In every reachable state slot 0 is idle, an active slot i holds an id equal to i modulo 1024, and the ASIL array holds only ids whose low 16 bits are 0xF001 to 0xF3FE or 0xFFFF. |
| `RegistryRuns.IdsDecideTheArray` | source/registry/inc/SharedMemoryRegistry.hpp:480-496 | Ids whose low 16 bits are 0xF001 to 0xF3FE reach the ASIL array only, 0xFFFF reaches both, and every other id the QM array only; FindService looks accordingly. |
| `RegistryRuns.QmArrayHoldsNoAsilId` | source/registry/inc/SharedMemoryRegistry.hpp:480-496 | In every reachable state the QM array holds no id whose low 16 bits are 0xF001 to 0xF3FE. |
| `RegistryRuns.WriteAdvancesCounterByTwo` | source/registry/inc/SeqLock.hpp:86-104 | Every write to a slot advances its counter by two modulo 2^64. |
| `RegistryRuns.OtherArrayUntouched` | source/registry/src/SharedMemoryRegistry.cpp:418-511 | An operation on an id of one registry leaves the other array untouched. |
| `RegistryRuns.MirrorKeptExactlyIf` | source/registry/src/SharedMemoryRegistry.cpp:418-511 | From a state in which slot 1023 is mirrored an operation keeps it so if and only if it does not reach slot 1023, is a broadcast, or is a registration that the occupied QM slot refuses. |
| `RegistryRuns.MirroredThroughoutExactlyIf` | source/registry/src/SharedMemoryRegistry.cpp:418-511 | In every run the two arrays mirror each other after every operation if and only if every operation met that condition in the state it found. |
| `RegistryRuns.ContentKeptExactlyIf` | source/registry/src/SharedMemoryRegistry.cpp:418-511 | The same on what slot 1023 says, without counter and heartbeat time: kept if and only if the operation keeps the mirror, is a heartbeat, or unregisters a slot that is already empty. |
| `RegistryRuns.ContentMirroredThroughoutExactlyIf` | source/registry/src/SharedMemoryRegistry.cpp:418-511 | In every run both arrays hold the same registration in slot 1023 after every operation if and only if every operation met that condition. |
| `RegistryRuns.BroadcastSlotIsMirrored` | source/registry/src/SharedMemoryRegistry.cpp:418-511 | If slot 1023 is only reached by broadcasts, both arrays agree there on everything but the heartbeat time, in every reachable state. |
| `RegistryRuns.QmServiceBreaksTheMirror` | source/registry/src/SharedMemoryRegistry.cpp:418-461 | An instance: service 0x03FF takes slot 1023 of the QM array; a broadcast registration is then refused and not found although the ASIL array holds it. |
| `RegistryRuns.DocumentedRangesCollide` | source/registry/inc/SharedMemoryRegistry.hpp:118-128 | ASIL ids never collide; two QM ids of the documented range collide exactly if they are 0x400 apart, and only 0x0400 maps to the forbidden slot 0. |
| `Crc8.Crc8Update` | source/runtime/inc/E2EProtection.hpp:181-192 | The eight conditional shift-and-xor steps compute eight steps of multiplication by x modulo the polynomial. |
| `CrcDivision.RegisterIsRemainder` | source/runtime/inc/E2EProtection.hpp:158-192 | For every message the register started at zero is the remainder of the message times x^8 by x^8 + x^4 + x^3 + x^2 + 1, by long division over GF(2). |
| `CrcDivision.ChecksumIsRemainder` | source/runtime/inc/E2EProtection.hpp:158-192 | For every message the CRC is that remainder with the first byte inverted by the start value 0xFF and the result by the final XOR 0xFF. |
| `CrcDivision.ChecksumOfFourZeros` | source/runtime/inc/E2EProtection.hpp:158-192 | The CRC of four zero bytes, of data id 0, counter 0 and payload 00, is 0x59. |
| `Crc8.TwoByteCollision` | source/runtime/inc/E2EProtection.hpp:158-192 | Two messages that differ in at most two bytes have equal CRCs exactly if the first difference, shifted by the distance between them, equals the second. |
| `Crc8.ChecksumDifference` | source/runtime/inc/E2EProtection.hpp:158-192 | For messages of equal length the XOR of the CRCs is what the register makes of the XOR of the messages when it starts at zero: the difference depends on that XOR alone. |
| `Crc8.WindowSurvives` | source/runtime/inc/E2EProtection.hpp:181-192 | Eight bits that straddle a byte boundary and are not all zero never cancel, wherever the boundary falls. |
| `Crc8.BurstDetected` | source/runtime/inc/E2EProtection.hpp:158-192 | The CRC detects every error burst of at most 8 bits in a message of any length, across byte boundaries. |
| `Crc8.OneByteDetected` | source/runtime/inc/E2EProtection.hpp:158-192 | Changing exactly one byte always changes the CRC. |
| `E2EProfile1.CalculateCRC8` | source/runtime/inc/E2EProtection.hpp:158-179 | The loop over data id, counter and payload computes the CRC of the message they form. |
| `E2EProfile1.Protector.Protect` | source/runtime/inc/E2EProtection.hpp:128-147 | Exactly the configured length is accepted; the n-th successful call stamps n mod 15, writes counter and CRC and changes nothing else; a refused call changes nothing. |
| `E2EProfile1.Checker.Check` | source/runtime/inc/E2EProtection.hpp:230-280 | Length and CRC errors leave the last counter untouched; otherwise the verdict is that of the sequence check and the counter becomes the last one. |
| `E2EProfile1.Checker.Inspect` | source/runtime/inc/E2EProtection.hpp:230-250 | Finds bad length, bad CRC with the counter read, or an intact frame with its counter. |
| `E2EProfile1.StampedBits` | source/runtime/inc/E2EProtection.hpp:194-214 | The buffer after Protect bit by bit: the four counter bits at counterOffset, the CRC byte at crcOffset, every other bit as it was. |
| `E2EProfile1.ReadBits` | source/runtime/inc/E2EProtection.hpp:292-313 | The counter and the CRC read from any buffer, bit by bit; zero where the buffer is too short. |
| `E2EProfile1.StatusReportsCounter` | source/runtime/inc/E2EProtection.hpp:230-280 | The status carries the counter read from the frame, right or wrong, and 0 for a wrong length. |
| `E2EProfile1.StrayCounter` | source/runtime/inc/E2EProtection.hpp:252-279 | A counter of 15, which no protector stamps, counts as one past 14, and 1 is in sequence after it. |
| `E2EProfile1.BurstIsReported` | source/runtime/inc/E2EProtection.hpp:230-250 | A burst of at most 8 bits that hits an accepted frame and leaves the counter and CRC read from it unchanged turns the verdict into an error and keeps the last counter. |
| `E2EProfile1.JustProtected` | source/runtime/inc/E2EProtection.hpp:128-147 | A just-protected buffer passes the CRC test exactly if the buffers before and after the two writes have equal CRCs. |
| `E2EProfile1.SelfAcceptance` | source/runtime/inc/E2EProtection.hpp:128-214 | The same as a relation between the two written bytes: the change of the first, carried by the CRC to the second, equals the change of the second. |
| `E2EProfile1.OneChangedByte` | source/runtime/inc/E2EProtection.hpp:128-250 | A protected buffer is accepted if the two writes changed nothing and is an error if they changed exactly one byte. |
| `E2EProfile1.ProtectThenCheckCanFail` | source/runtime/inc/E2EProtection.hpp:128-147 | A two-byte payload for which Protect followed by Check reports an error. |
| `E2EProfile1.VerdictIsGap` | source/runtime/inc/E2EProtection.hpp:252-279 | For counters m mod 15 and n mod 15 the branches of Check depend on the gap n - m only: repeated iff 15 divides it, in sequence iff it is at most max(1, maxDeltaCounter) modulo 15. |
| `E2EProfile1.GapDecides` | source/runtime/inc/E2EProtection.hpp:252-279 | In every run over frames with protector counters, lost, repeated, reordered or corrupted at will, the verdict depends only on the gap since the last intact frame, and the status of an intact frame carries its stamp modulo 15. |
| `E2EProfile1.ProtectedRun` | source/runtime/inc/E2EProtection.hpp:128-280 | Protector and checker together: each received frame gets the verdict of its gap if its two writes cancel out, and an error otherwise. |
| `Serialization.IntRoundTrip` | source/runtime/inc/Serialization.hpp:428-453 | Reading back an integer of any size gives the integer, in either byte order. |
| `Serialization.NextPlaceIsClear` | source/runtime/inc/Serialization.hpp:644-667 | The bits that the next byte is or-ed into are always clear, so the or of the source is the sum. |
| `Serialization.BinarySerializer.SerializeInteger` | source/runtime/inc/Serialization.hpp:428-453 | Appends the digits to the base 256, most significant first or last, by the byte order. |
| `Serialization.BinarySerializer.Serialize` | source/runtime/inc/Serialization.hpp:325-412 | Every overload appends exactly the encoding of its value to the buffer. |
| `Serialization.BinarySerializer.SerializeList` | source/runtime/inc/Serialization.hpp:325-412 | A list of calls appends the encodings in order. |
| `Serialization.BinaryDeserializer.DeserializeInteger` | source/runtime/inc/Serialization.hpp:636-667 | Returns the integer that the next bytes denote and moves past them, or fails and stays. |
| `Serialization.BinaryDeserializer.DeserializeText` | source/runtime/inc/Serialization.hpp:577-602 | Returns the string behind its length; fails in place without a length, and four bytes further on if the string is cut off. |
| `Serialization.BinaryDeserializer.DeserializeBytes` | source/runtime/inc/Serialization.hpp:604-619 | Fills the first elements of the span and leaves the others alone, or fails without any effect. |
| `Serialization.BinaryDeserializer.Deserialize` | source/runtime/inc/Serialization.hpp:480-619 | Every overload returns what the bytes at the cursor denote in the type asked for and never moves the cursor past the end. |
| `Serialization.TextRoundTrip` | source/runtime/inc/Serialization.hpp:387-403 | A string comes back exactly if its length is below 2^32; a longer one comes back cut to its length modulo 2^32. |
| `Serialization.ValueRoundTrip` | source/runtime/inc/Serialization.hpp:325-619 | Any value, encoded anywhere in the data, decodes to itself and is consumed to its end. |
| `Serialization.RoundTrip` | source/runtime/inc/Serialization.hpp:325-667 | For every list of values and either byte order, reading back with the types of the list gives the list and consumes everything. |
| `Serialization.SendAndReceive` | source/runtime/inc/Serialization.hpp:325-667 | Serializer and deserializer run together: the values come back and HasMoreData is false. |
| `Serialization.TruncatedListFails` | source/runtime/inc/Serialization.hpp:577-667 | Decoding a strict prefix of an encoding returns original values only, in order, fewer than all of them, and fails. |
| `Serialization.CursorStaysInside` | source/runtime/inc/Serialization.hpp:577-667 | On arbitrary bytes and for any sequence of reads, failed ones included, the cursor only moves forward and never passes the end. |
| `Serialization.DecodedIsRepresentable` | source/runtime/inc/Serialization.hpp:480-619 | Whatever the bytes, a successful read returns a value in the range of its type. |
| `Serialization.ReadSucceedsExactlyIf` | source/runtime/inc/Serialization.hpp:480-619 | On any bytes a read succeeds if and only if enough are left, and for a block the span is large enough; a failed read stays, but for a string whose length was read. |
| `Serialization.SignedWireForm` | source/runtime/inc/Serialization.hpp:336-353 | A negative integer i of n bytes is sent as 2^(8n) + i, any other as it is. |
| `Serialization.BooleanWireForm` | source/runtime/inc/Serialization.hpp:325-329 | True is the byte 1 and false the byte 0, and every byte but 0 reads as true. |
| `Serialization.WireSizes` | source/runtime/inc/Serialization.hpp:325-412 | Floats take four bytes, doubles eight, a string its length modulo 2^32 in four bytes and its characters, a block its bytes alone. |
| `Serialization.ByteOrderOnTheWire` | source/runtime/inc/Serialization.hpp:428-453 | Big-endian puts the most significant byte first, little-endian the least significant one, and each is the other backwards. |
| `MethodRpc.ProtobufSerializer.SerializeMessage` | source/binding/socket/inc/ProtobufSerializer.hpp:80-111 | Succeeds if and only if the size is below 2^32 and the codec writes the message; the buffer is then the size in four bytes in network order and the message. |
| `MethodRpc.FramedExactlyIfItFits` | source/binding/socket/inc/ProtobufSerializer.hpp:80-111 | The same for the frame, with the errors 0x14 for a size of 2^32 or more and 0x15 for a codec that fails. |
| `MethodRpc.ProtobufDeserializer.DeserializeMessage` | source/binding/socket/inc/ProtobufSerializer.hpp:189-220 | Returns the message of the frame at the cursor and moves past it, or fails and stays. |
| `MethodRpc.UnframeOf` | source/binding/socket/inc/ProtobufSerializer.hpp:80-220 | A frame anywhere in the data gives its message back and is consumed to its end. |
| `MethodRpc.BadFrameFails` | source/binding/socket/inc/ProtobufSerializer.hpp:189-220 | A frame that is cut off is the error 0x0C and one that cannot be parsed 0x16; neither is consumed. |
| `MethodRpc.NetworkIsBigEndian` | source/binding/socket/inc/ProtobufSerializer.hpp:95-96 | The four bytes of a size, most significant first. |
| `MethodRpc.NegativeStatus` | source/binding/socket/inc/SocketMethodBinding.hpp:481-487 | A negative status travels in two's complement and comes back. |
| `MethodRpc.SendExact` | source/binding/socket/inc/SocketMethodBinding.hpp:113-133 | However the socket cuts the sends, the bytes go out once and in order: all of them, or the first n and an error. |
| `MethodRpc.RecvExact` | source/binding/socket/inc/SocketMethodBinding.hpp:135-150 | However the socket cuts the receives, the buffer is filled with the next bytes in order; on a reliable stream it fails exactly if the stream ends first. |
| `MethodRpc.ReceiveReply` | source/binding/socket/inc/SocketMethodBinding.hpp:154-200 | A value is returned only for a complete, well-formed reply; on a reliable stream the result is the function Received of the bytes delivered. |
| `MethodRpc.Call` | source/binding/socket/inc/SocketMethodBinding.hpp:84-200 | Sends the frame of the request, or a beginning of it on a failing socket, or nothing if it cannot be serialized; returns what the reply delivered says, and a value only for a frame sent whole and a complete reply. |
| `MethodRpc.HandleClient` | source/binding/socket/inc/SocketMethodBinding.hpp:416-511 | Sends exactly one reply, a function of the request bytes delivered, or nothing for a request cut off, too long or unreadable; on a failing socket nothing, or a beginning of each of the three parts of that reply. |
| `MethodRpc.EnvelopeReceived` | source/binding/socket/inc/SocketMethodBinding.hpp:154-200 | A payload within the limit is opened; a longer one is refused as too large, even where the 32-bit length of its envelope wraps around. |
| `MethodRpc.EnvelopeParts` | source/binding/socket/inc/SocketMethodBinding.hpp:503-511 | An envelope is the length of status and payload modulo 2^32, the status, and the payload. |
| `MethodRpc.CutReplyIsNetworkFailure` | source/binding/socket/inc/SocketMethodBinding.hpp:135-168 | A reply cut off anywhere is the error 0x03, whatever it would have said. |
| `MethodRpc.BadLengthIsTooLarge` | source/binding/socket/inc/SocketMethodBinding.hpp:158-162 | An envelope length below 4 or above the limit plus 4 is the error 0x14. |
| `MethodRpc.CutRequestGetsNoReply` | source/binding/socket/inc/SocketMethodBinding.hpp:433-453 | A request cut off anywhere is not answered. |
| `MethodRpc.ReadableRequestIsAnswered` | source/binding/socket/inc/SocketMethodBinding.hpp:455-511 | A request within the limit is answered, as the handler says, if and only if it can be parsed. |
| `MethodRpc.AnswerReceived` | source/binding/socket/inc/SocketMethodBinding.hpp:154-511 | What the caller makes of the answer to any handler result: the value, the error code, or the serialization and size errors. |
| `MethodRpc.ExchangeGivesExpected` | source/binding/socket/inc/SocketMethodBinding.hpp:84-511 | On whole streams, the reply to the frame of a request is received as what the handler alone determines. |
| `RpcExchange.StepKeepsInv` | source/binding/socket/inc/SocketMethodBinding.hpp:119-200 | Every step of either party keeps the invariant: bytes taken, under way and unsent are together the whole frame or the whole reply. |
| `RpcExchange.AnyPieceCanMove` | source/binding/socket/inc/SocketMethodBinding.hpp:114-152 | Every non-empty piece of what is unsent can be sent, and of what has arrived and is asked for received. |
| `RpcExchange.CallReturnsExpected` | source/binding/socket/inc/SocketMethodBinding.hpp:84-511 | However the streams are cut and the parties interleave, a call that returns gives what the result of the handler alone determines. |
| `RpcExchange.CallNeverStalls` | source/binding/socket/inc/SocketMethodBinding.hpp:84-511 | Until the call has returned some step is possible: no interleaving deadlocks. |
| `RpcExchange.RunsAreBounded` | source/binding/socket/inc/SocketMethodBinding.hpp:84-511 | Every step uses up one of finitely many moves, so every call returns. |
| `RpcExchange.CallIsFaithfulExactlyIf` | source/binding/socket/inc/SocketMethodBinding.hpp:84-511 | In every run the caller gets exactly the result of the handler if and only if the request can be written and is within the limit of the responder, a value can be written and is within the limit of the caller, and an error code is not 0; else only an equal error coincides. |
| `RpcExchange.ErrorCodeZeroBecomesAValue` | source/binding/socket/inc/SocketMethodBinding.hpp:172-183 | A handler error with code 0 reaches the caller as the message that an empty payload parses to. |
| `Bindings.BindingManager.RegisterBinding` | source/binding/manager/src/BindingManager.cpp:191-214 | A null binding is refused; otherwise the binding goes behind its equals in the priority map and under its name. |
| `Bindings.BindingManager.LoadBinding` | source/binding/manager/src/BindingManager.cpp:220-309 | Each failure closes what it opened and changes neither index; success inserts the object, its name and its handle. |
| `Bindings.BindingManager.UnloadBinding` | source/binding/manager/src/BindingManager.cpp:315-363 | Removes the object from the priority map, the name and the handle, and closes the library; an unknown name is an error without effect. |
| `Bindings.BindingManager.ReloadConfiguration` | source/binding/manager/src/BindingManager.cpp:590-744 | Pushes the new mappings, unloads the names no longer enabled, then loads the enabled names that are missing, in configuration order. |
| `Bindings.BindingManager.Shutdown` | source/binding/manager/src/BindingManager.cpp:469-502 | Clears everything; from a balanced ledger every library has then been closed as often as it was opened. |
| `Bindings.FailuresSayWhy` | source/binding/manager/src/BindingManager.cpp:191-363 | The error code of each failure, and that a failed operation changes the ledger or the mappings at most. |
| `Bindings.UnloadLeavesOthers` | source/binding/manager/src/BindingManager.cpp:315-363 | Unloading a name leaves every other name its object, handle and place, and of its own nothing. |
| `Bindings.LoadLeavesOthers` | source/binding/manager/src/BindingManager.cpp:220-309 | Loading a name leaves every other name its object, handle and place, and stores the new object and handle under the name. |
| `Bindings.RegisterIsConsistentExactlyIfFresh` | source/binding/manager/src/BindingManager.cpp:203-208 | Registering keeps both indexes holding the same bindings once each if and only if name and object are both new. |
| `Bindings.LoadIsConsistentExactlyIfFresh` | source/binding/manager/src/BindingManager.cpp:220-309 | The same for loading, with the library ledger: a failed load always keeps it, a successful one iff name and object are new. |
| `Bindings.LoadingAUsedNameLeaksALibrary` | source/binding/manager/src/BindingManager.cpp:298-302 | Loading under a name with a library leaves that library opened once more than closed and stored. |
| `Bindings.ReusedNameLeavesStaleObject` | source/binding/manager/src/BindingManager.cpp:203-208 | Inserting another object under a used name leaves the old one in the priority map, where no name reaches it. |
| `Bindings.StaleObjectIsBestExactlyIf` | source/binding/manager/src/BindingManager.cpp:395-406 | If the old object was the best for a service the priority scan goes on selecting it, if and only if the new one does not support the service with a greater priority. |
| `Bindings.StaleObjectSurvivesUnload` | source/binding/manager/src/BindingManager.cpp:315-363 | No UnloadBinding removes an object that no name reaches. |
| `Bindings.UnloadKeepsConsistent` | source/binding/manager/src/BindingManager.cpp:315-363 | Unloading keeps both indexes and the ledger in agreement. |
| `Bindings.ReloadKeepsConsistent` | source/binding/manager/src/BindingManager.cpp:590-744 | A reload keeps indexes and ledger in agreement; a name loaded and still enabled keeps its object, its old priority and its place among equals. |
| `Bindings.NamesAfterReload` | source/binding/manager/src/BindingManager.cpp:603-742 | Loaded after a reload are exactly the names that were loaded and are enabled, and those of enabled configurations whose library loads; so every loaded name is enabled. |
| `Bindings.ReachableStatesAreConsistent` | source/binding/manager/src/BindingManager.cpp:191-744 | Every state reached by registering, loading, unloading and reloading with new names and objects is consistent. |
| `Bindings.PrioritiesAreConfigured` | source/binding/manager/src/BindingManager.cpp:191-744 | After every run each element of the priority map carries the priority of the Register, Load or Reload configuration that brought its object in, and each loaded name has the object of its latest arrival. |
| `Bindings.SelectionFollowsConfiguration` | source/binding/manager/src/BindingManager.cpp:369-409 | After every run, for a service without a mapping, the selection is the loaded supporting binding brought in with the greatest configured priority, the earliest arrival among equals. |
| `Bindings.ReloadCannotRemap` | source/binding/manager/src/BindingManager.cpp:166-167 | A reload appends mappings only: a service mapped before stays mapped to the same name. |
| `Bindings.FindStaticMapping` | source/binding/manager/src/BindingManager.cpp:410-430 | None iff no mapping matches service and instance, instance 0 matching all; otherwise the name in the first match. |
| `Bindings.FirstMappingDecides` | source/binding/manager/src/BindingManager.cpp:410-430 | The first mapping of the service whose instance is 0 or the one asked for decides. |
| `Bindings.NoMappingNoSelection` | source/binding/manager/src/BindingManager.cpp:410-430 | Mappings of other services or other non-zero instances select nothing. |
| `Bindings.BindingManager.SelectBinding` | source/binding/manager/src/BindingManager.cpp:369-409 | For any content of the maps the scan refines its meaning: the mapped binding if loaded, else the supporting one of greatest priority, the earliest inserted among equals, else none. |
| `Bindings.SelectionIsLoaded` | source/binding/manager/inc/BindingManager.hpp:341-347 | In a consistent state the selection is unique and loaded, and it is none only if no loaded binding supports the service. |
| `LatencyMetrics.Iceoryx2Metrics.RecordSend` | source/binding/iceoryx2/src/Iceoryx2Binding.cpp:371-380 | The metrics after a send, in 64-bit arithmetic. |
| `LatencyMetrics.BytesAreCounted` | source/binding/iceoryx2/src/Iceoryx2Binding.cpp:372-373 | After every run the counts are the number of sends and the sum of their sizes modulo 2^64. |
| `LatencyMetrics.DdsMetrics.RecordSend` | source/binding/dds/src/DdsBinding.cpp:498-512 | The metrics after a send: the first one sets the latencies outright, the average by way of a double; later ones are those of the iceoryx2 binding. |
| `LatencyMetrics.DoubleIsExactExactlyIfMultiple` | source/binding/dds/src/DdsBinding.cpp:506 | A first latency survives the conversion to double and back if and only if it is a multiple of the spacing of doubles there; below 2^53 it always does. |
| `LatencyMetrics.UlpLeaves53Bits` | source/binding/dds/src/DdsBinding.cpp:506 | From 2^53 on the spacing of doubles is the power of two that leaves 53 bits. |
| `LatencyMetrics.DoubleIsNearest` | source/binding/dds/src/DdsBinding.cpp:506 | The conversion ends at the nearest multiple of that spacing, halfway at the even one. |
| `LatencyMetrics.BindingsAgree` | source/binding/dds/src/DdsBinding.cpp:498-512 | If its first latency survives that conversion, a run leaves the same metrics in both bindings, and a run of one send only then; counts and extremes are always the same. |
| `LatencyMetrics.DoubleLosesALatency` | source/binding/dds/src/DdsBinding.cpp:506 | An instance: 2^53 + 1 ns comes back as 2^53. |
| `LatencyMetrics.DdsCloseThroughoutExactlyIf` | source/binding/dds/src/DdsBinding.cpp:498-512 | For DDS runs of up to 2^32 sends the average lies between the extremes and is close to the mean after every send if and only if the first latency survives the conversion and no send overflows. |
| `LatencyMetrics.ExtremesAreExact` | source/binding/iceoryx2/src/Iceoryx2Binding.cpp:379-380 | The recorded minimum and maximum are the smallest and the largest latency of the run. |
| `LatencyMetrics.AverageIsClose` | source/binding/iceoryx2/src/Iceoryx2Binding.cpp:371-380 | After any n sends none of which overflows: min <= avg <= max, the average never exceeds the true mean, and it falls short of it by at most (n-1)/2. |
| `LatencyMetrics.AverageIsExactExactlyIfNoOverflow` | source/binding/iceoryx2/src/Iceoryx2Binding.cpp:377 | One step, any n: the 64-bit average is the true quotient of avg*(n-1)+latency if and only if that sum is below 2^64. |
| `LatencyMetrics.CloseExactlyIfNoOverflow` | source/binding/iceoryx2/src/Iceoryx2Binding.cpp:377 | One step, n up to 2^32: from an average close to the mean the next one is close if and only if the sum is below 2^64. |
| `LatencyMetrics.CloseThroughoutExactlyIfStepsFit` | source/binding/iceoryx2/src/Iceoryx2Binding.cpp:371-380 | For runs of up to 2^32 sends the average lies between the extremes and is close to the mean after every send if and only if no send overflows. |
| `LatencyMetrics.ExactThroughoutExactlyIfStepsFit` | source/binding/iceoryx2/src/Iceoryx2Binding.cpp:371-378 | For runs of any length the 64-bit average equals the average in unbounded integers after every send if and only if no send overflows. |
| `LatencyMetrics.FittingTotalIsClose` | source/binding/iceoryx2/src/Iceoryx2Binding.cpp:371-380 | A run whose total latency is below 2^64 has no overflow and so a close average. |
| `LatencyMetrics.BoundIsTight` | source/binding/iceoryx2/src/Iceoryx2Binding.cpp:374-378 | For every n the bound (n-1)/2 is met: latencies 0 to n-1 average to 0. |
| `LatencyMetrics.OverflowLeavesTheRange` | source/binding/iceoryx2/src/Iceoryx2Binding.cpp:377 | An instance of overflow: two sends of 2^63 ns average to 0, below both. |
| `DdsKeys.MakeKeyIsInjective` | source/binding/dds/src/DdsBinding.cpp:815-824 | No two triples of service, instance and event have the same key. |
| `DdsKeys.ParseOfKey` | source/binding/dds/src/DdsBinding.cpp:379-396 | Parsing a key as FindService does gives back the service and the instance it was made of. |
| `DdsKeys.HexForm` | source/binding/dds/src/DdsBinding.cpp:815-824 | Ids are printed in lower-case hexadecimal digits without leading zeros. |
| `DdsKeys.StoullOfDigits` | source/binding/dds/src/DdsBinding.cpp:384-396 | A string of digits is read if it is not empty and its value is below 2^64. |
| `DdsKeys.DdsBinding.WriterFor` | source/binding/dds/src/DdsBinding.cpp:425-446 | Creates a writer only for a key that has none, and succeeds iff the key has a writer afterwards. |
| `DdsKeys.DdsBinding.FindService` | source/binding/dds/src/DdsBinding.cpp:362-408 | Before initialisation an error; afterwards, without duplicates, exactly the instances discovered and those that the keys of the writers name for the service. |
| `DdsKeys.FoundExactlyIfCreated` | source/binding/dds/src/DdsBinding.cpp:374-446 | After any sends FindService finds exactly the instances for which some event of the service got a writer. |
| `DdsKeys.WriterIsTheFirstCreated` | source/binding/dds/src/DdsBinding.cpp:425-446 | Each triple keeps the writer that its first successful creation gave; no other triple replaces it. |

## Left out

- C++ memory orders, fences and the CPU pause: the step system is sequentially consistent, one access to the counter or to one cell at a time.
- The registry operations are proved for one caller at a time; what concurrent readers and writers of one slot may see is the subject of `SeqLock.dfy`. That RegisterService tests IsActive before it takes the writer is part of "writers must serialize".
- memfd, mmap, sealing, descriptor passing and the socket set-up of the registry (SharedMemoryRegistry.cpp:76-236, 398-416): the arrays start mapped and idle.
- Clocks, process ids and log output: the first two are inputs of the operations.
- RegistryRuns.BroadcastSlotIsMirrored: the time of the last heartbeat is excepted, because each array reads the clock for itself.
- Null string arguments of RegisterService, on which the code has undefined behaviour.
- The data id of an E2E configuration is modelled as its two bytes.
- Bodies of protobuf messages: a codec is a pair of functions with parse(write(m)) = m, and the value of an error code is taken to be a signed integer of 32 bits, as `static_cast<Int32>` on the caller's side suggests.
- MethodRpc.ProtobufDeserializer.DeserializeMessage: does not model a length prefix of 2^32-4 or more, where the 32-bit sum of the source wraps around and the code reads past its data; for the same reason the maxMessageSize of either end is below 2^32-4.
- RpcExchange models connected sockets without timeouts; connecting, accepting, the worker threads and callAsync are not part of this model. Which error code a failing socket gives is not specified.
- The values that a failed Deserialize of a signed integer assigns from an uninitialised variable (Serialization.hpp:505-527).
- LoadConfiguration, which locks mutex_ and then calls LoadBinding, which locks it again (BindingManager.cpp:65 and 298); the operations are LoadBinding and ReloadConfiguration.
- YAML parsing: ReloadConfiguration starts from the mappings pushed and the configurations parsed. The order in which the hash map of names is iterated is an input.
- dlopen, dlsym, the factory, Initialize and Shutdown of a plugin: an oracle says what each load meets, and a ledger counts opens and closes. Destructors and their order relative to dlclose are not modelled.
- LatencyMetrics counts fewer than 2^64 sends; messages_dropped and the receive counters are left out.
- DDS remote discovery, topics, QoS and the write itself: the outcome of creating a writer and the instances discovered are inputs.
- std::stoull skips leading white space and accepts a sign and a 0x prefix; MakeKey prints none of them and DdsKeys.Stoull does not model them.
- The event queue (source/runtime/inc/Event.hpp) and the slot allocator (tools/arxml2yaml/arxml2yaml.py) are not modelled.
- Socket event and field bindings, D-Bus, SOME/IP, health monitoring, Proxy, Skeleton and Runtime.
