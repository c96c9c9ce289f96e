# AtlasGT: verified core

A Dafny model of five pieces of AtlasGT, an industrial gateway, and proofs about them. `dafny verify dfyconfig.toml` checks everything.

**Generic protocol runtime.** A connector sends a request, receives at most 4096 bytes, cuts one frame out of them, checks its checksum, compares it with the expected reply and decodes the declared fields. The CRC loops are proved to be polynomial division, with exact statements of the errors they miss, and the end-to-end theorem says that what a device encodes is what the gateway reports, for every framing and every check. Modules `Bytes`, `Polynomials`, `Crc16`, `TwoBitErrors`, `IntegrityChecker`, `BinaryPrimitives`, `FrameProcessor`, `ProtocolDecoder`, `StableSort`, `ProtocolSchemaValidator`, `ResponseMatcher`, `GenericProtocolConnector`, `DeviceReplies`, `Reports`.

**Signed audit log.** Entries are hashed over an escaped canonical form and chained by SHA-256. SHA-256 is a parameter: nothing is assumed of it but that it yields 64 lower-case hex digits, so every theorem about tampering reads "this holds, or here are two different texts of the given logs with one digest". The CSV export, manifest included, is undone by a reader for section 2 of RFC 4180. Modules `CanonicalForm`, `Ordinal`, `HashChain`, `AuditChain`, `TamperEvidence`, `AuditCsv`.

**Store-and-forward buffer.** First as a system of small steps (enqueues under the gate, any number of drains beside them, failing file operations, restarts), then one operation at a time, a refinement that ties the two together, and the exact number of deliveries of each observation, whole as it was first enqueued. Modules `BufferInterleaving`, `StoreAndForward`, `BufferRefinement`, `DeliveryRuns`.

**Alarm engine.** Debounce counters, the pruned queue of fire times and the alarm instances, against a history that is never pruned and that records quiet samples too. Modules `AlarmEngine`, `AlarmEffects`, `AlarmHistory`, `AlarmRuns`, `AlarmDebounce`, `AlarmExamples`.

**Transports and restore.** The Modbus TCP client and simulator over byte streams that the network may cut anywhere, the TCP and serial line splitters, and the directory swap of a restore under faults. Modules `ByteStreams`, `ModbusTcp`, `ModbusSession`, `LineSplitters`, `Restore`.

Conventions. Exceptions are values of `Results.Result` or of an outcome datatype. Int32 arithmetic that can wrap is written with `Wrap32`; casts to `byte` and `ushort` are written out. Guids, directory faults, delivery answers and the way a network cuts a stream are parameters, arbitrary in every theorem. Clock readings are parameters too; theorems that compare times with the rate limit require that the clock does not step back (`AlarmRuns.Steady`), and `AlarmExamples.SteppingClockBreaksLimit` shows that they need it, while those about counters, debounce and alarm states hold on any clock. A method that the source runs as a loop is a loop here, proved equal to a function of its input or of the old state; the theorems are about that function, and among them are laws that say what it yields without naming it (`Reports.ReportedIff`, `ProtocolSchemaValidator.AcceptedIff`, `AuditCsv.ColumnsUnderHeaders`, `DeliveryRuns.ContentsKept`, `AlarmEffects.SampleRaises`, `ModbusSession.Session`, `Restore.FailureLeaves`).

Where the code and its own words differ, the model follows the code:

- `AlarmRule.Debounce` is documented as a number of consecutive samples beyond the threshold. A sample within the threshold leaves the counter alone, so a rule that asks for two raises an alarm on 25, 19, 25 against a threshold of 20 (`AlarmExamples.InterruptedSamplesRaise`). Until the 32-bit counter wraps it is the number of consecutive breaches if and only if no sample within the threshold has followed a breach since the last reset (`AlarmDebounce.CounterIsRunIff`), and an alarm comes too early if and only if `Debounce` lies between that number and the counter (`AlarmDebounce.EarlyAlarmIff`).
- `SignedFileAuditLog` is documented to detect every altered, deleted or reordered line. What is not detected is a new end: an accepted log may begin with the same history as the original, and from there on share no line with it (`TamperEvidence.AcceptedLogsPartOnce`), and whoever can write the file can make any such end (`TamperEvidence.ResignedTailPasses`). So deleting lines passes only at the end (`TamperEvidence.OnlyTruncationPasses`), altering one line only on the last one and linked and signed anew (`TamperEvidence.AlterationPassesIff`), and inserting lines only after the last (`TamperEvidence.InsertionDetected`). Knowing the last hash closes the gap (`TamperEvidence.AnchoredHistory`).
- The manifest of the CSV export is documented to detect any later alteration. It detects every change of the body that leaves the manifest as it was, or the two bodies collide (`AuditCsv.ManifestDetects`), but it is a digest without a key, so a manifest made anew passes (`AuditCsv.RemadeManifestPasses`).
- The store-and-forward buffer is documented to deduplicate by observation id. It does so on disk, but a file that cannot be moved after its delivery is delivered again by the next drain (`DeliveryRuns.StuckMoveRedelivers`). An id is delivered exactly once for reaching `sent` and once for every drain that got stuck with it (`DeliveryRuns.DeliveriesExact`), so nothing is delivered twice if and only if that sum is at most one for every id (`DeliveryRuns.DeliveredOnceIff`).
- The overlap sweep of the schema validator adds offset and length in Int32 without a check, and a schema with overlapping fields can be accepted because the sum wraps around (`ProtocolSchemaValidator.OverlapThatPasses`). The layout of an accepted schema is sound if and only if no field but the last in offset order overflows (`ProtocolSchemaValidator.AcceptedLayoutIff`).
- The Modbus client accepts any 16-bit quantity, but the byte count of the reply is one byte: a read comes back right if and only if the quantity is at most 127 (`ModbusSession.RoundTripIff`).
- The restore is documented to keep the rollback directory until the swap is confirmed. If the second move throws an I/O or access error and the undoing move throws too, the cleanup deletes it (`Restore.DoubleFaultLoses`). The restore is all or nothing if and only if those two moves do not both throw (`Restore.AllOrNothingIff`), and a complete copy survives every step if and only if that cleanup does not follow (`Restore.CompleteCopyIff`).

## Model

| member | source | states |
|---|---|---|
| Polynomials.FeedIsRemainder | src/AtlasGT.Infrastructure/Protocols/IntegrityChecker.cs:63-82 | Feeding a message of any length to the shift register from any start leaves the remainder of schoolbook division by x^16+x^15+x^2+1, with an explicit quotient |
| Polynomials.RemainderUnique | src/AtlasGT.Infrastructure/Protocols/IntegrityChecker.cs:63-82 | A dividend has one quotient and one remainder by the generator |
| Polynomials.FeedLinear | src/AtlasGT.Infrastructure/Protocols/IntegrityChecker.cs:69-79 | The bit loop is linear in register and data together |
| Polynomials.FeedZerosKernel | src/AtlasGT.Infrastructure/Protocols/IntegrityChecker.cs:69-79 | Shifting any number of times takes only the zero register to zero |
| Crc16.ShiftRegister | src/AtlasGT.Infrastructure/Protocols/IntegrityChecker.cs:71-78 | Shift right and conditional xor with 0xA001 is one step of polynomial division, lowest bit as highest coefficient |
| Crc16.MixByte | src/AtlasGT.Infrastructure/Protocols/IntegrityChecker.cs:68-79 | Xor of a byte into the register and eight shifts feed its eight bits, lowest first |
| Crc16.ShiftByte | src/AtlasGT.Infrastructure/Protocols/IntegrityChecker.cs:69-79 | The inner loop shifts eight zeros through the register |
| Crc16.CalculateCRC16 | src/AtlasGT.Infrastructure/Protocols/IntegrityChecker.cs:63-82 | The nested loops compute the register fed with all bits of the data from 0xFFFF |
| Crc16.ValidateCRC16 | src/AtlasGT.Infrastructure/Protocols/IntegrityChecker.cs:49-61 | Accepts exactly frames of at least two bytes whose last two bytes, low byte first, are the check bits of the rest |
| Crc16.CheckBitsAreTheRemainder | src/AtlasGT.Infrastructure/Protocols/IntegrityChecker.cs:53-82 | The check value is the only remainder of (message times x^16, with 0xFFFF added on top) by the generator 0x8005 |
| Crc16.AcceptsIffResidueZero | src/AtlasGT.Infrastructure/Protocols/IntegrityChecker.cs:49-61 | A frame is accepted if and only if the register over the whole frame, check bytes included, ends at zero |
| Crc16.AppendedCheckAccepted | src/AtlasGT.Infrastructure/Protocols/IntegrityChecker.cs:49-61 | Any message followed by its check value is accepted |
| Crc16.OnlyTheCheckIsAccepted | src/AtlasGT.Infrastructure/Protocols/IntegrityChecker.cs:49-61 | An accepted frame is its own beginning followed by the check value of that |
| Crc16.UndetectedIffMultiple | src/AtlasGT.Infrastructure/Protocols/IntegrityChecker.cs:49-82 | Of the changes to an accepted frame, exactly the multiples of the generator are not detected |
| Crc16.BurstRejected | src/AtlasGT.Infrastructure/Protocols/IntegrityChecker.cs:49-82 | Any change within 16 consecutive bits, anywhere in an accepted frame of any length, is rejected |
| Crc16.OddErrorsRejected | src/AtlasGT.Infrastructure/Protocols/IntegrityChecker.cs:49-82 | Any odd number of flipped bits is rejected |
| TwoBitErrors.Doubled | src/AtlasGT.Infrastructure/Protocols/IntegrityChecker.cs:69-79 | On multiples of x + 1, multiplying by x 15 * 2^k times is multiplying 2^k times and adding the start, for every k |
| TwoBitErrors.PeriodIff | src/AtlasGT.Infrastructure/Protocols/IntegrityChecker.cs:69-79 | The multiples of x + 1 return to where they were after n shifts if and only if 32767 divides n |
| TwoBitErrors.OrderOfX | src/AtlasGT.Infrastructure/Protocols/IntegrityChecker.cs:69-79 | The order of x modulo the generator is 32767 |
| TwoBitErrors.TwoBitErrorsIff | src/AtlasGT.Infrastructure/Protocols/IntegrityChecker.cs:49-82 | Two flipped bits of an accepted frame go unnoticed if and only if their distance is a multiple of 32767 bits |
| TwoBitErrors.TwoBitErrorsRejected | src/AtlasGT.Infrastructure/Protocols/IntegrityChecker.cs:49-82 | Every two flipped bits of a frame of at most 4095 bytes are rejected |
| IntegrityChecker.ValidateChecksum8 | src/AtlasGT.Infrastructure/Protocols/IntegrityChecker.cs:33-47 | The byte-wise running sum accepts exactly nonempty frames whose last byte is the unbounded sum of the others modulo 256 |
| IntegrityChecker.Validate | src/AtlasGT.Infrastructure/Protocols/IntegrityChecker.cs:14-31 | The choice of algorithm, its three outcomes, and the cases in which nothing is checked |
| IntegrityChecker.SingleByteErrorRejected | src/AtlasGT.Infrastructure/Protocols/IntegrityChecker.cs:33-47 | Changing exactly one byte of a frame the sum accepts is rejected |
| IntegrityChecker.OnlyTheSumIsAccepted | src/AtlasGT.Infrastructure/Protocols/IntegrityChecker.cs:37-46 | For each message exactly one last byte is accepted |
| BinaryPrimitives.ReadWrite | src/AtlasGT.Infrastructure/Protocols/ProtocolDecoder.cs:18-21 | Writing and reading an unsigned number of any width are inverse in both byte orders |
| BinaryPrimitives.ReadInjective | src/AtlasGT.Infrastructure/Protocols/ProtocolDecoder.cs:18-21 | Different bytes read as different numbers |
| BinaryPrimitives.FirstByteBig | src/AtlasGT.Infrastructure/Protocols/FrameProcessor.cs:42 | Big-endian reading weighs the first byte most |
| BinaryPrimitives.FirstByteLittle | src/AtlasGT.Infrastructure/Protocols/ProtocolDecoder.cs:18 | Little-endian reading weighs the first byte least |
| BinaryPrimitives.ReadWriteInt32 | src/AtlasGT.Infrastructure/Protocols/ProtocolDecoder.cs:18 | Every Int32, negative ones included, is read back as written |
| FrameProcessor.FindDelimiter | src/AtlasGT.Infrastructure/Protocols/FrameProcessor.cs:57-73 | Returns the least index at which the delimiter occurs, or -1 if and only if it occurs nowhere |
| FrameProcessor.ExtractFrame | src/AtlasGT.Infrastructure/Protocols/FrameProcessor.cs:15-55 | The frame or the error of each framing type, with the Int32 sums that can wrap |
| FrameProcessor.ExtractedIffFramed | src/AtlasGT.Infrastructure/Protocols/FrameProcessor.cs:15-55 | A frame comes out if and only if the buffer starts with that frame in the layout the framing type describes |
| FrameProcessor.ExtractionFails | src/AtlasGT.Infrastructure/Protocols/FrameProcessor.cs:15-55 | Which exception a buffer without a frame causes: not supported for an undeclared type, out of range exactly where a length prefix lies outside the buffer or a sum wraps, and else a framing error |
| FrameProcessor.LaterBytesDoNotMatter | src/AtlasGT.Infrastructure/Protocols/FrameProcessor.cs:15-55 | A successful extraction is unchanged by any bytes appended to the buffer |
| FrameProcessor.DelimitedRoundTrip | src/AtlasGT.Infrastructure/Protocols/FrameProcessor.cs:27-35 | A payload followed by the delimiter is recovered if and only if the delimiter does not occur earlier |
| FrameProcessor.PrefixedRoundTrip | src/AtlasGT.Infrastructure/Protocols/FrameProcessor.cs:37-50 | A payload behind its big-endian length at any offset is recovered, up to the 10 MB limit |
| FrameProcessor.FixedRoundTrip | src/AtlasGT.Infrastructure/Protocols/FrameProcessor.cs:21-25 | A payload of the fixed length is recovered |
| ProtocolDecoder.DecodeSucceeds | src/AtlasGT.Infrastructure/Protocols/ProtocolDecoder.cs:9-27 | On a field with a sane layout decoding succeeds if and only if its bytes are there and its encoding is a declared one |
| ProtocolDecoder.BytesRead | src/AtlasGT.Infrastructure/Protocols/ProtocolDecoder.cs:22-34 | For any bytes: a Boolean is true if and only if some bit of the first byte is set, a bit field is its lowest bit, a text has the ASCII characters of its bytes and a question mark for every other, and too few bytes fail |
| ProtocolDecoder.SlotRoundTrip | src/AtlasGT.Infrastructure/Protocols/ProtocolDecoder.cs:14-34 | For each of the seven encodings and both byte orders, what was written over a slot is what is read from it |
| StableSort.OrderByContents | src/AtlasGT.Infrastructure/Protocols/ProtocolSchemaValidator.cs:50 | Sorting keeps the elements |
| StableSort.OrderByStable | src/AtlasGT.Infrastructure/Protocols/ProtocolSchemaValidator.cs:50 | Elements with equal keys keep their order |
| StableSort.AscendingUnique | src/AtlasGT.Infrastructure/Protocols/ProtocolSchemaValidator.cs:50 | Order and stability determine the result of a sort |
| StableSort.DownThenUp | src/AtlasGT.Api/Controllers/AdminController.cs:74-75 | The descending sort of the log followed by the ascending sort of the export is one stable ascending sort |
| ProtocolSchemaValidator.CheckTypes | src/AtlasGT.Infrastructure/Protocols/ProtocolSchemaValidator.cs:31-47 | The loop finds the first field too short for its type |
| ProtocolSchemaValidator.CheckOverlaps | src/AtlasGT.Infrastructure/Protocols/ProtocolSchemaValidator.cs:49-67 | The loop is the sweep over the fields with a wrapping position |
| ProtocolSchemaValidator.Validate | src/AtlasGT.Infrastructure/Protocols/ProtocolSchemaValidator.cs:20-100 | Reports the first violation in the order of the checks, or accepts |
| ProtocolSchemaValidator.SweepExact | src/AtlasGT.Infrastructure/Protocols/ProtocolSchemaValidator.cs:49-67 | Offsets are nonnegative, lengths positive and byte ranges disjoint if and only if the sorted sweep passes and no field but the last overflows Int32 |
| ProtocolSchemaValidator.OverlapThatPasses | src/AtlasGT.Infrastructure/Protocols/ProtocolSchemaValidator.cs:49-82 | A concrete schema with two fields on the same byte, beyond its frame, that validation accepts because the sum wraps |
| ProtocolSchemaValidator.AcceptedLayoutIff | src/AtlasGT.Infrastructure/Protocols/ProtocolSchemaValidator.cs:49-67 | The layout of an accepted schema is sound if and only if no field but the last overflows Int32 |
| ProtocolSchemaValidator.AcceptedIff | src/AtlasGT.Infrastructure/Protocols/ProtocolSchemaValidator.cs:20-100 | Without overflow a schema is accepted if and only if it has a name and fields, all long enough and disjoint, a framing that holds them, a length offset that is not negative, and a supported checksum; the order of the checks plays no part |
| ProtocolSchemaValidator.ViolationIsReal | src/AtlasGT.Infrastructure/Protocols/ProtocolSchemaValidator.cs:20-97 | Every rejected schema, overflowing or not, has the fault it is rejected for, in the field it is rejected for; a reported overlap is one |
| ProtocolSchemaValidator.AcceptedFields | src/AtlasGT.Infrastructure/Protocols/ProtocolSchemaValidator.cs:31-82 | Without overflow, an accepted schema has a sound layout within the frame and long enough fields |
| ProtocolSchemaValidator.AcceptedSchemaDecodes | src/AtlasGT.Infrastructure/Protocols/ProtocolSchemaValidator.cs:73-82 | Under an accepted FixedLength schema every buffer of that length yields a frame, and all fields decode if and only if none overflows and all encodings are declared ones |
| ResponseMatcher.Match | src/AtlasGT.Infrastructure/Protocols/ResponseMatcher.cs:14-41 | Accepts exactly data equal to the exact reply, if one is given, and starting with the prefix, if one is given |
| GenericProtocolConnector.Transport.Send | src/AtlasGT.Infrastructure/Connectors/GenericProtocolConnector.cs:57 | The bytes go out whole, or the transport fails and nothing is sent |
| GenericProtocolConnector.Transport.Receive | src/AtlasGT.Infrastructure/Connectors/GenericProtocolConnector.cs:64 | One reply is consumed, cut to the receive limit; a lost or missing one is a transport failure |
| GenericProtocolConnector.Connector.Connect | src/AtlasGT.Infrastructure/Connectors/GenericProtocolConnector.cs:99-116 | Connected if the transport connects, else Faulted |
| GenericProtocolConnector.Connector.Execute | src/AtlasGT.Infrastructure/Connectors/GenericProtocolConnector.cs:42-97 | Nothing is sent unless connected and permitted; then one request, one reply, and the first failing stage or the decoded fields; a report lies in the reply in the operation's own framing, or without one the schema's, and passed its own check, or without one the schema's |
| DeviceReplies.PlacedDecodes | src/AtlasGT.Infrastructure/Connectors/GenericProtocolConnector.cs:79-83 | Values placed in disjoint slices all decode to themselves, however many there are |
| DeviceReplies.SettingEncodable | src/AtlasGT.Infrastructure/Protocols/ProtocolSchemaValidator.cs:31-82 | An accepted schema lets a device encode values if and only if each suits its field |
| DeviceReplies.DecodeAllTabulates | src/AtlasGT.Infrastructure/Connectors/GenericProtocolConnector.cs:78-83 | With distinct names the decoding loop fills the table with each field's value and nothing else |
| DeviceReplies.WireFramed | src/AtlasGT.Infrastructure/Protocols/FrameProcessor.cs:15-55 | A frame wrapped for any of the three framings, where the framing can carry it, is extracted again whatever follows |
| DeviceReplies.WithCheckPasses | src/AtlasGT.Infrastructure/Protocols/IntegrityChecker.cs:14-61 | Data with the check bytes its settings ask for passes the check, for every algorithm the validator accepts |
| DeviceReplies.RoundTrip | src/AtlasGT.Infrastructure/Connectors/GenericProtocolConnector.cs:42-97 | For an accepted schema, any of the three framings and any accepted check, what a device encodes is exactly what is reported, for any number of fields and whatever follows the reply, unless the matcher turns it away |
| DeviceReplies.Ask | src/AtlasGT.Infrastructure/Connectors/GenericProtocolConnector.cs:42-97 | A fresh connector on a reachable transport with one reply sends one request and reports what the stages make of that reply |
| DeviceReplies.ReadDevice | src/AtlasGT.Infrastructure/Connectors/GenericProtocolConnector.cs:42-116 | Connecting and executing against a device's reply reports exactly the device's values under the field names, or a mismatch if the matcher says so |
| DeviceReplies.DamagedReplyRejected | src/AtlasGT.Infrastructure/Connectors/GenericProtocolConnector.cs:66-72 | With fixed-length frames and CRC a reply damaged by a burst of at most 16 bits is never reported as a success |
| DeviceReplies.ReportsAreChecked | src/AtlasGT.Infrastructure/Connectors/GenericProtocolConnector.cs:66-90 | Whatever is reported came from a frame that passed every stage, each field decoded from it |
| Reports.VerdictExact | src/AtlasGT.Infrastructure/Protocols/IntegrityChecker.cs:14-61 | A frame passes if and only if it is some data with the check bytes a device adds under these settings; settings are not supported if and only if the schema validator refuses them; every other failure is an integrity error |
| Reports.VerdictByName | src/AtlasGT.Infrastructure/Protocols/IntegrityChecker.cs:14-31 | What each algorithm name selects, and that a check that is absent, off or `None` accepts everything |
| Reports.FramingOverrideWins | src/AtlasGT.Infrastructure/Connectors/GenericProtocolConnector.cs:67-68 | With a framing of its own an operation reports a frame in that framing and has the same outcome under every schema framing; without one it reports a frame in the schema's |
| Reports.ValidationOverrideWins | src/AtlasGT.Infrastructure/Connectors/GenericProtocolConnector.cs:71-72 | The same for the check: what is reported passed the operation's own, whatever the schema's, or without one the schema's |
| Reports.ReportedIff | src/AtlasGT.Infrastructure/Connectors/GenericProtocolConnector.cs:67-90 | A report is made if and only if the buffer starts with its payload in the framing in force, the payload passes the check in force and is the reply asked for, and the fields have names of their own and read as reported, none more |
| Reports.RejectedIff | src/AtlasGT.Infrastructure/Connectors/GenericProtocolConnector.cs:67-75 | An integrity error if and only if the frame fails the check, a mismatch if and only if it passes and is not the reply asked for |
| CanonicalForm.PassesAreOneEscape | src/AtlasGT.Infrastructure/SignedAuditEntry.cs:84 | The three Replace passes equal one character-wise escape |
| CanonicalForm.UnescapeEscape | src/AtlasGT.Infrastructure/SignedAuditEntry.cs:84 | The escape has an inverse |
| CanonicalForm.EscapedHasNoLineBreak | src/AtlasGT.Infrastructure/SignedAuditEntry.cs:83-84 | An escaped value contains no CR and no LF |
| CanonicalForm.AppendField | src/AtlasGT.Infrastructure/SignedAuditEntry.cs:80-86 | Appends one line: key, equals sign, escaped value, LF |
| CanonicalForm.BuildCanonicalForm | src/AtlasGT.Infrastructure/SignedAuditEntry.cs:58-78 | Produces the fifteen lines in order, or fails if and only if actor or action is null |
| CanonicalForm.FieldsUnderKeys | src/AtlasGT.Infrastructure/SignedAuditEntry.cs:61-77 | A reader of the form, which splits at line feeds and at the first equals sign and undoes the escapes, finds fifteen lines with each field of the entry under its own key |
| CanonicalForm.DecimalInjective | src/AtlasGT.Infrastructure/SignedAuditEntry.cs:73 | Different severities have different decimal texts |
| CanonicalForm.DigitsRead | src/AtlasGT.Infrastructure/SignedAuditEntry.cs:73 | The decimal text of a number consists of digits that stand for it, without needless zeros |
| CanonicalForm.CanonicalInjective | src/AtlasGT.Infrastructure/SignedAuditEntry.cs:58-86 | Two canonical forms are equal if and only if all fifteen fields agree, null counting as empty |
| HashChain.AgreeBelow | src/AtlasGT.Infrastructure/SignedFileAuditLog.cs:108-147 | Two chains that point to the same hash agree all the way down and have the same length, or exhibit a collision; GENESIS is never a digest |
| HashChain.TargetsDistinct | src/AtlasGT.Infrastructure/SignedFileAuditLog.cs:128-147 | Different positions of a chain have different hashes up to letter case, or two links collide |
| HashChain.SubchainPrefix | src/AtlasGT.Infrastructure/SignedFileAuditLog.cs:128-147 | A chain made of links of a chain is a prefix of it, or two links collide |
| AuditChain.SignedAuditEntry.ComputeAndSetHash | src/AtlasGT.Infrastructure/SignedAuditEntry.cs:88-93 | Sets the hash of the entry's own canonical form, or fails on a null actor or action with the hash as it was |
| AuditChain.SignedAuditEntry.VerifySelf | src/AtlasGT.Infrastructure/SignedAuditEntry.cs:96-102 | True exactly when the stored hash is that hash, letter case ignored; throws on a null actor or action |
| AuditChain.SignedFileAuditLog.ReadLastHash | src/AtlasGT.Infrastructure/SignedFileAuditLog.cs:223-238 | The nonempty hash nearest the end of the file, unreadable lines skipped |
| AuditChain.LastHashExact | src/AtlasGT.Infrastructure/SignedFileAuditLog.cs:223-238 | That hash stands in a line with no nonempty hash after it, or no line has one |
| AuditChain.SignedFileAuditLog.Append | src/AtlasGT.Infrastructure/SignedFileAuditLog.cs:80-97 | Adds exactly one line: the entry linked to the last hash, or GENESIS, and signed; an entry that cannot be hashed adds nothing |
| AuditChain.AppendLinks | src/AtlasGT.Infrastructure/SignedFileAuditLog.cs:88-95 | On any log, chained or not, the added entry links to the nonempty hash nearest the end, or to GENESIS if there is none, and has the hash of its own form |
| AuditChain.SignedFileAuditLog.Verify | src/AtlasGT.Infrastructure/SignedFileAuditLog.cs:99-152 | The loop's verdict, count, first tampered entry, reason and last hash, or the exception of a line that cannot be hashed |
| AuditChain.VerifyExact | src/AtlasGT.Infrastructure/SignedFileAuditLog.cs:99-152 | Accepts if and only if every line is an entry, links to its predecessor and has its own hash; else reports the first line that does not, by what is wrong with it, or throws there |
| AuditChain.RejectionExplained | src/AtlasGT.Infrastructure/SignedFileAuditLog.cs:112-147 | A rejection names the first bad line, counted from one, and says what is wrong with that line; the count, the entry named and the last hash are those of that place |
| AuditChain.AppendKeepsChain | src/AtlasGT.Infrastructure/SignedFileAuditLog.cs:80-97 | Appending to a chained log gives a chained log |
| AuditChain.BuiltLogsVerify | src/AtlasGT.Infrastructure/SignedFileAuditLog.cs:80-152 | A log built only by appends holds exactly the appended contents that can be hashed, is accepted, and reports the last hash the next append would use |
| AuditChain.RejectionIsFinal | src/AtlasGT.Infrastructure/SignedFileAuditLog.cs:99-152 | Once rejected, or once verification throws, a log has the same outcome whatever is appended |
| TamperEvidence.AnchoredHistory | src/AtlasGT.Infrastructure/SignedFileAuditLog.cs:99-152 | Two accepted logs with the same last hash have the same length and the same fields throughout, or exhibit a collision |
| TamperEvidence.EntryHashesDistinct | src/AtlasGT.Infrastructure/SignedFileAuditLog.cs:128-147 | Entry hashes of an accepted log differ pairwise up to letter case, or two entries collide |
| TamperEvidence.OnlyTruncationPasses | src/AtlasGT.Infrastructure/SignedFileAuditLog.cs:128-147 | Of the logs made of unmodified lines of an accepted log, in any order and with any repetition, exactly the prefixes are accepted, or two entries collide |
| TamperEvidence.TruncationPasses | src/AtlasGT.Infrastructure/SignedFileAuditLog.cs:108-152 | Every prefix of an accepted log is accepted |
| TamperEvidence.DeletionDetected | src/AtlasGT.Infrastructure/SignedFileAuditLog.cs:128-147 | Deleting any block of lines but one at the end is detected, or two entries collide |
| TamperEvidence.ReorderingDetected | src/AtlasGT.Infrastructure/SignedFileAuditLog.cs:128-147 | Any other order of the same lines is detected, or two entries collide |
| TamperEvidence.ReplacementExact | src/AtlasGT.Infrastructure/SignedFileAuditLog.cs:128-147 | A line put in the place of another passes if and only if it links back, has its own hash, and the next line links to it |
| TamperEvidence.AlterationPassesIff | src/AtlasGT.Infrastructure/SignedFileAuditLog.cs:128-147 | Altering a hashed field of one line passes if and only if it is the last line, linked and signed anew, or the two versions collide |
| TamperEvidence.ResignedTailPasses | src/AtlasGT.Infrastructure/SignedFileAuditLog.cs:80-152 | Dropping any lines from the end of an accepted log and appending any others passes |
| TamperEvidence.SharedLine | src/AtlasGT.Infrastructure/SignedFileAuditLog.cs:108-147 | A line that two accepted logs share in its hashed fields stands at one position in both, behind the same history, or two entries collide |
| TamperEvidence.AcceptedLogsPartOnce | src/AtlasGT.Infrastructure/SignedFileAuditLog.cs:99-152 | Whatever was altered, deleted, inserted or moved: two accepted logs begin with the same history and from there on share no line, or two entries collide |
| TamperEvidence.InsertionDetected | src/AtlasGT.Infrastructure/SignedFileAuditLog.cs:128-147 | Inserting any lines before a line of the log is detected, or two entries collide |
| TamperEvidence.AlterationSpreads | src/AtlasGT.Infrastructure/SignedFileAuditLog.cs:128-147 | Accepted logs that differ in a hashed field of one line differ in every later line, or two entries collide |
| AuditCsv.ReadFieldPrinted | src/AtlasGT.Api/Controllers/AdminController.cs:122-128 | A printed field, quoted or not, reads back as its value, null as empty |
| AuditCsv.PlainIff | src/AtlasGT.Api/Controllers/AdminController.cs:122-128 | A value is printed as it is if and only if it has no comma, quote, CR or LF |
| AuditCsv.ReadRowsPrinted | src/AtlasGT.Api/Controllers/AdminController.cs:77-97 | Any printed table reads back as the printed values, for either line terminator |
| AuditCsv.PrintRowsInOrder | src/AtlasGT.Api/Controllers/AdminController.cs:77-97 | The loop prints the rows in order |
| AuditCsv.ManifestIsARow | src/AtlasGT.Api/Controllers/AdminController.cs:99-104 | The manifest line is a printed row: nothing in it needs quotes |
| AuditCsv.ExportCsv | src/AtlasGT.Api/Controllers/AdminController.cs:69-115 | The text shows the log as it was and ends in the manifest; the log then holds exactly one more entry |
| AuditCsv.ExportReadsBack | src/AtlasGT.Api/Controllers/AdminController.cs:74-104 | The text reads back as the header, one row per readable entry, stably sorted by time, and the manifest with the digest and the number of entries |
| AuditCsv.ColumnsUnderHeaders | src/AtlasGT.Api/Controllers/AdminController.cs:74-104 | What is read back has for every entry, in order of time and stably, each of thirteen fields under the column of its name: 1 or 0, the name of the severity, null as empty; then the digest of the text above and the number of entries |
| AuditCsv.EntriesLineByLine | src/AtlasGT.Api/Controllers/AdminController.cs:74 | The entries are those of the lines in their order, lines that are no entry passed over |
| AuditCsv.ManifestUnique | src/AtlasGT.Api/Controllers/AdminController.cs:99-104 | Body and digest can be read off the end of a text that ends in a manifest |
| AuditCsv.ManifestDetects | src/AtlasGT.Api/Controllers/AdminController.cs:62-66 | A body under the manifest of another body passes if and only if the two are equal or collide |
| AuditCsv.RemadeManifestPasses | src/AtlasGT.Api/Controllers/AdminController.cs:62-66 | Any body passes under a manifest made for it |
| AuditCsv.ExportFollowsChain | src/AtlasGT.Api/Controllers/AdminController.cs:74-97 | For an accepted log with nondecreasing times each row's previous hash is the entry hash of the row above, up to letter case |
| BufferInterleaving.StepKeepsInv | src/AtlasGT.Historian/FileStoreAndForwardBuffer.cs:44-117 | Every step keeps the invariant, and ids reach `sent` only from `pending` and only when confirmed |
| BufferInterleaving.NoLoss | src/AtlasGT.Historian/FileStoreAndForwardBuffer.cs:44-117 | In every interleaving an accepted id is at every later moment in exactly one directory, in `sent` only if confirmed |
| BufferInterleaving.SentForGood | src/AtlasGT.Historian/FileStoreAndForwardBuffer.cs:52-58 | A sent id stays sent and is never pending again, across restarts |
| BufferInterleaving.NothingInvented | src/AtlasGT.Historian/FileStoreAndForwardBuffer.cs:53-61 | The directories hold exactly the accepted ids, and `_seen` only those |
| BufferInterleaving.OverlappingDrainsRedeliver | src/AtlasGT.Historian/FileStoreAndForwardBuffer.cs:75-108 | A run in which two drains that overlap deliver one file twice |
| BufferInterleaving.EnqueueMeetsDrain | src/AtlasGT.Historian/FileStoreAndForwardBuffer.cs:44-117 | A run in which an id is enqueued again between its delivery and its move |
| BufferInterleaving.SwappedChecksDuplicate | src/AtlasGT.Historian/FileStoreAndForwardBuffer.cs:54 | Testing `sent` before `pending` would let that run end with the id in both directories |
| StoreAndForward.FileStoreAndForwardBuffer.Enqueue | src/AtlasGT.Historian/FileStoreAndForwardBuffer.cs:44-64 | Writes one pending file with the whole observation unless the id is seen, pending or sent; a failing write throws and changes neither directories nor `_seen` |
| StoreAndForward.FileStoreAndForwardBuffer.SortedFiles | src/AtlasGT.Historian/FileStoreAndForwardBuffer.cs:75-76 | The pending names, each once, in ascending order |
| StoreAndForward.FileStoreAndForwardBuffer.Drain | src/AtlasGT.Historian/FileStoreAndForwardBuffer.cs:71-111 | The loop over the sorted names with unreadable, corrupt and refused files and cancellation between and within files |
| StoreAndForward.FileStoreAndForwardBuffer.HandleFile | src/AtlasGT.Historian/FileStoreAndForwardBuffer.cs:84-108 | One file's turn: unreadable, corrupt, refused, delivered and moved if the move works, or a cancelled callback that changes nothing |
| StoreAndForward.FileStoreAndForwardBuffer.TryMove | src/AtlasGT.Historian/FileStoreAndForwardBuffer.cs:113-117 | A failing move changes nothing |
| StoreAndForward.OfferExact | src/AtlasGT.Historian/FileStoreAndForwardBuffer.cs:75-102 | The offer is every pending observation that can be read, that the destination takes and that no cancellation precedes, once, in name order |
| StoreAndForward.DrainDelivers | src/AtlasGT.Historian/FileStoreAndForwardBuffer.cs:71-111 | Whatever fails and whatever the files hold, a drain delivers exactly the first `max` deliverable observations ahead of it |
| StoreAndForward.DrainExact | src/AtlasGT.Historian/FileStoreAndForwardBuffer.cs:71-111 | Whatever fails, a drain delivers exactly the first `max` of the offer, and moves exactly those files whose move works |
| StoreAndForward.FullVisit | src/AtlasGT.Historian/FileStoreAndForwardBuffer.cs:79-108 | A drain that is not cancelled and delivers fewer than `max` leaves exactly the files that could not be read or moved or were refused, and moves the others, corrupt ones under a fresh id; for any files, well named or not |
| StoreAndForward.ThrownIff | src/AtlasGT.Historian/FileStoreAndForwardBuffer.cs:79-102 | A drain throws if and only if a file is reached at which the token is cancelled, looked at before the maximum, or at which the callback is, below it |
| StoreAndForward.DrainShrinks | src/AtlasGT.Historian/FileStoreAndForwardBuffer.cs:104-110 | `pending` shrinks by the delivered ids that could be moved, all of them if moves work, each going to `sent` |
| StoreAndForward.RepeatedDrainsEmpty | src/AtlasGT.Historian/FileStoreAndForwardBuffer.cs:71-111 | With an accepting destination k drains empty the buffer if and only if k times `max` covers it |
| BufferRefinement.EnqueueIsAPath | src/AtlasGT.Historian/FileStoreAndForwardBuffer.cs:44-64 | An enqueue running alone is a sequence of the small steps, whether or not its write fails |
| BufferRefinement.DrainIsAPath | src/AtlasGT.Historian/FileStoreAndForwardBuffer.cs:71-111 | So is a drain, whatever reads, deliveries and moves fail in it and wherever it is cancelled |
| BufferRefinement.OperationsAreRuns | src/AtlasGT.Historian/FileStoreAndForwardBuffer.cs:44-117 | Every run of operations is a run of small steps with the same directories, `_seen` and confirmations |
| BufferRefinement.NothingLostWhateverFails | src/AtlasGT.Historian/FileStoreAndForwardBuffer.cs:44-117 | After any run of operations under failing writes, reads, deliveries and moves the two directories partition the ids there at the start or enqueued by a working write, and only confirmed ids are newly sent |
| DeliveryRuns.DrainCounts | src/AtlasGT.Historian/FileStoreAndForwardBuffer.cs:104-108 | A drain delivers an id once for newly reaching `sent` and once if its move fails, and else not at all |
| DeliveryRuns.DeliveriesExact | src/AtlasGT.Historian/FileStoreAndForwardBuffer.cs:44-117 | In every run, whatever fails, an id is delivered once if it has newly reached `sent` and once more for every drain whose move of it failed |
| DeliveryRuns.DeliveredOnceIff | src/AtlasGT.Historian/FileStoreAndForwardBuffer.cs:44-117 | Nothing is delivered twice if and only if that sum is at most one for every id |
| DeliveryRuns.RunsDeliverOnce | src/AtlasGT.Historian/FileStoreAndForwardBuffer.cs:44-117 | The special case of working moves: exactly the newly sent ids were delivered, each once, whatever writes, reads and deliveries fail |
| DeliveryRuns.ContentsKept | src/AtlasGT.Historian/FileStoreAndForwardBuffer.cs:44-117 | In every run, whatever fails, every pending and every delivered observation is, as a whole, the one pending under its id at the start, or for an id new to the buffer the one of the first enqueue of that id whose write works |
| DeliveryRuns.SentWasDelivered | src/AtlasGT.Historian/FileStoreAndForwardBuffer.cs:59-108 | Every id newly in `sent` was delivered as that observation |
| DeliveryRuns.StuckMoveRedelivers | src/AtlasGT.Historian/FileStoreAndForwardBuffer.cs:113-117 | Two drains deliver the observation in a locked file twice |
| AlarmEngine.AlarmEngine.AddRule | src/AtlasGT.Application/Alarms/AlarmEngine.cs:68-76 | Replaces every rule with that id by the new one, at the end |
| AlarmEngine.AlarmEngine.CheckRateLimit | src/AtlasGT.Application/Alarms/AlarmEngine.cs:164-170 | Prunes the queue to the last minute and compares its length with the limit |
| AlarmEngine.AlarmEngine.RecordFire | src/AtlasGT.Application/Alarms/AlarmEngine.cs:172-176 | Appends the time of its own clock reading |
| AlarmEngine.AlarmEngine.HandleRule | src/AtlasGT.Application/Alarms/AlarmEngine.cs:86-112 | One turn of the loop, with the separate clock readings of check, alarm and record in order |
| AlarmEngine.AlarmEngine.Process | src/AtlasGT.Application/Alarms/AlarmEngine.cs:79-115 | The rules are handled in order; the alarms raised are those of the turns |
| AlarmEngine.AlarmEngine.Acknowledge | src/AtlasGT.Application/Alarms/AlarmEngine.cs:117-128 | Acknowledges the first alarm with the id if it is active, else changes nothing |
| AlarmEngine.AlarmEngine.Clear | src/AtlasGT.Application/Alarms/AlarmEngine.cs:130-141 | Clears the first alarm with the id in any state, else changes nothing |
| AlarmEngine.AlarmEngine.ResetDebounce | src/AtlasGT.Application/Alarms/AlarmEngine.cs:143-150 | Zeroes the counters of the rules whose key is exactly the given one |
| AlarmEffects.RuleRaises | src/AtlasGT.Application/Alarms/AlarmEngine.cs:86-112 | A rule raises one alarm if and only if the sample is of its signal, is above, below, within 1e-9 of or further than 1e-9 from the threshold as its kind says, never for an undeclared kind, the count is complete and the minute has room; the alarm says what rule and sample say, and no other rule's counter or queue changes |
| AlarmEffects.SampleRaises | src/AtlasGT.Application/Alarms/AlarmEngine.cs:79-115 | A sample raises exactly one alarm for each rule that is due when it arrives, in the order of the rules |
| AlarmEffects.AddedRuleExact | src/AtlasGT.Application/Alarms/AlarmEngine.cs:68-76 | All rules of other ids stay, in order, the new one comes last, and ids stay distinct |
| AlarmEffects.AcknowledgeExact | src/AtlasGT.Application/Alarms/AlarmEngine.cs:117-128 | Succeeds if and only if the first alarm of the id is active; exactly that alarm is marked, with time and actor, and what it reports stays |
| AlarmEffects.ClearExact | src/AtlasGT.Application/Alarms/AlarmEngine.cs:130-141 | Succeeds if and only if there is an alarm of the id; exactly the first is marked, with time and reason |
| AlarmEffects.ResetExact | src/AtlasGT.Application/Alarms/AlarmEngine.cs:143-150 | A counter becomes zero if and only if a rule of that id has exactly that key; all others stay |
| AlarmHistory.PrunedCounts | src/AtlasGT.Application/Alarms/AlarmEngine.cs:164-170 | The pruned queue has as many times as the full list of fires has within the last minute |
| AlarmHistory.DecisionsAgree | src/AtlasGT.Application/Alarms/AlarmEngine.cs:91-96 | Counter and queue decide as the full history does |
| AlarmHistory.RuleAgrees | src/AtlasGT.Application/Alarms/AlarmEngine.cs:86-112 | A rule raises an alarm if and only if the full history calls for one, and the two keep agreeing |
| AlarmHistory.RulesAgree | src/AtlasGT.Application/Alarms/AlarmEngine.cs:79-115 | The same for a whole sample and any list of rules |
| AlarmHistory.ResetAgrees | src/AtlasGT.Application/Alarms/AlarmEngine.cs:143-150 | Resetting counters keeps the agreement |
| AlarmRuns.RunAgrees | src/AtlasGT.Application/Alarms/AlarmEngine.cs:68-176 | At every moment of every run on a clock that does not step back counters, queues and alarms agree with the full history |
| AlarmRuns.SamplesFollowHistory | src/AtlasGT.Application/Alarms/AlarmEngine.cs:79-115 | In every such run a sample raises exactly the alarms the full history calls for: a debounced breach is held back if and only if its last minute holds `MaxPerMinute` fires |
| AlarmRuns.CounterIsBreachCount | src/AtlasGT.Application/Alarms/AlarmEngine.cs:91-92 | In every run, on any clock, the counter is the number of breaching samples since the last reset, wrapped to 32 bits |
| AlarmRuns.QuietSampleChangesNothing | src/AtlasGT.Application/Alarms/AlarmEngine.cs:88-89 | A sample that breaches no rule changes nothing |
| AlarmRuns.SpacedWindow | src/AtlasGT.Application/Alarms/AlarmEngine.cs:164-170 | Times of which any limit+1 consecutive ones span more than a minute put at most limit into a closed minute |
| AlarmRuns.RateLimitHolds | src/AtlasGT.Application/Alarms/AlarmEngine.cs:96-176 | On a clock that does not step back no closed minute holds more alarms of a rule id than the largest limit it was ever given, across replacements of the rule |
| AlarmRuns.AlarmsMoveForward | src/AtlasGT.Application/Alarms/AlarmEngine.cs:108-141 | On any clock alarms are never dropped or altered in what they report, never return to an earlier state, and their marks fit it |
| AlarmDebounce.RunIsCountIff | src/AtlasGT.Application/Alarms/AlarmEngine.cs:19-20 | All breaches since the last reset are consecutive if and only if no sample within the threshold has followed one |
| AlarmDebounce.DecisionDiffersIff | src/AtlasGT.Application/Alarms/AlarmEngine.cs:91-94 | The debounce decision is earlier than the documented one if and only if `Debounce` lies between the two counts, and later if and only if it lies above the wrapped counter, which takes 2^31 breaches |
| AlarmDebounce.DocumentedIff | src/AtlasGT.Application/Alarms/AlarmEngine.cs:19-20 | The engine decides as documented for every value of `Debounce` if and only if the next counter value is the next run length, as far as `Debounce` reaches; before the counter wraps, if and only if the count was not interrupted |
| AlarmDebounce.CounterIsRunIff | src/AtlasGT.Application/Alarms/AlarmEngine.cs:91-92 | In every run, on any clock and before the counter wraps, it is the number of consecutive breaches if and only if it was not interrupted |
| AlarmDebounce.EarlyAlarmIff | src/AtlasGT.Application/Alarms/AlarmEngine.cs:86-112 | In every run, on any clock and with the counter wrapped or not, exactly when a rule raises an alarm before `Debounce` consecutive breaches, and that the count was then interrupted |
| AlarmExamples.InterruptedSamplesRaise | src/AtlasGT.Application/Alarms/AlarmEngine.cs:88-94 | A run in which 25, 19, 25 raise an alarm of a rule for two consecutive samples above 20 |
| AlarmExamples.SteppingClockBreaksLimit | src/AtlasGT.Application/Alarms/AlarmEngine.cs:164-176 | A run in which a clock set back from 120 s to 1 s lets a rule limited to one alarm a minute raise two within a second |
| ByteStreams.NetworkStream.Arrive | src/AtlasGT.Connectors.Modbus/ModbusTcpConnector.cs:153 | Bytes that arrive in any chunks extend the unread bytes |
| ByteStreams.NetworkStream.Read | src/AtlasGT.Connectors.Modbus/ModbusTcpConnector.cs:153-156 | A read yields a nonempty prefix of the unread bytes, or nothing at the end |
| ByteStreams.NetworkStream.ReadExact | src/AtlasGT.Connectors.Modbus/ModbusTcpConnector.cs:145-160 | The loop yields exactly the next `count` bytes however they were cut, or none if the stream ends first |
| ModbusTcp.ModbusTcpConnector.SendRequest | src/AtlasGT.Connectors.Modbus/ModbusTcpConnector.cs:112-130 | The twelve bytes of a request, with a transaction id that counts up modulo 65536 |
| ModbusTcp.ModbusTcpConnector.BuildPdu | src/AtlasGT.Connectors.Modbus/ModbusTcpConnector.cs:115-120 | Function code, start and quantity, high bytes first |
| ModbusTcp.ModbusTcpConnector.ReceiveReply | src/AtlasGT.Connectors.Modbus/ModbusTcpConnector.cs:132-142 | Takes exactly the reply its header announces off the stream, or fails if it is not all there |
| ModbusTcp.DecodeRegisters | src/AtlasGT.Connectors.Modbus/ModbusTcpConnector.cs:191-202 | The registers of a well-formed reply, high bytes first, and none for any other bytes |
| ModbusTcp.ModbusTcpSimulator.HandleNext | src/AtlasGT.Connectors.Simulators/ModbusTcpSimulator.cs:57-90 | One request is read and answered, ignored, or ends the connection |
| ModbusTcp.ModbusTcpSimulator.BuildReply | src/AtlasGT.Connectors.Simulators/ModbusTcpSimulator.cs:81-88 | The reply with copied ids and unit and the truncated length |
| ModbusTcp.ModbusTcpSimulator.BuildPdu | src/AtlasGT.Connectors.Simulators/ModbusTcpSimulator.cs:69-79 | Function code, truncated byte count, and the requested registers, 0 past the end |
| ModbusSession.RequestIsServed | src/AtlasGT.Connectors.Simulators/ModbusTcpSimulator.cs:57-90 | The simulator takes exactly one client request off its input and answers that request |
| ModbusSession.RequestFields | src/AtlasGT.Connectors.Modbus/ModbusTcpConnector.cs:114-129 | Each field of a request as the number its two bytes make, high byte first, and a length that counts what follows it |
| ModbusSession.ReplyFields | src/AtlasGT.Connectors.Simulators/ModbusTcpSimulator.cs:81-88 | A reply carries the ids and the unit of its request and the length of what follows |
| ModbusSession.ReplyRegisters | src/AtlasGT.Connectors.Simulators/ModbusTcpSimulator.cs:74-79 | Behind its byte count a reply holds the registers from the start address on, and 0 for each address past the last |
| ModbusSession.OtherInput | src/AtlasGT.Connectors.Simulators/ModbusTcpSimulator.cs:57-67 | Exactly which input ends the connection, and that a request of another function code is passed over whole |
| ModbusSession.ReplyDecodes | src/AtlasGT.Connectors.Modbus/ModbusTcpConnector.cs:191-202 | Up to 127 registers of a reply decode to the requested window |
| ModbusSession.RoundTripIff | src/AtlasGT.Connectors.Modbus/ModbusTcpConnector.cs:109-202 | A read comes back right with nothing left unread if and only if the quantity is at most 127 |
| ModbusSession.Exchange | src/AtlasGT.Connectors.Modbus/ModbusTcpConnector.cs:109-143 | One read over two streams cut arbitrarily yields, for each address from the start on, the register there or 0 past the last, and leaves both streams read |
| ModbusSession.Session | src/AtlasGT.Connectors.Simulators/ModbusTcpSimulator.cs:55-91 | Any number of successive reads, under any cutting of both streams, each yield the registers from their start address on, 0 past the last, and leave no bytes unread |
| LineSplitters.TcpReadAll | src/AtlasGT.Connectors.Network/TcpConnector.cs:70-120 | The loop emits the nonempty CR-stripped LF-terminated segments and holds back the rest |
| LineSplitters.SerialReadAll | src/AtlasGT.Connectors.Serial/SerialConnector.cs:59-91 | The loop emits the same lines, byte for byte, but with a question mark for each byte of 128 or more |
| LineSplitters.CutAtLineFeeds | src/AtlasGT.Connectors.Network/TcpConnector.cs:103-115 | The segments and the tail are the stream cut at every LF |
| LineSplitters.CutUnique | src/AtlasGT.Connectors.Network/TcpConnector.cs:103-115 | There is only one such cut |
| LineSplitters.EmittedLines | src/AtlasGT.Connectors.Network/TcpConnector.cs:103-115 | No emitted line is empty or holds CR or LF, and every terminated stretch that is not empty without its CRs is emitted |
| LineSplitters.SentLinesRecovered | src/AtlasGT.Connectors.Network/TcpConnector.cs:103-119 | Nonempty lines free of CR and LF, each ended by LF or CRLF, are recovered with nothing held back |
| Restore.FileBackupService.Restore | src/AtlasGT.Infrastructure/FileBackupService.cs:61-131 | The outcome and the file system after every single operation, for any combination of operations that throw and any remainder each failing deletion leaves |
| Restore.FileBackupService.Handle | src/AtlasGT.Infrastructure/FileBackupService.cs:128-130 | What each kind of exception deletes and returns |
| Restore.AllOrNothingIff | src/AtlasGT.Infrastructure/FileBackupService.cs:81-130 | True means the zip's files and anything else the destination as before, if and only if the second move and the undoing move do not both throw |
| Restore.SucceedsIff | src/AtlasGT.Infrastructure/FileBackupService.cs:81-126 | Restore returns true if and only if there are files and extraction, listing and the moves it needs work |
| Restore.DoubleFaultLoses | src/AtlasGT.Infrastructure/FileBackupService.cs:113-130 | After both throw the destination is missing, and an I/O or access error also deletes the old copy |
| Restore.FailureLeaves | src/AtlasGT.Infrastructure/FileBackupService.cs:128-135 | For whichever operation fails: bad data, I/O and access errors return false and delete the staging directory as far as it can be deleted, any other exception goes through and leaves it; what becomes of the rollback directory |
| Restore.NothingToRestore | src/AtlasGT.Infrastructure/FileBackupService.cs:81-96 | A missing or empty zip returns false and leaves everything as it was, but for a staging directory that cannot be deleted |
| Restore.CompleteCopyIff | src/AtlasGT.Infrastructure/FileBackupService.cs:81-135 | A complete old or new copy exists after every single operation if and only if the double fault does not end in a cleanup that takes the old copy away |
| Restore.SingleFaultSafe | src/AtlasGT.Infrastructure/FileBackupService.cs:81-130 | Under at most one fault: all or nothing, a complete copy throughout, and nothing left behind by a success but what a failed deletion leaves |

## Left out

- Sockets, serial ports, HTTP, ASP.NET controllers, SignalR and Razor pages: plumbing; streams are sequences of chunks.
- JSON serialisation, zip, UTF-8 and the inside of SHA-256: library code; a log line is an entry or unreadable, a zip is a map of files, the digest is a parameter.
- The rendering of Guids and of instants: carried as text in `Content` and `Timestamp`, so an entry's time is compared by its rendering in the canonical form and by its ticks when sorting.
- IEEE rounding: alarm values and thresholds are reals, decoded floats are bit patterns.
- Polling delays, cancellation tokens and timeouts: a lost reply and the cancellation of a drain are the only traces of them.
- `ReadAllAsync` of the generic connector, `RetryCount` and `ChecksumOffset`: the first repeats the framing and checksum stages, the others are never read.
- The rules of the command safety service: a yes-or-no parameter of `Execute`.
- Null elements in a field list and a null `Response`: the schema types are taken as non-null below the properties the validator tests.
- StoreAndForward.RepeatedDrainsEmpty: the destination is taken as accepting everything and file operations as working, as a refusing destination never empties the buffer.
- Deliveries by drains that overlap: the small steps record that an id was confirmed, not how often, and overlapping drains can deliver one file twice (`BufferInterleaving.OverlappingDrainsRedeliver`).
- DeliveryRuns.RunsDeliverOnce: for working moves; `DeliveryRuns.DeliveriesExact` is the count without that assumption.
- AlarmRuns.RateLimitHolds: for a clock that does not step back; the system clock can, and then the limit can be exceeded (`AlarmExamples.SteppingClockBreaksLimit`).
- AlarmRuns.RunAgrees: for such a clock; the counters agree on any clock (`AlarmRuns.CounterIsBreachCount`).
- AlarmRuns.SamplesFollowHistory: for such a clock.
- Partially written pending files, two buffers on one directory, and errors other than IOException from reads and moves: the code gives no guarantee there. A corrupt pending file is moved by `Drain`, but the theorems about runs are for files this buffer wrote.
- The replacement of an empty Guid in `EnqueueAsync`: the id is the one after replacement.
- A log file whose last line lacks its line end before an append, and blank lines: the model's lines are the non-blank lines, numbered as such.
- The filters of `ReadAllAsync` and `ReadAsync`: the export uses none. Null hashes in a line of the log are read as empty ones, which no comparison tells apart from them.
- The Modbus client's matching of transaction ids: it does none. A request to the simulator too short for its fields raises an exception there; here it ends the connection.
- ModbusSession.Exchange: for quantities up to 127, which is where `ModbusSession.RoundTripIff` says reads come back right.
- ModbusSession.Session: the same bound, and one request at a time, as the client awaits each reply.
- The process dying in the middle of a restore: only operations that throw are faults.
- `CreateBackupAsync`, `ListBackupsAsync`, registries, configuration store, doctor, trust ladder, role gate, sanitizer and derived rules: lookups, policy tables and regular expressions without an invariant of their own.
