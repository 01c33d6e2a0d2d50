# Verified model of the Elk-M1 programmer and its Home Assistant integration

This project models the parts of the repository where a mistake would corrupt a panel's
programming, lose a command or lose track of a session, and proves what they guarantee. It
follows the program's own structure: code that changes objects or buffers step by step is a
class or a method with loops, proved equal to a specification function; the theorems are about
those functions, over all inputs, all runs and all environments. What each function computes is fixed
apart from it, by a law that says the bytes, entries, items or events outright, as a relation that names
none of the functions: the files ending in `Laws` and `Runs`.

| files | what they model |
|---|---|
| `Polynomial`, `Crc`, `CrcTheorems` | CRC-16/XMODEM as a shift register, and as remainder over GF(2) |
| `Framing`, `FramingTheorems`, `FramingLaws` | DLE framing and the incremental decoder |
| `Session`, `SessionTheorems`, `SessionLaws`, `SessionWaits`, `SessionInStep` | the retrying request/reply session over an arbitrary transport |
| `SessionPairing`, `SessionReads`, `SessionCrcs`, `SessionReceive`, `SessionSchedules` | which reply belongs to which request, item, CRC and received record |
| `Specs`, `Records`, `FieldLaws`, `RecordLaws`, `RecordTheorems`, `Columns`, `ColumnsAgree`, `Catalogue` | record fields, the record codec, the database columns, and the keypad's entry in the catalogue |
| `Receive`, `ReceiveLaws`, `ReceiveTheorems`, `VerifyRecord` | bulk receive into an account, and the CRC check of one record over a session |
| `ElkSafe`, `CipherLaws`, `NulEscape`, `EscapeLaws` | ElkRP's RC4 variant and its escape for NUL characters |
| `AsciiFrames`, `AsciiStream`, `AsciiLaws`, `AsciiCuts` | checksummed ASCII frames and their extraction from a chunked stream |
| `WriteQueue`, `WriteQueueRuns` | the outbound command queue as an interleaved step system |
| `Tracker`, `TrackerRuns` | the programming session tracker |
| `Audit`, `AuditLaws`, `Lockout` | the hash-chained audit log and the passphrase lockout |
| `Release`, `ReleaseRuns`, `ReleaseTheorems` | releasing and restoring the integration across crashes |
| `Bytes`, `Positions` | bytes as Python holds them, and lists of positions |

What the environment does is a parameter: a transport is the list of what its reads will return
and how long each takes (after which it stays silent), a panel is a function from item to reply,
a digest is a function assumed free of collisions where that matters, and a crash is a script of
how each effect goes. Bytes are `bv8`, the CRC register is `bv16`, so wrap-around is the type.

## Where the code and its description differ

- The decoder's docstring speaks of seven states; the code has six, and so has the model.
- The decoder accepts a frame with an empty body and CRC 0000 as a message, and the session then
  indexes it. The model keeps this as the outcome `IndexFault`: `EmptyMessageFaults` gives the six
  bytes that cause it, `ReplyIsGenuine` and `HangUpNeverRetried` show that nothing else does, and a
  bulk receive lets the exception escape with its report lost.
- The writer appends a checksum to commands that already end in one. `WrittenFrameInvalid` proves
  that what it sends never passes this repository's own validators; `FinalizedIsValid` is about
  the finalised command itself.
- The two frame validators differ only below six characters: `ValidatorsAgree`, with "00" as the
  witness (`ShortestAccepted`).
- A reply is matched by its opcode only, so a late one can be taken for another item's. Every event
  of a read after the deciding one is dropped, so an answer that shares its read with an earlier one
  is lost, which can make up for a timeout. When every write is answered once and in order, however
  late and however cut into reads, `ReadReturnsOwnItemIff` gives the exact condition: a read gets its
  own item if and only if it turns down each late answer that is the first its read completes.
  `OwnAnswerIff` counts the same: the timeouts before it are no more than the answers lost before it
  and those it turned down or lost itself. For one table it gets its own item if and only if the
  timeouts before it equal the answers lost (`UniformReadsIff`), and when no read completes two answers
  if and only if nothing before it timed out (`SeparateReadsIff`). `LateReplyMisattributed` is the
  smallest schedule that fails, `SharedReadMakesUp` the same timeout made up for. A CRC that the panel is
  asked for is no safer: `CrcIsOwnIff` gives the same condition for it.
- Encoding what was decoded is a projection, not the identity; `RecordNormalForm` says onto what.
- A U16 field without explicit columns derives a column count from its length, not from its two
  bytes; `DerivedColumnCount` says exactly when the derived names fit.
- The NUL escape is inverted exactly when the bytes lack the seven literal characters.
- An overlength ASCII run can be dropped whole or in part depending on how the stream was cut.
  `FramesIndependentIff` gives the exact condition: the frames are the same for every cut if and only
  if no terminated run is more than one character over the limit.
- Cancelling the writer while it awaits a reply leaves the awaited command set.
  `NewStreamFollowsProtocolIff` says that the next stream then has a run that breaks the protocol, and
  has none otherwise; `StaleReplyReleasesNextCommand` says how, and that the stale command is harmless
  while the old reply does not come.
- The audit log's `verify` raises on a line that does not parse, instead of naming it; the verdict
  `Raises` covers this.
- A refused put-back during a failed release still drops the marker, and a release overwrites a
  pending marker. `ReleaseSafeIff` is the exact condition for one call, on the state before and on which
  effects are refused, `SafeThroughoutIff` for a whole run; `RefusedPutBackIsForgotten` and
  `SecondReleaseForgets` are the two failures.
- A repair issue can outlive what it is about: an unattributed session that ended keeps its issue,
  and a claim that replaces an unmatched one inherits it (`IssuesOutliveTheirCause`).
  `IssuesOverRuns` says exactly when each is outstanding.

## Model

| member | source | states |
|---|---|---|
| Crc.ComputeCrc16 | src/elk_programmer/protocol/framing.py:25-31 | the two in-place loops compute the register function the CRC theorems are about, from any starting register |
| Crc.CrcIsRemainder | src/elk_programmer/protocol/framing.py:25-31 | the CRC is the remainder of message times x^16 (plus the continued register) modulo x^16+x^12+x^5+1, and is the only 16-bit value that is |
| Polynomial.RemainderUnique | src/elk_programmer/protocol/framing.py:25-31 | a polynomial has one remainder modulo the generator |
| Polynomial.MultipleSpansSixteen | src/elk_programmer/protocol/framing.py:25-31 | a non-zero multiple of the generator spans at least seventeen coefficients |
| Polynomial.MultipleIsEven | src/elk_programmer/protocol/framing.py:25-31 | every multiple of the generator has an even number of terms |
| CrcTheorems.CrcConcat | src/elk_programmer/protocol/framing.py:25-31 | continuing from the CRC of one part gives the CRC of the concatenation |
| CrcTheorems.CrcLinear | src/elk_programmer/protocol/framing.py:25-31 | the CRC is linear over exclusive or, in message and register together |
| CrcTheorems.ZeroResidue | src/elk_programmer/protocol/framing.py:25-31 | a body followed by two bytes has CRC zero if and only if those are its own CRC bytes |
| CrcTheorems.BurstDetected | src/elk_programmer/protocol/framing.py:25-31 | every error burst of at most sixteen consecutive bits changes the CRC |
| CrcTheorems.OddErrorsDetected | src/elk_programmer/protocol/framing.py:25-31 | every error that flips an odd number of bits changes the CRC |
| CrcTheorems.AdjacentBytesDetected | src/elk_programmer/protocol/framing.py:25-31 | bodies of one length that differ only within two adjacent bytes never share a CRC |
| Framing.EncodeFrame | src/elk_programmer/protocol/framing.py:34-45 | an empty body is refused; any other gives its stuffed frame with its own CRC |
| Framing.Decoder.StepByte | src/elk_programmer/protocol/framing.py:89-137 | one byte moves the object through the six-state automaton and reports at most one event |
| Framing.Decoder.Feed | src/elk_programmer/protocol/framing.py:81-87 | feeding bytes leaves the state and events of running the automaton over them |
| Framing.RunConcat | src/elk_programmer/protocol/framing.py:81-87 | feeding distributes over concatenation |
| Framing.ChunkingIrrelevant | src/elk_programmer/protocol/framing.py:81-87 | how a stream is cut into chunks never changes events or state |
| FramingLaws.WireIs | src/elk_programmer/protocol/framing.py:34-45 | a frame is 10 02, the body with every 10 doubled, 10 03 and the two CRC bytes, high byte first: each body byte at its position |
| FramingLaws.FrameMeans | src/elk_programmer/protocol/framing.py:89-137 | between frames, a whole frame with any two CRC bytes is one event: debug if its body starts with FF, else a message if they are its CRC, else a CRC error |
| FramingLaws.BareReplies | src/elk_programmer/protocol/framing.py:89-137 | outside a frame, after bytes without a 10, 10 06 is an ACK and 10 15 a NAK |
| FramingTheorems.FrameReceived | src/elk_programmer/protocol/framing.py:89-137 | from IDLE, DLE1 or BODY a frame with any CRC bytes gives exactly one verdict on its body and ends in IDLE |
| FramingTheorems.ItemReceived | src/elk_programmer/protocol/framing.py:89-137 | a frame, ACK or NAK gives exactly its own event |
| FramingTheorems.StreamRoundTrip | src/elk_programmer/protocol/framing.py:34-137 | any frames, ACKs and NAKs, encoded and cut anywhere, are reported exactly, in order |
| FramingTheorems.FrameSynchronises | src/elk_programmer/protocol/framing.py:89-137 | from any of the six states with any partial body, one complete frame leaves the decoder in a synchronised state |
| FramingTheorems.NoiseCostsOneFrame | src/elk_programmer/protocol/framing.py:89-137 | after arbitrary noise and one frame, the next frame and everything behind it is reported once each and in order |
| FramingTheorems.OneFrameCanBeLost | src/elk_programmer/protocol/framing.py:126-137 | that bound is tight: a frame met while a CRC byte is awaited can go unreported |
| FramingTheorems.StepExplained | src/elk_programmer/protocol/framing.py:89-137 | every step keeps state, body and CRC byte explained by a suffix of the input |
| FramingTheorems.DecoderSound | src/elk_programmer/protocol/framing.py:89-137 | every event reported has its complete wire form ending some prefix of the input: a message its own frame, a CRC error a frame of that body with other CRC bytes, a debug frame any |
| FramingTheorems.NoForgedMessages | src/elk_programmer/protocol/framing.py:130-137 | a fresh decoder reports a message only if that message's whole encoded frame is in the input |
| FramingTheorems.AdjacentDamageRejected | src/elk_programmer/protocol/framing.py:130-137 | a frame whose body is damaged within two adjacent bytes is never reported as a message |
| Session.ScanFacts | src/elk_programmer/protocol/session.py:149-165 | of the events of one read, the deciding one is the last looked at and all before it are passed over |
| Session.HeaderNamesItem | src/elk_programmer/protocol/messages.py:61-64 | a header exists exactly for items of sixteen bits, and the item can be read back from it |
| Session.Session.Dispatch | src/elk_programmer/protocol/session.py:149-165 | the event loop records exactly the events up to the deciding one and returns its meaning |
| Session.Session.AwaitReply | src/elk_programmer/protocol/session.py:139-165 | the wait reads until an event decides or the deadline passes |
| Session.Session.SendReceive | src/elk_programmer/protocol/session.py:119-137 | writes, waits and retries as the exchange function the session theorems are about |
| Session.Session.ReadRecord | src/elk_programmer/protocol/session.py:188-193 | a record read returns the slice after the header, or why there is none, an item out of range included |
| Session.Session.RecordCrc | src/elk_programmer/protocol/session.py:198-202 | asks for the CRC of that record and item and returns bytes four and five of the reply; a short reply is a wrong one, and an item out of range is refused |
| SessionTheorems.ExchangeWrites | src/elk_programmer/protocol/session.py:119-137 | a request writes one and the same frame between once and `attempts` times, fewer only if something other than a timeout or wrong reply ended it |
| SessionTheorems.HangUpNeverRetried | src/elk_programmer/protocol/session.py:161-163 | nothing is sent or heard after a `7F 01` or an empty message, and the request ends as disconnected or faulting exactly when the last thing heard was the one or the other |
| SessionTheorems.ReplyIsGenuine | src/elk_programmer/protocol/session.py:139-165 | for every transport, a returned body starts with the expected opcode and its whole CRC-checked frame was received, its last byte during the request; the empty body is only an expected ACK; a request faults only over the six bytes of an empty frame |
| SessionLaws.RequestRuns | src/elk_programmer/protocol/session.py:119-165 | for every transport, a request is a run of attempts: each writes its frame and reads while time is left, passing over debug frames and unasked ACKs, until the first other event ends it as its kind, a hang-up, the opcode or an empty body says, all of it recorded; a timeout or wrong reply is tried again while attempts are left |
| SessionLaws.ReadIs | src/elk_programmer/protocol/session.py:188-193 | a record read asks with opcode, sub-code and the item in two bytes, four times at most with 0.8 seconds each, and returns the record's bytes from the fifth of the reply on |
| SessionInStep.AwaitTakesItsAnswer | src/elk_programmer/protocol/session.py:139-165 | an answer that comes in time, cut anyhow, ends exactly the wait it comes in |
| SessionInStep.AttemptsInStep | src/elk_programmer/protocol/session.py:124-137 | while each write that is made is answered once and in time, each wait of a request ends with what the answer to the write before it means |
| SessionInStep.SessionStaysInStep | src/elk_programmer/protocol/session.py:119-165 | over a whole session with one timely answer for each write made, wait k takes answer k: no reply is ever taken for another write |
| SessionSchedules.EmptyMessageFaults | src/elk_programmer/protocol/session.py:163 | those six bytes, received while a request waits, end it in a fault, whatever it asked for |
| SessionSchedules.LateReplyMisattributed | src/elk_programmer/protocol/session.py:163-164 | the smallest failing schedule: after one late reply, the read of any other item returns the first item's data |
| SessionSchedules.SharedReadMakesUp | src/elk_programmer/protocol/session.py:149-165 | after the same timeout, both answers in one read leave the next item with its own data |
| SessionPairing.AnyCutIsPending | src/elk_programmer/protocol/framing.py:81-137 | whole answers and debug frames in order leave exactly those answers pending, however their bytes are cut into reads |
| SessionPairing.WaitTakesNextAnswer | src/elk_programmer/protocol/session.py:139-165 | when answers come in order, at any time and cut anyhow, a wait takes the first one its last read completes and loses the others of that read, or times out and takes none |
| SessionPairing.AttemptsTakeAnswers | src/elk_programmer/protocol/session.py:124-137 | a request ends with the first answer leading its read that it does not turn down, or with its last wait, and leaves the answers after those completed pending |
| SessionReads.RequestTakesAnswer | src/elk_programmer/protocol/session.py:119-165 | over a session, a request that did not time out ends with the answer whose number is those completed before it plus those it turned down or lost; it is the first leading one that it does not turn down |
| SessionWaits.WriteIsOwners | src/elk_programmer/protocol/session.py:126-128 | for every transport, the k-th write of a session is the frame of the request that owns it, and there is no other write |
| SessionWaits.SessionOutcomes | src/elk_programmer/protocol/session.py:124-137 | for every transport, a request ends as its last wait did, all waits before it were retried, and it is the last because it decided or no attempt was left |
| SessionReads.OwnAnswerIff | src/elk_programmer/protocol/session.py:119-165 | the answer a request ends with was given to a write of its own if and only if the timeouts before it are no more than the answers lost before it and those it turned down or lost itself |
| SessionReads.ReadAllFirst | src/elk_programmer/protocol/session.py:188-193 | a session of reads is one record read after the other |
| SessionReads.ReadTakesItemOf | src/elk_programmer/protocol/session.py:188-193 | against an honest panel, a read that returns data returns what is held at the address of the write whose answer it took |
| SessionReads.ReadReturnsItemAskedFor | src/elk_programmer/protocol/session.py:188-193 | whatever the panel holds, a read that returns data returns the item asked for if it turns down every late answer that leads its read |
| SessionReads.ReadReturnsOwnItemIff | src/elk_programmer/protocol/session.py:188-193 | and only then, for a panel that holds different records at different places |
| SessionReads.UniformReadsIff | src/elk_programmer/protocol/session.py:188-193 | when every answer is an intact reply to it, a read returns its own item if and only if the timeouts before it equal the answers lost before it |
| SessionReads.SeparateReadsIff | src/elk_programmer/protocol/session.py:188-193 | and when no read completes two answers, if and only if nothing before it timed out |
| SessionReads.TimelyReadReturnsItem | src/elk_programmer/protocol/session.py:188-193 | when every write made is answered before its deadline, every read that returns data returns the item asked for |
| SessionCrcs.CrcBody | src/elk_programmer/protocol/messages.py:80-84 | a CRC request's body is 7E, the table's opcode, and the item in two bytes |
| SessionCrcs.CrcWrites | src/elk_programmer/protocol/session.py:119-137 | for every transport, it writes the frame of that body one to four times, and nothing for an item out of range |
| SessionCrcs.CrcIsOfWrite | src/elk_programmer/protocol/session.py:198-202 | in a session of reads and CRC requests, a CRC returned is that of what the panel has stored for the table and item in the body of the write whose answer it took |
| SessionCrcs.CrcIsOfItemAskedFor | src/elk_programmer/protocol/session.py:198-202 | it is that of the item asked for if the request turns down every late answer that leads its read |
| SessionCrcs.CrcIsOwnIff | src/elk_programmer/protocol/session.py:198-202 | and only then, if the CRCs asked for before are others |
| SessionCrcs.TimelyCrcIsOfItem | src/elk_programmer/protocol/session.py:198-202 | when every write made is answered before its deadline, every CRC returned is that of the item asked for |
| SessionReceive.LiveIsPanelRun | src/elk_programmer/protocol/sync.py:65-95 | for every transport, a receive of distinct items over the session equals a receive from a panel given as a function from item to reply |
| SessionReceive.PanelIsMemory | src/elk_programmer/protocol/sync.py:69 | while every read turns down the late answers it may be given, every record that panel gives is the one held for its item |
| SessionReceive.OutcomeReported | src/elk_programmer/protocol/sync.py:68-83 | how each end of a read shows in the report: given up, given up with an error, ended with an error, or escaped |
| Specs.DerivedColumnCount | src/elk_programmer/model/specs.py:55-71 | derived column names number one per byte if and only if the field is not a U16 of another length than two |
| Specs.NumberedColumnsDistinct | src/elk_programmer/model/specs.py:71 | numbered column names of one field never clash |
| Specs.WordColumnsDistinct | src/elk_programmer/model/specs.py:67-68 | nor do the high and low names of the words of a voice field |
| Specs.DerivedColumnsDistinct | src/elk_programmer/model/specs.py:63-71 | so all derived names of one field are distinct |
| FieldLaws.DecodeFieldIff | src/elk_programmer/model/records.py:23-48 | a field decodes to a value if and only if the value is what its bytes mean: code digits from the last byte, digits from the first, words high byte first, text its low seven bits without padding at the end |
| FieldLaws.EncodeFieldIff | src/elk_programmer/model/records.py:27-72 | a value encodes to bytes if and only if each byte is as written: the i-th last digit of a code, the i-th of a digit text, zeros behind, both bytes of each word, a character or "?" and spaces behind, the top bit of the first for a name that is shown |
| RecordLaws.UserCode | src/elk_programmer/model/records.py:40-63 | the code "3456" in six bytes is 6, 5, 4, 3, 0, 0, which reads back as "003456" |
| RecordLaws.DecodedRecord | src/elk_programmer/model/records.py:75-88 | a record of the right size decodes to what the bytes at each field's offset mean, with the show flags and no other keys; any other size is refused |
| RecordLaws.EncodedRecord | src/elk_programmer/model/records.py:91-110 | at each field's offset stand the bytes its value is written as, or blanks if it is missing |
| RecordLaws.ColumnNamesAre | src/elk_programmer/model/specs.py:63-71 | column names are those given, or the field's name alone, with decimal numbers from one, or with H and L numbers |
| RecordLaws.ExplodedRow | src/elk_programmer/model/records.py:129-138 | with distinct columns a row holds, in each field's columns, the values of the bytes it is written as, and no other columns |
| RecordLaws.RowMeans | src/elk_programmer/model/records.py:117-126 | a record read from a row holds what the bytes in each field's columns mean, values modulo 256 and zero where there is none |
| Records.DecodeRecordLoop | src/elk_programmer/model/records.py:75-88 | the slicing loop is field-by-field decoding, and refuses exactly the wrong sizes |
| Records.EncodeRecordLoop | src/elk_programmer/model/records.py:91-100 | the accumulating loop is field-by-field encoding with defaults and the show flag |
| RecordTheorems.FieldNormalForm | src/elk_programmer/model/records.py:32-72 | decoding and re-encoding a field keeps its value and show flag, and changes no byte exactly for fields in normal form |
| RecordTheorems.DecodeHolds | src/elk_programmer/model/records.py:75-88 | a decoded record holds the value and flag of every field, none overwritten by another |
| RecordTheorems.EncodeHolding | src/elk_programmer/model/records.py:91-100 | a record holding decoded values encodes to the normal form, whatever else it holds |
| RecordTheorems.RecordNormalForm | src/elk_programmer/model/records.py:75-100 | encode after decode keeps size and decoding, is idempotent, and fixes exactly the records whose digits are at most 9 and whose text is seven-bit after the first byte and padded with spaces |
| Columns.RecordToColumns | src/elk_programmer/model/records.py:129-138 | the loop over wire and extra fields writes the columns of every field |
| Columns.RecordFromColumns | src/elk_programmer/model/records.py:117-126 | the loop over wire and extra fields reads every field from its columns |
| Columns.ColumnsCarryEncoding | src/elk_programmer/model/records.py:91-138 | with distinct columns, the columns read in field and column order are the encoder's bytes |
| Columns.FromColumnsDecodes | src/elk_programmer/model/records.py:117-126 | reading columns is decoding the bytes they hold |
| Columns.WireBytesInRow | src/elk_programmer/model/records.py:91-138 | the wire encoding of a record is what its wire columns hold, although the row carries more |
| Columns.ColumnsRoundTrip | src/elk_programmer/model/records.py:117-138 | exploding a record and reading it back is decoding its encoding |
| ColumnsAgree.ColumnsAgreeIff | src/elk_programmer/model/records.py:91-138 | for fields that share no key, the columns of every record are its encoding if and only if no column name is used twice |
| Catalogue.NamesDistinct | src/elk_programmer/model/specs.py:63-71 | if every column name and record key tells its field, and those of one field differ, no name is used twice and no key is shared |
| Catalogue.KeypadIsWellFormed | src/elk_programmer/model/specs.py:272-376 | the keypad entry has twenty-eight bytes, encodable fields, no shared key, one column per byte and no column name used twice |
| Catalogue.KeypadRoundTrips | src/elk_programmer/model/records.py:75-138 | so the columns of every keypad record hold its encoding, and every keypad image means the same after decoding and encoding |
| Receive.ReceiveItem | src/elk_programmer/protocol/sync.py:68-92 | one item is read and merged, or its failure reported; a fatal session error returns the report early, any other exception escapes |
| Receive.ReceiveTable | src/elk_programmer/protocol/sync.py:67-92 | the inner loop works off the items of one table, and leaves the rest undone after a fatal error or exception |
| Receive.ReceiveAll | src/elk_programmer/protocol/sync.py:50-95 | the nested loops work off the whole list of items, in order, up to a fatal error, or up to an exception that loses the report but not the tables |
| ReceiveLaws.JobsCover | src/elk_programmer/protocol/sync.py:45-65 | a receive covers item n of a table if and only if it is asked for and wired and first <= n < first + min(count, limit), and reports exactly the asked tables that are not wired |
| ReceiveLaws.JobsInOrder | src/elk_programmer/protocol/sync.py:59-67 | table after table as asked, and items ascending in each |
| ReceiveLaws.ReceiveReports | src/elk_programmer/protocol/sync.py:68-95 | per table, the count of items read and the ascending list of those given up, up to the first broken session or escaping exception, and how the receive ended |
| ReceiveLaws.EveryItemCounted | src/elk_programmer/protocol/sync.py:45-92 | if every covered item is read, the count is that of the table, or its limit |
| ReceiveLaws.ReceiveChanges | src/elk_programmer/protocol/sync.py:85-87 | the changed list is, ascending, the items read that the account lacked or would have sent otherwise |
| ReceiveLaws.ReceivedRecordMeans | src/elk_programmer/protocol/sync.py:84-91 | each record read holds afterwards what the bytes of its reply mean, field by field |
| ReceiveLaws.ReceiveErrors | src/elk_programmer/protocol/sync.py:61-83 | the errors are, in order, the tables without a wire, the items refused, and the one that broke the receive off |
| ReceiveTheorems.ReportCounts | src/elk_programmer/protocol/sync.py:68-92 | per table, the unanswered list and read count are exactly those of the items reached; the receive ended early exactly when an item was not reached, in the way of that item |
| ReceiveTheorems.ReportChanged | src/elk_programmer/protocol/sync.py:85-87 | the changed list is exactly the items reached whose record was missing or encoded differently before |
| ReceiveTheorems.ItemsPartitioned | src/elk_programmer/protocol/sync.py:68-92 | each item reached is exactly one of read or unanswered, and only items read are changed |
| ReceiveTheorems.UnreadItemsUntouched | src/elk_programmer/protocol/sync.py:68-92 | an item not read keeps its record or its absence |
| ReceiveTheorems.ReadItemsMerged | src/elk_programmer/protocol/sync.py:84-91 | an item read ends as its old record overlaid with what the panel sent |
| ReceiveTheorems.ReadItemResult | src/elk_programmer/protocol/sync.py:84-91 | an item read encodes to the normal form of the panel's bytes, and keys that are not wire fields are as before |
| ReceiveTheorems.SecondReceive | src/elk_programmer/protocol/sync.py:85-87 | a second receive from an unchanged panel reports as changed exactly the items read whose bytes are not in normal form |
| ReceiveTheorems.JobsDistinct | src/elk_programmer/protocol/sync.py:45-47 | distinct tables give distinct items, as the lemmas above ask |
| VerifyRecord.VerifyRecord | src/elk_programmer/protocol/sync.py:108-118 | asks the panel for the CRC of that record and item and computes that of the local encoding |
| VerifyRecord.MatchesIff | src/elk_programmer/protocol/sync.py:108-118 | in a session of reads and CRC requests, a record whose CRC is returned matches if and only if the CRCs of the bytes stored for it and of its local encoding are equal |
| VerifyRecord.ReceivedMatches | src/elk_programmer/protocol/sync.py:108-118 | over a session, a record received and not edited matches if the panel answers and its bytes are in normal form |
| VerifyRecord.AdjacentDifferenceFound | src/elk_programmer/protocol/sync.py:108-118 | over a session, a local record that differs from the panel's within two adjacent bytes is never reported as matching |
| ElkSafe.XorModifier | src/elk_programmer/storage/elksafe.py:24-25 | one modifier xors at most its first seven characters into the key in place |
| ElkSafe.DeriveKey | src/elk_programmer/storage/elksafe.py:20-26 | the key is the base key with every modifier xored in, in order |
| ElkSafe.ModifierOrderIrrelevant | src/elk_programmer/storage/elksafe.py:20-26 | the derived key depends only on which modifiers are given how often, not on their order |
| ElkSafe.ScheduleInPlace | src/elk_programmer/storage/elksafe.py:33-39 | one key-scheduling loop over the state array in place is the scheduling function |
| ElkSafe.Crypt | src/elk_programmer/storage/elksafe.py:29-47 | both scheduling passes and the output loop, over one mutable array, xor the data with the key's keystream |
| CipherLaws.CryptIff | src/elk_programmer/storage/elksafe.py:29-47 | the output is that of a run of 512 scheduling and one output step per byte over tables from 0..255 on, each exchanging two cells as written, and no other output is |
| CipherLaws.DerivedKeyIff | src/elk_programmer/storage/elksafe.py:17-26 | the key is the last of a run from the eight fixed bytes, each modifier mixing in at most seven characters, and no other key is |
| CipherLaws.ColumnsAre | src/elk_programmer/storage/elksafe.py:50-52 | columns are the values of such a run over the low bytes of the values given |
| ElkSafe.StateIsAlwaysPermutation | src/elk_programmer/storage/elksafe.py:31-46 | through both scheduling passes and any number of output steps the state is a permutation of 0..255 |
| ElkSafe.ScheduleKeepsPermutation | src/elk_programmer/storage/elksafe.py:33-39 | every scheduling step keeps a permutation |
| ElkSafe.Rc4Inverse | src/elk_programmer/storage/elksafe.py:29-47 | the cipher is its own inverse under every non-empty key |
| ElkSafe.Rc4Prefix | src/elk_programmer/storage/elksafe.py:40-47 | the keystream is independent of the data: encrypting a prefix is taking a prefix |
| ElkSafe.CryptColumns | src/elk_programmer/storage/elksafe.py:50-52 | column values are reduced to bytes and encrypted as one run |
| ElkSafe.ColumnsInverse | src/elk_programmer/storage/elksafe.py:50-52 | encrypting columns twice gives back each value modulo 256 |
| NulEscape.UnescapeText | src/elk_programmer/storage/elksafe.py:57-65 | the index walk is left-to-right unescaping |
| NulEscape.CryptText | src/elk_programmer/storage/elksafe.py:55-67 | the string cipher is unescape, encrypt, escape |
| EscapeLaws.CryptStringIs | src/elk_programmer/storage/elksafe.py:55-67 | the text is read character by character with "[ESC]00" for a NUL, goes through such a run, and is written character by character with "[ESC]00" for a NUL |
| NulEscape.UnescapeEscape | src/elk_programmer/storage/elksafe.py:55-67 | unescaping an escaped run replaces each literal escape in it, leftmost first, by one NUL |
| NulEscape.EscapeInverse | src/elk_programmer/storage/elksafe.py:55-67 | the escape is undone if and only if the bytes do not contain the seven literal bytes `[ESC]00` |
| NulEscape.CryptTwice | src/elk_programmer/storage/elksafe.py:55-67 | encrypting a text twice restores it if and only if its characters are in 1..255 and the ciphertext lacks that literal |
| AsciiFrames.IsValidLengthAndChecksum | custom_components/elkm1/helpers/elk/message.py:103-119 | the accumulating loop decides length and checksum validity |
| AsciiLaws.ValidIff | custom_components/elkm1/helpers/elk/message.py:103-119 | a text is valid if and only if its first two characters read, as Python reads base sixteen, as its length less two, and its last two as a number that makes the sum of the others a multiple of 256 |
| AsciiLaws.FinalizedIs | custom_components/elkm1/helpers/elk/message.py:60-75 | a finalised payload is its length plus four in upper-case hexadecimal, the payload, "00", and two digits that make the sum of all characters before them and their value a multiple of 256 |
| AsciiFrames.FinalizedIsValid | custom_components/elkm1/helpers/elk/message.py:60-75 | a payload of at most 251 characters is finalised into a frame both validators accept |
| AsciiFrames.FinalizedValidIff | custom_components/elkm1/helpers/elk/message.py:70-75 | a finalised payload is valid if and only if it has at most 251 characters |
| AsciiFrames.WrittenFrameInvalid | custom_components/elkm1/helpers/elk/connection.py:71 | with the writer's second checksum a finalised frame is never valid, whatever the payload |
| AsciiFrames.SingleCharacterDetected | custom_components/elkm1/helpers/elk/message.py:103-119 | changing one body character of a valid frame always makes it invalid |
| AsciiStream.ExtractFrames | custom_components/elkm1/helpers/framing.py:11-20 | the scan yields the non-empty runs that a terminator ends, and the rest after the last one |
| AsciiStream.ReadStream | custom_components/elkm1/helpers/transport.py:34-48 | the read loop carries the remainder from read to read and drops overlength remainders and frames |
| AsciiLaws.ReadIs | custom_components/elkm1/helpers/transport.py:34-48 | a read adds to what was left, takes every non-empty run that a CR or LF ends, in order, hands on those of at most 1024 characters, and keeps what stands behind the last CR or LF unless it is longer |
| AsciiLaws.EmptyReadEnds | custom_components/elkm1/helpers/transport.py:36-38 | nothing after an empty read is looked at |
| AsciiStream.SplitConcat | custom_components/elkm1/helpers/framing.py:11-20 | extraction over a concatenation continues from the first part's remainder |
| AsciiStream.ReadsIndependentOfChunks | custom_components/elkm1/helpers/transport.py:34-48 | while no run exceeds the limit, any cutting into reads delivers the frames of the whole stream, in order |
| AsciiStream.ReceivePathRoundTrip | custom_components/elkm1/helpers/transport.py:34-48 | finalised payloads, each ended by CR, LF or CR LF and cut anywhere, come out exactly, in order and valid |
| AsciiStream.OverlengthDependsOnChunks | custom_components/elkm1/helpers/transport.py:41-48 | a family of overlength runs whose tail is delivered or not as a read ends before it or not |
| AsciiCuts.FittingFrames | custom_components/elkm1/helpers/transport.py:34-48 | while terminated runs are at most one over the limit, any reads deliver the frames of the whole stream, less the overlength ones |
| AsciiCuts.DifferingCuts | custom_components/elkm1/helpers/transport.py:36-48 | around any longer terminated run there are two cuts into reads of 1 to 500 characters that deliver different frames |
| AsciiCuts.FramesIndependentIff | custom_components/elkm1/helpers/transport.py:34-48 | the frames of a stream are the same for every cut into reads of 1 to 500 characters if and only if no terminated run is more than one over the limit |
| WriteQueue.Connection.Send | custom_components/elkm1/helpers/elk/connection.py:98-113 | a command is refused while paused or closed, and otherwise queued at the end or, with priority, at the front, waking the writer |
| WriteQueue.Connection.Pause | custom_components/elkm1/helpers/elk/connection.py:123-126 | pausing drops what is queued and refuses more |
| WriteQueue.Connection.Received | custom_components/elkm1/helpers/transport.py:75-79 | only the awaited command releases the writer |
| WriteQueue.Connection.DrainQueue | custom_components/elkm1/helpers/elk/connection.py:86-96 | the writer loop runs to its next blocking await |
| WriteQueue.Connection.Resumed | custom_components/elkm1/helpers/elk/connection.py:76-96 | one scheduling of the writer task is one atomic step |
| WriteQueue.Connection.TimedOut | custom_components/elkm1/helpers/elk/connection.py:78-84 | a timeout ends the wait and the loop goes on |
| WriteQueue.Connection.CancelTasks | custom_components/elkm1/helpers/transport.py:142-148 | closing a transport first ends the tasks, while commands are still accepted |
| WriteQueue.Connection.CloseWriter | custom_components/elkm1/helpers/transport.py:150-153 | and then drops the writer |
| WriteQueue.DrainKeepsInvariant | custom_components/elkm1/helpers/elk/connection.py:86-96 | the loop keeps the invariant and never blocks for work while the queue is not empty |
| WriteQueue.EveryRunKeepsInvariant | custom_components/elkm1/helpers/elk/connection.py:67-130 | every interleaving keeps conservation, order, flag coherence and the stop-and-wait protocol |
| WriteQueue.WriteQueueSafety | custom_components/elkm1/helpers/elk/connection.py:67-130 | in every run each accepted command is exactly one of written once, queued or dropped by a pause; ordinary commands keep their order; nothing is written while a reply is awaited; a reply is marked received only if one is awaited; the writer never sleeps on a non-empty queue |
| WriteQueueRuns.EntriesAreSends | custom_components/elkm1/helpers/elk/connection.py:70-113 | in every run, every entry written, queued or dropped is the accepted send that its tag numbers, with that send's text, reply and priority |
| WriteQueueRuns.SendStands | custom_components/elkm1/helpers/elk/connection.py:98-113 | after any run, an accepted send with priority stands ahead of all that was queued, any other behind it, and a refused one changes nothing |
| WriteQueueRuns.QueueOrder | custom_components/elkm1/helpers/elk/connection.py:98-105 | in every run the queue holds its priority commands first, the latest ahead, and then the others in order of acceptance |
| WriteQueueRuns.FlagsFollowEvents | custom_components/elkm1/helpers/elk/connection.py:107-145 | whether the queue is paused, the transport open and the tasks gone, and how many sends were accepted, follows from the events alone |
| WriteQueueRuns.TransportSeesWritten | custom_components/elkm1/helpers/elk/connection.py:70-74 | in every run the transport sees the written commands, in that order, and no other |
| WriteQueueRuns.ReplyReleasesWriter | custom_components/elkm1/helpers/elk/connection.py:76-96 | a waiting writer is released by the awaited reply and by no other frame, and then, or after the timeout, writes the next command |
| WriteQueueRuns.OnlyTimeoutsGoUnanswered | custom_components/elkm1/helpers/elk/connection.py:76-84 | a wait ends unanswered only by its timeout |
| WriteQueue.SilentSteps | custom_components/elkm1/helpers/elk/connection.py:76-126 | no step writes while paused, or while neither the awaited reply nor its timeout has come |
| WriteQueue.RunnableWriterProgresses | custom_components/elkm1/helpers/elk/connection.py:86-96 | a runnable writer with an open transport writes the head of a non-empty queue: no wake-up is lost |
| WriteQueue.NewStreamFollowsProtocolIff | custom_components/elkm1/helpers/elk/connection.py:76-84 | every run of the next stream follows the stop-and-wait protocol if and only if no reply was awaited at the disconnect; commands are conserved and ordered across streams either way |
| WriteQueue.StaleReplyReleasesNextCommand | custom_components/elkm1/helpers/transport.py:75-79 | with a stale awaited command, the next command that expects a reply is written and awaited normally while the old reply stays away, and is released unanswered if it comes, or had come before the disconnect |
| Tracker.ProgrammingTracker.AsyncClaim | custom_components/elkm1/programming.py:146-172 | a claim replaces an open one, adopts an unattributed session and is announced |
| Tracker.ProgrammingTracker.AsyncEnd | custom_components/elkm1/programming.py:174-217 | an end closes the open claim, whoever holds it |
| Tracker.ProgrammingTracker.AsyncRpStatus | custom_components/elkm1/programming.py:219-268 | the panel's status marks a claim as seen, or opens and closes an unattributed session |
| Tracker.ProgrammingTracker.AsyncCheckClaim | custom_components/elkm1/programming.py:270-292 | an unseen claim older than the limit raises its issue |
| Tracker.StartsBalance | custom_components/elkm1/programming.py:146-268 | in any sensible event sequence every start ended, is open or was adopted |
| Tracker.IssuesOverRuns | custom_components/elkm1/programming.py:146-292 | over every run, a claim-unmatched issue is outstanding exactly when a check was late for an open unseen claim and neither an end nor a connecting panel came after; an unattributed one exactly when its entry opened such a session and no claim adopted one after |
| Tracker.IssuesOutliveTheirCause | custom_components/elkm1/programming.py:146-292 | an unattributed session that has ended keeps its issue, and a claim that replaces a late one inherits the issue |
| Tracker.OpenClaimIsLastClaim | custom_components/elkm1/programming.py:146-230 | the open claim has the source, time and purpose of the last claim event, or was loaded, and has been seen exactly if the panel was connected then or has connected since |
| Tracker.RunKeeps | custom_components/elkm1/programming.py:141-292 | every run keeps the flags consistent and the stored state equal to what the bus tells |
| Tracker.TrackerInvariants | custom_components/elkm1/programming.py:141-292 | claim and unattributed session never coexist; a claim with the panel connected is seen; an unattributed session has its issue raised; an unmatched issue implies an open unseen claim; the bus events form sessions that end with the source and purpose they began with; starts balance; the counter counts ends; history is the last twenty of the log |
| TrackerRuns.StateFollowsEvents | custom_components/elkm1/programming.py:146-268 | after every run the tracker holds what the events tell: whether the panel is connected, the open claim with every field, and the open unattributed session with its time |
| TrackerRuns.EventAdds | custom_components/elkm1/programming.py:146-268 | after every run, an event announces exactly the end of the session it ends, with source, user, purpose, start, end, attribution and sighting, and the start of the one it starts |
| TrackerRuns.BusFollowsEvents | custom_components/elkm1/programming.py:146-268 | and the whole bus is, event by event, that |
| Audit.AuditLog.ReadTailHash | src/elk_programmer/security.py:136-146 | the hash a reopened log goes on from is that of its last line |
| Audit.AuditLog.Record | src/elk_programmer/security.py:153-169 | a record appends one entry chained to the last hash and moves it on |
| Audit.AuditLog.Verify | src/elk_programmer/security.py:171-187 | the walk returns the count of an intact chain, or names the first line that fails to link, or raises at the first that does not parse |
| AuditLaws.RecordIs | src/elk_programmer/security.py:153-169 | a record appends one line with exactly the seven members, the previous hash and the digest of the others with it |
| AuditLaws.VerdictIff | src/elk_programmer/security.py:171-187 | a verdict is given if and only if the non-blank lines before the named one name the hash before them and carry the digest of their other members with it, and the named one does not or does not parse |
| AuditLaws.ReopenIs | src/elk_programmer/security.py:136-146 | a reopened log goes on from the hash of its last non-blank line, and cannot if that does not parse |
| Audit.VerdictIsUnique | src/elk_programmer/security.py:171-187 | those three cases exclude each other, so the verdict is exact in both directions |
| Audit.RecordedLogIsSound | src/elk_programmer/security.py:153-187 | after any records and reopenings an intact log is intact with one line more per record |
| Audit.LogHoldsWhatWasRecorded | src/elk_programmer/security.py:153-169 | the log is append-only, and the lines added read back as exactly the fields recorded, in order |
| Audit.DamageStays | src/elk_programmer/security.py:153-187 | whatever is recorded after damage, the same first line is named |
| Audit.LastHashPinsLog | src/elk_programmer/security.py:149-187 | with a digest without collisions, never empty, two intact logs with one last hash are the same line for line |
| Audit.CutLogIsSound | src/elk_programmer/security.py:171-187 | a log cut short verifies, which is the limit of the chain |
| Lockout.Lockout.Fail | src/elk_programmer/security.py:115-122 | the fifth pending failure resets the count and starts the lockout |
| Lockout.Lockout.CheckPassphrase | src/elk_programmer/security.py:220-237 | a check is refused while locked out, and otherwise counts or clears failures |
| Lockout.CheckIs | src/elk_programmer/security.py:106-125 | each end of a check and what it leaves: the fifth pending wrong passphrase starts 900 seconds, a right one clears the count, nothing is compared before they are over |
| Lockout.RateBound | src/elk_programmer/security.py:106-125 | with no success, the failure with index n comes at least 900 seconds per five failures after the first, counting those already pending |
| Lockout.NoSixInOneLockout | src/elk_programmer/security.py:106-125 | no six wrong passphrases are compared within one lockout period |
| Lockout.LockedOutIff | src/elk_programmer/security.py:106-125 | from an unlocked start a run is never locked out if and only if no five wrong passphrases come without a right one in between |
| Lockout.RateBoundIsReached | src/elk_programmer/security.py:106-125 | a fresh lockout compares wrong passphrases exactly that fast, so the bound is the best one |
| Release.IntegrationRelease.Release | src/elk_programmer/hass.py:142-166 | marker first, then each entry; on a refusal the put-back and the dropped marker; stopping anywhere |
| Release.IntegrationRelease.Restore | src/elk_programmer/hass.py:168-182 | each entry in the marker is enabled, the refused ones written back, or the marker dropped |
| Release.IntegrationRelease.DisableTargets | src/elk_programmer/hass.py:154-156 | the disabling loop, up to the first refusal |
| Release.IntegrationRelease.EnableAll | src/elk_programmer/hass.py:159-178 | the enabling loop, which goes on after a refusal |
| ReleaseRuns.ReleaseRuns | src/elk_programmer/hass.py:142-166 | a release has exactly these effects on the world, in order, each as the script lets it: the marker with all enabled listed entries, their disabling up to the first refusal, the put-back, the drop; and it ends accordingly |
| ReleaseRuns.RestoreRuns | src/elk_programmer/hass.py:168-182 | so has a restore: each entry named is enabled, and the marker is dropped, or rewritten with exactly the refused ones, which it raises with |
| ReleaseTheorems.RaisesIff | src/elk_programmer/hass.py:153-166 | a release raises with an entry left disabled exactly when, of its effects, the k-th disabling is the first not done and refused, some put-back after it is refused, and the rest go through to the unlink |
| ReleaseTheorems.ReleaseSafeIff | src/elk_programmer/hass.py:142-166 | a release keeps every disabled entry in the marker if and only if it overwrites no marker that names a disabled entry and its script refuses no put-back before the marker is dropped |
| ReleaseTheorems.ReleaseCompletes | src/elk_programmer/hass.py:142-166 | a release that returns has disabled every listed entry and nothing else, and returns and marks exactly those |
| ReleaseTheorems.ReleaseUndone | src/elk_programmer/hass.py:157-166 | a release that raises with nothing left disabled has undone itself |
| ReleaseTheorems.RestoreSafeIff | src/elk_programmer/hass.py:168-182 | a restore does if and only if its script does not tear the marker write after refusing every enabling of an entry still disabled |
| ReleaseTheorems.RestoreRecovers | src/elk_programmer/hass.py:168-182 | a restore that returns gives back exactly the original entries and leaves no marker |
| ReleaseTheorems.UndisturbedRestoreReturns | src/elk_programmer/hass.py:168-182 | and it returns whenever nothing goes wrong |
| ReleaseTheorems.SafeThroughoutIff | src/elk_programmer/hass.py:131-182 | over a whole run with crashes anywhere, the marker covers every disabled entry after each call if and only if each call is orderly |
| ReleaseTheorems.CrashSafety | src/elk_programmer/hass.py:131-182 | so after every orderly run the first restore that returns gives back exactly the original set |
| ReleaseTheorems.RefusedPutBackIsForgotten | src/elk_programmer/hass.py:157-166 | after one refused put-back an entry stays disabled with no marker |
| ReleaseTheorems.SecondReleaseForgets | src/elk_programmer/hass.py:151 | a release over a pending marker forgets the entries in it |

## Left out

- Session.Session.SendReceive: does not model the lock, the keepalive task, `_last_activity` or wall-clock scheduling; each read costs a given time and the time between reads is zero. A transport that raises instead of returning is not modelled.
- SessionReads.ReadReturnsOwnItemIff: every write is answered once and in order, by an intact reply that echoes the opcode, a damaged frame or a NAK, with debug frames anywhere; a panel that answers twice, not at all while later writes are answered, out of order, with a bare ACK, or before the write itself is not covered by the exact condition, only by the theorems about every transport.
- SessionCrcs.CrcIsOwnIff: the same, for sessions of reads and CRC requests; group CRCs and other calls in between are not part of them.
- SessionReads.UniformReadsIff: the sizes of records depend only on their opcode, as in the wire mapping.
- Records.EncodeRecordLoop: values have the type of their field and digits are ASCII; a value the source would convert with `int` or `str`, or fail to convert, is not modelled.
- RecordTheorems.RecordNormalForm: asks for single-byte U8 fields, non-empty text and code fields and keys that do not clash. A code of length zero would make the source keep all digits, because a slice from minus zero is the whole list.
- Columns.WireBytesInRow: asks for distinct column names, one per byte; `KeypadIsWellFormed` shows it of the keypad, and it is not shown here of the other nine entries of the catalogue.
- Receive.ReceiveAll: progress callbacks and the texts of error messages are dropped; the panel is asked by table and item number, so the wire mapping's record code and item are inside the panel function (`SessionReceive` puts them back); aliasing of record dictionaries is not modelled, tables are values replaced in one field.
- CipherLaws.DerivedKeyIff: a modifier is the low bytes of its characters.
- AsciiStream.ReadStream: decoding, dispatch and logging of a frame are not part of it; the limit of 500 bytes per read is covered by allowing any chunks.
- AsciiFrames.FinalizedIsValid: characters stand for their Latin-1 codes.
- WriteQueue.WriteQueueSafety: holds within one stream lifetime; `NewStreamFollowsProtocolIff` says exactly when it carries over. Notifications are not modelled, nor what the panel does with a frame.
- Tracker.TrackerInvariants: starts from a loaded state with at most twenty history records, as this code stores them. Each call uses one time, where the source reads the clock up to twice; storage writes and listeners are not modelled.
- Audit.LastHashPinsLog: values of a line are texts, so nested details are one text; JSON and SHA-256 are the digest parameter. A file that cannot be opened on restart leaves the model as it was.
- Lockout.RateBound: one check at a time, with exact instead of floating-point seconds; audit entries and the failure delay are not modelled.
- ReleaseTheorems.CrashSafety: entry ids in a listing are distinct, and nobody else enables or disables entries meanwhile. A listing that fails leaves everything unchanged and is not modelled. Errors other than a refusal count as the process stopping.
- The rest of the record catalogue, its labels, choices and bit fields: a finite table.
- Login, version parsing, group CRCs, record writing: single exchanges with no property beyond those of the session.
- The JSON form of an account: it drops the show flags, so no round trip is claimed.
- Real transports, serial probing, reconnect timing, HTTP routes and web sockets: only their effect on the modelled state appears.
- scrypt, SHA-256, JSON text, ODBC and file access.
- The individual ASCII message decoders, house codes and brightness scaling: finite domains.
- Home Assistant entity platforms, configuration flow, services, diagnostics and vocabulary.
