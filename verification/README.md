# A verified model of the replay, sniffer and update programs

The repository replays flight logs of a swarm of drones over a control center,
captures the radio packets of a UWB sniffer through four different programs,
broadcasts firmware over the air, and joins the sniffer's log lines into simulation
input. This project models the parts whose correctness depends on interleavings, on
how a byte stream happens to be cut, or on arithmetic, and proves what they are
meant to guarantee. `dafny verify dfyconfig.toml` checks all of it.

## The four subjects

**The replay protocol** (`Replay`, `ReplayInvariant`, `ReplaySafety`,
`ReplayCallbacks`, `ReplayMessages`, `ReplayLastRow`, `ReplayNodes`). The center's
log thread, its N handler threads and the N drones (N >= 2, arbitrary) are a step
relation over three semaphores, the reply count and two FIFO channels per drone;
every wait, every single send and the critical section is a step of its own, so a
run is any interleaving of these. Messages carry the line of the log they belong to,
which no step looks at. An inductive invariant says where each drone's one
outstanding message is in every reachable state. From it follow the order of the
rounds, the pairing of timestamps, the absence of deadlock, and a bound on the
length of every run, hence that every run that cannot go on has exited with its work
done. A second invariant follows the callbacks: every receiver processes the ranging
messages of the replayed rows in row order, each exactly once, before its reply is
counted. A third follows the messages: what a receiver processes is what the row's
sender generated. The last replayed row need not be answered: the log thread calls
`exit` as soon as it has posted that row (center.c:151-158). `CompletesExactly` says
that a row is complete in all runs that have exited if and only if a later one is
replayed; in every configuration there is a run in which nothing of the last row's
ranging half happens. `ReplayNodes` has the code of the two programs in its own
form, with the drone's globals and the center's loops, and ties each method to the
step that stands for it.

**Four parsers of one wire format** (`Wire`, `Records`, `Transport`, `CaptureSpec`,
`CaptureLaws`, `SnifferCapture`, `GroundSpec`, `GroundControl`, `Analyzer`,
`TwowaySpec`, `Twoway`, `Resync`, `Pipeline`, `Unwrap`). Each program is written in
its own form (loops over partial reads, windows shifted in place, counters, a
bounded buffer) and proved to compute a function of the bytes it was given, whatever
the schedule of reads, timeouts, interrupts, stops and short writes. The functions
are then related to each other: ground_control keeps exactly the records that
capture keeps although its window mixes stale bytes with new ones; twoway's frames
are the batch parser's records up to the first truncated payload; a captured file
parses back without a framing diagnostic; and capture and twoway accept records at
the same places if and only if no over-long meta hides the start of a meta of an
allowed length in its remaining 17 bytes (`Resync` has the exact condition, which
also covers what the end of the stream cuts off). The unwrapping of receiver
timestamps follows the code, where every decrease is one wrap; section 11 of
`Docs/binary_sniffer_phase_implementation.md` describes an older rule with a
threshold of half the range, and `HalfRangeLosesWrap` shows where that rule would
lose a wrap.

**The update broadcast** (`Crc32`, `Crc32Detects`, `OtaSpec`, `OtaLaws`, `Ota`,
`OtaFlasher`). Both CRC programs compute CRC-32 as in section 8 of RFC 1952, which
detects every error whose wrong bits lie within 32 consecutive bits, and not every
one within 33. The repository has no receiver; one is defined from the message
format in `ota/ota_flasher.h`. It gets the image from any reordered and duplicated
subset of the packets that has one of each START, DATA and END group, and nothing
from any other subset. The two senders carry the same messages.

**The log joiner** (`DelayLineSpec`, `DelayLineRing`, `DelayLineJoin`, `DelayLine`).
`DelayLineJoin` has what `script/data_process.py` makes of any log. Unless drones
use address 0, which also marks empty slots, its ring of 5 * D slots is an exact
delay line: the output file is a closed-form function of the log, in input order,
every line at most once, four blocks late. A line that is passed over for want of a
transmission time stays in its slot, and storing the next line there leaves the
slot's transmission time alone; a report that comes exactly five blocks late can
therefore end up with another drone's message. `OwnTimeFromLog` says in terms of the
reports in the log exactly when a line leaves with its own transmission time,
`OwnTimesExactly` when all lines do, and `LateReportLeaks` is a log in which one
does not.

## Conventions

Bytes of the sniffer and update formats are integers from 0 to 255, those of the CRC
are bit vectors. The sequence number and chunk index of the update, and all
little-endian fields, are 16 or 32 bits wide as in the source. Counters that the
source keeps in 64 bits are unbounded. Reads, writes, USB transfers, semaphores and
the calls into the AdHocUWB library are driven by scripts or choices that are
parameters, so a statement about all of them is a statement about every behaviour. A
flag that a signal handler may clear is modelled by how many more times it will be
found set. `Common` holds the definitions that several modules share.

## Model

| member | source | states |
|---|---|---|
| ReplayInvariant.InitInv | center.c:12-39 | The invariant holds when all N drones are registered and the semaphores are 1, 0 and 1 |
| ReplaySafety.NextKeepsInv | center.c:92-203 | Every step of every thread and drone keeps the invariant |
| ReplaySafety.RunKeepsInv | center.c:92-203 | The invariant holds in every state of every run |
| ReplaySafety.RoundOrder | center.c:98-151 | A ranging message of row k goes out only after all N-1 replies to row k's assignments are counted; a row is assigned only after all replies to all earlier ranging messages are counted |
| ReplaySafety.TimesMatch | drone.c:258-276 | RxCallBack runs only for receivers of the row, with exactly the time that row gave that drone; TxCallBack only for its sender, with the row's transmission time |
| ReplayMessages.RunKeepsMessages | center.c:182-190 | In every state of every run, every ranging message on its way or held by a handler is the one its row's sender generated, and no row has two |
| ReplayMessages.ProcessedAsGenerated | center.c:57-63 | Every RxCallBack processes the message of the one earlier TxCallBack of that row's sender |
| ReplayMessages.ChoiceArrives | center.c:182-190 | What the library generates in the sender's step is what every later ranging message of that row says, in inboxes and callbacks |
| Replay.SelectedGroups | center.c:93-93 | Of the groups of N lines, group 0 and every rate-th after it are replayed, all their lines, and no others |
| ReplaySafety.CountedOnce | center.c:192-200 | No reply is counted twice |
| ReplaySafety.ExitMeansDone | center.c:92-158 | At exit every replayed row has been assigned to every drone, and every row but the last has all its ranging replies counted |
| ReplaySafety.NoDeadlock | center.c:187-199 | In every reachable state before exit some step is enabled |
| ReplaySafety.StepUsesWork | center.c:92-203 | Every step strictly decreases a measure of the work left |
| ReplaySafety.RunsAreBounded | center.c:92-203 | No run is longer than a bound in the number of lines and drones |
| ReplaySafety.MaximalRunsFinish | center.c:92-158 | A run that cannot go on has exited with all rows assigned and all but the last answered |
| ReplaySafety.LastRowNeedNotFinish | center.c:151-158 | From any state about to post the last row, the exit can be reached with nothing more counted or cast |
| ReplaySafety.LastRowMayBeLost | center.c:151-158 | A run whose only row is assigned and then lost |
| ReplayLastRow.LastRowCanBeLost | center.c:151-158 | In every configuration a run has exited in which the last replayed row was never cast, processed by any drone, or answered |
| ReplayLastRow.CompletesExactly | center.c:92-158 | A row's ranging replies are all counted in every run that has exited if and only if a later row is replayed |
| ReplayCallbacks.RunKeepsCalls | drone.c:254-276 | In every state of every run each drone has processed the rows it receives, in row order and once each, up to its place in the current round |
| ReplayCallbacks.CallbackBeforeReply | drone.c:273-276 | Every counted reply to a ranging message comes after exactly one RxCallBack of that drone for that row, with the row's time for it |
| ReplayCallbacks.CallbacksAtExit | drone.c:273-276 | At exit each drone has run RxCallBack once, in row order, for every row it receives, the last replayed one at most excepted |
| ReplayInvariant.OrderIsPlace | center.c:112-150 | Message j of a row goes to exactly the drone that is at place j in it |
| ReplayInvariant.ReceiveWhileAssigning | drone.c:254-271 | Receiving in the assignment half keeps a drone's place in the round and runs no RxCallBack |
| ReplayInvariant.ReceiveWhileRanged | drone.c:273-276 | Receiving in the ranging half keeps it, and every receiver of a foreign ranging message runs RxCallBack once with its time |
| ReplayNodes.DroneNode.TxCallBack | drone.c:140-173 | One ranging message is sent, and the globals afterwards |
| ReplayNodes.DroneNode.RxCallBack | drone.c:175-238 | Exactly one reply on every branch; loss and a zero time leave the globals alone |
| ReplayNodes.DroneNode.ReceiveFromCenter | drone.c:254-281 | The drone's globals, replies and callbacks are those of the protocol's step |
| ReplayNodes.Center.CountResponse | center.c:193-200 | The critical section changes count and semaphore as the protocol's step does, raising the semaphore exactly when the count returns to zero |
| ReplayNodes.Center.BroadcastRangingMessage | center.c:57-63 | Every drone is sent the message once |
| ReplayNodes.Center.SendToAddress | center.c:112-125 | Exactly the drones with the address are sent the message |
| ReplayNodes.Center.AssignRow | center.c:102-150 | A row's sends give every drone the one assignment the row has for it |
| Records.DecodeEncode | analyze_sniffer_binary.py:13-15 | A meta written as magic, 16-bit sender, sequence and length and 64-bit time is read back field by field |
| Records.EncodeDecode | analyze_sniffer_binary.py:77-77 | Every meta with the magic is one written that way from the fields read |
| Records.RecordsReadBack | analyze_sniffer_binary.py:97-101 | A file of records is parsed into their metas and payloads, numbered and placed as they come |
| Records.SameIdentity | analyze_sniffer_binary.py:102-105 | Two records count as duplicates exactly if they are the same bytes |
| Transport.Endpoint.Read | sniffer_storage/sniffer_capture.c:51-52 | What the capture may assume of a read: bytes in order, the reported status, an over-claim gives nothing |
| Transport.ByteSource.Read | sniffer_storage/sniffer_buffered_transport.c:5-40 | With or without the staging buffer, at any capacity, the caller gets the next bytes of the stream and each status that is news exactly once |
| Transport.ByteSource.BufferedRead | sniffer_storage/sniffer_buffered_transport.c:5-40 | Delivered and staged bytes together stay the bytes received from upstream; no room at all is an error and changes nothing |
| Transport.ByteSource.Refill | sniffer_storage/sniffer_buffered_transport.c:13-30 | One upstream read into the empty buffer loses nothing |
| Transport.ByteSource.TakeStaged | sniffer_storage/sniffer_buffered_transport.c:32-39 | Handing over part of the staged bytes keeps their order |
| SnifferCapture.Session.IsRunning | sniffer_storage/sniffer_capture.c:41-43 | A cleared flag stays cleared |
| SnifferCapture.Session.ReadExact | sniffer_storage/sniffer_capture.c:45-86 | The bytes taken, the counters, and how reading ended; independent of the schedule but for read_timeouts, which counts the reads that timed out |
| SnifferCapture.Session.ReadNextMeta | sniffer_storage/sniffer_capture.c:93-136 | The junk skipped, the meta found, and the counters, or those of a stream without a meta |
| SnifferCapture.Session.Resynchronize | sniffer_storage/sniffer_capture.c:106-127 | The scan finds the first magic and counts what it discards |
| SnifferCapture.Session.WriteFileAll | sniffer_storage/sniffer_capture.c:138-151 | All of the data reaches the file; or a write came up short, a prefix does, and one failure is counted |
| SnifferCapture.Session.Store | sniffer_storage/sniffer_capture.c:234-244 | Meta and payload reach the file, flushed if that was asked for, and one record is counted; or a write or flush failed, a prefix does, and one failure is counted |
| SnifferCapture.Session.CaptureOne | sniffer_storage/sniffer_capture.c:194-245 | One turn of the loop is one element of the capture function |
| SnifferCapture.Session.KeepRecord | sniffer_storage/sniffer_capture.c:217-244 | A record is read and stored, or cut short |
| SnifferCapture.Session.Run | sniffer_storage/sniffer_capture.c:175-249 | Counters (but read_timeouts), status and file are those of the capture function on the delivered bytes, and the run ended as its last read says; after a failed write the file is a prefix; with flush_each_record the file is flushed behind the last record |
| SnifferCapture.CaptureStream | sniffer_storage/sniffer_capture.c:175-249 | The same of a whole program on any wire, schedule and staging capacity; an endpoint that keeps the transport contract ends with EOF, and if it has enough reads the result is that of the whole wire at EOF; with or without a record limit; a payload limit of 0 or over 65535 is refused |
| CaptureSpec.FramesAreWhole | sniffer_storage/sniffer_capture.c:212-238 | Every stored record is a whole frame with an allowed length |
| CaptureSpec.BytesBalance | sniffer_storage/sniffer_capture.c:58-135 | Byte balance of any stream from any counters |
| CaptureSpec.Conservation | sniffer_storage/sniffer_capture.c:58-135 | received = stored + discarded + 18 * invalid + tail; the tail is zero exactly when nothing was truncated; at most one truncation; magic errors equal resynchronizations or one more |
| CaptureSpec.StoredIsFile | sniffer_storage/sniffer_capture.c:147-148 | The stored count is the size of the file, the record count its number of frames |
| CaptureLaws.LimitIsPrefix | sniffer_storage/sniffer_capture.c:194-195 | With max_records M exactly the first M of the records kept without it are kept, or all if there are fewer |
| CaptureLaws.LimitIsStop | sniffer_storage/sniffer_capture.c:194-195 | Counters and all: the limit does nothing until it is reached, and then it is a stop behind the last record |
| CaptureLaws.PiecesAreStream | sniffer_storage/sniffer_capture.c:93-245 | A stream falls into junk without a magic, over-long metas, whole records and one cut-off element, every byte in one of them |
| CaptureLaws.CountersCount | sniffer_storage/sniffer_capture.c:58-245 | Each counter is the number, or the bytes, of the pieces it is named after |
| CaptureLaws.EndDecides | sniffer_storage/sniffer_capture.c:200-225 | A transport error is counted once and fails the capture; no other ending does, and none changes the records kept |
| GroundControl.GroundReader.ReadExactUsb | sniffer_storage/ground_control_windows.c:100-148 | The bytes read, fewer than asked for only after a stop; a failed transfer loses those that came with it |
| GroundControl.GroundReader.Slide | sniffer_storage/ground_control_windows.c:205-213 | The window after one more byte stands for the bytes read so far |
| GroundControl.GroundReader.ReadNextMeta | sniffer_storage/ground_control_windows.c:159-219 | The next accepted meta of the stream, or nothing to write |
| GroundControl.GroundReader.StorePiece | sniffer_storage/ground_control_windows.c:252-275 | A piece of at most 256 bytes is written as it came, also when a stop cuts it short |
| GroundControl.GroundReader.StorePayload | sniffer_storage/ground_control_windows.c:250-276 | The payload, whole or in part |
| GroundControl.GroundReader.StoreSnifferBinaryData | sniffer_storage/ground_control_windows.c:221-280 | The file is the stored records and the partial one of the bytes received; 0 only after a stop, and then the file is flushed, -1 only after a failed transfer or a short write |
| GroundSpec.StaleWindow | sniffer_storage/ground_control_windows.c:198-213 | After an over-long meta the three stale bytes in the window cannot form a magic with new ones |
| GroundSpec.GroundAgreesWithCapture | sniffer_storage/ground_control_windows.c:159-277 | On every stream ground_control keeps the records capture keeps with limit 4096 and no cap, and at most one unfinished record: a meta and part of its payload, whole 256-byte pieces if a transfer failed |
| Analyzer.ParseBinary | analyze_sniffer_binary.py:54-111 | The loop computes the recursive parse |
| Analyzer.ParseIsSound | analyze_sniffer_binary.py:87-108 | Records are real, byte-exact, disjoint, in order and numbered by arrival |
| Analyzer.PayloadsAsDeclared | analyze_sniffer_binary.py:77-101 | Every record's payload has the length its meta declares, within the limit |
| Analyzer.DiagnosticsTrue | analyze_sniffer_binary.py:61-108 | Every diagnostic is true of the bytes it points at, and every repeated source and sequence and every timestamp over 40 bits has one |
| Analyzer.NothingMissed | analyze_sniffer_binary.py:61-108 | Every magic is in a record, or is over-long or in the header of a truncated record, which is so and is reported, or stands in the last 17 bytes |
| Analyzer.FaultsAreResyncs | analyze_sniffer_binary.py:62-95 | Every framing diagnostic is resynchronized from, but for the last if bytes are left over |
| Analyzer.FramesParseBack | analyze_sniffer_binary.py:61-111 | Whole frames parse back to themselves even if payloads hold the magic; with nothing behind them there is no framing diagnostic |
| TwowaySpec.DrainAppend | sniffer_storage/twoway_transport.c:261-325 | Parsing a stream in two goes is parsing it at once |
| TwowaySpec.DrainIsParse | sniffer_storage/twoway_transport.c:261-305 | The frames are the batch records before the first truncated-payload diagnostic, and the bytes kept are the matching rest |
| Twoway.NoAckNoStrip | sniffer_storage/twoway_transport.c:327-343 | Packets without an ACK in them are passed on unchanged |
| Twoway.StripJoins | sniffer_storage/twoway_transport.c:327-343 | What is passed on of a packet is all that stands between its ACKs |
| Twoway.RxContext.ConsumeStream | sniffer_storage/twoway_transport.c:251-259 | The buffer loses its first bytes, or all of them |
| Twoway.RxContext.ParseSnifferStream | sniffer_storage/twoway_transport.c:261-305 | Parsing keeps file and buffer equivalent to what was fed, and stops only where it must wait |
| Twoway.RxContext.WriteFrame | sniffer_storage/twoway_transport.c:289-303 | One frame moves from the buffer to the file, or the write comes up short and everything stops |
| Twoway.RxContext.AppendSnifferBytes | sniffer_storage/twoway_transport.c:307-325 | Appending keeps the equivalence; bytes are dropped only if the buffer would overflow |
| Twoway.RxContext.FindDownlinkAck | sniffer_storage/twoway_transport.c:102-113 | The first ACK, or -1 |
| Twoway.RxContext.DispatchUsbInPacket | sniffer_storage/twoway_transport.c:327-344 | The packet is fed without its ACKs, and an ACK is noted exactly if there was one |
| Twoway.RxContext.RxThreadMain | sniffer_storage/twoway_transport.c:346-379 | For any script of transfers the file is the frames of the packets received; the buffer stays within 4113 bytes while running and 4177 ever, the overflow and oversize branches never drop anything, and the file is flushed behind its last frame |
| Twoway.LostExactly | sniffer_storage/twoway_transport.c:357-375 | What is passed on is all that the device sent, ACKs removed, if and only if no transfer that timed out or failed brought anything but ACKs |
| Pipeline.CaptureFeedsAnalyzer | sniffer_storage/sniffer_capture.c:194-245 | A captured file with max_payload at most 4096 parses to its end, without framing diagnostic, into exactly the captured records |
| Pipeline.GroundFeedsAnalyzer | sniffer_storage/ground_control_windows.c:221-280 | The analyzer's first records of ground_control's file are its whole records |
| Pipeline.TwowayIsBatch | sniffer_storage/twoway_transport.c:251-344 | For every cutting into packets without ACKs, twoway's frames and rest are those of the batch parse |
| Resync.SamePlacesExactly | sniffer_storage/twoway_transport.c:281-287 | Capture and twoway accept records at the same places if and only if no over-long meta on the way hides a further meta |
| Resync.OnlyHiddenSeparates | sniffer_storage/sniffer_capture.c:212-215 | On all such streams the two programs keep the same frames |
| Resync.OverlongSeparates | sniffer_storage/sniffer_capture.c:212-215 | A stream of 28 bytes with a hidden one, of which twoway keeps its last 18 bytes and capture nothing |
| Unwrap.SortSorts | analyze_sniffer_binary.py:125-125 | The stable sort sorts |
| Unwrap.SortKeepsSorted | analyze_sniffer_binary.py:153-153 | The stable sort leaves what is in order as it is, so each source keeps its arrival order |
| Unwrap.LeastUnwrapping | analyze_sniffer_binary.py:126-144 | The unwrapped ticks are the least non-decreasing times from the first reading that show every reading |
| Unwrap.ExactUnwrapping | analyze_sniffer_binary.py:136-138 | Elapsed ticks are the true ones if and only if no gap is negative or as long as a period |
| Unwrap.HalfRangeLosesWrap | analyze_sniffer_binary.py:132-137 | Where the documented half-range rule loses a wrap that the code counts |
| Unwrap.UnwrapRecords | analyze_sniffer_binary.py:128-147 | The loop computes the unwrapped and elapsed ticks |
| Unwrap.GroupRecords | analyze_sniffer_binary.py:149-151 | The dictionary holds each source's records in order |
| Unwrap.AddDeltas | analyze_sniffer_binary.py:154-160 | One source's differences are recorded and others left alone |
| Unwrap.AnalyzeRecords | analyze_sniffer_binary.py:118-162 | The error cases; all records, sorted by arrival, with the low bits of their timestamps, their times in ticks and milliseconds, and the difference listed last for their arrival number |
| Unwrap.MaskIsLowBits | analyze_sniffer_binary.py:126-127 | The mask keeps the value of the lowest binary digits, and the period is theirs |
| Unwrap.MaskedAreReported | analyze_sniffer_binary.py:106-107 | With 40 bits exactly the timestamps that parse_binary reports are changed |
| Unwrap.MsOfSeconds | analyze_sniffer_binary.py:143-144 | As many ticks as the rate says are a second |
| Unwrap.LastIsOnly | analyze_sniffer_binary.py:152-162 | If arrival numbers are distinct, that is the difference to the record before it from the same source |
| Unwrap.SourceDifferences | analyze_sniffer_binary.py:152-160 | A source's differences are not negative and add up to last minus first, in milliseconds |
| Unwrap.ParsedInOrder | analyze_sniffer_binary.py:97-101 | parse_binary's records have distinct arrival numbers and are already sorted |
| Crc32.Crc32IsoHdlc | sniffer_storage/ground_ota.c:405-424 | The bitwise loop computes the CRC |
| Crc32.TableStep | ota/ota_flasher.c:28-28 | One look-up does the work of eight bit steps |
| Crc32.BranchFree | ota/ota_flasher.c:18-19 | The branch-free table step is the bit step |
| Crc32.FileCrc.BuildTable | ota/ota_flasher.c:14-24 | The table holds the eight-step image of every byte |
| Crc32.FileCrc.Crc32File | ota/ota_flasher.c:7-32 | For every split into reads, with a fresh or an old table, the CRC of the bytes read, all of them unless reading failed |
| Crc32Detects.RegisterIsFeed | sniffer_storage/ground_ota.c:410-422 | Taking bytes is taking their bits, least significant first |
| Crc32Detects.BurstDetected | sniffer_storage/ground_ota.c:405-424 | Inputs of equal length that differ only within 32 consecutive bits have different CRCs |
| Crc32Detects.FourBytesDetected | sniffer_storage/ground_ota.c:405-424 | In particular within four consecutive bytes |
| Crc32Detects.Residue | sniffer_storage/ground_ota.c:405-424 | A message with its CRC appended always leaves the register of this code, 0xDEBB20E3 |
| Crc32Detects.CheckValue | sniffer_storage/ground_ota.c:405-424 | The CRC of the digits 1 to 9 is 0xCBF43926 |
| Crc32Detects.LongerBurstMayPass | sniffer_storage/ground_ota.c:405-424 | 33 bits are too many |
| OtaSpec.DecodeSerialize | sniffer_storage/ground_ota.c:426-443 | A serialized message decodes to its fields |
| OtaLaws.MessagesDiffer | sniffer_storage/ground_ota.c:445-468 | No two messages of one update are alike |
| OtaLaws.LossTolerance | sniffer_storage/ground_ota.c:996-1077 | Any reordered, repeated subset of the messages gives the image if each is there, and nothing otherwise |
| OtaLaws.BroadcastTolerance | sniffer_storage/ground_ota.c:996-1077 | The same of the packets: one of each START, DATA and END group is enough and necessary |
| OtaLaws.DamageRefused | ota/ota_flasher.h:71-74 | A receiver never takes an image that differs from the announced one only within four consecutive bytes |
| OtaLaws.BroadcastNumbers | sniffer_storage/ground_ota.c:996-1077 | Sequence numbers are 1, 2, 3, ... to at most 3636, messages have at most 230 bytes, there are at most 1171 chunks |
| OtaLaws.CollapseBroadcast | sniffer_storage/ground_ota.c:996-1077 | Without repeats the broadcast is each message once, in order |
| OtaLaws.FragmentsJoin | sniffer_storage/ground_ota.c:852-871 | The 64-byte fragments of a message restore it |
| OtaLaws.DownlinkRoundTrip | sniffer_storage/ground_ota.c:921-965 | The transfers of any packets, read as one stream, tell the relay to send these packets to everyone, as update messages, at once |
| Ota.ReadImage | sniffer_storage/ground_ota.c:573-638 | Images of 1 to 262112 bytes that can be read whole, with their size and CRC, and no others |
| Ota.SerializeOtaMessage | sniffer_storage/ground_ota.c:426-443 | The message at the start of the buffer, the rest of the buffer as it was |
| Ota.BuildStartMessage | sniffer_storage/ground_ota.c:445-454 | The START message |
| Ota.Broadcaster.WritePayloadPackets | sniffer_storage/ground_ota.c:852-871 | The transfers are the fragments, all of them or up to a failed one |
| Ota.Broadcaster.SendOtaPayload | sniffer_storage/ground_ota.c:921-965 | Metadata and fragments of one packet, none in a dry run, nothing for a message over 230 bytes; the acknowledgement is waited for if that was asked for |
| Ota.Broadcaster.SendRepeated | sniffer_storage/ground_ota.c:967-994 | The message three times under consecutive numbers, which may wrap, or an interrupted part; nothing of a message over 230 bytes |
| Ota.Broadcaster.BroadcastImage | sniffer_storage/ground_ota.c:996-1077 | The transfers of the whole broadcast; false exactly if a transfer failed or an acknowledgement was missed, after a prefix of them; if asked for, one acknowledgement was awaited for each packet |
| OtaFlasher.PackChunks | ota/ota_flasher.c:90-104 | One framed packet for each chunk, in order |
| OtaFlasher.FlashImage | ota/ota_flasher.c:34-122 | The packets carry exactly the messages of the image; or, if a reading fails, what was printed until then, of which no receiver makes an image |
| OtaFlasher.SendersAgree | ota/ota_flasher.c:62-120 | Without its repeats ground_ota's broadcast is what ota_flasher packs, and that decodes to the image |
| DelayLineRing.RingTakesLine | script/data_process.py:92-109 | Storing a line and its report keeps every slot what it should be if and only if the line does not report a time other than 0 for message 0 of address 0, or no other slot is clear |
| DelayLineRing.RingFlushes | script/data_process.py:124-148 | So does a flush |
| DelayLineRing.FlushCondition | script/data_process.py:124-124 | At block ends the flush condition holds exactly if there is a second block and the last line in the second fifth is not from address 0 |
| DelayLineRing.RowsAreBlock | script/data_process.py:125-138 | A flush puts out exactly the block four blocks back |
| DelayLineSpec.OutputInOrder | script/data_process.py:124-150 | The rows are those of some input lines, in input order, each at most once, none of the last four blocks |
| DelayLineSpec.OwnTimeFromLog | script/data_process.py:104-109 | A line leaves with its own time if and only if it was reported while in the ring, or no late report marked its slot for a line passed over before it |
| DelayLineSpec.TimeWasReported | script/data_process.py:104-109 | The time a line leaves with was reported for its own source and number, or late for those of the line five blocks before it |
| DelayLineSpec.OwnTimesExactly | script/data_process.py:104-148 | All lines at one place of their blocks leave with their own time if and only if no line without a report takes the slot of an untimed line that was reported too late |
| DelayLineSpec.NoneTooLateOwn | script/data_process.py:104-109 | Without reports exactly five blocks late every line leaves with its own time |
| DelayLineSpec.LateReportLeaks | script/data_process.py:128-148 | A log in which a line leaves with another drone's time |
| DelayLine.LogJoiner.FillAddresses | script/data_process.py:97-102 | The reception columns name the other drones in order |
| DelayLine.LogJoiner.MarkTx | script/data_process.py:105-109 | Exactly the slots with the source and number get the time |
| DelayLine.LogJoiner.MarkRx | script/data_process.py:112-121 | Exactly the columns of the line's source get the reported reception times, each in the slots of its message |
| DelayLine.LastHeardIs | script/data_process.py:112-121 | That time is the one of the last report for the slot's drone and number; without one the column is left alone |
| DelayLine.LogJoiner.FlushSlot | script/data_process.py:128-148 | A slot with a time is put out, reception columns and all, and cleared; another is left alone |
| DelayLine.LogJoiner.FlushBlock | script/data_process.py:125-148 | D slots are flushed in order |
| DelayLineJoin.RegularIsDelayLine | script/data_process.py:83-150 | On every log in which address 0 never reports message 0 and never sends the line that line 124 looks at, the output is that of the delay line |
| DelayLineJoin.NeverSeenIsLost | script/data_process.py:124-124 | If address 0 sends all the lines that line 124 looks at, the output is empty |
| DelayLineJoin.ClearSlotsPutOut | script/data_process.py:105-109 | If the first line is a report of address 0 for message 0, a block of empty rows with its time comes out, where the delay line has none |
| DelayLine.LogJoiner.Run | script/data_process.py:83-150 | The output file is that function of the log for every log, and the delay line's on a regular one; its reception columns name the other drones unless address 0 reports message 0 |

## Left out

- Connection setup and disconnection in center.c (162-178, 205-305) and sockets as such: the model starts with N registered drones with distinct addresses, NODES_NUM equal to N, whole messages and no lost connection.
- Rows that do not name each registered drone exactly once, and log lines that do not parse: runs are over well-formed logs.
- The critical section of center.c:193-200 is one step, since the mutex is held throughout and a semaphore posted inside it cannot be seen to matter before the count is reset.
- The ranging algorithms of AdHocUWB, which are not part of this model, and get_next_RxTimestamp and xTaskGetTickCount: their effect on a drone's two globals is an arbitrary choice.
- The CSV helpers, drone.c:36-111, and every form of printing, option parsing, file naming, signal handling and process start.
- SnifferCapture.Session.Run: does not model the NULL checks, the failed malloc and the print options of lines 179-190; a run stopped by the flag between two reads is modelled, a signal within one is a read that reports an interrupt.
- Transport.Endpoint.Read: assumes the transport contract that a read never returns more bytes than it claims; the claim itself may exceed the room given.
- GroundControl.GroundReader.StoreSnifferBinaryData: the idle counters that only drive notices and the second magic comparison of lines 244-248, which cannot fail after read_next_meta, are not modelled.
- Twoway.RxContext.RxThreadMain: the four ACK bytes are a parameter, because adhocuwb_sniffer_protocol.h is not part of this model; an ACK pattern inside a payload is cut out like any other, so frames are compared with the batch parser only for packets without one. The sending thread and the ackReceived handshake are not modelled.
- Unwrap.AnalyzeRecords: rx_time_ms and delta_ms are real numbers; the rounding of floating-point division is not modelled.
- Analyzer.ParseBinary: the texts of diagnostics are not modelled, only their kinds and offsets.
- Phase coordinates, CSV output and plots of analyze_sniffer_binary.py: floating point and formatting.
- Ota.Link.WaitForLocalTxAck: the polling loop and its timeouts (ground_ota.c:873-919) are reduced to the answer; delays are not modelled.
- OtaFlasher.FlashImage: the fields of the UWB header that main leaves zero are not modelled; a second reading that fails brings no more bytes afterwards.
- USB enumeration, opening and claiming, hex parsing, ground_admin.c and the self tests of ground_ota.c: plumbing and fixed byte strings.
- DelayLine.LogJoiner.Run: no closed form is stated for the reception times, only what each line and each flush does to them, since a slot that is passed over keeps old ones (data_process.py:128-148).
- DelayLine.LogJoiner.constructor: requires at least D distinct addresses, without which line 101 raises an error.
- The reading of the log: it has at least 50 lines, without which get_drones_addr raises an error; lines end at the first blank one, have the columns the header announces, and hold values that fit the numpy types.
- evaluation.py, vicon.py, rate.py, paint.py: floating-point statistics and plots.
