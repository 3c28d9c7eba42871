# A verified model of the VLF gateway

The gateway receives 24-octet records by radio, keeps them in a circular log on an SD card, and uploads them to a
CouchDB server as one HTTP POST whose length is announced before any record is read. The server's answer moves the
log's read index. This project models that path in Dafny and proves what each part promises and what they promise
together. `dafny verify dfyconfig.toml` checks all of it.

## How it is laid out

| file | source | what it holds |
|---|---|---|
| `crc32.dfy`, `checksum.dfy` | `src/memory/checksum.c` | the CRC table and loop against the bit-serial register of RFC 1952 section 8; what damage is noticed |
| `index_page.dfy` | `src/memory/memory.c` | the page that holds the log indexes four times |
| `circular_log.dfy`, `memory.dfy` | `src/memory/memory.c` | the log on values and its refinement of a bounded queue; the functions in their own form |
| `crash_recovery.dfy` | `src/memory/memory.c` | a power cut at any point |
| `records.dfy` | `src/memory/write.c`, `src/frame_processor.c` | where records come from |
| `clock.dfy` | `src/sntp/time.c` | 64-bit time from a 32-bit timer |
| `printing.dfy`, `http_tx.dfy`, `message_text.dfy`, `element_text.dfy`, `http_tx_buffer.dfy`, `base64.dfy`, `octet_bits.dfy` | `src/http_tx.c`, `src/base64.c` | the text of the message, its characters, what it tells the reader, and the functions that write it into the buffer |
| `server_tcp.dfy`, `server_tcp_state.dfy` | `src/server_tcp.c` | the output machine on values, and the struct and its functions |
| `http_rx.dfy` | `src/http_rx.c` | the acknowledgement matcher |
| `end_to_end.dfy`, `upload_cycle.dfy`, `gateway.dfy` | `src/upload.c` and all of the above | the whole path, over every run; that uploads start, complete and make room; the gateway's state and entry points, each proved to be one event of it and to keep its invariant |
| `runs.dfy`, `rings.dfy`, `rx_ring.dfy`, `radif_service.dfy`, `tx_ring.dfy`, `radif_send.dfy` | `src/radio/radio.c`, `src/radio/radio_irq.c` | both rings under every interleaving with the interrupt, and the functions that work them |
| `ieee_frame.dfy` | `src/radio/ieee_frame.c`, `src/radio/radio_functions.c` | the frame codec |

Where the source updates fields or buffers in place, a class or a method does so here, and its `ensures` ties the new
state to a function on values; the lemmas are about those functions. struct radif is three classes, one for each part
its functions work on: `Link` (addresses and SPI), `Receiver` and `Transmitter`, which writes through a `Link`. Octets
that only the checksum looks at are `bv8`; block numbers, lengths and times are integers with the source's wrap-around
written out.

The surroundings are parameters: the timer value, the answers of `tcp_write` (it accepts a whole attempt or none of
it), whether lwIP grants a connection, the server's response, and the frames and busy flags of the radio interrupt. A
block that cannot be read is a block missing from the card's map.

## What the proofs found in the code

- The log is a first-in first-out queue only from valid indexes. From the two unset start values the test that
  protects unread data can never succeed, and one lap of the card replaces the first record
  (`CircularLog.UnsetIndexesLoseBlockOne`). Worse, an upload that starts from an unset read index with fewer than
  a thousand blocks written, and is acknowledged in full, leaves a log that is not yet full refusing every record and
  offering none (`EndToEnd.UnsetUploadJams`).
- `good_upload_done` has no guard. One acknowledgement too many makes the log look full, and records are
  refused (`CircularLog.DoneAtNewestJams`).
- Once the write index has wrapped below the read index, no block is offered again: in every run from there no
  upload starts and the read index never moves (`EndToEnd.WrappedLogIsNeverUploaded`). An idle gateway gets there
  with the first record stored after the last block, once block 1 has been acknowledged
  (`EndToEnd.WrapsExactlyAtTheLastBlock`).
- The saved indexes are at most 7 blocks old between operations (7 + n mod 8 just after a wrap), but 8 (8 + n mod 8)
  inside one (`CrashRecovery.BoundInFigures`, `CrashRecovery.LagReachesEight`). On a card with fewer than eight record
  blocks they are never saved (`CrashRecovery.SmallCardNeverSaves`).
- The matcher misses a marker exactly when it follows a started marker that the matcher itself is following
  (`HttpRx.CountsExactlyWhenClear`); a doubled opening quote hides a marker, a tripled one does not.
- An uploaded frame is acknowledged before it is stored, so one that finds the log full is acknowledged and lost
  (`Records.AcknowledgedIffStoredUnlessFull`).
- Write errors need not follow each other to close a session: a write that is accepted in full leaves the count as it
  was (`ServerTcp.FlushTakesWhatWasAccepted`).
- The printed PGA gain is the documented one exactly for odd settings and settings below 194
  (`HttpTx.GainIsRightIff`).
- `radif_service` without a callback spins for ever on the first frame (`RxRing.NoCallbackSpins`).
- `radif_send` accepts payloads up to 127 octets, but `radio_frame_write` stops the processor from 117 on
  (`IeeeFrame.TooLongIff`).
- The comment in `src/http_tx.c` allows 60 characters for a channel; 68 are reached (`HttpTx.LongestChannel`). The
  180 characters of a record still suffice (`HttpTx.UnpaddedLength`).

## Model

| member | source | states |
|---|---|---|
| `Crc32.TableEntry` | src/memory/checksum.c:34-67 | every one of the 256 table entries is its index shifted eight times through the polynomial |
| `Crc32.TableRunIsSerialRun` | src/memory/checksum.c:72-81 | for every register and every message, the table-driven loop leaves the register that feeding the message bit by bit leaves |
| `Crc32.RunInjective` | src/memory/checksum.c:76-78 | no message takes two different registers to the same one |
| `Crc32.BurstDetected` | src/memory/checksum.c:72-81 | messages of any length that differ only inside four consecutive octets never end in the same register |
| `Crc32.FiveOctetsCanMeet` | src/memory/checksum.c:72-81 | four octets is the limit: two different five-octet windows act alike on every register |
| `Checksum.CalculateChecksum` | src/memory/checksum.c:72-81 | the loop returns the bit-serial CRC-32, started and complemented with all ones, of the first twenty octets |
| `Checksum.SealedEvaluates` | src/memory/checksum.c:85-97 | storing the computed checksum little-endian behind any data makes a record that evaluates |
| `Checksum.EvaluatesIffResidue` | src/memory/checksum.c:95-97 | a record evaluates if and only if the register run over all 24 octets ends in one fixed residue |
| `Checksum.DamageDetected` | src/memory/checksum.c:95-97 | damage confined to any four consecutive octets of a good record, data or checksum or both, is always noticed |
| `IndexPage.DecodeExactlyEncoded` | src/memory/memory.c:38-75 | a page gives a pair if and only if it is the page written for that pair, at any 32-bit values |
| `IndexPage.PageWords` | src/memory/memory.c:60-75 | copy i of either index is stored as the index plus 2i, in 32 bits |
| `IndexPage.DamagedPageRejected` | src/memory/memory.c:44-58 | a page damaged in any way that leaves one copy of each index alone is rejected |
| `IndexPage.ConstantPageRejected` | src/memory/memory.c:50-56 | no constant page is taken for indexes |
| `CircularLog.PutRefines` | src/memory/memory.c:149-170 | the full test succeeds exactly when n records wait; then nothing changes, otherwise the record is appended and all of the last n records stay readable |
| `CircularLog.DoneRefines` | src/memory/memory.c:176-184 | an acknowledgement removes the oldest record as long as it is not also the newest |
| `CircularLog.DoneAtNewestJams` | src/memory/memory.c:176-184 | after an acknowledgement when only the newest record waits, a put is refused and changes nothing, so every later put is refused too |
| `CircularLog.BlockKept` | src/memory/memory.c:149-170 | a waiting record keeps its block and its contents through any put |
| `CircularLog.StepRefines` | src/memory/memory.c:107-184 | each permitted event, a read through get_sample with its checksum test included, gets the queue's answer and keeps the correspondence |
| `CircularLog.RunRefinesQueue` | src/memory/memory.c:90-184 | over every permitted run, across every wrap-around, the log answers as a bounded first-in first-out queue that hands out only records passing the checksum test, and ends standing for its contents |
| `CircularLog.UnsetReadNeverRefuses` | src/memory/memory.c:149-153 | with an invalid read index no put is ever refused |
| `CircularLog.UnsetIndexesLoseBlockOne` | src/memory/memory.c:90-98 | from either unset start value, n + 1 puts replace the first record |
| `CircularLog.LastBlockMeaning` | src/memory/memory.c:82-86 | valid blocks end with the card, or with the last block all of whose octets have 32-bit addresses |
| `Memory.OfferedBlocksAreConsecutive` | src/memory/memory.c:129-145 | blocks are offered if and only if the log is quiet and read is below write; then all but the newest, or the first thousand of them, consecutive and without wrapping |
| `Memory.OfferedForAnyIndexes` | src/memory/memory.c:129-145 | for any 32-bit indexes the signed difference is offered, none when it is negative or the log is not quiet, and at most 1000 |
| `Memory.Memory.constructor` | src/memory/memory.c:203-222 | the indexes come up as the pair on the card, or unset |
| `Memory.Memory.GetMemoryIndexes` | src/memory/memory.c:38-59 | succeeds exactly on written pages and returns their pair, otherwise unsets both indexes |
| `Memory.Memory.PutMemoryIndexes` | src/memory/memory.c:60-75 | the page on the card becomes the page of the current pair |
| `Memory.Memory.Next` | src/memory/memory.c:82-98 | returns the following valid block, wrapping to 1 |
| `Memory.Memory.GetSample` | src/memory/memory.c:107-119 | returns the block's record exactly when it can be read and evaluates, block 0 being the index page; for a block past the 32-bit octet address nothing is read and the buffer's last contents are judged |
| `Memory.Memory.GetBlocksToRead` | src/memory/memory.c:129-145 | returns the number described by OfferedBlocksAreConsecutive |
| `Memory.Memory.PutSample` | src/memory/memory.c:149-170 | the state and the result are those of a put on the log, with the write time set only when stored |
| `Memory.Memory.GoodUploadDone` | src/memory/memory.c:176-184 | the state is that of an acknowledgement on the log |
| `CrashRecovery.StepsMakeTheOperations` | src/memory/memory.c:149-184 | the card writes used for crash points compose to put_sample and good_upload_done |
| `CrashRecovery.CardHoldsAnEarlierPair` | src/memory/memory.c:149-184 | on every card, at every point of every run, inside operations too, the card holds a (read, write) pair the gateway had together at an earlier moment; with room for eight records neither index is further ahead than its bound |
| `CrashRecovery.BoundInFigures` | src/memory/memory.c:162-183 | with room for eight records the bound is 7, or 7 + n mod 8 after a wrap, between operations, and one more inside them |
| `CrashRecovery.SmallCardNeverSaves` | src/memory/memory.c:162-183 | with room for fewer there is no bound: no run ever saves the indexes |
| `CrashRecovery.LagReachesEight` | src/memory/memory.c:154-164 | from any freshly saved state with eight blocks to go, eight stores leave the card eight behind |
| `CrashRecovery.UnreadablePageUnsets` | src/memory/memory.c:203-215 | on a page that is not one of indexes both are left at 0xFFFFFFFF |
| `CrashRecovery.RecoveredWindow` | src/memory/memory.c:203-215 | the log found at boot stands for exactly the records waiting at the saved moment when no more were stored since than were free then; otherwise its first block holds the last record to have used it, which is n records later with room for eight |
| `CrashRecovery.RecoveredRecord` | src/memory/memory.c:203-215 | each block the recovered indexes point at holds the last record to have used it |
| `CrashRecovery.FreeBlocksSaveTheWindow` | src/memory/memory.c:203-215 | 14 free blocks at the saved moment are enough between operations and 15 at every crash point |
| `Records.SampleIsReported` | src/memory/write.c:57-77 | a sample the gateway writes evaluates, and its time, flags and values are read back from the record |
| `Records.WriteSampleToMem` | src/memory/write.c:57-77 | polls the clock, puts the record of the polled time less the offset, and sets the write time only when it is stored |
| `Records.PageReadsAsItsWords` | src/memory/memory.c:107-119 | read as a record, block 0 gives the words of the index page |
| `Records.BlockUploaded` | src/frame_processor.c:63-94 | a frame is acknowledged to its sender and put exactly when it is acceptable; otherwise the log is untouched |
| `Records.AcceptedIff` | src/frame_processor.c:67-78 | a frame is acceptable if and only if it has 24 octets or more and the checksum register over octets 5 to 28 ends in the residue |
| `Records.SealedFrameAccepted` | src/frame_processor.c:67-78 | every frame of 24 octets or more with sealed data behind its address is acceptable and carries it |
| `Records.AcknowledgementOctets` | src/frame_processor.c:40-49 | the letter A, the address and the checksum octets of the frame, nine in all, to its sender, with an acknowledgement asked for |
| `Records.EchoedOctets` | src/frame_processor.c:40-58 | the address and checksum taken from a frame are sent back octet for octet |
| `Records.AcknowledgedIffStoredUnlessFull` | src/frame_processor.c:76-84 | an acknowledged record is stored if and only if fewer than n records wait |
| `Clock.PollAdvances` | src/sntp/time.c:66-82 | a poll moves the stored 64-bit time to the next count that agrees with the timer |
| `Clock.PollExactIff` | src/sntp/time.c:66-82 | a poll after an exact time is exact if and only if less than 2^32 seconds have passed |
| `Clock.EveryPollExact` | src/sntp/time.c:66-82 | polls less than 2^32 seconds apart all return the true 64-bit count |
| `Clock.NeverBackwards` | src/sntp/time.c:66-82 | within the 64-bit range the clock never goes back |
| `Clock.Clock.NtpSetCurrentTime` | src/sntp/time.c:32-63 | the time becomes what a poll of the recorded time would find, which is the given seconds when nothing was recorded |
| `Clock.Clock.GetCurrentTime` | src/sntp/time.c:66-82 | updates the two halves to the polled time and returns it |
| `Printing.NumeralReads` | src/http_tx.c:186-187 | every printed decimal or hexadecimal numeral reads back as its number |
| `Printing.TwoWordsRead` | src/http_tx.c:186-187 | the two words of a time, one plain and one padded, read as one 64-bit hexadecimal number |
| `HttpTx.ChannelLength` | src/http_tx.c:77-114 | a channel has at most 68 characters, for any flags and value |
| `HttpTx.LongestChannel` | src/http_tx.c:96-113 | the 68 characters are reached by every channel with a two-digit frequency, a five-character gain and a ten-digit value |
| `HttpTx.UnpaddedLength` | src/http_tx.c:181-209 | any record takes at most 179 characters before its closing brace |
| `HttpTx.ElementLength` | src/http_tx.c:177-227 | every sample, the null one included, takes exactly 180 characters and its comma |
| `HttpTx.ElementsLength` | src/server_tcp.c:268-275 | the elements read so far take 180 characters each and a comma after all but the last |
| `HttpTx.BodyLength` | src/http_tx.c:67-73 | header, elements and footer together have the computed content length, which fits the signed format |
| `HttpTx.AnnouncedLengthIsTrue` | src/http_tx.c:147-167 | for every count and every sequence of samples, the number printed in the header reads as the length of the body behind the header |
| `HttpTx.BlankLine` | src/http_tx.c:163-164 | the header ends with a blank line, with and without authorization |
| `MessageText.LowOctetFirst` | src/http_tx.c:177-187 | the words of a record have their low octet first |
| `MessageText.MicGainText` | src/http_tx.c:88-93 | 33, 28, 18 and 13 for codes 0 to 3 |
| `MessageText.GainText` | src/http_tx.c:99-109 | null for 0, the whole number for odd settings, and the half for even ones, in characters |
| `MessageText.ChannelText` | src/http_tx.c:77-114 | the characters of a channel from six bits of frequency, two of microphone gain, eight of PGA gain, and its value |
| `MessageText.BatteryText` | src/http_tx.c:193-195 | type 60 gives a battery reading of word 3 |
| `MessageText.RssiText` | src/http_tx.c:196-198 | type 61 gives an rssi reading of word 3 |
| `MessageText.EnvelopeText` | src/http_tx.c:199-202 | type 63 gives the left envelope of word 3 and the right one of word 4 |
| `MessageText.EnergyText` | src/http_tx.c:203-205 | every other type gives the left channel from the upper half of word 0 and word 3, the right one from the lower half and word 4 |
| `MessageText.ElementIs` | src/http_tx.c:177-227 | an element is the object with its time, blanks up to 179 characters, a brace, and a comma unless it is the last |
| `MessageText.NullElementIs` | src/http_tx.c:177-227 | an unreadable sample is an empty object of the same width |
| `MessageText.SampleText` | src/memory/write.c:57-77 | the object of a sample the gateway took shows its time and is read from its flags and values |
| `MessageText.HeaderText` | src/http_tx.c:155-166 | the header lines without authorization, in characters |
| `MessageText.AuthorizedHeaderText` | src/http_tx.c:155-166 | the header lines with authorization, in characters |
| `MessageText.BodyText` | src/server_tcp.c:264-279 | the body is an object with the list docs of all elements, separated by commas |
| `HttpTx.GainIsRightIff` | src/http_tx.c:99-109 | the printed gain equals -97.5 + PGA/2 if and only if PGA is odd or below 194; otherwise it is 1 dB too high |
| `ElementText.ChannelTells` | src/http_tx.c:77-114 | the text of a channel, whatever follows, determines its flags and value |
| `ElementText.ReadingTells` | src/http_tx.c:115-141 | the text of a reading determines its kind and all its values |
| `ElementText.ElementTells` | src/http_tx.c:177-227 | two records get the same text if and only if they have the same time and the same reading |
| `ElementText.NullIsVisible` | src/http_tx.c:184-215 | an unreadable sample never looks like a reading |
| `HttpTxBuffer.SprintfGain` | src/http_tx.c:99-109 | appends exactly the gain text |
| `HttpTxBuffer.SprintfEmChannel` | src/http_tx.c:77-114 | appends exactly the channel text to the buffer |
| `HttpTxBuffer.SprintfEm` | src/http_tx.c:115-125 | appends exactly the text of an energy measurement |
| `HttpTxBuffer.SprintfEnvelope` | src/http_tx.c:132-141 | appends exactly the text of an envelope measurement |
| `HttpTxBuffer.SprintfReading` | src/http_tx.c:189-206 | appends the text of the reading its flags select |
| `HttpTxBuffer.SprintfUnpadded` | src/http_tx.c:181-209 | leaves exactly the text of the record before padding, within 179 characters |
| `HttpTxBuffer.JsonElement` | src/http_tx.c:177-227 | leaves exactly the element text in the 400-character buffer, padding loop included |
| `HttpTxBuffer.JsonHeader` | src/http_tx.c:171-173 | leaves the opening of the wrapper |
| `HttpTxBuffer.JsonFooter` | src/http_tx.c:232-234 | leaves the closing of the wrapper |
| `HttpTxBuffer.HttpHeader` | src/http_tx.c:147-167 | leaves exactly the header text, for a header that fits |
| `HttpTxBuffer.HeaderLength` | src/http_tx.c:147-167 | the exact length of the header from host, credentials and count |
| `HttpTxBuffer.SprintfAuthorization` | src/http_tx.c:158-162 | appends the authorization line with the encoded credentials, or nothing |
| `HttpTxBuffer.HeaderFits` | src/http_tx.c:147-167 | the header fits whenever host and authorization line take at most 296 characters, for every count |
| `HttpTxBuffer.HeaderFitsOnlyThen` | src/http_tx.c:147-167 | with one character more, some count overruns the buffer |
| `Base64.RoundTrip` | src/base64.c:32-75 | four characters for every three octets begun, and the decoder of RFC 4648 section 4 recovers every input |
| `Base64.Characters` | src/base64.c:53-69 | only the alphabet, then exactly one '=' for each octet missing from the last group |
| `Base64.Encode` | src/base64.c:32-75 | writes exactly the encoding and a null character, leaves what came before it, and returns its length |
| `Base64.EmitGroup` | src/base64.c:40-48 | writes the four characters of three octets |
| `Base64.EncodeGroups` | src/base64.c:37-52 | the main loop writes the encoding of all whole groups and keeps the rest |
| `Base64.EncodeTail` | src/base64.c:53-69 | the trailing octets are written as their padded group |
| `ServerTcp.OutKeepsOrder` | src/server_tcp.c:227-295 | every call keeps accepted plus unsent octets equal to what the phases produced, and the counters in agreement with the phase |
| `ServerTcp.OutGoesForward` | src/server_tcp.c:252-295 | phase, samples and accepted octets only grow |
| `ServerTcp.WireIsTheMessage` | src/server_tcp.c:194-295 | in every run, whatever TCP accepts, accepted plus unsent octets begin the intended message, and the accepted octets are all of it when the machine waits to close with nothing unsent |
| `ServerTcp.WriteMeansAccepted` | src/server_tcp.c:194-223 | a length is reported if and only if TCP accepted an attempt of just that length, the first length halved once for each attempt before it, all refused for want of memory with room left, and none for a single octet |
| `ServerTcp.FlushTakesWhatWasAccepted` | src/server_tcp.c:227-248 | exactly the octets of the accepted attempt leave the buffer; with none, nothing leaves it and an error is counted; the count starts again only on a partial write |
| `ServerTcp.RefusalsClose` | src/server_tcp.c:240-244 | calls refused in a row change nothing but the error count, and close the session at the 20001st |
| `ServerTcp.ClosesAfterTheWait` | src/server_tcp.c:280-288 | a session that waits to close is closed by exactly the 30003rd call |
| `ServerTcp.AcceptedCall` | src/server_tcp.c:252-295 | with a TCP that accepts, each call leaves nothing unsent and is one call nearer the end |
| `ServerTcp.AcceptedRun` | src/server_tcp.c:252-295 | then the whole message is out after exactly count + 4 calls and not before |
| `ServerTcp.ProgressTakesWork` | src/server_tcp.c:227-295 | no call adds work and every call that finds the buffer empty or has octets accepted takes some away |
| `ServerTcp.ProgressIsBounded` | src/server_tcp.c:252-295 | a run has at most as many such calls as there was work, and when it has that many the session is finished |
| `ServerTcp.WorkAtStart` | src/server_tcp.c:86-87 | the work of a session in figures, the wait before closing included |
| `ServerTcpState.ServerTcpWrite` | src/server_tcp.c:194-223 | the retry loop ends and returns a length if and only if TCP accepted it, as WriteMeansAccepted has it |
| `ServerTcpState.ServerTcpState.constructor` | src/server_tcp.c:394-410 | the cleared state |
| `ServerTcpState.ServerTcpState.Take` | src/server_tcp.c:233-234 | moves the accepted octets from the buffer to the wire and keeps the rest |
| `ServerTcpState.ServerTcpState.CurrentTcpOut` | src/server_tcp.c:227-248 | moves the accepted octets to the wire, keeps the rest, counts errors, and reports whether the buffer is empty |
| `ServerTcpState.ServerTcpState.SelectOutput` | src/server_tcp.c:255-289 | fills the buffer for the phase, asking the log at most once and at the current index |
| `ServerTcpState.ServerTcpState.SelectRecord` | src/server_tcp.c:268-275 | in the data phase, fills the buffer with the next element or moves on |
| `ServerTcpState.ServerTcpState.SelectFixed` | src/server_tcp.c:259-289 | in every other phase, fills the buffer, counts or closes as the phase says |
| `ServerTcpState.ServerTcpState.TcpOut` | src/server_tcp.c:252-295 | one call is one step of the output machine |
| `HttpRx.ScanSplit` | src/http_rx.c:43-68 | position and count do not depend on how the response is split |
| `HttpRx.PositionMeaning` | src/http_rx.c:46-54 | the matcher is at its start exactly when the text is fresh, a property of the text alone |
| `HttpRx.HitMeaning` | src/http_rx.c:46-54 | an octet completes a marker exactly when the text ends with one that began at a fresh place |
| `HttpRx.CountsExactlyWhenClear` | src/http_rx.c:43-68 | never more markers counted than there are, and all of them if and only if each stands at a fresh place |
| `HttpRx.SeparatedIsCounted` | src/http_rx.c:43-68 | all are counted when none directly follows the beginning of another |
| `HttpRx.DoubledQuoteHides` | src/http_rx.c:46-54 | in every fresh place a doubled opening quote hides the marker and a tripled one shows it |
| `HttpRx.MarkerText` | src/http_rx.c:31-54 | the five characters of the marker, wherever they follow a fresh text, are counted |
| `HttpRx.HitsAreDisjoint` | src/http_rx.c:46-54 | counted markers never overlap |
| `HttpRx.Parser.ParseBuffer` | src/http_rx.c:43-68 | leaves the matcher's position for the buffer and acknowledges once for each marker |
| `HttpRx.Parser.Receive` | src/server_tcp.c:348-355 | a chain of buffers has the effect of its concatenation |
| `HttpRx.Parser.Reset` | src/http_rx.c:73-75 | back to the start |
| `EndToEnd.NextReadIsLive` | src/server_tcp.c:269-273 | the block counter, which never wraps, always points at the live block of the next record to send, and the log returns that record, never null |
| `EndToEnd.StoreKeepsHealth` | src/memory/memory.c:149-170 | storing a record that passes the checksum test disturbs nothing a running upload has read or will read |
| `EndToEnd.ArrivalKeepsHealth` | src/frame_processor.c:76-84 | a sample or a frame, whatever it is, keeps the invariant: both ways into the log admit only records that pass the test |
| `EndToEnd.WaitingRecordsRead` | src/memory/memory.c:107-119 | every waiting record is read back from its block exactly as stored, never as null |
| `EndToEnd.StartKeepsHealth` | src/upload.c:62-69 | an upload starts at the oldest waiting record |
| `EndToEnd.OutputKeepsHealth` | src/server_tcp.c:252-295 | what an upload has read are the oldest records in order |
| `EndToEnd.ResponseKeepsHealth` | src/http_rx.c:43-68 | acknowledgements never overtake what was read, so the read index never overtakes the write index |
| `EndToEnd.UploadsDeliverTheQueue` | src/upload.c:54-69 | in every run of samples, radio frames, ticks, output calls, responses and ends, the wire carries the message of the oldest waiting records in storing order, complete when the upload waits to close, and nothing is acknowledged that was not read for sending |
| `EndToEnd.WrappedLogIsNeverUploaded` | src/memory/memory.c:129-135 | once write is below read with no upload running, in every run whatsoever no upload starts and the read index never moves |
| `EndToEnd.WrapsExactlyAtTheLastBlock` | src/memory/memory.c:90-98 | an idle healthy gateway gets there exactly by storing a record when write is at the last block and block 1 has been acknowledged |
| `EndToEnd.UnsetUploadJams` | src/memory/memory.c:129-145 | from an unset read index a quiet log offers one block too many, and if the server acknowledges every element the log ends wrapped and full exactly when fewer than 1000 blocks were written and the card is not full |
| `EndToEnd.JammedForGood` | src/memory/memory.c:149-153 | a wrapped and full log stays as it is in every run: nothing is stored, offered or acknowledged again |
| `EndToEnd.RestartIsHealthy` | src/memory/memory.c:203-222 | after a power cut with enough free blocks the restarted gateway satisfies the invariant with exactly the records waiting at the saved moment |
| `UploadCycle.SampleIsStored` | src/memory/write.c:57-77 | a sample is the newest record from then on, unless n records wait |
| `UploadCycle.FrameIsStored` | src/frame_processor.c:67-84 | so is the data of a frame that brings it sealed |
| `UploadCycle.BadFrameIsIgnored` | src/frame_processor.c:67-93 | a frame that is too short or damaged changes nothing |
| `UploadCycle.StartsIff` | src/upload.c:113-139 | when its time has come an idle gateway starts an upload if and only if the link is up, a connection granted, the log quiet and read below write; it is then on the oldest waiting records; otherwise it tries again at once with the link down and in 600000 ticks with it up |
| `UploadCycle.OneUploadAtATime` | src/upload.c:113-139 | while an upload is running a tick only counts down |
| `UploadCycle.CountsDown` | src/upload.c:136-138 | ticks before the time only count down |
| `UploadCycle.TicksStart` | src/upload.c:113-139 | from any idle state countdown + 1 ticks, the last with link, connection and quiet, start an upload if there is one to start, and no fewer do |
| `UploadCycle.FirstUpload` | src/upload.c:38-41 | after starting that is 20001 ticks |
| `UploadCycle.StoringPostponesUploads` | src/memory/memory.c:137-141 | no upload starts within three seconds of a store |
| `UploadCycle.NothingBeforeConnection` | src/server_tcp.c:382-387 | output calls before the connection do nothing |
| `UploadCycle.OutputsComplete` | src/server_tcp.c:252-295 | with a TCP that accepts, count + 4 output calls bring a running upload to its end |
| `UploadCycle.UploadIsSent` | src/upload.c:62-69 | an idle gateway with blocks to upload, link and TCP playing along, puts the whole message of the oldest waiting records on the wire |
| `UploadCycle.AnsweredAndEnded` | src/upload.c:54-58 | a clear answer is counted in full, and the end of the session sets the countdown to 600000 |
| `UploadCycle.UploadCycle` | src/upload.c:54-139 | a whole upload answered with a marker for each record removes exactly those records and leaves the gateway idle for the next |
| `Gateway.CounterStaysOnCard` | src/server_tcp.c:270-272 | the block counter of a healthy gateway never passes the last addressable block |
| `Gateway.Gateway.constructor` | src/upload.c:38-41 | a gateway starts on any card; it satisfies the invariant when the log found stands for the waiting records |
| `Gateway.Gateway.UploadEnd` | src/upload.c:54-58 | no upload is running and the countdown is at five minutes |
| `Gateway.Gateway.CouchdbStartUpload` | src/upload.c:62-69 | the session on the offered blocks is set up, or the upload ends at once |
| `Gateway.Gateway.Upload` | src/upload.c:113-139 | one tick of the whole system |
| `Gateway.Gateway.ServerTcpConnected` | src/server_tcp.c:127-139 | the connection event of the whole system, matcher reset included |
| `Gateway.Gateway.ServerTcpOut` | src/server_tcp.c:252-295 | the output event: what is sent is what the log returns for the counter whenever that is a block number within the address space, and in a healthy gateway always |
| `Gateway.Gateway.ServerTcpRecv` | src/server_tcp.c:348-355 | the response event for the concatenated chain, whatever it holds |
| `Gateway.Gateway.ServerTcpClosed` | src/server_tcp.c:157-161 | the end event |
| `Gateway.Gateway.PutSample` | src/memory/memory.c:149-170 | any record is stored as the whole system stores it; in a healthy gateway exactly when fewer than n records wait |
| `Gateway.Gateway.WriteSampleToMem` | src/memory/write.c:57-77 | the sample event, at the polled time less the offset |
| `Gateway.Gateway.BlockUploaded` | src/frame_processor.c:63-94 | the frame event, acknowledged with its own octets exactly when acceptable |
| `RxRing.ReceiveSound` | src/radio/radio_irq.c:108-134 | the interrupt accepts a frame exactly when fewer than seven wait, and keeps the invariant |
| `RxRing.ServiceSound` | src/radio/radio.c:46-59 | every statement of the main loop keeps the invariant |
| `RxRing.CallbackSlotKept` | src/radio/radio.c:50-56 | the slot in the callback holds the frame delivered, and the interrupt does not rewrite it |
| `RxRing.DeliveredOnceInOrder` | src/radio/radio_irq.c:108-134 | in every interleaving the frames delivered are the frames accepted, once each and in order, at most seven behind, and the two 16-bit counters count every receive event |
| `RxRing.ServiceDrains` | src/radio/radio.c:46-59 | left alone, with a callback or nothing to deliver, the loop takes exactly 4k + 1 statements for k frames and delivers everything |
| `RxRing.NoCallbackSpins` | src/radio/radio.c:48-58 | without a callback and with a frame waiting the loop never ends and delivers nothing, in every interleaving |
| `RadifService.Receiver.RadioRxEnd` | src/radio/radio_irq.c:108-134 | the update in place is the interrupt step of the ring |
| `RadifService.Receiver.Test` | src/radio/radio.c:48 | the test of the loop: empty means that everything accepted is delivered |
| `RadifService.Receiver.Deliver` | src/radio/radio.c:49-53 | the callback is called with the frame in the slot at the consume index |
| `RadifService.Receiver.Release` | src/radio/radio.c:53-56 | the slot is given back and one frame fewer waits |
| `RadifService.Receiver.RadifService` | src/radio/radio.c:46-59 | the whole call is an interleaving of its statements with the interrupts given; it returns with everything accepted before it delivered, or has no callback and a frame waiting |
| `TxRing.TransmitSound` | src/radio/radio_irq.c:66-88 | the interrupt writes no cell and queues nothing, and keeps the invariant that the frames sent begin those queued and the cells between the indexes hold the rest |
| `TxRing.HangsIff` | src/radio/radio_irq.c:66-88 | the interrupt stops if and only if the interface is up, the radio idle and the first frame waiting longer than 116 octets |
| `TxRing.SendsIff` | src/radio/radio_irq.c:66-88 | a frame goes out if and only if the interface is up, the radio idle and the first frame waiting short enough; otherwise nothing changes unless the interrupt stops |
| `TxRing.FillStep` | src/radio/radio.c:79-85 | each statement that fills a cell, the payload octet by octet, keeps the invariant |
| `TxRing.PublishSound` | src/radio/radio.c:88 | moving the produce index keeps the invariant with the finished frame queued, so its cell holds it completely |
| `TxRing.DropsOnlyWhenFullAndDown` | src/radio/radio.c:72-77 | a frame is dropped only when the ring is full and the interface is down |
| `TxRing.SentOnceInOrder` | src/radio/radio.c:63-92 | in every interleaving the frames sent are the frames queued, once each, complete and in order; every frame handed over is queued, dropped or still in hand; the interrupt hangs only on a frame of more than 116 octets |
| `TxRing.OneGoesOut` | src/radio/radio_irq.c:66-88 | an interrupt with the interface up and the radio idle sends the first frame waiting, if it is short enough |
| `TxRing.InterruptsDrain` | src/radio/radio_irq.c:66-88 | as many such interrupts as frames wait send everything queued |
| `TxRing.WaitEndsIff` | src/radio/radio.c:75 | a waiting radif_send goes on if and only if fewer than seven frames wait |
| `TxRing.OneInterruptEndsTheWait` | src/radio/radio.c:72-77 | with the interface up, the radio idle and short enough frames, one interrupt ends the wait |
| `RadifSend.Transmitter.constructor` | src/radio/radio.c:97-100 | the empty ring |
| `RadifSend.WrittenOneMore` | src/radio/radio_functions.c:128-157 | writing one more frame appends the write command and the whole frame with the next sequence number |
| `RadifSend.Transmitter.RadioTx` | src/radio/radio_irq.c:66-88 | the update in place, by way of radio_frame_write, is the interrupt step of the ring; the octets on SPI stay exactly the frames sent, in order, each with the next sequence number |
| `RadifSend.Transmitter.Reserve` | src/radio/radio.c:69-77 | the tests end with a free cell, a drop with the interface down, a wait the interrupts have not ended, or a stopped processor |
| `RadifSend.Transmitter.Wait` | src/radio/radio.c:75 | the wait ends exactly when the interrupt frees a cell or stops |
| `RadifSend.Transmitter.CopyPayload` | src/radio/radio.c:82 | the copy, octet by octet with interrupts between, is an interleaving that ends with the payload copied |
| `RadifSend.Transmitter.SetFields` | src/radio/radio.c:83-85 | so are the remaining fields |
| `RadifSend.Transmitter.Publish` | src/radio/radio.c:88-91 | the frame joins the ring whole |
| `RadifSend.Transmitter.RadifSend` | src/radio/radio.c:63-92 | the whole call is an interleaving of its statements with the interrupts given, and queues the frame once, or drops it with the interface down, or is stopped, never silently otherwise |
| `IeeeFrame.FrameRoundTrip` | src/radio/radio_functions.c:88-157 | every payload of at most 116 octets is read back with its length and the sender's address, for any addresses, acknowledgement setting and check sequence |
| `IeeeFrame.HeaderThrough` | src/radio/ieee_frame.c:41-116 | the nine header octets written are read as a header of nine octets with the sender's address |
| `IeeeFrame.HeaderLayout` | src/radio/ieee_frame.c:41-66 | a data frame that asks for an acknowledgement or not, its number, the PAN, the destination and the sender, each where the reader of words finds it |
| `IeeeFrame.HeaderOctets` | src/radio/ieee_frame.c:41-66 | the nine octets of the header one by one |
| `IeeeFrame.FrameOctets` | src/radio/radio_functions.c:128-157 | the write command, the length of all that follows it, header, payload and check sequence |
| `IeeeFrame.ShortSourceHeaders` | src/radio/ieee_frame.c:69-116 | how many octets are taken and which are the address, for every header with a short source address |
| `IeeeFrame.OtherHeaders` | src/radio/ieee_frame.c:69-116 | how many octets are taken from a header with a long source address or none |
| `IeeeFrame.TooLongIff` | src/radio/radio_functions.c:134-141 | writing stops exactly for lengths from 117 to 244 |
| `IeeeFrame.DataLengthFitsIff` | src/radio/radio_functions.c:95-105 | the 8-bit data length fits the slot if and only if the frame is long enough for its header and check sequence |
| `IeeeFrame.Link.WriteSpiWord` | src/radio/ieee_frame.c:28-31 | low octet first |
| `IeeeFrame.Link.ReadSpiWord` | src/radio/ieee_frame.c:32-35 | joins two octets, low first |
| `IeeeFrame.Link.WriteOutIeeeHeader` | src/radio/ieee_frame.c:41-66 | sends the header and moves the sequence number on |
| `IeeeFrame.Link.ReadInIeeeHeader` | src/radio/ieee_frame.c:69-116 | reads as many octets as it reports, for every frame control field |
| `IeeeFrame.Link.RadioFrameWrite` | src/radio/radio_functions.c:128-157 | for every 8-bit length, stops exactly from 117 to 244; otherwise has sent the command and the whole frame |
| `IeeeFrame.Link.WritePayload` | src/radio/radio_functions.c:147-150 | sends the payload octet by octet, in order |
| `IeeeFrame.Link.RadioFrameRead` | src/radio/radio_functions.c:88-112 | leaves the data of the frame buffer in the slot and the rest of the slot alone, returns length and source address, overruns the slot exactly when the length exceeds it, and has sent the read command and blanks |
| `IeeeFrame.Link.ReadData` | src/radio/radio_functions.c:102-105 | writes the next octets into the slot in order |

## Left out

- The SD command layer (`src/memory/sd.c`, `src/memory/sd_spi.c`): the card is a map of blocks; writes succeed, and
  a page write is not torn by a power cut.
- lwIP: `tcp_write` is its possible answers; opening and closing connections are events.
- What TCP does to a session after closing it: `connected` stays set and the source goes on with a freed control
  block. The model records the close, lets the calls go on with any answers, and takes the callback as an event of
  its own, which may come at any time.
- SNTP requests, DNS, the console, LEDs, clocking and start-up code: register and timer plumbing.
- Radio register programming, states, commands and energy measurement: they depend on the AT86RF212 itself.
- The matcher for failed uploads in `src/http_rx.c`: its index is never increased and its handler is commented out,
  so only the reset to zero is kept.
- `bad_upload_done`: nothing calls it.
- EndToEnd.UploadsDeliverTheQueue: assumes that the server's answer never holds more markers than records were read
  for sending; without that CircularLog.DoneAtNewestJams applies.
- HttpTxBuffer.HttpHeader: requires that the header fits the buffer, since the source writes past its end otherwise;
  HeaderFits and HeaderFitsOnlyThen say when it does.
- ServerTcpState.ServerTcpState.constructor: requires the same of its configuration.
- Gateway.Gateway.constructor: requires the same of its configuration, for every count.
- IeeeFrame.Link.RadioFrameRead: what an overrun writes behind the slot is not described.
- RadifService.Receiver.RadioRxEnd: is given the frame that radio_frame_read leaves in the slot.
- RadifSend.Transmitter.RadioTx: the register accesses that change the radio's state before and after the frame are
  not among the octets on SPI.
