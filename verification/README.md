# A verified model of libSLIPStream

libSLIPStream frames messages for a serial line with SLIP (RFC 1055, section "PROTOCOL"), in
three forms: one-shot functions between buffers, a streaming encoder with a bounded transmit
queue in front of a non-blocking output callback, and a streaming decoder that fills a
caller-supplied receive buffer. A table-driven 32-bit CRC goes with them. This project models the
four source files in Dafny and proves what they promise; `dafny verify dfyconfig.toml` checks it.

How the model is laid out:

- `Slip.dfy`: the byte code itself: escaping, frames and the left-to-right parser.
- `Buffer.dfy`: the one-shot encoder, decoder and length predictors, as methods on arrays.
- `DecoderSpec.dfy`, `DecoderExLaws.dfy`, `DecoderResume.dfy`, `Decoder.dfy`: the decoder as a step
  function with the laws of its runs, those of its error-reporting variant, what a caller gets who
  resumes after an error, and the decoder object that refines both variants in place.
- `EncoderSpec.dfy`, `EncoderLaws.dfy`, `EncoderOutcome.dfy`, `EncoderFailure.dfy`, `EncoderChunks.dfy`,
  `Encoder.dfy`: the encoder over values, its laws, the outcome of a call decided before the call, where
  a failing call stops, chunked pushes, and the ring-buffer object that refines the encoder.
- `EndToEnd.dfy`, `Progress.dfy`: whole runs of a client, an encoder, an arbitrary sink and a decoder.
- `Polynomial.dfy`, `CrcTable.dfy`, `Crc32.dfy`, `CrcLaws.dfy`, `CrcDivision.dfy`: polynomials over
  GF(2), the table, the CRC operations, error detection, and the CRC as long division.
- `Pipeline.dfy`: payload, CRC, frame, decoder and verification together.

Modelling decisions:

- The output callback is an arbitrary function from the history of all bytes offered to it, the
  current one included, to Ok, RetryLater or Error. So every claim about the encoder holds for every
  sink, adaptive ones included. `accepted` is the sequence of bytes answered with Ok
  (`EndToEnd.RunHonest`).
- The message callback is a log of delivered messages, the overflow callback a counter.
- Input buffers that are only read are sequences; output buffers, the transmit ring and the receive
  buffer are arrays changed in place.
- ENCODE_ERROR and DECODE_ERROR are `None`. Sizes are unbounded naturals: the model assumes lengths
  small enough that `size_t` does not wrap.

Where the code and its documentation differ, the model follows the code:

- The CRC table is generated by 0x09823B6E, which is 0x04C11DB7 shifted left by one, and there is no
  final XOR (src/CRC32.cpp:16-67; include/SLIPStream/CRC32.hpp:18-26 says otherwise). As a consequence
  every CRC of a non-empty message is even, and one four-byte error pattern goes unnoticed.
- `verify_crc32` rejects an empty payload even if its CRC is right (src/CRC32.cpp:107-109).
- A RetryLater with everything consumed may come before or after the terminator was queued. Resuming
  is safe either way, but a packet may be closed by more than one END (`EncoderLaws.RetryIsAmbiguous`,
  `Progress.SurplusEnd`). `EncoderOutcome.SurplusIff` says for which states and sinks a call ends like
  that, and `Progress.OneEndIff` and `Progress.ExactDeliveryIff` what it means for runs.
- `pushPacket_chunk` ends every piece with an END of its own, and the count it reports on failure
  leaves out the bytes of the failing piece that are already committed (`EncoderChunks.ChunkUnderReports`).
  `EncoderChunks.ReportedAllIff` says when the count is right all the same.
- `consume_ex` drops the byte that meets a full buffer, where `consume` processes it. So it can lose the
  END of a frame, or one half of an escape pair and then deliver the other half as data
  (`DecoderExLaws.ExSplitsPair`); `DecoderExLaws` has the exact conditions.
- The count that `consume_ex` reports leaves out the failing byte although it has been processed. A caller
  who resumes behind the count feeds that byte twice; `DecoderResume` says what comes of it.
- The decoder's last error is always Success, and the positions reported by `consume_ex` are always 0,
  because `reset()` clears both first (src/Decoder.cpp:55-56, 97-99, 112-114, 147-152).
- The positions reported by the `_ex` decoding functions count decoded bytes, not input bytes.

## Model

| member | source | states |
|---|---|---|
| Slip.EscapeByte | src/Encoder.cpp:75-98 | one payload byte takes two wire bytes exactly if it is END or ESC, otherwise one, and none of them is END |
| Slip.WireBytes | include/SLIPStream/SLIP.hpp:17-20 | the wire format in numbers: C0 becomes DB DC, DB becomes DB DD, every other byte stays, and a frame ends in C0 |
| Slip.Unescape | src/Decoder.cpp:59-71 | the byte after ESC is accepted exactly for ESCEND and ESCESC, and then inverts EscapeByte |
| Slip.EncodedSize | src/Buffer.cpp:7-24 | a frame has one byte per payload byte, one more per special byte and one END, hence between n+1 and 2n+1 bytes |
| Slip.ParseIff | src/Buffer.cpp:213-254 | a scan stops for a given reason with a given payload if and only if the input has the corresponding shape (frame and rest, escaped text, escaped text and lone ESC, escaped text and bad pair) |
| Slip.DecodeEncode | src/Buffer.cpp:213-254 | decoding a frame followed by anything returns its payload and stops behind its END |
| Slip.EncodeDecode | src/Buffer.cpp:220-253 | a successful decoding has read exactly the encoding of its result, which ends at the first END of the input |
| Slip.PrefixFree | src/Buffer.cpp:45-91 | no frame is a proper prefix of another |
| Slip.UniqueFrames | src/Buffer.cpp:45-91 | a concatenation of frames determines the list of packets |
| Buffer.EncodedLength | src/Buffer.cpp:7-24 | the predicted length is the length of the frame |
| Buffer.FittingBytes | src/Buffer.cpp:105-132 | the number of payload bytes an attempt gets through: their encoding leaves room for one more byte, that of the next one fills the buffer |
| Buffer.EncodeOutcomeLaw | src/Buffer.cpp:93-141 | the size check, the checks in the loop and the check for END together pass iff the predicted length fits, and then the whole frame is written; every failure is EncodeBufferTooSmall and leaves the encoding of the bytes before its position, which is 0 at the size check and behind it the first byte whose encoded prefix fills the buffer |
| Buffer.EncodePacketEx | src/Buffer.cpp:93-141 | the result is that outcome; exactly the encoded bytes are written over the front of the buffer, the rest is unchanged, on failure too |
| Buffer.EncodePacket | src/Buffer.cpp:45-91 | fails on the same inputs as the _ex form and writes the same bytes |
| Buffer.DecodeScanLaw | src/Buffer.cpp:264-298 | the token loop runs out of buffer at its end if the scan gets further, and otherwise stops as the scan does, with the token count as position |
| Buffer.DecodeOutcomeLaw | src/Buffer.cpp:256-299 | if the length scan stops at token t, decoding has the same outcome when outlen >= t and is DecodeBufferTooSmall at outlen otherwise; it succeeds iff the input starts with a frame whose payload fits, and then writes that payload |
| Buffer.LengthCodes | src/Buffer.cpp:177-211 | which input gets which code and position, without the parser: a value iff a frame is in front, DecodeNoEndMarker iff the input is escaped text, DecodeTruncatedEscape iff it is escaped text and ESC, DecodeInvalidEscapeSequence iff it starts with escaped text and a bad pair |
| Buffer.DecodeCodes | src/Buffer.cpp:256-299 | the same for decoding into a buffer that holds the position, and DecodeBufferTooSmall at its end iff the input starts with more escaped bytes than it holds |
| Buffer.DecodeWritesLaw | src/Buffer.cpp:264-298 | the buffer receives the decoded payload up to its end, whatever stops the scan |
| Buffer.BufferRoundTrip | src/Buffer.cpp:143-254 | length prediction and decoding undo encoding, whatever follows the frame |
| Buffer.DecodedLengthEx | src/Buffer.cpp:177-211 | value or error and position are those of the left-to-right scan, which LengthCodes states on the input |
| Buffer.DecodedLength | src/Buffer.cpp:143-175 | fails exactly where the _ex form fails, with the same value otherwise |
| Buffer.DecodePacketEx | src/Buffer.cpp:256-299 | the result is the decode outcome, which DecodeCodes states on the input; the decoded bytes that fit are written over the front of the buffer, the rest is unchanged |
| Buffer.DecodePacket | src/Buffer.cpp:213-254 | fails exactly where the _ex form fails and writes the same bytes |
| DecoderSpec.EndResets | src/Decoder.cpp:73-85 | a raw END leaves the decoder reset from any state |
| DecoderSpec.SelfSynchronising | src/Decoder.cpp:47-87 | what follows an END is decoded as from the reset state, whatever came before |
| DecoderSpec.RunBounds | src/Decoder.cpp:47-87 | the buffer is never completely full, a pending escape has a free place, every delivered message has at most rxbufSize-2 bytes |
| DecoderSpec.RunEscapedByte | src/Decoder.cpp:48-85 | an escaped byte is stored whole, after at most one overflow that falls before it |
| DecoderSpec.PairKeptIff | src/Decoder.cpp:48-66 | an escape pair survives iff the receive buffer has at least two bytes |
| DecoderSpec.RunEscaped | src/Decoder.cpp:47-87 | buffer content and overflow count after any escaped payload, in closed form |
| DecoderSpec.FrameLaw | src/Decoder.cpp:47-87 | a frame delivers exactly one message, the last n mod (rxbufSize-1) payload bytes, after n div (rxbufSize-1) overflows |
| DecoderSpec.SegmentLaw | src/Decoder.cpp:47-87 | on any END-free segment and its END: bad pairs discard what precedes them, a lone ESC discards everything, the rest is delivered up to overflow; overflows are counted |
| DecoderSpec.StreamLaw | src/Decoder.cpp:16-87 | on every byte stream the decoder delivers, segment by segment, what SegmentLaw says and nothing else |
| DecoderSpec.EndCompletes | src/Buffer.cpp:213-254 | an END-free input followed by END decodes iff it is escaped payload throughout |
| DecoderSpec.StreamingRefinesBatch | src/Decoder.cpp:59-85 | on a segment that the one-shot decoder decodes and that fits, the streaming decoder delivers exactly that payload without overflow |
| DecoderSpec.DeliveredIffFits | src/Decoder.cpp:47-87 | a frame is delivered whole iff its payload has at most rxbufSize-2 bytes |
| DecoderSpec.ExAgrees | src/Decoder.cpp:89-132 | consume and consume_ex overflow on the same inputs, and without overflow deliver the same messages and end in the same state |
| DecoderSpec.RunExBounds | src/Decoder.cpp:89-132 | the bounds of RunBounds hold for consume_ex |
| DecoderSpec.ExSelfSynchronising | src/Decoder.cpp:89-132 | consume_ex resynchronises at END too |
| DecoderSpec.ExDeliveredIffFits | src/Decoder.cpp:89-132 | consume_ex delivers a frame whole iff it fits |
| DecoderSpec.StepExCodes | src/Decoder.cpp:89-132 | RXBufferOverflow is reported iff fewer than two bytes are free, which is when an overflow is counted; DecodeInvalidEscapeSequence iff there is room and the byte after ESC is neither ESCEND nor ESCESC |
| DecoderSpec.ResetsIff | src/Decoder.cpp:47-87 | the counter restarts exactly where a step delivers a message, overflows or drops a bad pair |
| DecoderExLaws.ExSegmentLaw | src/Decoder.cpp:89-132 | consume_ex on any END-free segment and its END, beyond overflow: once rxbufSize-1 bytes are buffered the next byte is lost and decoding starts afresh behind it; messages and overflows are exact |
| DecoderExLaws.ExStreamLaw | src/Decoder.cpp:89-132 | on every byte stream consume_ex, fed byte by byte, delivers segment by segment what ExSegmentLaw says and nothing else |
| DecoderExLaws.ExFrameLaw | src/Decoder.cpp:89-132 | what consume_ex delivers for any frame, and its overflow count, from the payload alone |
| DecoderExLaws.ExTailShape | src/Decoder.cpp:90-108 | the bytes buffered when END arrives are a payload suffix, behind the stray second byte of an escape pair if the last overflow split one |
| DecoderExLaws.VariantsAgreeIff | src/Decoder.cpp:47-132 | consume and consume_ex deliver the same for a frame iff the last overflow of consume_ex split no pair and as many bytes survive as in consume |
| DecoderExLaws.SwallowsEndIff | src/Decoder.cpp:90-100 | consume_ex loses the END of a frame iff the surviving bytes fill the buffer |
| DecoderExLaws.ForgesIff | src/Decoder.cpp:90-108 | consume_ex delivers something that is no suffix of the payload iff its last overflow split a pair and END was not lost |
| DecoderExLaws.ConsumeNeverForges | src/Decoder.cpp:47-87 | consume only ever delivers a suffix of the payload |
| DecoderExLaws.ExSplitsPair | src/Decoder.cpp:90-108 | a pair right behind a full buffer is split, and its second byte alone is delivered, for every buffer of three bytes or more |
| DecoderExLaws.FirstFailLaw | src/Decoder.cpp:34-45 | for every input, where a batch from the reset state stops and with which code: behind rxbufSize-1 payload bytes with RXBufferOverflow, at the byte behind an ESC with DecodeInvalidEscapeSequence, or nowhere |
| DecoderExLaws.OverflowFails | src/Decoder.cpp:90-100 | rxbufSize-1 escaped bytes pass and the next byte fails with RXBufferOverflow |
| DecoderExLaws.BadPairFails | src/Decoder.cpp:101-115 | a bad pair behind fewer escaped bytes fails at its second byte with DecodeInvalidEscapeSequence |
| DecoderResume.StuckIff | src/Decoder.cpp:34-45 | a caller who resumes behind the count gets past a byte iff the receive buffer has at least two bytes |
| DecoderResume.ResumeLaw | src/Decoder.cpp:34-45 | all calls of a resuming caller together are the run of a decoder that differs from consume only in reading the second byte of a bad pair again, from any state |
| DecoderResume.ResumeIsConsume | src/Decoder.cpp:34-132 | on input without a bad pair a resuming caller gets exactly the messages, the state and the overflows of consume |
| DecoderResume.AgainSegmentLaw | src/Decoder.cpp:34-132 | on any END-free segment and its END a resuming caller gets exactly one message: the payload behind the last bad ESC, its partner included, up to overflow, and an empty one behind a lone ESC; overflows are counted |
| DecoderResume.ResumeStreamLaw | src/Decoder.cpp:34-132 | on every byte stream a resuming caller gets, segment by segment, what AgainSegmentLaw says and nothing else |
| DecoderResume.SameNumberIff | src/Decoder.cpp:34-132 | a resuming caller gets no fewer messages than consume delivers, and the same number iff no END is taken for the partner of an ESC |
| DecoderResume.EscapedEnd | src/Decoder.cpp:112-122 | after any payload, ESC END delivers nothing in consume and an empty message to a resuming caller |
| DecoderSpec.FirstFailConcat | src/Decoder.cpp:34-45 | the first failure of a concatenation is that of the first part, or that of the second part met in the state the first part leads to |
| DecoderObject.Decoder.constructor | src/Decoder.cpp:7-13 | a new decoder is reset |
| DecoderObject.Decoder.Reset | src/Decoder.cpp:147-152 | buffer, escape state, last error and counter are cleared |
| DecoderObject.Decoder.Consume | src/Decoder.cpp:47-87 | state, delivered messages and overflows move by one specified step; the last error stays Success; the counter is exact |
| DecoderObject.Decoder.ConsumeEx | src/Decoder.cpp:89-132 | state, messages and overflows move by one specified reporting step; its code, which StepExCodes pins, with a position that is always 0; the counter is exact and 0 after an error |
| DecoderObject.Decoder.ConsumeAll | src/Decoder.cpp:16-22 | a batch is the run over its bytes |
| DecoderObject.Decoder.ConsumeChunk | src/Decoder.cpp:24-32 | chunking makes no difference for any positive chunk size |
| DecoderObject.Decoder.ConsumeAllEx | src/Decoder.cpp:34-45 | processing stops right behind the first failing byte k, which is reported as consumed k with its code; FirstFailLaw gives both from the input |
| DecoderObject.Decoder.ConsumeChunkEx | src/Decoder.cpp:134-145 | the same with consumed rounded down to whole chunks |
| EncoderSpec.FlushUpToLaw | src/Encoder.cpp:25-44 | a flush moves a prefix of at most maxSendChunk bytes to the sink, all it may if it succeeds; on failure the next byte was refused with the returned status and stays queued |
| EncoderSpec.FlushConserves | src/Encoder.cpp:25-44 | a flush changes nothing about what is committed |
| EncoderSpec.EnsureFree | src/Encoder.cpp:67-73 | Ok means there is room for n bytes, and the queue never outgrows its capacity |
| EncoderSpec.EncodeOneConserves | src/Encoder.cpp:75-98 | a whole escape sequence is committed on Ok and nothing otherwise |
| EncoderSpec.PrepareConserves | src/Encoder.cpp:102-117 | the first stage commits nothing new, and turns a pending END into a queued one |
| EncoderSpec.EndConserves | src/Encoder.cpp:131-144 | the last stage commits one END exactly if it queues or defers it, and leaves it pending only with RetryLater |
| EncoderSpec.PayloadConserves | src/Encoder.cpp:119-144 | the payload stage commits the escaped bytes it reports, then END if it got that far |
| EncoderSpec.PushConserves | src/Encoder.cpp:100-145 | for every sink, state and return path, accepted, queued and pending bytes grow by exactly the escaped consumed bytes and the END if reached; Ok means everything and END, with nothing pending |
| EncoderLaws.FlushSettles | src/Encoder.cpp:25-44 | after a successful flush there is a free place unless the encoder cannot send at all |
| EncoderLaws.PushAnswered | src/Encoder.cpp:100-145 | a call meets at most one refusal and reports it; with capacity >= 2 and chunk >= 1 it fails iff the sink refused a byte |
| EncoderLaws.PushExAgrees | src/Encoder.cpp:147-204 | pushPacket_ex gives the same status, count and state as pushPacket; the different treatment of Error at the terminator is unreachable |
| EncoderLaws.PushHonest | src/Encoder.cpp:27-42 | the bytes recorded as accepted stay exactly those the sink answered Ok to |
| EncoderLaws.NeverPending | src/Encoder.cpp:131-138 | with capacity and chunk at least one no END is ever left pending |
| EncoderLaws.ZeroChunkLaw | src/Encoder.cpp:25-44 | with chunk 0 the sink is not asked; Ok iff the frame fits into the queue, END pending iff the escaped payload exactly fills it |
| EncoderLaws.PendingReachableIff | src/Encoder.cpp:131-138 | a fresh encoder can be left with a pending END iff its capacity or its chunk is zero |
| EncoderOutcome.FlushOutcome | src/Encoder.cpp:25-44 | a flush succeeds iff the sink takes the bytes it may send, and the state is then known |
| EncoderOutcome.PrepareOutcome | src/Encoder.cpp:102-117 | the first stage succeeds iff there is room for a pending END and the sink takes what is due |
| EncoderOutcome.PayloadOutcome | src/Encoder.cpp:119-144 | whether the payload stage reaches its terminator and whether it succeeds, from lengths and the sink's answers |
| EncoderOutcome.PushOutcome | src/Encoder.cpp:100-145 | for every capacity, chunk, state, sink and payload, the empty one included: the call reaches its terminator iff the sink takes all bytes due before it, and is Ok iff END has room and the sink takes the last flush too; the state after Ok is given here, the count and state of every other return by EncoderFailure.CountIff and PushStops |
| EncoderOutcome.PushSends | src/Encoder.cpp:119-144 | a successful push leaves an empty queue or room for a chunk; with chunk >= 2 and an empty queue before, the sink has the whole frame |
| EncoderOutcome.SurplusIff | src/Encoder.cpp:131-144 | a call closes its packet and still fails iff the sink takes everything due before the terminator and then END has no room or a byte of the last flush is refused |
| EncoderOutcome.SurplusFromEmpty | src/Encoder.cpp:131-144 | from an empty queue with chunk >= 2 that is: the sink takes the escaped payload and refuses the END |
| EncoderOutcome.PlanSteady | src/Encoder.cpp:119-129 | with chunk >= 2 the queue does not grow over the payload |
| EncoderOutcome.PlanSlow | src/Encoder.cpp:119-129 | with chunk 1 it grows by one per special byte, up to capacity - 1 |
| EncoderFailure.PayloadCount | src/Encoder.cpp:119-129 | the payload stage gets byte j queued iff room for it can be made by then and the sink takes what must leave first |
| EncoderFailure.CountIff | src/Encoder.cpp:100-145 | the count of every call, failing ones included: it exceeds j iff lengths allow byte j to be queued and the sink takes what must leave before it, decided before the call |
| EncoderFailure.PushStops | src/Encoder.cpp:100-145 | the state after every return: the sink was offered the owed bytes and the frame up to its first refusal or to where the call stopped, and took all but the refused byte, whose status is returned; the rest of what is committed is owed |
| EncoderFailure.StartsIff | src/Encoder.cpp:102-124 | the case j = 0: a call consumes anything iff the sink takes what must leave before its first byte fits |
| EncoderFailure.StartsByFlush | src/Encoder.cpp:102-106 | with capacity and chunk >= 2 that is decided by the first flush |
| EncoderFailure.StartsSlowly | src/Encoder.cpp:67-98 | with chunk 1, a full queue and a special byte in front the sink must take two bytes, otherwise what the first flush offers |
| EncoderLaws.RetryIsAmbiguous | src/Encoder.cpp:125-144 | two runs with the same status and count, one with the END queued and one without; SurplusIff tells them apart |
| EncoderLaws.OneSlotLaw | src/Encoder.cpp:67-98 | with capacity one an accepting sink gets a packet through iff it has no special byte |
| EncoderLaws.PushOkIff | src/Encoder.cpp:100-145 | against an accepting sink one call succeeds, consuming everything, iff the encoder has room as described, from any state and for any payload |
| EncoderChunks.PushChunksConserves | src/Encoder.cpp:206-217 | one complete frame per reported piece, plus the unreported part of the failing piece, if any |
| EncoderChunks.OneFrameIff | src/Encoder.cpp:206-217 | a successful pushPacket_chunk has sent the single frame of pushPacket iff 0 < size <= chunk_size |
| EncoderChunks.ChunksAnswered | src/Encoder.cpp:206-217 | a call meets at most one refusal and returns that very status; without one it fails only as RetryLater of an encoder with chunk 0 or capacity below 2 |
| EncoderChunks.ChunksStop | src/Encoder.cpp:206-217 | a failing call reports a whole number of pieces, which are committed, and returns status and state of pushPacket on the piece behind them |
| EncoderChunks.SucceedsIff | src/Encoder.cpp:206-217 | a piece goes through iff the sink takes everything up to its last flush and END has room, with the state then known |
| EncoderChunks.ReportedAllIff | src/Encoder.cpp:206-217 | a failing call has committed exactly what it reports iff some piece cannot even start, after the pieces before it have gone through |
| EncoderChunks.NeverRightFromEmpty | src/Encoder.cpp:206-217 | from an empty queue with capacity and chunk >= 2 every pushPacket_chunk that does not return Ok has committed more than it reports |
| EncoderChunks.ChunkUnderReports | src/Encoder.cpp:206-217 | a run in which both payload bytes are committed but none is reported; ReportedAllIff has the general condition |
| EncoderObject.WindowAppend | src/Encoder.cpp:9-15 | writing at the tail appends to the queue, across the wrap-around |
| EncoderObject.WindowDrop | src/Encoder.cpp:17-23 | advancing the head drops the oldest byte, across the wrap-around |
| EncoderObject.Encoder.constructor | src/Encoder.cpp:6-7 | a new encoder is empty, with the given sink, capacity and chunk |
| EncoderObject.Encoder.SetMaxSendChunk | include/SLIPStream/Encoder.hpp:86 | only the chunk changes |
| EncoderObject.Encoder.QueueByte | src/Encoder.cpp:9-15 | refines appending to a bounded sequence; false iff full |
| EncoderObject.Encoder.DequeueByte | src/Encoder.cpp:17-23 | refines taking the head of the sequence; false iff empty |
| EncoderObject.Encoder.Flush | src/Encoder.cpp:25-44 | refines the specified flush |
| EncoderObject.Encoder.FlushEx | src/Encoder.cpp:46-65 | the same, with the number of bytes sent as position of an error |
| EncoderObject.Encoder.EnsureFree | src/Encoder.cpp:67-73 | refines the specified operation |
| EncoderObject.Encoder.EncodeOne | src/Encoder.cpp:75-98 | refines the specified operation; the returns that would leave half an escape pair are dead |
| EncoderObject.Encoder.PushPacket | src/Encoder.cpp:100-145 | refines the specified operation |
| EncoderObject.Encoder.PushPacketEx | src/Encoder.cpp:147-204 | state, status and count of pushPacket; EncodeInternalError at the count for Error, no error code otherwise |
| EncoderObject.Encoder.PushPacketChunk | src/Encoder.cpp:206-217 | refines the specified operation |
| EncoderObject.Encoder.PushPacketChunkEx | src/Encoder.cpp:219-233 | state, status and count of pushPacket_chunk; EncodeInternalError at the count for Error, no error code otherwise |
| EndToEnd.RunKeepsInv | src/Encoder.cpp:100-145 | in every reachable state of every run the committed bytes are the finished packets, each closed by as many ENDs as calls reached its terminator, and the taken part of the current packet |
| EndToEnd.RunNeverPending | src/Encoder.cpp:108-138 | with capacity >= 1 and chunk kept >= 1 no reachable state has a pending END, whatever the sink does |
| EndToEnd.RunPace | include/SLIPStream/Encoder.hpp:86 | over any run the chunk is the one set last |
| EndToEnd.RunHonest | src/Encoder.cpp:25-44 | in every reachable state the accepted bytes are those the sink answered Ok to |
| EndToEnd.StreamDecode | src/Decoder.cpp:47-87 | packets closed by any positive number of ENDs are delivered in order, each followed by one empty message per surplus END |
| EndToEnd.DeliveredIsPrefix | src/Encoder.cpp:100-145 | at every moment of every run, for every sink including failing ones, the non-empty messages received are the first non-empty packets in order |
| EndToEnd.DeliveredAll | src/Encoder.cpp:100-145 | once the last packet is Ok and the queue drained, every packet has been delivered in order, and after dropping empty messages exactly the non-empty packets |
| Progress.PushesAccountedFor | src/Encoder.cpp:100-145 | while packets remain, every push has completed a packet or met a refusal |
| Progress.EnoughPushes | src/Encoder.cpp:100-145 | if the sink refuses at most R times, number of packets + R pushes send everything, however mixed with flushes and pacing changes |
| Progress.DrainLaw | src/Encoder.cpp:25-44 | k flushes into an accepting sink take exactly k chunks off the queue |
| Progress.RoundTrip | src/Encoder.cpp:100-145 | with an accepting sink, one push per packet and a drain make the decoder deliver exactly the packets, empty ones included |
| Progress.EndsExact | src/Encoder.cpp:100-145 | over any run a packet is closed once for being completed and once for every push of it that was bound to fail behind its terminator |
| Progress.OneEndIff | src/Encoder.cpp:100-145 | a finished packet is closed by exactly one END iff no push of it was bound to fail like that |
| Progress.ExactDeliveryIff | src/Encoder.cpp:100-145 | when all is sent and drained the receiver has exactly the packets, without added empty messages, iff no push of the run was bound to fail like that |
| Progress.DrainWithRefusals | src/Encoder.cpp:25-44 | every flush empties the queue further or meets a refusal |
| Progress.BoundedRefusalsDeliver | src/Encoder.cpp:100-145 | with at most R refusals, number of packets + R pushes and capacity + R flushes deliver exactly the non-empty packets |
| Progress.SurplusEnd | src/Encoder.cpp:139-144 | a run in which one packet is closed by two ENDs; OneEndIff has the general condition |
| CrcTable.EntryIsRemainder | src/CRC32.cpp:19-52 | every table entry i is i * x^32 modulo x^32 + 0x09823B6E |
| Crc32.CrcConcat | src/CRC32.cpp:58-67 | the CRC of a concatenation is that of the second part seeded with that of the first |
| Crc32.CalculateCrc32WithInitial | src/CRC32.cpp:58-67 | the loop computes the fold |
| Crc32.CalculateCrc32 | src/CRC32.cpp:54-56 | the fold from 0xFFFFFFFF, which InitialLaw says in terms of the message |
| Crc32.StoredIff | src/CRC32.cpp:76-94 | four stored bytes read back as a word iff they are its little-endian bytes |
| Crc32.LittleEndian | src/CRC32.cpp:76-80 | the stored bytes are the base-256 digits of the word as an integer, lowest first |
| Crc32.AppendCrc32 | src/CRC32.cpp:69-83 | the buffer then holds the payload and its CRC, and is unchanged beyond |
| Crc32.ExtractCrc32 | src/CRC32.cpp:85-97 | the extracted word is the one whose bytes end the data, if there are four bytes |
| Crc32.VerifyCrc32 | src/CRC32.cpp:99-114 | accepts exactly the non-empty payloads followed by their CRC |
| CrcLaws.StepIsTimesX8 | src/CRC32.cpp:61-64 | a table step adds the byte at the top and multiplies by x^8 modulo the generator polynomial |
| CrcLaws.CrcLinear | src/CRC32.cpp:58-67 | the CRC is XOR-linear in message and initial value together |
| CrcLaws.PowZero | src/CRC32.cpp:61-64 | multiplying by a positive power of x gives zero only for zero and 0x84C11DB7, since every later word is even |
| CrcLaws.CrcIsEven | src/CRC32.cpp:58-67 | the CRC of a non-empty message has its lowest bit clear |
| CrcLaws.BurstLaw | src/CRC32.cpp:58-67 | messages differing at most within four consecutive bytes have equal CRCs iff they are equal or differ by 84 C1 1D B7 |
| CrcLaws.ShortBurstDetected | src/CRC32.cpp:58-67 | any difference within at most three consecutive bytes changes the CRC |
| CrcLaws.CorruptionRejected | src/CRC32.cpp:99-114 | verification rejects a payload corrupted within three consecutive bytes, and within four accepts exactly the pattern above |
| CrcDivision.CrcIsFeed | src/CRC32.cpp:58-67 | the table-driven loop equals the bit-at-a-time register, most significant bit first |
| CrcDivision.DivisionLaw | src/CRC32.cpp:58-67 | for every message and initial value the CRC is the long-division remainder of message * x^32 plus initial * x^(8n) |
| CrcDivision.InitialLaw | src/CRC32.cpp:54-56 | calculate_crc32 of any message, short and empty ones included, is the remainder of the message and 32 zero bits with the first 32 bits inverted |
| CrcDivision.InvertedLaw | src/CRC32.cpp:54-56 | from four bytes on: the remainder of the message times x^32 with its first four bytes inverted |
| CrcDivision.KnownValues | src/CRC32.cpp:54-67 | the values for the empty message and for one zero byte |
| CrcDivision.SameCrcByDivision | src/CRC32.cpp:58-67 | for every error pattern: messages of equal length have the same CRC iff their difference leaves remainder 0 or 0x84C11DB7 |
| CrcDivision.BitBurstLaw | src/CRC32.cpp:58-67 | messages differing at most within 32 consecutive bits, at any bit position, have equal CRCs iff they are equal or differ there by 0x84C11DB7 |
| CrcDivision.ShortBitBurstDetected | src/CRC32.cpp:58-67 | a difference within a window of 32 bits whose first or last bit agrees changes the CRC |
| Pipeline.CrcFrameLaw | src/CRC32.cpp:69-114 | a payload with CRC, framed and decoded, arrives as one message, accepted iff the payload is not empty, with the payload as its prefix |
| Pipeline.CorruptFrameRejected | src/CRC32.cpp:99-114 | a frame with a payload corrupted within three consecutive bytes is delivered but not accepted |
| Pipeline.SendAndReceive | src/CRC32.cpp:69-114 | the operations chained together: append, encode, consume, verify, extract fail iff the wire buffer cannot hold the frame, and otherwise return the payload, accepted iff not empty |

## Left out

- DecoderObject.Decoder.Consume, ConsumeAll and ConsumeChunk: require a receive buffer of at least one byte; without one the source writes a data byte outside it. The reporting variants do not need it. The laws of runs ask for two bytes, and `DecoderSpec.PairKeptIff` shows why.
- DecoderObject.Decoder.ConsumeChunk, ConsumeChunkEx and the two chunked pushes: a chunk size of zero with data left loops forever in the source and is excluded.
- Buffer.EncodePacket and the other buffer operations: input and output are distinct; overlapping buffers are not modelled.
- Null pointers (for instance `append_crc32` on a null buffer) and `size_t` wrap-around.
- `encoded_length_ex`, which cannot fail and repeats `encoded_length`; the getters `queued`, `capacity` and `free`.
- Log callbacks, their positions and the message texts of src/Error.cpp: reporting only.
- Conformance with the Ethernet CRC-32 of IEEE 802.3: the table implements another polynomial.
- Benchmarks, examples, build files and the Python library.
