# Veil, verified in Dafny

A Dafny model of the self-contained core of the Veil reverse proxy, with proofs:
chunked transfer coding in both directions, the HTTP/3 backend task, load
balancing and rate limiting, and the HTTP/3 and QPACK wire integers.

Verify everything with `dafny verify dfyconfig.toml`.

## How the model reads

| module | models |
|---|---|
| `ChunkedDecoding`, `ChunkedLimits` | the incremental `ChunkedDecoder`, its fast path and its size limit |
| `ChunkedRecovery` | what it makes of malformed framing |
| `ChunkedEncoding` | the chunked encoder of the upload path, and the round trip |
| `OneShotDecoding`, `DecoderAgreement` | `decode_chunked_body`, and where the two decoders agree |
| `OneShotLeniency` | what `decode_chunked_body` makes of cut-off bodies and of blanks |
| `BackendUpload` | the request side of the backend task: what reaches the backend |
| `RequestSeen` | what a backend makes of the request, reading the wire on its own |
| `ResponseHead`, `ResponseFields` | the response head: draining interim heads, fields, framing |
| `HeadText`, `HeadMeaning` | heads as printed text: what the readers find in them, field by field |
| `ResponseBody`, `ResponseBuffering` | the response body: streamed, and buffered for compression |
| `BackendTask` | the whole backend task: what the main loop is told |
| `Interleaving` | the upload and the response side by side, in any order of steps |
| `ResponseTransparency` | streaming and compressing compared over whole runs |
| `HeaderLimit` | when the limit on response heads makes the answer depend on the reads |
| `WeightedRoundRobin`, `ConsistentHash` | server selection |
| `RateLimiting` | the sliding-window limiter and its cleanup |
| `QuicWire`, `QpackInteger` | variable-length integers, frame walking, prefix integers |
| `Cidr` | address ranges |
| `RequestFraming` | the request framing classifier |
| `Bytes`, `Text`, `HeaderNames`, `Arithmetic` | sequences, the text functions of the Rust standard library, powers of two |
| `TextMeaning` | those text functions in terms of Unicode |

State that the program changes in place is a class (`ChunkedDecoder`,
`Connection`, `BodyChannel`, `Incoming`, `Outgoing`, `Group`, `RateLimiter`) and
each loop of the program is a loop. Each method is tied to a specification
function or predicate, and the laws are proved about those.

Assumptions, all of them on what lies outside the modelled code:

- `usize` has 64 bits. Integer widths, wrap-around and saturation are written out.
- A socket is a fixed script of outcomes: short reads and writes, would-block, end
  of stream, errors, the deadline passing, a write dropped half-way. The objects
  only count how much of the script has happened, and what was received is a
  function of that. A script that runs out means that the backend task waits for
  ever. A contract over all scripts therefore speaks about every run, cut off
  anywhere.
- The upload and the response are two futures that share no memory and use
  opposite directions of the connection. Each is driven by its own script, and
  that the response ends first and drops the upload is a write script that ends in
  `Dropped`. `Interleaving` has the two futures step in any order and shows that
  a script covers each such run.
- A channel delivers messages in order.
- The hash functions are arbitrary, and `sort_by_key` is a stable sort
  (`StableSortUnique` shows that this determines its result).
- Which responses are compressed, and what the compressor does, is arbitrary.
- The rate estimate is rounded arbitrarily, as long as it is never below the
  current count (which 32-bit floats represent exactly up to 2^24).

## Where the code falls short of the plain law

Each of these is proved as an exact condition, and the failing side is shown at a
concrete input or run:

- The two chunked decoders agree on a well-formed body if and only if the
  extensions of all its data chunks are valid UTF-8 (`DecodersAgreeExactly`;
  `DecodersDiffer`).
- Buffering a response body gives what streaming it gives, unless the response
  is chunked and also says `Content-Length: 0` (`BufferedExactly`;
  `StopEarlyRun`). The compression policy lets such a response through only with
  a minimum size of zero (src/config.rs:942-950); the default is 1024.
- Where the reads end decides whether a response with a long head is answered,
  unless every head ends within the limit (`NeverTooLongExactly`; `SplitMatters`).
- The one-shot decoder panics if and only if it gets to a chunk size that
  overflows its position (`PanicsExactly`; `LargestSizePanics`).
- The size accounting of the decoder is exact for every limit below 2^64 - 1,
  and not for that one (`ConservationExactly`; `SaturationBreaksConservation`).
- Weighted round robin is exactly fair in every window if and only if the weights
  fit 32 bits and their total divides 2^32, or there is at most one candidate
  (`FairExactly`); otherwise a window across a wrap of the 32-bit position
  (`UnfairAcrossWrap`) or the first one (`UnfairWhenSaturated`) is unfair.
- A weight is recovered from the cumulative offsets unless the sum saturated
  and the weight is more than one (`WeightRecoveredExactly`;
  `SecondWeightSaturates`).
- The per-minute limit holds if and only if the client makes fewer than 2^32
  requests in the minute (`LimitExactly`; `WrapLetsMoreThrough`); the counter then
  wraps, as it does in a build without overflow checks.
- Canonical prefix integers round-trip if and only if they are below
  2^prefix - 1 + 2^63 (`RoundTripExactly`).
- The two range checks differ only for a written prefix of 255, which the range
  parser takes for a missing prefix (`MembershipDiffersExactly`).

The documentation of `decode_chunked_body` speaks of conformance to section 4.1
of RFC 7230; the model follows the code, which gives up on a chunk extension
that is not UTF-8.

## Model

| member | source | states |
|---|---|---|
| `ChunkedDecoding.ChunkedDecoder.constructor` | src/http_utils.rs:1061-1071 | a new decoder is at the start of a size line, with nothing counted |
| `ChunkedDecoding.ChunkedDecoder.FeedByte` | src/http_utils.rs:1099-1243 | the fields change as the state machine says, for each of the ten states and every byte; the report tells the terminal states apart |
| `ChunkedDecoding.SizeLineStep` | src/http_utils.rs:1101-1138 | for every byte of a size line: a digit has been seen if and only if one of 0-9, a-f, A-F has; each counts its value after sixteen times what came before, saturating; semicolon and CR end the numeral, any other byte is skipped |
| `ChunkedDecoding.ChunkedDecoder.Feed` | src/http_utils.rs:1086-1094 | feeding a buffer is running the machine over all of it, although the loop stops at the first terminal byte |
| `ChunkedDecoding.ChunkedDecoder.NextDataSpan` | src/http_utils.rs:1258-1335 | the fast path leaves the state of the byte-at-a-time machine after the bytes it consumed, its span is exactly the body data among them, and it consumes at least one byte of a non-empty buffer until the decoder is terminal |
| `ChunkedDecoding.ChunkedDecoder.TakeData` | src/http_utils.rs:1284-1302 | a run of data taken in one step equals feeding it byte by byte |
| `ChunkedDecoding.ChunkedDecoder.Drain` | src/http3_stream.rs:968-980 | the caller's span loop over a buffer, for any decoder and limit: the state of feeding every byte, and exactly the body data |
| `ChunkedDecoding.ChunkedDecoder.DrainAll` | src/http_utils.rs:1254-1335 | driving `next_data_span` over any partition of a stream into buffers gives the state and the data of the whole stream, for any decoder and limit |
| `ChunkedDecoding.RunConcat` | src/http_utils.rs:1258-1335 | a stream may be cut anywhere: state and data of the whole come from the parts |
| `ChunkedDecoding.PartitionInvariance` | src/http_utils.rs:1086-1094 | feeding any buffers one after the other gives the state and the data of the whole stream |
| `ChunkedDecoding.TerminalAbsorbs` | src/http_utils.rs:1232-1243 | after completion or refusal no byte changes the decoder or yields data |
| `ChunkedDecoding.NoEarlyTermination` | src/http_utils.rs:1232-1243 | a stream that has not ended has no prefix that has |
| `ChunkedDecoding.EmittedPrefix` | src/http_utils.rs:1258-1335 | the body of a prefix is a prefix of the body |
| `ChunkedDecoding.RunWellFormed` | src/http_utils.rs:1144-1196 | in every reachable state data is due exactly in the data state, and the limit never changes |
| `ChunkedLimits.RunConserves` | src/http_utils.rs:1144-1184 | bytes emitted plus bytes due equal the running total, which stays within the limit, over every stream |
| `ChunkedLimits.SaturationBreaksConservation` | src/http_utils.rs:1144-1184 | with the limit 2^64 - 1 there is a stream that is let in for more than the limit |
| `ChunkedLimits.ConservationExactly` | src/http_utils.rs:1144-1184 | for a non-zero limit the accounting is exact on all streams if and only if the limit is below 2^64 - 1 |
| `ChunkedLimits.RefusedBeforeData` | src/http_utils.rs:1144-1184 | the limit state is entered only at the line feed of an oversize size line, and no byte of that chunk comes out |
| `ChunkedLimits.UnlimitedNeverRefuses` | src/http_utils.rs:1144-1184 | without a limit no stream is ever refused |
| `ChunkedRecovery.BrokenLineForgotten` | src/http_utils.rs:1144-1178 | a size line that ends in CR and anything but LF leaves no trace, whatever it says |
| `ChunkedRecovery.EmptyLineSkipped` | src/http_utils.rs:1144-1178 | neither does a line without a digit in front of its extension |
| `ChunkedRecovery.BehindData` | src/http_utils.rs:1186-1203 | behind the data of a chunk one byte is skipped, and the next too if the first is CR |
| `ChunkedRecovery.BrokenTrailer` | src/http_utils.rs:1204-1233 | in the trailers CR and anything but LF belongs to a line that is not empty |
| `ChunkedRecovery.TrailerLineEnds` | src/http_utils.rs:1204-1233 | a trailer line is skipped, and the first empty one completes the body |
| `ChunkedEncoding.PushChunkSizeLine` | src/http3_stream.rs:1090-1105 | the digits filled in from the end of the 16-byte array are the shortest lower-case hexadecimal numeral, for all 64-bit sizes |
| `ChunkedEncoding.NumeralRun` | src/http_utils.rs:1101-1124 | the decoder reads every 64-bit numeral back exactly: its accumulator never saturates on encoder output |
| `ChunkedEncoding.FrameRun` | src/http3_stream.rs:1077-1087 | one encoded frame is decoded to its data, or refused whole when over the limit; an empty frame leaves no trace |
| `ChunkedEncoding.FramesRun` | src/http3_stream.rs:571-581 | any frames of an admitted body, empty ones included, are decoded to their concatenation whatever the payload holds |
| `ChunkedEncoding.FramesRefused` | src/http_utils.rs:1144-1184 | the frames of a body over the limit are refused at a frame boundary |
| `ChunkedEncoding.TerminatorRun` | src/http3_stream.rs:579 | the terminator completes the body with its last byte and not before |
| `ChunkedEncoding.RoundTrip` | src/http3_stream.rs:1077-1105 | decoding the encoding of any frames returns their concatenation and completes on exactly the last byte, if and only if the limit admits the body |
| `ChunkedEncoding.CompleteOnlyAtEnd` | src/http3_stream.rs:571-581 | no proper prefix of an encoded body is terminal |
| `ChunkedEncoding.TruncatedUpload` | src/http3_stream.rs:571-581 | a truncated upload decodes to a prefix of the body, and to a complete one only if nothing was cut off |
| `OneShotDecoding.ScanToCr` | src/http_utils.rs:621-625 | the scan stops at the first carriage return |
| `OneShotDecoding.DecodeWith` | src/http_utils.rs:616-668 | the loop computes its specification for any way of reading a size line, with every early exit and the overflow of position plus size |
| `OneShotDecoding.DecodeChunkedBody` | src/http_utils.rs:616-668 | the same with UTF-8 check, trimming, extension removal and `from_str_radix` |
| `OneShotDecoding.PanicsExactly` | src/http_utils.rs:656-658 | the decoder panics if and only if it gets to a chunk whose end passes 2^64 - 1 |
| `OneShotDecoding.NeverPanics` | src/http_utils.rs:616-668 | data in which no text reads as such a size never makes it panic, however malformed |
| `OneShotLeniency.CutBodyDecodes` | src/http_utils.rs:645-665 | a body cut off at any byte of any chunk decodes to the chunks before it and as much of its data as is there |
| `OneShotLeniency.BlanksAroundSize` | src/http_utils.rs:631-643 | blanks around a chunk size do not matter, except between the size and a semicolon, where they make it unreadable |
| `DecoderAgreement.IncrementalDecodes` | src/http_utils.rs:1099-1243 | the incremental decoder completes on every well-formed body and returns its payload: sizes in digits 0-9, a-f, A-F by their positional value, leading zeros, extensions, trailers |
| `DecoderAgreement.HexNumberValue` | src/http_utils.rs:640-643 | `from_str_radix` reads digits of either case as their positional value, or not at all past the largest number |
| `DecoderAgreement.SizeLineParses` | src/http_utils.rs:631-643 | a size line is read with its value if its extension is UTF-8, and not at all otherwise |
| `TextMeaning.EncodedIsUtf8` | src/http_utils.rs:632 | `from_utf8` accepts the encoding of every Unicode text |
| `TextMeaning.Utf8IsEncoded` | src/http_utils.rs:632 | and nothing else |
| `TextMeaning.Trimmed` | src/http_utils.rs:633 | `trim` takes the White_Space characters off both ends of a text, and nothing else |
| `TextMeaning.PlusSign` | src/http_utils.rs:640 | a number may have one plus sign in front |
| `TextMeaning.NotANumber` | src/http_utils.rs:640 | any other byte that is not a digit makes it none |
| `DecoderAgreement.OneShotDecodes` | src/http_utils.rs:616-668 | the one-shot decoder returns the payload of the chunks up to the first unreadable size line |
| `DecoderAgreement.DecodersAgreeExactly` | src/http_utils.rs:616-668 | on every well-formed body the two decoders return the same bytes if and only if all data-chunk extensions are UTF-8 |
| `DecoderAgreement.DecodersDiffer` | src/http_utils.rs:632-635 | a one-byte body with the extension byte 0xFF, which the incremental decoder returns and the one-shot decoder loses |
| `DecoderAgreement.LargestSizePanics` | src/http_utils.rs:656-658 | a size line of sixteen F digits and one more byte does |
| `BackendUpload.Connection.WriteAll` | src/http3_stream.rs:1045-1071 | result, outcomes used and bytes on the wire are exactly those of writing the buffer outcome by outcome, each taking as much as it says |
| `BackendUpload.WritePrefix` | src/http3_stream.rs:1045-1071 | under any outcomes a prefix of the buffer reaches the wire, all of it on success and not all of it on failure |
| `BackendUpload.BuffersPrefix` | src/http3_stream.rs:1077-1087 | the same over buffers written one after the other, for their concatenation |
| `BackendUpload.BuffersBecause` | src/http3_stream.rs:1045-1071 | every outcome before the last made progress; failure is the latest outcome, and what is cancelled was dropped with it or waits at the end of the script |
| `BackendUpload.RoomForAll` | src/http3_stream.rs:1045-1087 | writes that each take something, as many as there are bytes, bring all buffers to the wire |
| `BackendUpload.SendBackendChunk` | src/http3_stream.rs:1077-1087 | size line, data and CRLF are written in this order, each once the one before is out, and nothing for an empty frame; the state reached is exactly the one the outcomes lead to |
| `BackendUpload.Upload` | src/http3_stream.rs:571-581 | the upload goes exactly as far as the outcomes allow: all frames, and the terminator if the body ended, or up to the write that ends it |
| `BackendUpload.RunChunkedRequest` | src/http3_stream.rs:551-611 | the stage reached and the bytes on the wire are exactly those the outcomes lead to: head, first frame, then the upload next to the response |
| `BackendUpload.RunRequest` | src/http3_stream.rs:532-632 | the same for every request; the framing follows from whether a first frame arrives, and only a write failure before the response is awaited rejects, with 502; `RequestUnderstood` says what a backend makes of it |
| `BackendUpload.RequestOnWire` | src/http3_stream.rs:532-632 | what those outcomes bring to the wire: a prefix of the request, all of it when every buffer got out and not all of it when a write failed, the start of it when the response is awaited, and the cause of anything less |
| `BackendUpload.AbortedUploadNeverCompletes` | src/http3_stream.rs:544-611 | whatever part of the request arrived, the backend decodes a prefix of the body, and a complete one exactly when the body ended and every byte was written |
| `RequestSeen.RequestUnderstood` | src/http3_stream.rs:532-632 | for every head of lines without framing headers, every body and every run that comes to await the response: a reader of the wire finds the blank line, the fields of the head, and by the request classifier a chunked body if and only if a first frame came; what follows decodes to a prefix of the frames, complete exactly when the body ended and all of it arrived, and is empty without a body |
| `RequestSeen.ForwardRequest` | src/http3_stream.rs:532-632 | a run of the request side over a new connection, with the same result, and 502 for a rejection |
| `Interleaving.PushAgrees` | src/http3_stream.rs:589-611 | one outcome at a time is the same as all at once |
| `Interleaving.EveryRunStandsFor` | src/http3_stream.rs:544-611 | every interleaving of the two futures stands for one script of writes; the upload is cut off only by its own write or by the end of the response |
| `Interleaving.EveryRunIsSafe` | src/http3_stream.rs:544-611 | in every state of every interleaving the wire holds a prefix of the request, and the backend decodes a prefix of the body, complete exactly when the body ended and all was written |
| `Interleaving.EveryScriptIsARun` | src/http3_stream.rs:544-611 | conversely, any outcomes of writes followed by a drop are a run, as soon as the start of the request is out and the response ends |
| `Interleaving.Replay` | src/http3_stream.rs:532-611 | the request side alone, run on that script, brings the same bytes to the wire |
| `ResponseHead.FindHeaderEnd` | src/http3_stream.rs:1216-1229 | the least position of a blank line, found by skipping between carriage returns, or none |
| `ResponseHead.HeaderEndStable` | src/http3_stream.rs:1216-1229 | more bytes do not move an end of the head that was found |
| `ResponseHead.DrainInterimAndFindHeaderEnd` | src/http3_stream.rs:1203-1213 | the draining loop computes its specification and terminates |
| `ResponseHead.SettleIsSuffix` | src/http3_stream.rs:1203-1213 | what is left is a suffix of the input whose first head, if complete, is not interim (1xx other than 101) |
| `ResponseHead.SettleConfluent` | src/http3_stream.rs:650-679 | draining, appending a read and draining again equals draining the concatenation; a final head found stays found |
| `ResponseHead.SettleAnySplit` | src/http3_stream.rs:650-679 | for every series of reads, draining after each leaves the buffer and finds the head that draining once over all of them does |
| `HeadMeaning.StatusExactly` | src/http3_stream.rs:1232-1239 | the status of "version ddd reason" is ddd, whatever follows the line |
| `HeadMeaning.StatusDecimal` | src/http3_stream.rs:1232-1239 | any decimal number is read as the status, and one past 65535 gives 502 |
| `HeadMeaning.DrainedExactly` | src/http3_stream.rs:1203-1213 | a head with any fields is dropped, and what follows it looked at instead, exactly for the statuses 100 and 102 to 199 |
| `HeadText.LinesEndHead` | src/http3_stream.rs:1216-1229 | the end of a head printed as lines is found in front of its blank line, whatever follows |
| `HeadText.HeadRoundTrip` | src/http3_stream.rs:1129-1229 | any start line, fields, blank line and rest: exactly these fields and this rest are found |
| `HeadText.ParserRoundTrip` | src/http3_stream.rs:1129-1197 | parsing "start CRLF name: value CRLF ..." returns exactly those fields, for names without colon and names and values without line breaks |
| `ResponseFields.Absorb` | src/http3_stream.rs:1155-1178 | one more field, with the early `continue`s of the loop: a hop-by-hop field is dropped, any other is forwarded; Transfer-Encoding decides about chunked, Content-Length about the length, and type and encoding are recorded |
| `ResponseFields.ParseResponseHeaders` | src/http3_stream.rs:1129-1197 | the loop summarises all fields: hop-by-hop fields dropped, chunked if any Transfer-Encoding ends in chunked, the last Content-Length that is UTF-8 (no length if that is not a number), the last Content-Type and Content-Encoding; `PrintedHeadMeaning` says what that is for a head as text |
| `HeadMeaning.PrintedHeadMeaning` | src/http3_stream.rs:1129-1197 | of a printed head: the fields that are not named transfer-encoding, connection or keep-alive, by position and in order; chunked if and only if some transfer-encoding value ends in the letters of "chunked"; the decimal number in the last content-length, if it fits 64 bits |
| `HeadMeaning.ForwardedExactly` | src/http3_stream.rs:1155-1180 | the fields forwarded are those at the positions that are not hop-by-hop, all of them, in order |
| `HeadMeaning.ChunkedExactly` | src/http3_stream.rs:1155-1162 | chunked if and only if some field spelled transfer-encoding has a value whose last seven bytes spell chunked |
| `HeadMeaning.LengthExactly` | src/http3_stream.rs:1166-1170 | the length is that of the last Content-Length that is UTF-8 |
| `HeadMeaning.LengthAbsent` | src/http3_stream.rs:1166-1170 | without one there is none |
| `HeadMeaning.DecimalLength` | src/http3_stream.rs:1166-1170 | a decimal number there is the length, unless it does not fit 64 bits |
| `HeadMeaning.LastValueExactly` | src/http3_stream.rs:1171-1178 | the type and the encoding kept are those of the last field of the name |
| `HeadMeaning.FramingExactly` | src/http3_stream.rs:1181-1188 | chunked beats a length, and a length beats the end of the connection |
| `ResponseBody.SendBody` | src/http3_stream.rs:1013-1021 | one more body message, after the head |
| `ResponseBody.ReadTurn` | src/http3_stream.rs:761-783 | one turn of a read loop: what was read is appended to what was received, and reading ends exactly for the deadline, an error, the end of the stream, or silence |
| `ResponseBody.StreamBodyLength` | src/http3_stream.rs:744-785 | for every script of reads the bodies make up the first Content-Length bytes of what was received, all of them unless the client stopped; the transfer is finished exactly when the body is whole, and otherwise the turn that ended the reading is the cause |
| `ResponseBody.StreamBodyEof` | src/http3_stream.rs:860-890 | the same for a body that ends with the connection: nothing but a turn of the script or the client ends it |
| `ResponseBody.DrainChunked` | src/http3_stream.rs:831-857 | a buffer decoded span by span: the bodies sent are the decoded stream, and the result tells whether it is complete |
| `ResponseBody.StreamBodyChunked` | src/http3_stream.rs:788-827 | for every script of reads the bodies make up the decoding of what was received, and the transfer is finished exactly when the decoder is complete |
| `ResponseBody.StreamBody` | src/http3_stream.rs:727-740 | the three together |
| `ResponseBody.FramedExtends` | src/http3_stream.rs:727-740 | more bytes only extend a body, and not once it is whole |
| `ResponseBody.LengthWhole` | src/http3_stream.rs:744-785 | a body of known length is whole exactly when no further bytes can extend it |
| `ResponseBuffering.AccumulateBody` | src/http3_stream.rs:962-988 | one buffer more of the body, under each framing |
| `ResponseBuffering.BufferBody` | src/http3_stream.rs:905-936 | for every script of reads the buffer is the body of what was received, and reading is finished exactly when the body is whole; a chunked response with Content-Length 0 is finished at once |
| `ResponseBuffering.BodyDetermined` | src/http3_stream.rs:743-890 | a stream that holds the whole body, or everything, has the body of everything |
| `ResponseBuffering.ReadToTheEnd` | src/http3_stream.rs:743-890 | wherever reading ended on a script that ends in a close, the body is that of all the bytes of the script |
| `ResponseBuffering.StreamToTheEnd` | src/http3_stream.rs:727-740 | a run of the streaming path until the peer closes delivers the body of all the bytes, however they are split into reads |
| `ResponseBuffering.BufferToTheEnd` | src/http3_stream.rs:905-936 | a run of the buffering path returns the body of all the bytes, or, chunked with Content-Length 0, of those that came with the head |
| `ResponseBuffering.StreamAndBuffer` | src/http3_stream.rs:743-936 | a run of each path over the same bytes, split in any two ways between the head and the reads: the bodies are equal for all three framings, unless chunked with Content-Length 0 |
| `ResponseBuffering.StopEarlyRun` | src/http3_stream.rs:911-916 | a run of both paths on a one-byte chunked body with Content-Length 0: streaming delivers the byte, buffering nothing |
| `ResponseBuffering.BufferedExactly` | src/http3_stream.rs:914-936 | what the buffering run returns is the streamed body, for all bytes and all splits, if and only if the response is not chunked with Content-Length 0 |
| `BackendTask.ReadHead` | src/http3_stream.rs:648-679 | the head found is that of everything received, interim heads dropped, no read before having exceeded the limit; a refusal means that no final head had come, with 504 exactly for the deadline, or that this read is the first to exceed the limit; waiting means that the whole script was read and holds no final head |
| `BackendTask.AbsorbRead` | src/http3_stream.rs:669-678 | the bytes of one read lead to a final head, a refusal for the limit, or more reading, as those of all reads together do |
| `BackendTask.SettledGrows` | src/http3_stream.rs:681-684 | bytes read after the head leave it alone and extend the body |
| `BackendTask.StreamResponseCompressed` | src/http3_stream.rs:894-959 | one head and then the compression of the whole body received, or nothing while the body is not whole and the backend says no more |
| `BackendTask.AnswerStreaming` | src/http3_stream.rs:708-740 | one head, without Content-Length if chunked, and then the body received, ended for cause |
| `HeadMeaning.StreamedHeadersExactly` | src/http3_stream.rs:711-716 | the head of a streamed answer has every forwarded field, in order, but in a chunked answer none named content-length |
| `HeadMeaning.CompressedHeadersExactly` | src/http3_stream.rs:940-948 | the head of a compressed answer has every forwarded field not named content-length or content-encoding, in order, and then one content-encoding |
| `BackendTask.Answer` | src/http3_stream.rs:686-740 | the one or the other, as the compression policy says |
| `BackendTask.StreamResponse` | src/http3_stream.rs:635-741 | for every script of reads: an error before any message, for cause; silence, if the whole script was read and no answer can be given yet; or, the limit never having been exceeded, the messages that the bytes received determine, ended for cause |
| `BackendTask.AnsweredIsProtocol` | src/http3_stream.rs:446-470 | those messages are one head followed only by bodies |
| `BackendTask.ProtocolMeaning` | src/http3_stream.rs:446-470 | the messages keep to the protocol if and only if an error stands alone, a head stands first, and every body has a head in front |
| `BackendTask.RunBackendTask` | src/http3_stream.rs:440-632 | in every run the wire holds exactly what the outcomes of the writes bring; the main loop is offered nothing, a single error, or one head and then bodies, so that an error never follows a head; each has its cause in the scripts, and after a head the request was started and the messages are what the bytes received say |
| `ResponseTransparency.RespondToTheEnd` | src/http3_stream.rs:635-741 | a run of the response side until the peer closes gives the one full answer to all the bytes, however they are split into reads, and an error if and only if they hold no head or some read exceeds the limit |
| `ResponseTransparency.StreamedAndCompressed` | src/http3_stream.rs:635-959 | two runs over the same bytes in any two splits, one streaming and one compressing: same status, and the compressed body is the compression of the streamed body |
| `HeaderLimit.FitEveryPrefix` | src/http3_stream.rs:676-679 | if every head fits the limit no prefix of the bytes exceeds it |
| `HeaderLimit.NeverTooLongExactly` | src/http3_stream.rs:650-679 | no split into reads exceeds the limit if and only if every head, interim or final, ends within it |
| `HeaderLimit.SplitMatters` | src/http3_stream.rs:676-679 | the same bytes in two runs, answered in one read and refused in two |
| `WeightedRoundRobin.BuildOffsets` | src/config.rs:4443-4450 | the offsets are the saturating partial sums of the weights, zero counting as one |
| `WeightedRoundRobin.WeightRecoveredExactly` | src/config.rs:4701-4716 | the weight recovered is the configured one if and only if the sum up to it fits 32 bits or the weight is one |
| `WeightedRoundRobin.WeightOutOfRange` | src/config.rs:4701-4716 | a server beyond the offsets counts as one |
| `WeightedRoundRobin.SecondWeightSaturates` | src/config.rs:4443-4450 | two servers of weight 2^31, of which the second is recovered one short |
| `WeightedRoundRobin.BinarySearch` | src/config.rs:4686-4695 | a search whose comparison never answers equal returns the partition point |
| `WeightedRoundRobin.BucketFound` | src/config.rs:4684-4697 | the partition point is the bucket that contains the position, so the fallbacks behind it are not used |
| `WeightedRoundRobin.BucketUnique` | src/config.rs:4684-4697 | there is only one such bucket |
| `WeightedRoundRobin.Group.constructor` | src/config.rs:4443-4468 | a new group has its offsets and counts from zero |
| `WeightedRoundRobin.Group.Cumulate` | src/config.rs:4673-4680 | the saturating partial sums of the candidates' weights |
| `WeightedRoundRobin.Group.SelectWeighted` | src/config.rs:4668-4698 | the candidate picked is the one whose bucket contains the counter, truncated to 32 bits, modulo the total; the counter advances by one |
| `WeightedRoundRobin.Group.SelectRepeatedly` | src/config.rs:4668-4698 | among n selections in a row each candidate stands exactly as often as its bucket is met, across wraps of the counter |
| `WeightedRoundRobin.Group.SelectFullCircle` | src/config.rs:4668-4698 | a run of `total` selections that does not cross a wrap picks each candidate exactly weight times |
| `WeightedRoundRobin.ResiduesFullCircle` | src/config.rs:4684 | any t consecutive numbers meet each residue of t once |
| `WeightedRoundRobin.FairWithoutWrap` | src/config.rs:4668-4698 | any `total` consecutive selections that do not cross a wrap pick each candidate exactly weight times |
| `WeightedRoundRobin.FairToConfiguration` | src/config.rs:4668-4716 | and that is the configured weight, or one for a weight of zero |
| `WeightedRoundRobin.UnfairAcrossWrap` | src/config.rs:4684 | otherwise there is a window across a wrap that shortchanges the last candidate |
| `WeightedRoundRobin.UnfairWhenSaturated` | src/config.rs:4673-4684 | when the candidates' weights sum past 32 bits the last candidate is shortchanged |
| `WeightedRoundRobin.FairExactly` | src/config.rs:4668-4698 | for any candidates, all windows are fair if and only if the weights fit 32 bits and their total divides 2^32, or there is at most one candidate |
| `ConsistentHash.StableSortSorted` | src/config.rs:4483 | the ring is sorted by hash |
| `ConsistentHash.StableSortStable` | src/config.rs:4483 | vnodes of equal hash keep their order |
| `ConsistentHash.StableSortUnique` | src/config.rs:4483 | only one ring is sorted and keeps that order, so any stable sort builds it |
| `ConsistentHash.BuildRing` | src/config.rs:4471-4485 | the loops build the stably sorted ring of 150 vnodes for each server |
| `ConsistentHash.PartitionPoint` | src/config.rs:4733 | bisection finds the first vnode at or after the hash |
| `ConsistentHash.WalkRing` | src/config.rs:4736-4741 | one turn around the ring finds the first candidate met |
| `ConsistentHash.SelectConsistent` | src/config.rs:4719-4743 | the choice is the first candidate clockwise, the first candidate if none is met, and a residue of the hash without a ring |
| `ConsistentHash.FirstOfIsLeast` | src/config.rs:4736-4741 | the choice is at the least position of the walk that holds a candidate |
| `ConsistentHash.ClockwiseOrder` | src/config.rs:4731-4741 | the walk meets hashes from the key's upward and then those below it |
| `ConsistentHash.SomeCandidateIsMet` | src/config.rs:4742 | on a ring of the configuration a candidate is always met: the last fallback is unreachable |
| `ConsistentHash.DrainMovesOnlyItsKeys` | src/config.rs:4719-4743 | taking a candidate out moves only the keys that were on it, on any walk |
| `ConsistentHash.DrainMovesOnlyItsKeysOnRing` | src/config.rs:4719-4743 | the same for every ring and key |
| `ConsistentHash.OldRingWithinNew` | src/config.rs:4471-4485 | the ring of a configuration with one more server, without that server's vnodes, is the old ring, ties included |
| `ConsistentHash.ClockwiseFilter` | src/config.rs:4731-4741 | walking a ring and leaving vnodes out is walking the ring without them |
| `ConsistentHash.GrowthMovesOnlyToNew` | src/config.rs:4471-4485 | adding a server sends each key to its old server or to the new one, for any hash function and any candidates |
| `ConsistentHash.Select` | src/config.rs:4719-4743 | a selection on a built ring is the first candidate clockwise, never the fallback |
| `ConsistentHash.SelectAroundDrain` | src/config.rs:4719-4743 | two selections for one key, before and after a candidate goes: it moves only if it was on that candidate |
| `ConsistentHash.SelectAroundGrowth` | src/config.rs:4471-4485 | two selections for one key, before and after a server is added: it stays or moves to the new server |
| `RateLimiting.RateLimiter.Cleanup` | src/config.rs:2088-2097 | exactly the entries less than two minutes old stay |
| `RateLimiting.RateLimiter.CheckAndRecord` | src/config.rs:2061-2085 | the entry after cleanup and one more request, the rate estimated from it, and the comparison with the limit; `DecisionsByCounts` says what that is over a run |
| `RateLimiting.ExactEstimateSound` | src/config.rs:2029-2034 | exact arithmetic rounded up is among the estimators covered |
| `RateLimiting.ExactEstimateIsCeiling` | src/config.rs:2029-2034 | that estimator is the ceiling of previous count times (60 - second) / 60 plus current count |
| `RateLimiting.RequestSeesTheSame` | src/config.rs:2014-2035 | an entry that cleanup would remove decides like a missing one |
| `RateLimiting.CleanupUnobserved` | src/config.rs:2061-2097 | over every run with a clock that does not go back, cleaning up at any moments changes no decision |
| `RateLimiting.EventByCounts` | src/config.rs:2014-2035 | while the clock does not go back every entry holds the requests of its minute and of the minute before, and a client without an entry made none in this minute and the last, through requests and cleanups alike |
| `RateLimiting.DecisionsByCounts` | src/config.rs:2014-2097 | over every run with a clock that does not go back, cleanups anywhere, each decision is made on the number of earlier requests of that client in the minute before, and one more than those in its own minute (in 32 bits), counted over the run |
| `RateLimiting.LimitHoldsEachMinute` | src/config.rs:2014-2085 | no client gets more than a fixed limit below 2^24 in one clock minute, with fewer than 2^32 requests, whatever the rounding |
| `RateLimiting.WrapLetsMoreThrough` | src/config.rs:2026-2027 | a client with 2^32 or more requests does |
| `RateLimiting.LimitExactly` | src/config.rs:2014-2085 | the limit holds over all runs and estimators if and only if the requests in the minute are fewer than 2^32 |
| `RateLimiting.Serve` | src/config.rs:2044-2097 | a limiter over any sequence of calls decides as the run says: with a clock that does not go back each decision is made on the counts of the calls before it, cleanups change nothing, and within a minute no client is granted more than a fixed limit |
| `QuicWire.DecodeQuicVarint` | src/http3_wire.rs:28-49 | the shifting loop computes the big-endian value without losing a bit, or reports a short buffer |
| `QuicWire.VarintRoundTrip` | src/http3_wire.rs:28-49 | every value in every width that holds it is read back, whatever follows |
| `QuicWire.VarintExact` | src/http3_wire.rs:28-49 | whatever is read is the encoding of that value in the width announced |
| `QuicWire.VarintByFirstByte` | src/http3_wire.rs:28-49 | length and value written out for the four ranges of the first byte |
| `QuicWire.DecodeHttp3FrameHeader` | src/http3_wire.rs:55-61 | two integers in a row |
| `QuicWire.HeaderFound` | src/http3_wire.rs:55-61 | the header of a serialized frame has its type, its payload length and the offset of its payload |
| `QuicWire.NextFrame` | src/http3_wire.rs:70-82 | the length of a complete frame, or none |
| `QuicWire.LengthBound` | src/http3_wire.rs:72-75 | the checked addition never overflows |
| `QuicWire.WalkHttp3Frames` | src/http3_wire.rs:67-86 | the loop computes the walk |
| `QuicWire.FrameFound` | src/http3_wire.rs:67-86 | a serialized frame in any legal widths is found with its exact length |
| `QuicWire.FrameRead` | src/http3_wire.rs:67-86 | a frame that is found is the serialization of a legal frame |
| `QuicWire.WalkSerialized` | src/http3_wire.rs:67-86 | on n serialized frames and a tail that is not a complete frame the count is min(n, max_frames) |
| `QuicWire.WalkExact` | src/http3_wire.rs:67-86 | on arbitrary input a count of k means that exactly k complete frames stand in front, and why the walk stopped |
| `QpackInteger.DecodeQpackInteger` | src/http3_wire.rs:91-127 | the result is the unbounded value of section 5.1 of RFC 7541 and its length, or the error that applies |
| `QpackInteger.DecodeContinuation` | src/http3_wire.rs:104-126 | the loop over the continuation octets, with its checked shift and addition |
| `QpackInteger.NoBitLost` | src/http3_wire.rs:112-122 | in the first nine octets the shift loses no bit and the addition does not overflow |
| `QpackInteger.OutcomeAt` | src/http3_wire.rs:106-126 | a tenth continuation octet is always rejected, and a missing one reported |
| `QpackInteger.EncodedLength` | src/http3_wire.rs:106-126 | k octets hold exactly the numbers of 7 k bits |
| `QpackInteger.RoundTripExactly` | src/http3_wire.rs:91-127 | canonical encodings are read back with their exact length, whatever follows, if and only if the value is below 2^prefix - 1 + 2^63, and are rejected as too large otherwise |
| `Cidr.AndShifted` | src/config.rs:303-310 | masking with ones shifted up clears exactly the low bits |
| `Cidr.MaskV4Value` | src/config.rs:250-259 | the range mask of each v4 prefix is its high bits |
| `Cidr.MaskV6Value` | src/config.rs:262-271 | the same for v6 |
| `Cidr.ShiftedOnesValue` | src/config.rs:1832-1851 | the other formula, all ones shifted within the word, is the same mask |
| `Cidr.RangeIsShared` | src/config.rs:133-172 | parsing a range and looking an address up compares blocks |
| `Cidr.CidrIsShared` | src/config.rs:1826-1856 | `ip_in_cidr` compares blocks |
| `Cidr.MembershipAgrees` | src/config.rs:295-313 | both equal "lies in the aligned block of 2^(width - prefix) addresses", for every address and every prefix of the family |
| `Cidr.MembershipDiffersExactly` | src/config.rs:139-144 | over all 8-bit prefixes the two differ only for the network address itself under a written prefix of 255 |
| `Cidr.NestedOrDisjoint` | src/config.rs:295-313 | any two ranges of one family are nested or disjoint |
| `RequestFraming.TrimIsMiddle` | src/http_utils.rs:738-750 | blanks, and only blanks, are taken off at either end |
| `RequestFraming.ScanValue` | src/http_utils.rs:791-796 | the flag is decided by the last non-empty token of the value, and kept if there is none |
| `RequestFraming.PartsOfJoined` | src/http_utils.rs:782-797 | the tokens of all values in order are the tokens of the values joined by commas |
| `RequestFraming.ValueDecides` | src/http_utils.rs:791-796 | the flag after a value is whether the last token in it, between commas and blanks, spells chunked, and unchanged if there is none |
| `RequestFraming.LastTokenUnique` | src/http_utils.rs:738-796 | a value has at most one last token |
| `RequestFraming.VerdictExactly` | src/http_utils.rs:777-813 | each of the five verdicts if and only if its condition on the positions of the headers holds: chunked is accepted exactly with no content-length, some transfer-encoding, and chunked as the last token of the last transfer-encoding header that has one |
| `RequestFraming.ClassifyRequestFraming` | src/http_utils.rs:777-813 | the single pass gives the verdict of section 3.3.3 of RFC 7230 on the whole list, and each verdict exactly under its condition on the positions of the headers |
| `RequestFraming.UnrelatedHeadersIgnored` | src/http_utils.rs:786-798 | adding any other header anywhere changes nothing |
| `RequestFraming.ContentLengthMoves` | src/http_utils.rs:786-798 | a Content-Length header may stand anywhere |
| `RequestFraming.EncodingsMerge` | src/http_utils.rs:782-797 | two Transfer-Encoding headers may be merged with a comma |

## Left out

- TLS backends, kTLS, io_uring and quiche: only the plain byte stream behind `BackendIo` is modelled.
- Connecting, `set_nodelay`, the notifications, and the connection counter around the backend task.
- Back-pressure: the capacity of the channels is not modelled, only their order and that a send may never return.
- `read_tcp`: its retry on would-block is the `Blocked` event.
- The read buffers of 32 KiB: a read may return any number of bytes.
- `candidates`, `select_with_key`, and the choices by plain round robin, least connections and address hash: thin dispatch around what is modelled.
- Atomicity of the selection counter across threads: selections are a sequence.
- Health checks, circuit breakers, outlier ejection and latency averages.
- The text of addresses and prefixes: `Cidr` starts from numbers; `contains`, the variant on strings, differs only there.
- A limit of zero, which callers of the rate limiter take for no limit before they ask it.
- RateLimiting.LimitHoldsEachMinute: does not cover limits of 2^24 and more, where 32-bit floats may round the current count down.
- `walk_qpack_block` and the string prefixes, which skim input for fuzzing.
- `should_compress`, `AcceptedEncoding` and the compressors: tables, quality values and foreign code.
- The parsers of src/http_utils.rs that rest on httparse, `url_decode`, caching, routing, access logs, configuration loading and start-up.
