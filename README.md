# rust-ffmpeg-examples, modelled in Dafny

This project models the logic of the three commands of rust-ffmpeg-examples (`remux`,
`transmux`, `transcode`), the frame-dumping helpers of `src/av.rs`, and the two context
wrappers `InputCtx` and `OutputCtx`. It then proves what that logic promises.

FFmpeg itself is an oracle whose answers are given to the model:

- **Demuxer.** The answers of `av_read_frame` are a sequence of `Demuxed` values (a
  return code and the packet filled). A read loop sees the packets before the first
  negative code (`Ffmpeg.Taken`).
- **Codecs.** The answers of a decoder or encoder are one sequence per codec context, in
  call order, with sends and receives interleaved. An exhausted sequence answers the
  EAGAIN code, so every drain loop ends.
- **Sentinel codes.** The codes the sources compare answers against are parameters
  (`Ffmpeg.Codes`), and each comparison is kept literal:
  - `averror(averror_eof())` in `src/av.rs` and `src/av/input_ctx.rs`;
  - the bare `averror_eof()` in `src/cmds/transcode.rs`.
- **Muxer.** `Ffmpeg.Muxer` gives, per call, what FFmpeg answers:
  - the stream references `avformat_new_stream` hands out;
  - the answers to the parameter copies, `avio_open`, the header write and each
    `av_interleaved_write_frame`;
  - the time base the header leaves on each output stream;
  - the flags of the output format and of the new format context.
- **Rescaling.** The routines `av_rescale_q_rnd`, `av_rescale_q` and
  `av_packet_rescale_ts` are uninterpreted functions (`Ffmpeg.Rescaler`).

What a run makes FFmpeg do is an event log (`Ffmpeg.Event`). It records, in order:

- stream allocation and parameter copies;
- codec opening;
- the output open and the header write, with the flags it sees;
- packets sent to a decoder and frames sent to an encoder;
- packets written and packet unrefs and frees;
- gray-frame images saved;
- the trailer;
- a panic, which ends the run.

Observers pick out parts of a log:

- `Writes`: the written packets;
- `Sent`: the packets sent to a decoder;
- `Copied`: the copied parameters;
- `Count`: how often an event occurs.

Each loop of the source is a `method` with a `while` or `for` loop. Each method is proved
equal to a recursive specification function, and the properties of the commands are
lemmas about those functions. Likewise `OutputCtx` and `InputCtx` are classes whose
methods update their fields.

Modules, one per source file:

- `Utils`: `src/av/utils.rs`.
- `Ffmpeg`: the FFmpeg oracle, the event log and its observers.
- `Av`: `src/av.rs`.
- `OutputCtxs`: `src/av/output_ctx.rs`.
- `InputCtxs`: `src/av/input_ctx.rs`.
- `Remux`, `Transmux`, `Transcode`: the three commands.

Some behaviour is kept as the source writes it, whatever it was meant to do:

- `transcode` sends stream index 0 to the decoder, whatever the video stream is.
- In the decoder loop of `transcode`, the receive answer shadows the send answer. The
  loop therefore ends only on a sentinel or an error, and an error returns from `run`
  without writing the trailer.
- The `decode_packet` of `InputCtx` returns -1 on the first frame.
- `read_video_frame` decodes with the null codec context `InputCtx::new` leaves when no video
  stream was opened. The model makes the first video packet crash the run in that case.
- The packet duration of `encode` uses truncating `i64` divisions, left to right. With
  the NTSC rate 30000/1001 this gives 0 (`Transcode.DurationNtsc`).
- `save_gray_frame` views plane 0 as `width * linesize` bytes. A frame taller than it is
  wide, stored without padding, makes it panic (`Av.TallTightFramePanics`).

## Model

| member | source | states |
|---|---|---|
| `Utils.InvQ` | src/av/utils.rs:27-32 | The inverse is a valid (i32) rational exactly when its argument is. Its cross products agree with the argument's. A zero numerator gives a zero denominator, since nothing is validated. |
| `Utils.InvQInvolutive` | src/av/utils.rs:27-32 | Inverting twice gives the original rational back. |
| `Utils.CheckError` | src/av/utils.rs:19-25 | A response is reported as an error exactly when it is negative. A message is printed exactly then, for that response. |
| `Utils.StrToCStr` | src/av/utils.rs:15-17 | The conversion succeeds exactly when the string holds no NUL byte; otherwise it panics. The C string is the bytes followed by one terminating NUL. |
| `Utils.StrToCStrRoundTrip` | src/av/utils.rs:15-17 | Reading the C string back up to its first NUL gives the original string. |
| `Ffmpeg.Diagnostic` | src/av/utils.rs:19-25 | `check_error` logs at most one message, and logs one exactly for a negative response. |
| `Ffmpeg.AsUsizeInRange` | src/cmds/remux.rs:42-44 | For an i32 index and a table of fewer than 2^63 entries, the `as usize` index is in range exactly when the index is. It is 0 exactly when the index is 0. |
| `Ffmpeg.TakenAreRead` | src/cmds/remux.rs:34-40 | Each packet a read loop handles was returned with a non-negative code, in read order. Every read before it was non-negative too: the loops end at the first negative read. |
| `Ffmpeg.OpenLogQuiet` | src/av/output_ctx.rs:38-52 | Opening the output writes, copies, sends, unreferences and ends nothing. Its errors are only logged. |
| `Ffmpeg.OpenLogHeader` | src/av/output_ctx.rs:41-51 | `avio_open` comes first and the header write second. Whatever follows, the header is written with the format context flags current at the call. |
| `Av.GetStreams` | src/av.rs:83-88 | The streams are the `nb_streams` streams of the context, in container order. |
| `Av.GetStream` | src/av.rs:90-94 | Stream `i` is element `i` of `get_streams`. Indexing past the end panics. |
| `Av.OpenVideoStream` | src/av.rs:96-125 | The stream is opened exactly when stream `i` exists and is a video stream; otherwise it panics. The VideoCtx holds the context, the index and the decoder context. |
| `Av.DecimalRoundTrip` | src/av.rs:208 | The decimal form of a frame number reads back as the number. |
| `Av.FrameFileNameInjective` | src/av.rs:208 | Frames with different numbers are saved under different file names. |
| `Av.GrayFrameFits` | src/av.rs:215-229 | The rows fit the `width * linesize` slice exactly when the height is 0 or `(height-1)*linesize + width <= width*linesize`. Otherwise the slicing panics. |
| `Av.GrayFrameLength` | src/av.rs:220-229 | The image starts with the header `P5\n{width} {height}\n255\n`. Exactly `height` rows of exactly `width` bytes follow it. |
| `Av.GrayFramePixel` | src/av.rs:222-229 | Byte `j` of row `i` of the image is byte `i*linesize + j` of plane 0. The padding past `width` is never written. |
| `Av.TallTightFramePanics` | src/av.rs:215-226 | A frame taller than it is wide, whose stride equals its width, makes `save_gray_frame` panic. |
| `Av.NotTallFrameFits` | src/av.rs:215-226 | A frame no taller than it is wide, with a stride of at least its width, is saved. |
| `Av.DrainEnds` | src/av.rs:161-199 | The receive loop consumes the leading run of savable frames and the answer after it. EAGAIN/EOF gives 0. Another negative code is returned as it is. A frame whose image overruns panics. |
| `Av.DrainSavesEveryFrame` | src/av.rs:181-199 | The receive loop saves every frame of the leading run, in order, under the codec's `frame_number`. The log ends with a panic exactly when the loop panicked. |
| `Av.DecodeSendError` | src/av.rs:150-159 | A negative send answer is returned unchanged, and nothing is received. |
| `Av.DecodeSendsOnePacket` | src/av.rs:147-202 | `decode_packet` sends exactly its packet to the decoder. |
| `Av.DecodePacket` | src/av.rs:147-202 | The loop on `response` makes the calls, and gives the result, that the specification of the send and the receive loop says. |
| `Av.ReadFrameDecodesAtMost` | src/av.rs:127-145 | `read_frame` decodes at most `counter + 1` packets, which is 8 from its starting value of 7. |
| `Av.ReadFrameSendsUntilStop` | src/av.rs:127-145 | `read_frame` sends the decoder the stream-0 packets in read order, from the first on. Every decode but the last went on. It stops early only at the first decode that panics or returns a negative result, or when the counter is spent, and never after more than `counter + 1` packets. |
| `Av.ReadFrameDecodesAll` | src/av.rs:127-145 | When no decode fails, `read_frame` decodes exactly the first 8 stream-0 packets (`counter + 1`), or all of them if there are fewer. |
| `Av.ReadFrame` | src/av.rs:127-145 | The loop with its counter starting at 7 makes the calls that the read-loop specification says. |
| `OutputCtxs.AddStreamLog` | src/av/output_ctx.rs:26-36 | `add_stream` copies exactly the given parameters, once. It writes and sends nothing and makes only stream-setup calls. |
| `OutputCtxs.GlobalHeaderFlags` | src/cmds/transmux.rs:40-42 | The global-header bit is set afterwards exactly when it was before or the output format wants global headers. No other bit changes, and a format that does not want them leaves the flags as they were. |
| `OutputCtxs.GlobalHeaderIdempotent` | src/cmds/transcode.rs:91-93 | Requesting global headers a second time changes nothing. |
| `OutputCtxs.OutputCtx.constructor` | src/av/output_ctx.rs:13-24 | A new output context has an empty stream vector and has made no call yet. |
| `OutputCtxs.OutputCtx.AddStream` | src/av/output_ctx.rs:26-36 | A null new stream fails the assertion and panics, leaving the vector as it was. Otherwise exactly that stream is appended at the end and earlier entries are unchanged. A failed copy is only reported. |
| `OutputCtxs.OutputCtx.OpenFile` | src/av/output_ctx.rs:38-52 | A path with a NUL byte panics. Otherwise the output is opened, then the header is written with the current flags, and each answer is only reported. |
| `OutputCtxs.OutputCtx.RequestGlobalHeader` | src/cmds/transmux.rs:40-42 | The format context flags become `GlobalHeaderFlags` of the old flags. |
| `OutputCtxs.OutputCtx.GetStream` | src/av/output_ctx.rs:54-60 | Stream `i` is the `i`-th stream added, in insertion order. Indexing past the end panics. |
| `InputCtxs.DecodeOutcome` | src/av/input_ctx.rs:93-120 | A refused packet returns the send answer and logs its diagnostic. After an accepted send, the first receive answer decides. EAGAIN or AVERROR_EOF gives 0 with nothing logged. Any other negative answer is returned unchanged, with its diagnostic. A frame gives -1. A non-negative result is always 0 and means no frame arrived. |
| `InputCtxs.ReadVideoFrameSelects` | src/av/input_ctx.rs:81-91 | With a decoder, only packets of the video stream reach it, in read order. The loop goes on after every non-negative decode and stops at the first negative one, whose result and diagnostics it carries. At end of input every video packet was decoded, each with a non-negative result and no diagnostic. |
| `InputCtxs.FirstFrameEndsRead` | src/av/input_ctx.rs:81-91 | When the k-th video packet is the first whose decode yields a frame, exactly the first k+1 video packets are decoded, and the loop stops with -1. |
| `InputCtxs.InputCtx.constructor` | src/av/input_ctx.rs:18-35 | The video stream index starts at 0 and the decoder context is null. |
| `InputCtxs.InputCtx.GetStreams` | src/av/input_ctx.rs:42-47 | The streams are the `nb_streams` streams of the probed context. |
| `InputCtxs.InputCtx.GetStream` | src/av/input_ctx.rs:49-51 | Stream `i` is element `i` of `get_streams`. Indexing past the end panics. |
| `InputCtxs.InputCtx.OpenVideoStream` | src/av/input_ctx.rs:53-79 | The call succeeds exactly when the `usize`-cast index names a video stream, and then stores the index and the opened decoder. Otherwise it panics with the fields unchanged. |
| `InputCtxs.InputCtx.DecodePacket` | src/av/input_ctx.rs:93-120 | The method returns what `DecodeOutcome` says. |
| `InputCtxs.ReadVideoFrameNoDecoder` | src/av/input_ctx.rs:81-91 | Without an opened decoder (the null left at src/av/input_ctx.rs:28-31), the first video packet crashes the loop with a panic. A file with no video packet reads to its end. |
| `InputCtxs.InputCtx.ReadVideoFrame` | src/av/input_ctx.rs:81-91 | The loop decodes what the specification says for the stored video stream index, and crashes at a video packet when no decoder was opened. |
| `Remux.Rewrite` | src/cmds/remux.rs:52-69 | The rewrite of an in-range packet keeps its stream index and sets its byte position to -1. |
| `Remux.SetupCopiesInOrder` | src/cmds/remux.rs:26-30 | The setup copies the parameters of every input stream, in input order. It writes nothing and makes only stream-setup calls. |
| `Remux.RemuxOne` | src/cmds/remux.rs:42-69 | A packet yields one rewritten packet exactly when its cast index names an input stream. Input stream `i` maps to output stream `i`. |
| `Remux.Remuxed` | src/cmds/remux.rs:42-69 | At most one packet is written per packet read. Each has byte position -1 and an index in range. |
| `Remux.RoutedWrites` | src/cmds/remux.rs:42-75 | Each turn writes the packet's remuxed form and nothing else. |
| `Remux.RoutedUnrefsOnce` | src/cmds/remux.rs:44-75 | Each turn unreferences the packet exactly once, skipped or not. It copies nothing and writes no trailer. |
| `Remux.PacketsLogWritesRemuxed` | src/cmds/remux.rs:34-76 | The loop writes exactly the remuxed packets, in read order, whatever the write answers. |
| `Remux.PacketsLogUnrefsEach` | src/cmds/remux.rs:34-76 | The loop unreferences each packet read exactly once. |
| `Remux.PacketsLogQuiet` | src/cmds/remux.rs:34-76 | The loop copies no parameters and writes no trailer. |
| `Remux.RemuxSetupFirst` | src/cmds/remux.rs:14-32 | A run whose input is missing, or a path that does not convert, panics before any call. Otherwise one output stream is set up per input stream, copying parameters in input order, and only then is the output opened. |
| `Remux.RemuxHeaderFlags` | src/cmds/remux.rs:22-32 | The header is written with the flags the output context started with. |
| `Remux.RemuxWrites` | src/cmds/remux.rs:34-76 | A run writes exactly the remuxed packets, in read order. |
| `Remux.RemuxUnrefsAndEnds` | src/cmds/remux.rs:34-78 | A run unreferences every packet read exactly once. It writes the trailer exactly once, as its last act. |
| `Remux.AddStreams` | src/cmds/remux.rs:26-30 | The output vector holds one allocated stream per input stream, in order. The calls are the setup specification's, and the flags are untouched. |
| `Remux.Turn` | src/cmds/remux.rs:42-75 | The loop body (guard, in-place rewrite, write, report, unref) makes the calls the one-packet specification says. |
| `Remux.Pump` | src/cmds/remux.rs:34-76 | The read loop makes the calls the loop specification says. |
| `Remux.Run` | src/cmds/remux.rs:10-80 | `remux::run` makes exactly the calls of `RemuxLog`. |
| `Transmux.StreamSetup` | src/cmds/transmux.rs:28-38 | Each input stream gets three stream-setup calls. They copy exactly that stream's parameters, once, and write nothing. |
| `Transmux.SetupFlags` | src/cmds/transmux.rs:27-45 | After the setup the global-header bit is set exactly when it was before, or the format wants it and there is a stream. No other bit changes. |
| `Transmux.SetupFlagsStep` | src/cmds/transmux.rs:40-42 | Each stream repeats the request, and after the first one it changes nothing. |
| `Transmux.SetupPerStream` | src/cmds/transmux.rs:27-45 | The calls for input stream `i` sit at positions `3i` to `3i+2` of the setup, in input order. |
| `Transmux.SetupCopiesInOrder` | src/cmds/transmux.rs:27-45 | The setup copies every input stream's parameters in input order. It writes nothing and makes only stream-setup calls. |
| `Transmux.PacketsLogWrites` | src/cmds/transmux.rs:49-67 | The loop writes the rescaled form of every packet up to the first one whose index names no stream, in order. The write answers are ignored. |
| `Transmux.PacketsLogExit` | src/cmds/transmux.rs:49-67 | The loop reaches the end of input exactly when every packet names a stream. Otherwise it panics at the unguarded index, as its last act. |
| `Transmux.PacketsLogQuiet` | src/cmds/transmux.rs:49-67 | The loop copies no parameters and writes no trailer. |
| `Transmux.PreludeInOrder` | src/cmds/transmux.rs:27-47 | The setup comes first, and the output is opened right after it. The header is written with the flags the setup left, and the prelude writes no packet or trailer. |
| `Transmux.TransmuxSetupFirst` | src/cmds/transmux.rs:10-47 | A run sets up one output stream per input stream, copying parameters in input order, before opening the output. The header flags are those of `SetupFlags`. |
| `Transmux.TransmuxWrites` | src/cmds/transmux.rs:49-67 | A run writes the rescaled packets up to the first packet that names no stream, in order. |
| `Transmux.TransmuxEnds` | src/cmds/transmux.rs:49-69 | A run drains exactly when every packet names a stream, and then writes the trailer once, last. Otherwise it panics and never writes the trailer. |
| `Transmux.AddStreams` | src/cmds/transmux.rs:27-45 | `out_streams` holds one allocated stream per input stream, in order. The flags are `SetupFlags`, and the calls are the setup specification's. |
| `Transmux.Pump` | src/cmds/transmux.rs:49-67 | The read loop makes the calls the loop specification says, and ends as it says. |
| `Transmux.Run` | src/cmds/transmux.rs:10-71 | `transmux::run` makes exactly the calls of `TransmuxLog` and ends as it says. |
| `Transcode.TDivRemainder` | src/cmds/transcode.rs:170-172 | Rust's `/` truncates: the remainder is smaller than the divisor and has the sign of the dividend. |
| `Transcode.DurationPanics` | src/cmds/transcode.rs:170-172 | The duration formula panics exactly when `out_time.num` or `frame_rate.num` is 0. |
| `Transcode.DurationFitsI64` | src/cmds/transcode.rs:170-172 | With i32 rationals the i64 arithmetic of the formula cannot overflow. |
| `Transcode.DurationAtMostExact` | src/cmds/transcode.rs:170-172 | For positive rationals the duration never exceeds the frame period in output ticks. |
| `Transcode.DurationIntegerRate` | src/cmds/transcode.rs:170-172 | With an integer frame rate `f` and output time base `1/f`, every packet lasts one tick. |
| `Transcode.DurationNtsc` | src/cmds/transcode.rs:170-172 | With the rate 30000/1001 and its inverse as time base, every packet gets duration 0. |
| `Transcode.EncodeLoopForm` | src/cmds/transcode.rs:156-180 | The receive loop of `encode` writes packets and then ends in one of three ways: a panic, the unref and the free, or nothing after a receive error. |
| `Transcode.EncodeLoopResult` | src/cmds/transcode.rs:156-180 | `encode` returns 0 or -1, and 0 on a crash. It returns -1 exactly when the answer that ends the loop is a receive error: negative, and neither EAGAIN nor AVERROR_EOF. |
| `Transcode.EncodeLoopExit` | src/cmds/transcode.rs:156-180 | The receive loop ends at the first answer that is not a packet written with success, and every write before it succeeded. That answer decides the end: -1 for a receive error and 0 otherwise, a crash exactly for a packet whose duration formula panics, and one more failed write for a packet with a defined duration. The encoder resumes after it. |
| `Transcode.EncodeLoopEvents` | src/cmds/transcode.rs:156-178 | The receive loop makes only encoder calls: writes, the unref, the free, a panic. |
| `Transcode.EncodeLoopStamps` | src/cmds/transcode.rs:165-173 | Every packet written carries the input packet's stream index and the formula's duration, rescaled to the output time base. |
| `Transcode.EncodeLoopNumbers` | src/cmds/transcode.rs:156-175 | The writes are numbered on from the first one, one per packet written. |
| `Transcode.EncodeLoopAccepted` | src/cmds/transcode.rs:156-175 | The loop goes on exactly while the muxer accepts. Every write before the last succeeded. A write follows the stopping answer exactly when that answer is a packet with a defined duration, and that last write failed. |
| `Transcode.EncodeLoopEnding` | src/cmds/transcode.rs:156-180 | A crash ends the log with a panic. Otherwise the result is 0, with the unref and the free as the last two calls, or -1. A crash comes exactly from a packet whose duration formula panics. -1 comes exactly from a receive error. |
| `Transcode.EncodeLoopCounts` | src/cmds/transcode.rs:161-178 | Result 0 unreferences and frees the packet once each. Result -1 does neither (the packet leaks). There is one panic exactly on a crash. |
| `Transcode.EncodeWrites` | src/cmds/transcode.rs:145-181 | `encode` sends the frame first and then makes only encoder calls. Its writes are stamped with the index and the formula's duration and numbered on. |
| `Transcode.EncodeEnding` | src/cmds/transcode.rs:145-181 | A crash ends the log with a panic. It happens exactly when the frame was accepted and the answer that ends the receive loop is a packet whose duration formula panics. The result is -1 exactly when the frame was accepted and that answer is a receive error, and 0 otherwise; a refused frame gives 0. |
| `Transcode.EncodeReleases` | src/cmds/transcode.rs:153-181 | Result 0 comes with one unref and one free. Result -1 comes with neither. |
| `Transcode.EncodeFrame` | src/cmds/transcode.rs:145-181 | `encode`, with its loop on `response`, makes the calls and gives the result the specification says. |
| `Transcode.SetupFlagsOnce` | src/cmds/transcode.rs:88-94 | However many non-video streams repeat the global-header request, it acts as one request when there is any. |
| `Transcode.SetupFlagsBits` | src/cmds/transcode.rs:37-97 | The header's global-header bit is set exactly when it was before, or the format wants it and some stream is not video. No other bit changes. |
| `Transcode.LastVideo` | src/cmds/transcode.rs:42-47 | The decoder and encoder left open are those of the last video stream. They stay null exactly when there is no video stream. |
| `Transcode.StreamSetupObserved` | src/cmds/transcode.rs:39-94 | Each stream allocates one output stream. A non-video stream copies its parameters; a video stream opens a decoder, and an encoder whose time base is the inverse of the guessed frame rate. |
| `Transcode.SetupInOrder` | src/cmds/transcode.rs:37-97 | The setup allocates one output stream per input stream, in order. It copies the parameters of exactly the non-video streams and opens codecs for exactly the video streams. |
| `Transcode.SetupStream` | src/cmds/transcode.rs:42-94 | One pass of the setup loop allocates the stream, opens the decoder and an encoder at the inverted guessed frame rate for a video stream, and otherwise copies the parameters and sets the global-header flag when the output format asks for one. It appends exactly that stream's setup calls and leaves the added streams alone. |
| `Transcode.AddStreams` | src/cmds/transcode.rs:37-97 | `out_streams` holds one stream per input stream, in order, and the codecs left open are the last video stream's. The flags are `SetupFlags`, and the calls are the setup specification's. |
| `Transcode.DecodeLoopCalls` | src/cmds/transcode.rs:111-130 | The decoder's receive loop makes only encoder calls. What it writes belongs to stream 0 and carries the formula's duration. |
| `Transcode.DecodeLoopStops` | src/cmds/transcode.rs:111-130 | The receive loop never ends the read loop normally, because the shadowed response keeps it going. A crash ends its log with a panic and comes only from the duration formula. Otherwise the decoder's first answer that is not a frame decides: EAGAIN or AVERROR_EOF goes on with the read loop, any other error aborts the command. The decoder resumes after that answer. |
| `Transcode.DecodePath` | src/cmds/transcode.rs:108-130 | A stream-0 packet with a decoder is sent first. Only encoder calls follow. |
| `Transcode.OnePacketSends` | src/cmds/transcode.rs:101-138 | A packet goes to the decoder exactly when its index is 0 and a decoder is open. No parameters are copied and no trailer is written. |
| `Transcode.OnePacketWrites` | src/cmds/transcode.rs:101-138 | A packet is rescaled and written through exactly when it belongs to another stream in range. |
| `Transcode.OnePacketStops` | src/cmds/transcode.rs:101-130 | The loop goes on only for a packet in range that has somewhere to go, and a crash ends the log with a panic. Conversely: an out-of-range index, or index 0 without a decoder, crashes. A packet of another stream goes on, and so does one the decoder refuses. One the decoder accepts goes on exactly when its first answer that is not a frame is an end code, and aborts exactly when that answer is an error. |
| `Transcode.PacketsLogSends` | src/cmds/transcode.rs:101-139 | The read loop sends the decoder the stream-0 packets in read order, none other and none twice. When it drains, it has sent all of them. |
| `Transcode.PacketsLogPasses` | src/cmds/transcode.rs:101-139 | The read loop writes the other streams' packets, rescaled, in read order. When it drains, it has written all of them. |
| `Transcode.PacketsLogObserved` | src/cmds/transcode.rs:101-139 | What the loop writes for stream 0 carries the formula's duration. The loop copies nothing and writes no trailer. |
| `Transcode.PacketsLogDrains` | src/cmds/transcode.rs:101-139 | The read loop drains only if every packet was in range and, for index 0, found a decoder. |
| `Transcode.RoutableDrains` | src/cmds/transcode.rs:101-139 | Conversely, the read loop drains when every packet is routable, the duration formula is defined and the decoder never answers an error other than EAGAIN or AVERROR_EOF. |
| `Transcode.PacketsLogCrashes` | src/cmds/transcode.rs:101-139 | A crash of the read loop ends its log with a panic. |
| `Transcode.PreludeInOrder` | src/cmds/transcode.rs:37-99 | The setup comes first and the output is opened right after it, with the flags the setup left. The prelude copies only the non-video parameters and writes, sends and ends nothing. |
| `Transcode.TranscodeSetupFirst` | src/cmds/transcode.rs:13-99 | A run allocates the output streams in order and opens the codecs of the video streams. It copies only the non-video parameters, before opening the output, and writes the header with the flags of `SetupFlags`. |
| `Transcode.TranscodeEnds` | src/cmds/transcode.rs:101-141 | A run that drains writes the trailer exactly once, last. A decoder error returns without a trailer, and a crash ends the log with a panic. |
| `Transcode.TranscodeSends` | src/cmds/transcode.rs:101-139 | A run sends the decoder exactly the stream-0 packets, in read order. When it drains, it has sent all of them. |
| `Transcode.TranscodePasses` | src/cmds/transcode.rs:131-138 | A run writes the other streams' packets, rescaled, in read order. When it drains, it has written all of them, and every packet was routable. |
| `Transcode.TranscodeEncodes` | src/cmds/transcode.rs:121-128 | Every packet a run writes for stream 0 came from `encode` and carries the formula's duration, rescaled. |
| `Transcode.Turn` | src/cmds/transcode.rs:102-138 | The loop body for one packet, with the decoder's receive loop, makes the calls the one-packet specification says. |
| `Transcode.Pump` | src/cmds/transcode.rs:101-139 | The read loop makes the calls the loop specification says, and ends as it says. |
| `Transcode.Run` | src/cmds/transcode.rs:13-143 | `transcode::run` makes exactly the calls of `TranscodeLog` and ends as it says. |

## Left out

- FFmpeg calls are not modelled. Every `avformat_*`, `avcodec_*`, `av_read_frame`, `av_interleaved_write_frame`, `av_write_trailer`, `av_rescale_q*`, `av_packet_rescale_ts` and `av_guess_frame_rate` call is an oracle answer or a log event. Its rounding, muxing and codec behaviour is foreign code.
- Opening and probing the input are not modelled: `open_file` and `find_stream_info` in `src/av.rs`, and the probing in `InputCtx::new`. The probed context is a parameter, because FFmpeg computes it.
- `av_register_all` in `transcode` is left out: it has no effect the model observes.
- Printing is left out: every `println!`, `debug_ctx`, `InputCtx::debug`, `averror_to_str` and `c_str_to_string`. This is terminal I/O and C-string FFI. The message of `check_error` is only a log entry.
- Files are not modelled. `save_gray_frame` is the pure byte function `Av.GrayFrameImage`, and a save is the event `SaveImage(frame number, bytes)`, with the name given by `Av.FrameFileName`. `File::create` and `write_all` failures are file-system I/O.
- Memory is not modelled: allocation, lifetimes and leaks. Unref and free are log events only.
- The file-existence check of each command is a boolean parameter, because it asks the file system.
- The encoder configuration of `transcode` is left out: `libx265`, the option string, the bit rates, the `f64` rate at line 75 and the pixel format. It is foreign configuration. The null dereference when `libx265` is missing is also not modelled.
- Integer widths are left out in some places. Frame width, height and `linesize` are natural numbers, so the i32 product `width * linesize` cannot overflow and no negative stride exists. Rationals are i32 only where `Rational.Valid` is required.
- Exhausted scripts answer EAGAIN: an exhausted decoder or encoder script answers the EAGAIN code. This stands for the codec wanting more input, and it is what makes every drain loop end.
- `src/main.rs`, `src/opts.rs` and `src/cmds/frames.rs` are not part of this model. They hold the entry point, argument parsing and a straight-line call sequence.
- There is no encoder flush at the end of input, because the source has none.
- Av.FrameFileNameInjective: stated for non-negative frame numbers only, the ones the codec counts. A negative number prints with a minus sign, which the lemma does not cover.
