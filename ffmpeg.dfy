/**
 * The FFmpeg library as the commands (remux, transmux, transcode) see it. FFmpeg's code
 * is not part of this model: every call into it is an oracle. The demuxer's and the codecs' answers are given
 * sequences, the muxer's answers and the rescaling routines are given functions, and
 * what the program makes FFmpeg do is recorded in an event log.
 */
module Ffmpeg {
  import opened Utils

  const AVFMT_GLOBALHEADER: bv32 := 0x40
  const AV_CODEC_FLAG_GLOBAL_HEADER: bv32 := 0x40_0000
  const AV_ROUND_NEAR_INF: bv32 := 5
  const AV_ROUND_PASS_MINMAX: bv32 := 8192

  datatype MediaType = Unknown | Video | Audio | Data | Subtitle | Attachment

  /** AVCodecParameters, reduced to what the commands look at. */
  datatype CodecParams = CodecParams(codecType: MediaType, codecId: int)

  /** An input AVStream. */
  datatype Stream = Stream(codecpar: CodecParams, timeBase: Rational, avgFrameRate: Rational)

  /** An input AVFormatContext after probing: `nb_streams` is `|streams|`. */
  datatype FormatContext = FormatContext(streams: seq<Stream>)

  /** The AVPacket fields the commands read or write. */
  datatype Packet = Packet(streamIndex: int, pts: int, dts: int, duration: int, pos: int)

  /** One answer of av_read_frame: its return code and the packet it filled. */
  datatype Demuxed = Demuxed(ret: int, packet: Packet)

  /** The values the sources compare codec answers against:
      `eagain` is averror(eagain()), `averrorEof` is averror(averror_eof()) and
      `eof` is averror_eof(). */
  datatype Codes = Codes(eagain: int, averrorEof: int, eof: int)

  /** The muxer (output AVFormatContext) as an oracle. `newStream(k)` identifies the stream
      the k-th avformat_new_stream allocates and `copyResult(k)` answers the k-th parameter
      copy; `timeBase(ref, requested)` is the time base the header write leaves on stream
      `ref` when the program had requested `requested`; `writeResult(n, j)` answers the j-th
      av_interleaved_write_frame made while handling the n-th packet read. `formatFlags`
      are the flags of the output format guessed from the path, `initialFlags` those the
      new output context starts with. */
  datatype Muxer = Muxer(
    formatFlags: bv32,
    initialFlags: bv32,
    newStream: nat -> nat,
    copyResult: nat -> int,
    openResult: int,
    headerResult: int,
    timeBase: (nat, Option<Rational>) -> Rational,
    writeResult: (nat, nat) -> int)

  /** The streams avformat_new_stream allocates for the first n input streams. */
  function Refs(mux: Muxer, n: nat): (refs: seq<nat>)
    ensures |refs| == n
    ensures forall i :: 0 <= i < n ==> refs[i] == mux.newStream(i)
  {
    if n == 0 then [] else Refs(mux, n - 1) + [mux.newStream(n - 1)]
  }

  /** The time base the header write leaves on each output stream when none was requested. */
  function OutTimeBases(refs: seq<nat>, mux: Muxer): (tbs: seq<Rational>)
    ensures |tbs| == |refs|
    ensures forall i :: 0 <= i < |refs| ==> tbs[i] == mux.timeBase(refs[i], None)
  {
    if refs == [] then [] else OutTimeBases(refs[..|refs| - 1], mux) + [mux.timeBase(refs[|refs| - 1], None)]
  }

  /** The time bases of the output streams allocated for streams, once the header is
      written, when no stream asked for one. */
  function UnrequestedTimeBases(streams: seq<Stream>, mux: Muxer): (tbs: seq<Rational>)
    ensures |tbs| == |streams|
  {
    OutTimeBases(Refs(mux, |streams|), mux)
  }

  /** av_rescale_q_rnd, av_rescale_q and the per-field rescale of av_packet_rescale_ts. */
  datatype Rescaler = Rescaler(
    rnd: (int, Rational, Rational, bv32) -> int,
    plain: (int, Rational, Rational) -> int,
    ts: (int, Rational, Rational) -> int)

  /** av_packet_rescale_ts: converts the timing fields and nothing else. */
  function RescaleTs(p: Packet, from: Rational, to: Rational, rs: Rescaler): Packet
  {
    p.(pts := rs.ts(p.pts, from, to), dts := rs.ts(p.dts, from, to),
       duration := rs.ts(p.duration, from, to))
  }

  /** How a command's read loop ends: the reads ran out (Drained), `run` returned early
      (Aborted), or the program panicked (Crashed). */
  datatype Exit = Drained | Aborted | Crashed

  /** What a read loop makes FFmpeg do, and how it ends. */
  datatype Pumped = Pumped(log: seq<Event>, exit: Exit)

  /** What the program makes FFmpeg (or the terminal) do, in order. OpenEncoder stands
      for opening the encoder with the time base given and handing its parameters to output
      stream `ref`; WriteHeader records the format context flags the header is written
      with; SaveImage(n, bytes) writes `bytes` to the file named after frame number `n`
      (Av.FrameFileName). */
  datatype Event =
    | NewStream(ref: nat)
    | CopyParams(ref: nat, params: CodecParams)
    | OpenDecoder(stream: nat)
    | OpenEncoder(ref: nat, timeBase: Rational)
    | ErrorLogged(code: int)
    | OpenIo
    | WriteHeader(flags: bv32)
    | SendPacket(packet: Packet)
    | SendFrame
    | Write(packet: Packet)
    | Unref
    | Free
    | SaveImage(frameNumber: int, bytes: seq<byte>)
    | Trailer
    | Panic

  /** The message check_error prints for a response, as log entries. */
  function Diagnostic(response: int): (log: seq<Event>)
    ensures |log| <= 1
    ensures log != [] <==> response < 0
  {
    var c := CheckError(response);
    if c.printed.Some? then [ErrorLogged(c.printed.value)] else []
  }

  /** Rust's `i as usize` on a 64-bit target: two's-complement wrap modulo 2^64. */
  function AsUsize(i: int): nat
  {
    i % 0x1_0000_0000_0000_0000
  }

  /** For an i32 index and any table size below 2^63 the cast index is in range exactly
      when the index is, and it is 0 exactly when the index is. */
  lemma AsUsizeInRange(i: int, n: nat)
    requires IsI32(i) && n < 0x8000_0000_0000_0000
    ensures AsUsize(i) < n <==> 0 <= i < n
    ensures AsUsize(i) == 0 <==> i == 0
    ensures 0 <= i ==> AsUsize(i) == i
  {
  }

  /** The codec's next answer; an exhausted script answers `dflt` (the EAGAIN code). */
  function Answer(script: seq<int>, dflt: int): int
  {
    if script == [] then dflt else script[0]
  }

  /** The script after one answer. */
  function Next<T>(script: seq<T>): (rest: seq<T>)
    ensures |rest| == if script == [] then 0 else |script| - 1
  {
    if script == [] then [] else script[1..]
  }

  /** The packets read before the first negative av_read_frame answer. */
  function Taken(demuxed: seq<Demuxed>): (ps: seq<Packet>)
    ensures |ps| <= |demuxed|
  {
    if demuxed == [] || demuxed[0].ret < 0 then [] else [demuxed[0].packet] + Taken(demuxed[1..])
  }

  /** Each packet of Taken is one the demuxer returned with a non-negative code, in order. */
  lemma {:induction false} TakenAreRead(demuxed: seq<Demuxed>, k: nat)
    requires k < |Taken(demuxed)|
    ensures k < |demuxed| && demuxed[k].ret >= 0 && Taken(demuxed)[k] == demuxed[k].packet
    ensures forall j :: 0 <= j <= k ==> demuxed[j].ret >= 0
  {
    if k > 0 {
      TakenAreRead(demuxed[1..], k - 1);
    }
  }

  /** The packets handed to av_interleaved_write_frame, in order. */
  function Writes(log: seq<Event>): (ps: seq<Packet>)
    ensures |ps| <= |log|
  {
    if log == [] then []
    else (if log[0].Write? then [log[0].packet] else []) + Writes(log[1..])
  }

  /** The packets handed to avcodec_send_packet, in order. */
  function Sent(log: seq<Event>): (ps: seq<Packet>)
    ensures |ps| <= |log|
  {
    if log == [] then []
    else (if log[0].SendPacket? then [log[0].packet] else []) + Sent(log[1..])
  }

  lemma {:induction false} WritesAppend(a: seq<Event>, b: seq<Event>)
    ensures Writes(a + b) == Writes(a) + Writes(b)
  {
    if a != [] {
      assert (a + b)[1..] == a[1..] + b;
      WritesAppend(a[1..], b);
    } else {
      assert a + b == b;
    }
  }

  lemma {:induction false} SentAppend(a: seq<Event>, b: seq<Event>)
    ensures Sent(a + b) == Sent(a) + Sent(b)
  {
    if a != [] {
      assert (a + b)[1..] == a[1..] + b;
      SentAppend(a[1..], b);
    } else {
      assert a + b == b;
    }
  }

  /** How many times `e` occurs in the log. */
  function Count(log: seq<Event>, e: Event): (n: nat)
    ensures n <= |log|
  {
    if log == [] then 0
    else (if log[0] == e then 1 else 0) + Count(log[1..], e)
  }

  /** An event that is nowhere in the log counts zero. */
  lemma {:induction false} CountZero(log: seq<Event>, e: Event)
    requires forall k :: 0 <= k < |log| ==> log[k] != e
    ensures Count(log, e) == 0
  {
    if log != [] {
      CountZero(log[1..], e);
    }
  }

  /** An event occurs in the log exactly when it is counted. */
  lemma {:induction false} CountPositive(log: seq<Event>, e: Event)
    ensures Count(log, e) > 0 <==> e in log
  {
    if log != [] {
      CountPositive(log[1..], e);
      assert log == [log[0]] + log[1..];
    }
  }

  lemma {:induction false} CountAppend(a: seq<Event>, b: seq<Event>, e: Event)
    ensures Count(a + b, e) == Count(a, e) + Count(b, e)
  {
    if a != [] {
      assert (a + b)[1..] == a[1..] + b;
      CountAppend(a[1..], b, e);
    } else {
      assert a + b == b;
    }
  }

  /** The parameters handed to avcodec_parameters_copy, in order. */
  function Copied(log: seq<Event>): (ps: seq<CodecParams>)
    ensures |ps| <= |log|
  {
    if log == [] then []
    else (if log[0].CopyParams? then [log[0].params] else []) + Copied(log[1..])
  }

  lemma {:induction false} CopiedAppend(a: seq<Event>, b: seq<Event>)
    ensures Copied(a + b) == Copied(a) + Copied(b)
  {
    if a != [] {
      assert (a + b)[1..] == a[1..] + b;
      CopiedAppend(a[1..], b);
    } else {
      assert a + b == b;
    }
  }

  /** A log without writes, copies or sends contributes nothing to the observers. */
  lemma {:induction false} ObserversEmpty(log: seq<Event>)
    requires forall k :: 0 <= k < |log| ==> !log[k].Write? && !log[k].CopyParams? && !log[k].SendPacket?
    ensures Writes(log) == [] && Copied(log) == [] && Sent(log) == []
  {
    if log != [] {
      ObserversEmpty(log[1..]);
    }
  }

  /** A whole run that ends normally: what happens before the first read, then the read
      loop, then the trailer. Each observer splits along the parts. */
  lemma {:induction false} RunObservers(prelude: seq<Event>, packets: seq<Event>)
    ensures var log := prelude + packets + [Trailer];
      && Copied(log) == Copied(prelude) + Copied(packets)
      && Writes(log) == Writes(prelude) + Writes(packets)
      && Sent(log) == Sent(prelude) + Sent(packets)
      && log[|log| - 1] == Trailer
  {
    CopiedAppend(prelude, packets);
    CopiedAppend(prelude + packets, [Trailer]);
    WritesAppend(prelude, packets);
    WritesAppend(prelude + packets, [Trailer]);
    SentAppend(prelude, packets);
    SentAppend(prelude + packets, [Trailer]);
  }

  /** Counting along the parts of a run that ends normally. */
  lemma RunCounts(prelude: seq<Event>, packets: seq<Event>, e: Event)
    ensures Count(prelude + packets + [Trailer], e)
            == Count(prelude, e) + Count(packets, e) + (if e == Trailer then 1 else 0)
  {
    CountAppend(prelude, packets, e);
    CountAppend(prelude + packets, [Trailer], e);
  }

  /** A whole run whose read loop ended one way or another: what happens before the
      first read, then the read loop, then the trailer if the loop drained. Each observer
      splits along the parts. */
  lemma EndObservers(prelude: seq<Event>, body: seq<Event>, drained: bool, e: Event)
    ensures var log := prelude + body + (if drained then [Trailer] else []);
      && Copied(log) == Copied(prelude) + Copied(body)
      && Writes(log) == Writes(prelude) + Writes(body)
      && Sent(log) == Sent(prelude) + Sent(body)
      && Count(log, e) == Count(prelude, e) + Count(body, e) + (if drained && e == Trailer then 1 else 0)
      && (drained ==> log[|log| - 1] == Trailer)
      && (!drained && body != [] ==> log[|log| - 1] == body[|body| - 1])
  {
    if drained {
      RunObservers(prelude, body);
      RunCounts(prelude, body, e);
    } else {
      assert prelude + body + [] == prelude + body;
      CopiedAppend(prelude, body);
      WritesAppend(prelude, body);
      SentAppend(prelude, body);
      CountAppend(prelude, body, e);
    }
  }

  /** A run that always drains: unreferences counted in the read loop are all there
      are, and the trailer is written once, last. */
  lemma DrainedRunEnds(prelude: seq<Event>, packets: seq<Event>, unrefs: nat)
    requires Count(prelude, Unref) == 0 && Count(prelude, Trailer) == 0
    requires Count(packets, Unref) == unrefs && Count(packets, Trailer) == 0
    ensures var log := prelude + packets + [Trailer];
      && Count(log, Unref) == unrefs && Count(log, Trailer) == 1 && log[|log| - 1] == Trailer
  {
    RunCounts(prelude, packets, Unref);
    RunCounts(prelude, packets, Trailer);
  }

  /** A whole run assembled from a prelude and a read loop neither of which writes the
      trailer: the trailer is written once, last, exactly when the loop drained, and a loop
      that crashed with a panic as its last act ends the run with it. */
  lemma RunEnds(prelude: seq<Event>, pumped: Pumped)
    requires Count(prelude, Trailer) == 0 && Count(pumped.log, Trailer) == 0
    requires pumped.exit == Crashed ==> pumped.log != [] && pumped.log[|pumped.log| - 1] == Panic
    ensures var log := prelude + pumped.log + (if pumped.exit == Drained then [Trailer] else []);
      && Count(log, Trailer) == (if pumped.exit == Drained then 1 else 0)
      && (pumped.exit == Drained ==> log[|log| - 1] == Trailer)
      && (pumped.exit == Crashed ==> log[|log| - 1] == Panic)
  {
    EndObservers(prelude, pumped.log, pumped.exit == Drained, Trailer);
  }

  /** In a run that ends normally, what happens before `b` is a proper prefix, and b's
      first event comes right after it. */
  lemma PrefixThen(a: seq<Event>, b: seq<Event>, c: seq<Event>)
    requires b != []
    ensures a < a + b + c + [Trailer] && (a + b + c + [Trailer])[|a|] == b[0]
  {
    assert (a + b + c + [Trailer])[..|a|] == a;
  }

  /** A setup event: one that happens before the first packet is read. */
  predicate IsSetup(e: Event)
  {
    IsStreamSetup(e) || e.OpenIo? || e.WriteHeader?
  }

  /** An event of the per-stream setup loops, before the output is opened. */
  predicate IsStreamSetup(e: Event)
  {
    e.NewStream? || e.CopyParams? || e.OpenDecoder? || e.OpenEncoder? || e.ErrorLogged?
  }

  /** A log of setup events holds no trailer, unref or panic. */
  lemma {:induction false} SetupOnly(log: seq<Event>)
    requires forall k :: 0 <= k < |log| ==> IsSetup(log[k])
    ensures Count(log, Trailer) == 0 && Count(log, Unref) == 0 && Count(log, Panic) == 0
  {
    if log != [] {
      SetupOnly(log[1..]);
    }
  }

  /** The flags the first header write of the log sees (None when there is none). */
  function HeaderFlags(log: seq<Event>): (r: Option<bv32>)
    ensures r.Some? ==> WriteHeader(r.value) in log
  {
    if log == [] then None
    else if log[0].WriteHeader? then Some(log[0].flags)
    else HeaderFlags(log[1..])
  }

  /** Stream setup writes no header: the first header write comes after it. */
  lemma {:induction false} HeaderFlagsAfterSetup(setup: seq<Event>, rest: seq<Event>)
    requires forall k :: 0 <= k < |setup| ==> IsStreamSetup(setup[k])
    ensures HeaderFlags(setup + rest) == HeaderFlags(rest)
  {
    if setup != [] {
      assert (setup + rest)[1..] == setup[1..] + rest;
      HeaderFlagsAfterSetup(setup[1..], rest);
    } else {
      assert setup + rest == rest;
    }
  }

  /** The codec parameters of the streams, in container order. */
  function CodecParamsOf(streams: seq<Stream>): (ps: seq<CodecParams>)
    ensures |ps| == |streams|
    ensures forall i :: 0 <= i < |streams| ==> ps[i] == streams[i].codecpar
  {
    if streams == [] then [] else CodecParamsOf(streams[..|streams| - 1]) + [streams[|streams| - 1].codecpar]
  }

  /** The commands start only if the input file exists (the assertion at the top of each
      `run`) and both paths convert to C strings (InputCtx::new and OutputCtx::new);
      otherwise they panic before any FFmpeg call. */
  predicate CanStart(inputExists: bool, inputPath: seq<byte>, outputPath: seq<byte>)
  {
    inputExists && StrToCStr(inputPath).Some? && StrToCStr(outputPath).Some?
  }

  /** What OutputCtx::open_file makes the muxer do once the path has converted, with the
      format context flags at that point. */
  function OpenLog(flags: bv32, openResponse: int, headerResponse: int): (log: seq<Event>)
    ensures log != [] && log[0] == OpenIo
  {
    [OpenIo] + Diagnostic(openResponse) + [WriteHeader(flags)] + Diagnostic(headerResponse)
  }

  /** Opening the output sends, copies, writes, unreferences and ends nothing. */
  lemma OpenLogQuiet(flags: bv32, openResponse: int, headerResponse: int)
    ensures var log := OpenLog(flags, openResponse, headerResponse);
      && Writes(log) == [] && Copied(log) == [] && Sent(log) == []
      && Count(log, Trailer) == 0 && Count(log, Unref) == 0
  {
    ObserversEmpty(OpenLog(flags, openResponse, headerResponse));
    SetupOnly(OpenLog(flags, openResponse, headerResponse));
  }

  /** Whatever follows open_file, the header is written with the flags it was given. */
  lemma OpenLogHeader(flags: bv32, openResponse: int, headerResponse: int, rest: seq<Event>)
    ensures HeaderFlags(OpenLog(flags, openResponse, headerResponse) + rest) == Some(flags)
  {
    var d := Diagnostic(openResponse);
    var tail := [WriteHeader(flags)] + Diagnostic(headerResponse) + rest;
    var log := OpenLog(flags, openResponse, headerResponse) + rest;
    assert HeaderFlags(tail) == Some(flags);
    assert log[1..] == d + tail;
    assert HeaderFlags(log) == HeaderFlags(d + tail);
    if d != [] {
      assert (d + tail)[1..] == tail;
    } else {
      assert d + tail == tail;
    }
  }

  /** Stream setup followed by open_file: nothing is sent, written, unreferenced or
      ended, and only the setup copies parameters. */
  lemma SetupThenOpenQuiet(setup: seq<Event>, flags: bv32, openResponse: int, headerResponse: int)
    requires forall k :: 0 <= k < |setup| ==> IsStreamSetup(setup[k])
    ensures var prelude := setup + OpenLog(flags, openResponse, headerResponse);
      && Copied(prelude) == Copied(setup) && Writes(prelude) == Writes(setup) && Sent(prelude) == Sent(setup)
      && Count(prelude, Trailer) == 0 && Count(prelude, Unref) == 0
  {
    var open := OpenLog(flags, openResponse, headerResponse);
    SetupOnly(setup);
    OpenLogQuiet(flags, openResponse, headerResponse);
    CopiedAppend(setup, open);
    WritesAppend(setup, open);
    SentAppend(setup, open);
    CountAppend(setup, open, Trailer);
    CountAppend(setup, open, Unref);
  }

  /** Stream setup followed by open_file: the output is opened right after the setup, and
      the header is written with the flags given to open_file. */
  lemma OpenAfterSetup(setup: seq<Event>, flags: bv32, openResponse: int, headerResponse: int, rest: seq<Event>)
    requires forall k :: 0 <= k < |setup| ==> IsStreamSetup(setup[k])
    ensures var prelude := setup + OpenLog(flags, openResponse, headerResponse);
      && setup < prelude + rest && (prelude + rest)[|setup|] == OpenIo
      && HeaderFlags(prelude + rest) == Some(flags)
  {
    var open := OpenLog(flags, openResponse, headerResponse);
    assert setup + open + rest == setup + (open + rest);
    assert (setup + (open + rest))[..|setup|] == setup;
    HeaderFlagsAfterSetup(setup, open + rest);
    OpenLogHeader(flags, openResponse, headerResponse, rest);
  }
}
