/**
 * src/av.rs: stream lookup on a format context, opening the video decoder, the
 * frame-dump read loop with its packet counter, the decode drain that saves every
 * decoded frame, and the binary PGM ("P5") image it saves.
 */
module Av {
  import opened Utils
  import opened Ffmpeg

  // ---------------------------------------------------------------------------
  // Streams of a format context

  /** get_streams: the `nb_streams` stream pointers of the context. */
  function GetStreams(ctx: FormatContext): (s: seq<Stream>)
    ensures |s| == |ctx.streams|
    ensures forall i :: 0 <= i < |s| ==> s[i] == ctx.streams[i]
  {
    ctx.streams
  }

  /** get_stream: element `i` of get_streams; indexing past the end panics (None). */
  function GetStream(ctx: FormatContext, i: nat): (r: Option<Stream>)
    ensures r.Some? <==> i < |GetStreams(ctx)|
    ensures r.Some? ==> r.value == GetStreams(ctx)[i]
  {
    var streams := GetStreams(ctx);
    if i < |streams| then Some(streams[i]) else None
  }

  /** The VideoCtx open_video_stream returns: the format context and the decoder
      context FFmpeg allocated and opened for the stream. */
  datatype VideoCtx = VideoCtx(ctx: FormatContext, stream: nat, codecCtx: nat)

  /** open_video_stream: panics (None) unless stream `i` exists and is a video stream;
      otherwise the decoder context `codecCtx` (allocated by FFmpeg) is opened for it. */
  function OpenVideoStream(ctx: FormatContext, i: nat, codecCtx: nat): (r: Option<VideoCtx>)
    ensures r.Some? <==> i < |ctx.streams| && ctx.streams[i].codecpar.codecType == Video
    ensures r.Some? ==> r.value.ctx == ctx && r.value.stream == i && r.value.codecCtx == codecCtx
  {
    match GetStream(ctx, i)
    case None => None
    case Some(stream) =>
      if stream.codecpar.codecType != Video then None else Some(VideoCtx(ctx, i, codecCtx))
  }

  // ---------------------------------------------------------------------------
  // save_gray_frame: a binary PGM image of plane 0

  /** `a` copies of `b` added up: a * b (MulIsProduct), unfolded one row at a time. */
  function Mul(a: nat, b: nat): nat
  {
    if a == 0 then 0 else Mul(a - 1, b) + b
  }

  lemma {:induction false} MulIsProduct(a: nat, b: nat)
    ensures Mul(a, b) == a * b
  {
    if a > 0 {
      MulIsProduct(a - 1, b);
    }
  }

  lemma {:induction false} MulMono(a: nat, c: nat, b: nat)
    requires a <= c
    ensures Mul(a, b) <= Mul(c, b)
    decreases c
  {
    if a < c {
      MulMono(a, c - 1, b);
    }
  }

  datatype RawFrame = RawFrame(width: nat, height: nat, linesize: nat, gray: seq<byte>)

  /** A decoded frame as save_gray_frame views it: `gray` is the slice of
      `width * linesize` bytes it builds over plane 0 (src/av.rs:215). */
  type Frame = f: RawFrame | |f.gray| == Mul(f.width, f.linesize) witness RawFrame(0, 0, 0, [])

  function DigitChar(d: nat): (c: char)
    requires d < 10
    ensures '0' <= c <= '9'
  {
    ['0', '1', '2', '3', '4', '5', '6', '7', '8', '9'][d]
  }

  /** `{}` formatting of a natural number: its decimal digits, most significant first. */
  function Decimal(n: nat): (s: string)
    ensures |s| >= 1
    ensures forall k :: 0 <= k < |s| ==> '0' <= s[k] <= '9'
    decreases n
  {
    if n < 10 then [DigitChar(n)] else Decimal(n / 10) + [DigitChar(n % 10)]
  }

  /** `{}` formatting of an i32 value. */
  function IntToString(i: int): string
  {
    if i < 0 then "-" + Decimal(-i) else Decimal(i)
  }

  /** Reads a string of decimal digits back as a number. */
  function ParseDecimal(s: string): nat
    requires forall k :: 0 <= k < |s| ==> '0' <= s[k] <= '9'
  {
    if s == [] then 0
    else ParseDecimal(s[..|s| - 1]) * 10 + (s[|s| - 1] as int - '0' as int)
  }

  lemma DigitCharValue(d: nat)
    requires d < 10
    ensures DigitChar(d) as int - '0' as int == d
  {
  }

  /** Formatting a number and reading it back gives the number. */
  lemma {:induction false} DecimalRoundTrip(n: nat)
    ensures ParseDecimal(Decimal(n)) == n
    decreases n
  {
    var s := Decimal(n);
    if n < 10 {
      DigitCharValue(n);
    } else {
      DecimalRoundTrip(n / 10);
      DigitCharValue(n % 10);
      assert s[..|s| - 1] == Decimal(n / 10);
    }
  }

  /** The bytes of an ASCII string. */
  function Ascii(s: string): (b: seq<byte>)
    ensures |b| == |s|
  {
    if s == [] then [] else [(s[0] as int % 256) as byte] + Ascii(s[1..])
  }

  /** The header save_gray_frame writes: "P5\n{width} {height}\n255\n". */
  function PgmHeader(width: nat, height: nat): seq<byte>
  {
    Ascii(PgmMagic + Decimal(width) + " " + Decimal(height) + PgmMaxval)
  }

  const PgmMagic: string := "P5\n"
  const PgmMaxval: string := "\n255\n"

  /** The name of the file a frame is saved to is "frame-{number}.pmg". */
  const FramePrefix: string := "frame-"
  const FrameSuffix: string := ".pmg"

  function FrameFileName(number: int): string
  {
    FramePrefix + IntToString(number) + FrameSuffix
  }

  /** Different natural numbers have different decimal forms. */
  lemma DecimalInjective(a: nat, b: nat)
    requires Decimal(a) == Decimal(b)
    ensures a == b
  {
    DecimalRoundTrip(a);
    DecimalRoundTrip(b);
  }

  /** Frames with different (non-negative, as the codec counts them) numbers are saved
      to different files. */
  lemma FrameFileNameInjective(a: nat, b: nat)
    requires FrameFileName(a) == FrameFileName(b)
    ensures a == b
  {
    var na, nb := FrameFileName(a), FrameFileName(b);
    assert |Decimal(a)| == |Decimal(b)|;
    assert na[|FramePrefix|..|na| - |FrameSuffix|] == Decimal(a);
    assert nb[|FramePrefix|..|nb| - |FrameSuffix|] == Decimal(b);
    DecimalInjective(a, b);
  }

  /** The next `count` rows, the first starting at byte `start` of `gray` and each
      `linesize` bytes after the previous one, `width` bytes each; a row that does not fit
      in `gray` panics (None), as slice indexing does. Row i of the frame starts at
      `linesize * i`. */
  function Rows(gray: seq<byte>, width: nat, linesize: nat, start: nat, count: nat): (r: Option<seq<byte>>)
    decreases count
  {
    if count == 0 then Some([])
    else if start + width > |gray| then None
    else
      match Rows(gray, width, linesize, start + linesize, count - 1)
      case None => None
      case Some(rest) => Some(gray[start..start + width] + rest)
  }

  /** save_gray_frame's file contents: the header, then `height` rows of `width` bytes;
      None when a row overruns the slice (the source panics). */
  function GrayFrameImage(f: Frame): Option<seq<byte>>
  {
    match Rows(f.gray, f.width, f.linesize, 0, f.height)
    case None => None
    case Some(rows) => Some(PgmHeader(f.width, f.height) + rows)
  }

  /** Row k of the rows taken from `start` on lies within the slice. */
  predicate RowFits(gray: seq<byte>, width: nat, linesize: nat, start: nat, k: nat)
  {
    start + Mul(k, linesize) + width <= |gray|
  }

  /** Rows succeeds exactly when every one of its rows fits. */
  lemma {:induction false} RowsSome(gray: seq<byte>, width: nat, linesize: nat, start: nat, count: nat)
    ensures Rows(gray, width, linesize, start, count).Some? <==>
      (forall k: nat :: k < count ==> RowFits(gray, width, linesize, start, k))
    decreases count
  {
    if count > 0 {
      var next := start + linesize;
      RowsSome(gray, width, linesize, next, count - 1);
      forall k: nat | k < count - 1
        ensures RowFits(gray, width, linesize, next, k) <==> RowFits(gray, width, linesize, start, k + 1)
      {
        assert Mul(k + 1, linesize) == Mul(k, linesize) + linesize;
      }
      if forall k: nat :: k < count ==> RowFits(gray, width, linesize, start, k) {
        assert RowFits(gray, width, linesize, start, 0);
        forall k: nat | k < count - 1
          ensures RowFits(gray, width, linesize, next, k)
        {
          assert RowFits(gray, width, linesize, start, k + 1);
        }
      } else {
        var k: nat :| k < count && !RowFits(gray, width, linesize, start, k);
        if k != 0 {
          assert !RowFits(gray, width, linesize, next, k - 1);
        }
      }
    }
  }

  /** A successful Rows holds `count` rows of `width` bytes. */
  lemma {:induction false} RowsLength(gray: seq<byte>, width: nat, linesize: nat, start: nat, count: nat)
    requires Rows(gray, width, linesize, start, count).Some?
    ensures |Rows(gray, width, linesize, start, count).value| == Mul(count, width)
    decreases count
  {
    if count > 0 {
      RowsLength(gray, width, linesize, start + linesize, count - 1);
    }
  }

  /** Byte j of row k of a successful Rows is byte `start + linesize * k + j` of the slice. */
  lemma {:induction false} RowsPixel(gray: seq<byte>, width: nat, linesize: nat, start: nat, count: nat, k: nat, j: nat)
    requires Rows(gray, width, linesize, start, count).Some?
    requires k < count && j < width
    ensures start + Mul(k, linesize) + j < |gray|
    ensures Mul(k, width) + j < |Rows(gray, width, linesize, start, count).value|
    ensures Rows(gray, width, linesize, start, count).value[Mul(k, width) + j] == gray[start + Mul(k, linesize) + j]
    decreases count
  {
    var row := gray[start..start + width];
    var rest := Rows(gray, width, linesize, start + linesize, count - 1).value;
    assert Rows(gray, width, linesize, start, count).value == row + rest;
    if k > 0 {
      RowsPixel(gray, width, linesize, start + linesize, count - 1, k - 1, j);
    }
  }

  /** Rows succeeds exactly when its last row fits. */
  lemma RowsLastFits(gray: seq<byte>, width: nat, linesize: nat, count: nat)
    ensures Rows(gray, width, linesize, 0, count).Some? <==>
      (count == 0 || RowFits(gray, width, linesize, 0, count - 1))
  {
    RowsSome(gray, width, linesize, 0, count);
    if count > 0 && RowFits(gray, width, linesize, 0, count - 1) {
      forall k: nat | k < count
        ensures RowFits(gray, width, linesize, 0, k)
      {
        MulMono(k, count - 1, linesize);
      }
    }
  }

  /** The rows fit exactly when the last row does: the slice holds `width * linesize`
      bytes, so row `height - 1` must end by then. */
  lemma GrayFrameFits(f: Frame)
    ensures GrayFrameImage(f).Some? <==>
      (f.height == 0 || (f.height - 1) * f.linesize + f.width <= f.width * f.linesize)
  {
    RowsLastFits(f.gray, f.width, f.linesize, f.height);
    if f.height > 0 {
      var last := Mul(f.height - 1, f.linesize);
      assert RowFits(f.gray, f.width, f.linesize, 0, f.height - 1) <==> last + f.width <= Mul(f.width, f.linesize);
      MulIsProduct(f.width, f.linesize);
      MulIsProduct(f.height - 1, f.linesize);
    }
  }

  /** The image is the header followed by exactly `height` rows of exactly `width` bytes. */
  lemma GrayFrameLength(f: Frame)
    requires GrayFrameImage(f).Some?
    ensures |GrayFrameImage(f).value| == |PgmHeader(f.width, f.height)| + f.height * f.width
    ensures GrayFrameImage(f).value[..|PgmHeader(f.width, f.height)|] == PgmHeader(f.width, f.height)
  {
    RowsLength(f.gray, f.width, f.linesize, 0, f.height);
    MulIsProduct(f.height, f.width);
  }

  /** Byte j of row i of the image is byte `i * linesize + j` of the slice: the padding
      at the end of each stride is never written. */
  lemma GrayFramePixel(f: Frame, i: nat, j: nat)
    requires GrayFrameImage(f).Some?
    requires i < f.height && j < f.width
    ensures i * f.linesize + j < |f.gray|
    ensures |PgmHeader(f.width, f.height)| + i * f.width + j < |GrayFrameImage(f).value|
    ensures GrayFrameImage(f).value[|PgmHeader(f.width, f.height)| + i * f.width + j] == f.gray[i * f.linesize + j]
  {
    RowsPixel(f.gray, f.width, f.linesize, 0, f.height, i, j);
    MulIsProduct(i, f.linesize);
    MulIsProduct(i, f.width);
  }

  /** The last row of a tall, unpadded plane ends past the plane. */
  lemma TallArith(w: nat, h: nat)
    requires 0 < w < h
    ensures (h - 1) * w + w > w * w
  {
    MulIsProduct(h, w);
    MulIsProduct(w, w);
    MulMono(w + 1, h, w);
    MulIsProduct(w + 1, w);
  }

  /** The last row of a plane no taller than it is wide ends within the plane. */
  lemma NotTallArith(w: nat, h: nat, l: nat)
    requires 0 < h <= w <= l
    ensures (h - 1) * l + w <= w * l
  {
    MulMono(h - 1, w - 1, l);
    MulIsProduct(h - 1, l);
    MulIsProduct(w, l);
  }

  /** A frame taller than it is wide, stored without padding, makes its last row
      overrun the `width * linesize` slice: save_gray_frame panics. */
  lemma TallTightFramePanics(f: Frame)
    requires 0 < f.width == f.linesize < f.height
    ensures GrayFrameImage(f).None?
  {
    GrayFrameFits(f);
    TallArith(f.width, f.height);
  }

  /** A frame no taller than it is wide, with any stride of at least `width`, fits. */
  lemma NotTallFrameFits(f: Frame)
    requires f.height <= f.width <= f.linesize
    ensures GrayFrameImage(f).Some?
  {
    GrayFrameFits(f);
    if f.height > 0 {
      NotTallArith(f.width, f.height, f.linesize);
    }
  }

  // ---------------------------------------------------------------------------
  // decode_packet and read_frame

  /** One decoder answer: the return code and, for a frame, the frame and the codec's
      `frame_number` at that point. */
  datatype DecReply = DecReply(code: int, frame: Frame, frameNumber: int)

  function ReplyCode(script: seq<DecReply>, codes: Codes): int
  {
    if script == [] then codes.eagain else script[0].code
  }

  datatype Outcome = Returned(code: int) | Panicked

  /** What one decode_packet call does: its result, its log and the decoder answers left. */
  datatype Decoded = Decoded(outcome: Outcome, log: seq<Event>, rest: seq<DecReply>)

  /** An answer that decode_packet treats as a frame. */
  predicate IsFrame(r: DecReply, codes: Codes)
  {
    r.code != codes.eagain && r.code != codes.averrorEof && r.code >= 0
  }

  /** The receive loop of decode_packet (src/av.rs:161-199). */
  function Drain(dec: seq<DecReply>, codes: Codes): (d: Decoded)
    ensures |d.rest| < |dec| || dec == []
    decreases |dec|
  {
    if dec == [] then Decoded(Returned(0), [], [])
    else
      var r := dec[0];
      if r.code == codes.eagain || r.code == codes.averrorEof then Decoded(Returned(0), [], dec[1..])
      else if r.code < 0 then Decoded(Returned(r.code), [], dec[1..])
      else
        match GrayFrameImage(r.frame)
        case None => Decoded(Panicked, [Panic], dec[1..])
        case Some(image) =>
          var d := Drain(dec[1..], codes);
          d.(log := [SaveImage(r.frameNumber, image)] + d.log)
  }

  /** decode_packet (src/av.rs:147-202): send the packet, then drain. */
  function DecodeSpec(p: Packet, dec: seq<DecReply>, codes: Codes): (d: Decoded)
    ensures |d.rest| < |dec| || dec == []
  {
    var send := ReplyCode(dec, codes);
    if send < 0 then Decoded(Returned(send), [SendPacket(p)], Next(dec))
    else
      var d := Drain(Next(dec), codes);
      d.(log := [SendPacket(p)] + d.log)
  }

  /** An answer the drain saves: a frame whose image fits its slice. */
  predicate Savable(r: DecReply, codes: Codes)
  {
    IsFrame(r, codes) && GrayFrameImage(r.frame).Some?
  }

  /** The length of the leading run of savable frames. */
  function FrameRun(dec: seq<DecReply>, codes: Codes): (n: nat)
    ensures n <= |dec|
    ensures forall k :: 0 <= k < n ==> Savable(dec[k], codes)
    ensures n < |dec| ==> !Savable(dec[n], codes)
  {
    if dec == [] || !Savable(dec[0], codes) then 0 else 1 + FrameRun(dec[1..], codes)
  }

  /** The SaveImage events for a run of savable frames. */
  function Saved(frames: seq<DecReply>, codes: Codes): seq<Event>
    requires forall k :: 0 <= k < |frames| ==> Savable(frames[k], codes)
  {
    if frames == [] then []
    else
      assert Savable(frames[0], codes);
      [SaveImage(frames[0].frameNumber, GrayFrameImage(frames[0].frame).value)]
         + Saved(frames[1..], codes)
  }

  /** How the drain ends on an answer that is not a savable frame: 0 for EAGAIN/EOF,
      the answer itself for another negative code, a panic for a frame that overruns. */
  function Stopper(r: DecReply, codes: Codes): Outcome
  {
    if r.code == codes.eagain || r.code == codes.averrorEof then Returned(0)
    else if r.code < 0 then Returned(r.code)
    else Panicked
  }

  /** The drain consumes the leading run of frames and the answer after it, and ends as
      that answer says. */
  lemma {:induction false} DrainEnds(dec: seq<DecReply>, codes: Codes)
    ensures var n := FrameRun(dec, codes);
      var d := Drain(dec, codes);
      && d.outcome == (if n == |dec| then Returned(0) else Stopper(dec[n], codes))
      && d.rest == (if n == |dec| then [] else dec[n + 1..])
    decreases |dec|
  {
    if dec != [] && Savable(dec[0], codes) {
      DrainEnds(dec[1..], codes);
      var n := FrameRun(dec[1..], codes);
      if n < |dec| - 1 {
        assert dec[1..][n + 1..] == dec[n + 2..];
      }
    }
  }

  /** A drain that does not start with a savable frame saves nothing; it logs a panic
      exactly when it panics. */
  lemma DrainStops(dec: seq<DecReply>, codes: Codes)
    requires dec != [] ==> !Savable(dec[0], codes)
    ensures var d := Drain(dec, codes);
      d.log == if d.outcome.Panicked? then [Panic] else []
  {
  }

  /** A drain that starts with a savable frame saves it, then drains the rest. */
  lemma DrainSaves(dec: seq<DecReply>, codes: Codes)
    requires dec != [] && Savable(dec[0], codes)
    ensures var d := Drain(dec[1..], codes);
      Drain(dec, codes)
        == d.(log := [SaveImage(dec[0].frameNumber, GrayFrameImage(dec[0].frame).value)] + d.log)
    ensures FrameRun(dec, codes) == 1 + FrameRun(dec[1..], codes)
  {
  }

  /** The images of a run of savable frames, from its first frame on. */
  lemma SavedCons(frames: seq<DecReply>, codes: Codes)
    requires frames != [] && forall k :: 0 <= k < |frames| ==> Savable(frames[k], codes)
    ensures Saved(frames, codes)
      == [SaveImage(frames[0].frameNumber, GrayFrameImage(frames[0].frame).value)] + Saved(frames[1..], codes)
  {
  }

  /** The drain saves every frame of the leading run, each under the codec's frame
      number and in order, and logs a panic when it stops on a frame that overruns. */
  lemma {:induction false} DrainSavesEveryFrame(dec: seq<DecReply>, codes: Codes)
    ensures var d := Drain(dec, codes);
      d.log == Saved(dec[..FrameRun(dec, codes)], codes) + (if d.outcome.Panicked? then [Panic] else [])
    decreases |dec|
  {
    if dec != [] && Savable(dec[0], codes) {
      DrainSavesEveryFrame(dec[1..], codes);
      DrainSaves(dec, codes);
      var n := FrameRun(dec[1..], codes);
      assert dec[..n + 1][1..] == dec[1..][..n];
      SavedCons(dec[..n + 1], codes);
    } else {
      DrainStops(dec, codes);
      assert dec[..FrameRun(dec, codes)] == [];
    }
  }

  /** A negative send answer is returned unchanged, and nothing is received. */
  lemma DecodeSendError(p: Packet, dec: seq<DecReply>, codes: Codes)
    requires ReplyCode(dec, codes) < 0
    ensures DecodeSpec(p, dec, codes) == Decoded(Returned(ReplyCode(dec, codes)), [SendPacket(p)], Next(dec))
  {
  }

  /** decode_packet as the source writes it: a loop on `response`. */
  method DecodePacket(p: Packet, dec: seq<DecReply>, codes: Codes) returns (d: Decoded)
    ensures d == DecodeSpec(p, dec, codes)
  {
    var log := [SendPacket(p)];
    var response := ReplyCode(dec, codes);
    var rest := Next(dec);
    if response < 0 {
      return Decoded(Returned(response), log, rest);
    }
    while response >= 0
      invariant DecodeSpec(p, dec, codes) == Drain(rest, codes).(log := log + Drain(rest, codes).log)
      decreases |rest|
    {
      var r := if rest == [] then DecReply(codes.eagain, RawFrame(0, 0, 0, []), 0) else rest[0];
      ghost var before := rest;
      response := r.code;
      rest := Next(rest);
      if response == codes.eagain || response == codes.averrorEof {
        break;
      } else if response < 0 {
        return Decoded(Returned(response), log, rest);
      }
      if response >= 0 {
        var image := GrayFrameImage(r.frame);
        if image.None? {
          return Decoded(Panicked, log + [Panic], rest);
        }
        log := log + [SaveImage(r.frameNumber, image.value)];
        assert before != [];
      }
    }
    return Decoded(Returned(0), log, rest);
  }

  /** read_frame leaves its loop after a decode that panicked or returned a negative
      result, or when the counter is already 0. */
  predicate LoopEnds(d: Decoded, toProcess: nat)
  {
    Fails(d) || toProcess == 0
  }

  /** A decode read_frame does not go on after: it panicked or returned a negative result. */
  predicate Fails(d: Decoded)
  {
    d.outcome.Panicked? || d.outcome.code < 0
  }

  /** read_frame's loop (src/av.rs:127-145): stream-0 packets are decoded until a decode
      result is negative or the counter, checked after each decode, is 0. */
  function ReadFrameSpec(demuxed: seq<Demuxed>, dec: seq<DecReply>, toProcess: nat, codes: Codes): seq<Event>
    decreases |demuxed|
  {
    if demuxed == [] || demuxed[0].ret < 0 then []
    else
      var p := demuxed[0].packet;
      if p.streamIndex != 0 then ReadFrameSpec(demuxed[1..], dec, toProcess, codes)
      else
        var d := DecodeSpec(p, dec, codes);
        d.log + (if LoopEnds(d, toProcess) then []
                 else ReadFrameSpec(demuxed[1..], d.rest, toProcess - 1, codes))
  }

  /** The stream-0 packets among `ps`, in order. */
  function StreamZero(ps: seq<Packet>): (r: seq<Packet>)
    ensures |r| <= |ps|
  {
    if ps == [] then [] else (if ps[0].streamIndex == 0 then [ps[0]] else []) + StreamZero(ps[1..])
  }

  lemma {:induction false} DecodeSendsOnePacket(p: Packet, dec: seq<DecReply>, codes: Codes)
    ensures Sent(DecodeSpec(p, dec, codes).log) == [p]
  {
    var send := ReplyCode(dec, codes);
    if send >= 0 {
      DrainSendsNothing(Next(dec), codes);
      SentAppend([SendPacket(p)], Drain(Next(dec), codes).log);
    }
  }

  lemma {:induction false} DrainSendsNothing(dec: seq<DecReply>, codes: Codes)
    ensures Sent(Drain(dec, codes).log) == []
    decreases |dec|
  {
    if dec != [] {
      var r := dec[0];
      if !(r.code == codes.eagain || r.code == codes.averrorEof) && r.code >= 0 {
        var image := GrayFrameImage(r.frame);
        if image.Some? {
          DrainSendsNothing(dec[1..], codes);
          SentAppend([SaveImage(r.frameNumber, image.value)], Drain(dec[1..], codes).log);
        }
      }
    }
  }

  /** Picking the stream-0 packets commutes with concatenation. */
  lemma {:induction false} StreamZeroAppend(a: seq<Packet>, b: seq<Packet>)
    ensures StreamZero(a + b) == StreamZero(a) + StreamZero(b)
    decreases |a|
  {
    if a != [] {
      assert (a + b)[1..] == a[1..] + b;
      StreamZeroAppend(a[1..], b);
    } else {
      assert a + b == b;
    }
  }

  /** The decoder answers left once the first `k` packets of `zero` were decoded. */
  function ScriptBefore(zero: seq<Packet>, dec: seq<DecReply>, k: nat, codes: Codes): seq<DecReply>
    decreases k
  {
    if k == 0 || zero == [] then dec else ScriptBefore(zero[1..], DecodeSpec(zero[0], dec, codes).rest, k - 1, codes)
  }

  /** The decode of packet k of `zero`, the ones before it having been decoded. */
  function PacketDecode(zero: seq<Packet>, dec: seq<DecReply>, k: nat, codes: Codes): Decoded
    requires k < |zero|
  {
    DecodeSpec(zero[k], ScriptBefore(zero, dec, k, codes), codes)
  }

  /** What read_frame is meant to send: the stream-0 packets in order, from the first on,
      up to and including the first one whose decode fails, and never more than
      `toProcess + 1` of them; it stops early only for a failure or the counter. */
  predicate SendsUntilStop(sent: seq<Packet>, zero: seq<Packet>, dec: seq<DecReply>, toProcess: nat, codes: Codes)
  {
    var n := |sent|;
    && n <= |zero| && sent == zero[..n] && n <= toProcess + 1
    && (forall k :: 0 <= k < n - 1 ==> !Fails(PacketDecode(zero, dec, k, codes)))
    && (n < |zero| ==> n == toProcess + 1 || (n > 0 && Fails(PacketDecode(zero, dec, n - 1, codes))))
  }

  /** A decode that goes on, with the counter not yet at 0, puts its packet in front of
      what the rest of the loop sends. */
  lemma SendsUntilStopCons(sent: seq<Packet>, p: Packet, zero: seq<Packet>, dec: seq<DecReply>, toProcess: nat, codes: Codes)
    requires toProcess > 0 && !Fails(DecodeSpec(p, dec, codes))
    requires SendsUntilStop(sent, zero, DecodeSpec(p, dec, codes).rest, toProcess - 1, codes)
    ensures SendsUntilStop([p] + sent, [p] + zero, dec, toProcess, codes)
  {
    var rest := DecodeSpec(p, dec, codes).rest;
    var all := [p] + zero;
    assert all[1..] == zero;
    assert [p] + sent == all[..|sent| + 1];
    forall k | 0 < k < |all|
      ensures PacketDecode(all, dec, k, codes) == PacketDecode(zero, rest, k - 1, codes)
    {
      assert all[k] == zero[k - 1];
    }
    assert PacketDecode(all, dec, 0, codes) == DecodeSpec(p, dec, codes);
  }

  /** read_frame hands the decoder the packets of stream 0 in the order read, from the
      first on, until a decode panics or returns a negative result or the counter, which
      starts at `toProcess`, is spent: it stops at the first of these and at no other
      packet, unless the input runs out first. */
  lemma {:induction false} ReadFrameSendsUntilStop(demuxed: seq<Demuxed>, dec: seq<DecReply>, toProcess: nat, codes: Codes)
    ensures SendsUntilStop(Sent(ReadFrameSpec(demuxed, dec, toProcess, codes)), StreamZero(Taken(demuxed)), dec, toProcess, codes)
    decreases |demuxed|
  {
    if demuxed == [] || demuxed[0].ret < 0 {
      assert ReadFrameSpec(demuxed, dec, toProcess, codes) == [];
      ObserversEmpty([]);
    } else {
      var p := demuxed[0].packet;
      assert Taken(demuxed) == [p] + Taken(demuxed[1..]);
      StreamZeroAppend([p], Taken(demuxed[1..]));
      assert demuxed[0..] == demuxed;
      var later := StreamZero(Taken(demuxed[1..]));
      if p.streamIndex != 0 {
        assert StreamZero([p]) == [] by { assert [p][1..] == []; }
        assert StreamZero(Taken(demuxed)) == later;
        ReadFrameSkip(demuxed, 0, dec, toProcess, codes);
        ReadFrameSendsUntilStop(demuxed[1..], dec, toProcess, codes);
      } else {
        assert StreamZero([p]) == [p] by { assert [p][1..] == []; }
        var d := DecodeSpec(p, dec, codes);
        ReadFrameDecodeStep(demuxed, 0, dec, toProcess, codes, d);
        DecodeSendsOnePacket(p, dec, codes);
        if LoopEnds(d, toProcess) {
          assert PacketDecode([p] + later, dec, 0, codes) == d;
          assert [p] == ([p] + later)[..1];
        } else {
          var tail := ReadFrameSpec(demuxed[1..], d.rest, toProcess - 1, codes);
          ReadFrameSendsUntilStop(demuxed[1..], d.rest, toProcess - 1, codes);
          SentAppend(d.log, tail);
          SendsUntilStopCons(Sent(tail), p, later, dec, toProcess, codes);
        }
      }
    }
  }

  /** read_frame decodes at most `toProcess + 1` packets: 8 with the source's starting
      count of 7. */
  lemma ReadFrameDecodesAtMost(demuxed: seq<Demuxed>, dec: seq<DecReply>, toProcess: nat, codes: Codes)
    ensures |Sent(ReadFrameSpec(demuxed, dec, toProcess, codes))| <= toProcess + 1
  {
    ReadFrameSendsUntilStop(demuxed, dec, toProcess, codes);
  }

  /** When no decode fails, read_frame decodes exactly `toProcess + 1` stream-0 packets
      (8 from the source's count of 7), or all of them if there are fewer. */
  lemma ReadFrameDecodesAll(demuxed: seq<Demuxed>, dec: seq<DecReply>, toProcess: nat, codes: Codes)
    requires var zero := StreamZero(Taken(demuxed));
      forall k :: 0 <= k < |zero| ==> !Fails(PacketDecode(zero, dec, k, codes))
    ensures var zero := StreamZero(Taken(demuxed));
      Sent(ReadFrameSpec(demuxed, dec, toProcess, codes))
        == zero[..if |zero| <= toProcess + 1 then |zero| else toProcess + 1]
  {
    ReadFrameSendsUntilStop(demuxed, dec, toProcess, codes);
  }

  /** One turn of read_frame's loop on a packet of another stream: it is skipped. */
  lemma ReadFrameSkip(demuxed: seq<Demuxed>, k: nat, dec: seq<DecReply>, toProcess: nat, codes: Codes)
    requires k < |demuxed| && demuxed[k].ret >= 0 && demuxed[k].packet.streamIndex != 0
    ensures ReadFrameSpec(demuxed[k..], dec, toProcess, codes) == ReadFrameSpec(demuxed[k + 1..], dec, toProcess, codes)
  {
    assert demuxed[k..][1..] == demuxed[k + 1..];
  }

  /** One turn of read_frame's loop on a stream-0 packet: its decode, then either the end
      or the rest of the loop with one packet fewer to process. */
  lemma ReadFrameDecodeStep(demuxed: seq<Demuxed>, k: nat, dec: seq<DecReply>, toProcess: nat, codes: Codes, d: Decoded)
    requires k < |demuxed| && demuxed[k].ret >= 0 && demuxed[k].packet.streamIndex == 0
    requires d == DecodeSpec(demuxed[k].packet, dec, codes)
    ensures LoopEnds(d, toProcess) ==> ReadFrameSpec(demuxed[k..], dec, toProcess, codes) == d.log
    ensures !LoopEnds(d, toProcess) ==>
      ReadFrameSpec(demuxed[k..], dec, toProcess, codes) == d.log + ReadFrameSpec(demuxed[k + 1..], d.rest, toProcess - 1, codes)
  {
    assert demuxed[k..][1..] == demuxed[k + 1..];
    assert LoopEnds(d, toProcess) ==> d.log + [] == d.log;
  }

  /** read_frame as the source writes it, with the counter starting at 7. */
  method ReadFrame(demuxed: seq<Demuxed>, dec: seq<DecReply>, codes: Codes) returns (log: seq<Event>)
    ensures log == ReadFrameSpec(demuxed, dec, 7, codes)
  {
    ghost var whole := ReadFrameSpec(demuxed, dec, 7, codes);
    var packetsToProcess: nat := 7;
    var k := 0;
    var rest := dec;
    log := [];
    assert demuxed[0..] == demuxed;
    while k < |demuxed| && demuxed[k].ret >= 0
      invariant k <= |demuxed|
      invariant whole == log + ReadFrameSpec(demuxed[k..], rest, packetsToProcess, codes)
      decreases |demuxed| - k
    {
      var p := demuxed[k].packet;
      if p.streamIndex == 0 {
        var d := DecodePacket(p, rest, codes);
        ReadFrameDecodeStep(demuxed, k, rest, packetsToProcess, codes, d);
        log := log + d.log;
        if d.outcome.Panicked? || d.outcome.code < 0 {
          break;
        }
        if packetsToProcess == 0 {
          break;
        }
        packetsToProcess := packetsToProcess - 1;
        rest := d.rest;
      } else {
        ReadFrameSkip(demuxed, k, rest, packetsToProcess, codes);
      }
      k := k + 1;
    }
  }
}
