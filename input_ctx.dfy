/**
 * src/av/input_ctx.rs: the input format context with the index of the video stream and
 * its decoder, and the read loop that feeds that decoder until the first frame.
 */
module InputCtxs {
  import opened Utils
  import opened Ffmpeg
  import Av

  /** What one decode_packet call answers, the messages check_error printed and the
      decoder answers it leaves. */
  datatype Decoded = Decoded(response: int, logged: seq<Event>, rest: seq<int>)

  /** The receive answers decode_packet takes for "no frame now": AVERROR(EAGAIN) and
      AVERROR(AVERROR_EOF) as input_ctx.rs spells them. */
  predicate Sentinel(code: int, codes: Codes)
  {
    code == codes.eagain || code == codes.averrorEof
  }

  /** The decoder answers a frame to the packet: it accepts the packet and its first
      receive answer is neither a sentinel nor an error. */
  predicate FrameArrives(dec: seq<int>, codes: Codes)
  {
    var got := Answer(Next(dec), codes.eagain);
    Answer(dec, codes.eagain) >= 0 && !Sentinel(got, codes) && got >= 0
  }

  /** decode_packet (src/av/input_ctx.rs:93-120). A refused packet returns the send answer;
      otherwise exactly one answer is received: EAGAIN/EOF give 0, another error is
      returned as is, and a frame gives -1. Both errors pass through check_error, which
      prints them. The loop on `response` never turns twice. */
  function DecodeOutcome(dec: seq<int>, codes: Codes): (d: Decoded)
    ensures Answer(dec, codes.eagain) < 0 ==>
      d == Decoded(Answer(dec, codes.eagain), Diagnostic(Answer(dec, codes.eagain)), Next(dec))
    ensures Answer(dec, codes.eagain) >= 0 ==> d.rest == Next(Next(dec))
    ensures Answer(dec, codes.eagain) >= 0 && Sentinel(Answer(Next(dec), codes.eagain), codes) ==>
      d.response == 0 && d.logged == []
    ensures var got := Answer(Next(dec), codes.eagain);
      Answer(dec, codes.eagain) >= 0 && !Sentinel(got, codes) && got < 0 ==>
        d.response == got && d.logged == Diagnostic(got)
    ensures FrameArrives(dec, codes) ==> d.response == -1 && d.logged == []
    ensures d.response >= 0 ==> d.response == 0 && !FrameArrives(dec, codes) && d.logged == []
  {
    var send := Answer(dec, codes.eagain);
    if send < 0 then Decoded(send, Diagnostic(send), Next(dec))
    else
      var got := Answer(Next(dec), codes.eagain);
      var rest := Next(Next(dec));
      if Sentinel(got, codes) then Decoded(0, [], rest)
      else if got < 0 then Decoded(got, Diagnostic(got), rest)
      else Decoded(-1, [], rest)
  }

  /** The decoder answers left after `k` decode_packet calls that each went on. */
  function ScriptAfter(dec: seq<int>, k: nat, codes: Codes): seq<int>
  {
    if k == 0 then dec else ScriptAfter(DecodeOutcome(dec, codes).rest, k - 1, codes)
  }

  /** What the k-th decode_packet call (from 0) answers, the ones before having gone on. */
  function DecodeAt(dec: seq<int>, k: nat, codes: Codes): Decoded
  {
    DecodeOutcome(ScriptAfter(dec, k, codes), codes)
  }

  /** How read_video_frame's loop ends: the input ran out, a decode result was negative,
      or the decoder context was still null (avcodec_send_packet dereferences it). */
  datatype Stop = EndOfInput | DecodeFailed(response: int) | NoDecoder

  /** The packets read_video_frame hands to decode_packet, how it stops and what it
      printed or panicked with. */
  datatype VideoRead = VideoRead(decoded: seq<Packet>, stop: Stop, logged: seq<Event>)

  /** read_video_frame's loop (src/av/input_ctx.rs:81-91); `hasDecoder` says whether
      open_video_stream stored a decoder context. */
  function ReadVideoFrameSpec(demuxed: seq<Demuxed>, dec: seq<int>, videoStream: int, hasDecoder: bool,
                              codes: Codes): VideoRead
    decreases |demuxed|
  {
    if demuxed == [] || demuxed[0].ret < 0 then VideoRead([], EndOfInput, [])
    else
      var p := demuxed[0].packet;
      if p.streamIndex != videoStream then ReadVideoFrameSpec(demuxed[1..], dec, videoStream, hasDecoder, codes)
      else if !hasDecoder then VideoRead([p], NoDecoder, [Panic])
      else
        var d := DecodeOutcome(dec, codes);
        if d.response < 0 then VideoRead([p], DecodeFailed(d.response), d.logged)
        else
          var v := ReadVideoFrameSpec(demuxed[1..], d.rest, videoStream, hasDecoder, codes);
          v.(decoded := [p] + v.decoded, logged := d.logged + v.logged)
  }

  /** The packets of stream `videoStream` among `ps`, in order. */
  function OfStream(ps: seq<Packet>, videoStream: int): (r: seq<Packet>)
    ensures |r| <= |ps|
    ensures forall k :: 0 <= k < |r| ==> r[k].streamIndex == videoStream
  {
    if ps == [] then []
    else (if ps[0].streamIndex == videoStream then [ps[0]] else []) + OfStream(ps[1..], videoStream)
  }

  /** The stop the loop is meant to make with a decoder: the decoder is handed the video
      packets in the order read, each decode that is not negative goes on, the first
      negative one stops the loop with its result and its message, and running out of
      input stops it with nothing printed. */
  predicate StopsAtFirstFailure(v: VideoRead, videos: seq<Packet>, dec: seq<int>, codes: Codes)
  {
    var n := |v.decoded|;
    && n <= |videos| && v.decoded == videos[..n]
    && (v.stop == EndOfInput ==>
          n == |videos| && v.logged == [] && forall k :: 0 <= k < n ==> DecodeAt(dec, k, codes).response >= 0)
    && (v.stop.DecodeFailed? ==>
          && n > 0 && v.stop.response < 0
          && v.stop.response == DecodeAt(dec, n - 1, codes).response
          && v.logged == DecodeAt(dec, n - 1, codes).logged
          && forall k :: 0 <= k < n - 1 ==> DecodeAt(dec, k, codes).response >= 0)
    && !v.stop.NoDecoder?
  }

  /** The first video packet, once the decoded ones are prepended to a later read, is
      still the first; a failure at decode k of the rest is one at decode k + 1. */
  lemma StopsAtFirstFailureCons(v: VideoRead, p: Packet, videos: seq<Packet>, dec: seq<int>, codes: Codes)
    requires DecodeOutcome(dec, codes).response >= 0
    requires StopsAtFirstFailure(v, videos, DecodeOutcome(dec, codes).rest, codes)
    ensures StopsAtFirstFailure(v.(decoded := [p] + v.decoded, logged := DecodeOutcome(dec, codes).logged + v.logged),
                                [p] + videos, dec, codes)
  {
    var d := DecodeOutcome(dec, codes);
    var w := v.(decoded := [p] + v.decoded, logged := d.logged + v.logged);
    var n := |v.decoded|;
    assert w.decoded == ([p] + videos)[..n + 1];
    assert w.logged == v.logged;
    forall k | 0 < k <= n
      ensures DecodeAt(dec, k, codes) == DecodeAt(d.rest, k - 1, codes)
    {
    }
  }

  /** With a decoder, read_video_frame hands the decoder only packets of the video
      stream, in the order read: each decode that is not negative goes on, the first
      negative result stops the loop and is what it stopped with, and if none is
      negative the input runs out after every video packet was decoded. */
  lemma {:induction false} ReadVideoFrameSelects(demuxed: seq<Demuxed>, dec: seq<int>, videoStream: int, codes: Codes)
    ensures StopsAtFirstFailure(ReadVideoFrameSpec(demuxed, dec, videoStream, true, codes),
                                OfStream(Taken(demuxed), videoStream), dec, codes)
    decreases |demuxed|
  {
    var v := ReadVideoFrameSpec(demuxed, dec, videoStream, true, codes);
    if demuxed == [] || demuxed[0].ret < 0 {
      assert OfStream(Taken(demuxed), videoStream) == [];
    } else {
      var p := demuxed[0].packet;
      assert Taken(demuxed) == [p] + Taken(demuxed[1..]);
      var later := OfStream(Taken(demuxed[1..]), videoStream);
      assert OfStream(Taken(demuxed), videoStream) == (if p.streamIndex == videoStream then [p] else []) + later;
      if p.streamIndex != videoStream {
        ReadVideoFrameSelects(demuxed[1..], dec, videoStream, codes);
      } else {
        var d := DecodeOutcome(dec, codes);
        if d.response >= 0 {
          ReadVideoFrameSelects(demuxed[1..], d.rest, videoStream, codes);
          StopsAtFirstFailureCons(ReadVideoFrameSpec(demuxed[1..], d.rest, videoStream, true, codes), p, later, dec, codes);
        } else {
          assert v.decoded == ([p] + later)[..1];
        }
      }
    }
  }

  /** Without a decoder context, the first video packet read crashes the loop in
      avcodec_send_packet; with no video packet the input runs out. */
  lemma {:induction false} ReadVideoFrameNoDecoder(demuxed: seq<Demuxed>, dec: seq<int>, videoStream: int, codes: Codes)
    ensures var videos := OfStream(Taken(demuxed), videoStream);
      ReadVideoFrameSpec(demuxed, dec, videoStream, false, codes)
        == if videos == [] then VideoRead([], EndOfInput, []) else VideoRead(videos[..1], NoDecoder, [Panic])
    decreases |demuxed|
  {
    if demuxed != [] && demuxed[0].ret >= 0 {
      var p := demuxed[0].packet;
      assert Taken(demuxed) == [p] + Taken(demuxed[1..]);
      var later := OfStream(Taken(demuxed[1..]), videoStream);
      assert OfStream(Taken(demuxed), videoStream) == (if p.streamIndex == videoStream then [p] else []) + later;
      if p.streamIndex != videoStream {
        ReadVideoFrameNoDecoder(demuxed[1..], dec, videoStream, codes);
      } else {
        assert ([p] + later)[..1] == [p];
      }
    }
  }

  /** read_video_frame ends at the first decoded frame: when the decoder answers a frame
      to video packet k and nothing negative to the ones before, the loop decodes the
      video packets up to k and stops with the -1 of decode_packet, printing nothing. */
  lemma FirstFrameEndsRead(demuxed: seq<Demuxed>, dec: seq<int>, videoStream: int, codes: Codes, k: nat)
    requires k < |OfStream(Taken(demuxed), videoStream)|
    requires FrameArrives(ScriptAfter(dec, k, codes), codes)
    requires forall i :: 0 <= i < k ==> DecodeAt(dec, i, codes).response >= 0
    ensures ReadVideoFrameSpec(demuxed, dec, videoStream, true, codes)
      == VideoRead(OfStream(Taken(demuxed), videoStream)[..k + 1], DecodeFailed(-1), [])
  {
    var v := ReadVideoFrameSpec(demuxed, dec, videoStream, true, codes);
    ReadVideoFrameSelects(demuxed, dec, videoStream, codes);
    assert DecodeAt(dec, k, codes).response == -1;
    assert v.stop.DecodeFailed?;
    assert |v.decoded| == k + 1;
  }

  /** InputCtx: the input format context as probed, the video stream index and the decoder
      context of that stream (None for the null pointer). */
  class InputCtx {
    var av: FormatContext
    var videoStreamIndex: int
    var codec: Option<nat>

    /** new: opens and probes the input (FFmpeg gives `probed`); no decoder yet. */
    constructor (probed: FormatContext)
      ensures av == probed && videoStreamIndex == 0 && codec == None
    {
      av := probed;
      videoStreamIndex := 0;
      codec := None;
    }

    /** get_streams: the `nb_streams` streams of the context, in container order. */
    function GetStreams(): (s: seq<Stream>)
      reads this
      ensures s == Av.GetStreams(av)
    {
      av.streams
    }

    /** get_stream: element i of get_streams; indexing past the end panics (None). */
    function GetStream(i: nat): (r: Option<Stream>)
      reads this
      ensures r.Some? <==> i < |GetStreams()|
      ensures r.Some? ==> r.value == GetStreams()[i]
    {
      Av.GetStream(av, i)
    }

    /** open_video_stream: the stream index is cast to usize; a missing stream or one that
        is not video panics before any field changes. Otherwise the decoder context
        `decoder` (allocated and opened by FFmpeg) and the index are stored. */
    method OpenVideoStream(i: int, decoder: nat) returns (ok: bool)
      modifies this
      ensures av == old(av)
      ensures ok <==> AsUsize(i) < |av.streams| && av.streams[AsUsize(i)].codecpar.codecType == Video
      ensures ok ==> videoStreamIndex == i && codec == Some(decoder)
      ensures !ok ==> videoStreamIndex == old(videoStreamIndex) && codec == old(codec)
    {
      var stream := GetStream(AsUsize(i));
      if stream.None? {
        return false;
      }
      if stream.value.codecpar.codecType != Video {
        return false;
      }
      videoStreamIndex := i;
      codec := Some(decoder);
      ok := true;
    }

    /** decode_packet as the source writes it. Every path through the body of its
        `while response >= 0` loop leaves the loop (a break on a sentinel, a return on an
        error or on a frame), so the loop body runs exactly once and is written here
        without the loop. */
    method DecodePacket(dec: seq<int>, codes: Codes) returns (d: Decoded)
      ensures d == DecodeOutcome(dec, codes)
    {
      var response := Answer(dec, codes.eagain);
      var rest := Next(dec);
      var c := CheckError(response);
      if c.isError {
        return Decoded(response, Diagnostic(response), rest);
      }
      response := Answer(rest, codes.eagain);
      rest := Next(rest);
      if response == codes.eagain || response == codes.averrorEof {
        return Decoded(0, [], rest);
      }
      c := CheckError(response);
      if c.isError {
        return Decoded(response, Diagnostic(response), rest);
      }
      assert response >= 0;
      return Decoded(-1, [], rest);
    }

    /** read_video_frame as the source writes it. */
    method ReadVideoFrame(demuxed: seq<Demuxed>, dec: seq<int>, codes: Codes) returns (v: VideoRead)
      ensures v == ReadVideoFrameSpec(demuxed, dec, videoStreamIndex, codec.Some?, codes)
    {
      var videoStream, hasDecoder := videoStreamIndex, codec.Some?;
      var k := 0;
      var rest := dec;
      var decoded: seq<Packet> := [];
      var logged: seq<Event> := [];
      while k < |demuxed| && demuxed[k].ret >= 0
        invariant k <= |demuxed|
        invariant ReadVideoFrameSpec(demuxed, dec, videoStream, hasDecoder, codes)
          == var t := ReadVideoFrameSpec(demuxed[k..], rest, videoStream, hasDecoder, codes);
             t.(decoded := decoded + t.decoded, logged := logged + t.logged)
        decreases |demuxed| - k
      {
        ghost var t := ReadVideoFrameSpec(demuxed[k..], rest, videoStream, hasDecoder, codes);
        assert demuxed[k..][0] == demuxed[k];
        assert demuxed[k..][1..] == demuxed[k + 1..];
        var p := demuxed[k].packet;
        if p.streamIndex == videoStream {
          if !hasDecoder {
            assert t == VideoRead([p], NoDecoder, [Panic]);
            return VideoRead(decoded + [p], NoDecoder, logged + [Panic]);
          }
          var d := DecodePacket(rest, codes);
          if d.response < 0 {
            assert t == VideoRead([p], DecodeFailed(d.response), d.logged);
            return VideoRead(decoded + [p], DecodeFailed(d.response), logged + d.logged);
          }
          ghost var after := ReadVideoFrameSpec(demuxed[k + 1..], d.rest, videoStream, hasDecoder, codes);
          assert t == after.(decoded := [p] + after.decoded, logged := d.logged + after.logged);
          assert decoded + ([p] + after.decoded) == decoded + [p] + after.decoded;
          assert logged + (d.logged + after.logged) == logged + d.logged + after.logged;
          decoded := decoded + [p];
          logged := logged + d.logged;
          rest := d.rest;
        } else {
          assert t == ReadVideoFrameSpec(demuxed[k + 1..], rest, videoStream, hasDecoder, codes);
        }
        k := k + 1;
      }
      assert ReadVideoFrameSpec(demuxed[k..], rest, videoStream, hasDecoder, codes) == VideoRead([], EndOfInput, []);
      assert decoded + [] == decoded && logged + [] == logged;
      return VideoRead(decoded, EndOfInput, logged);
    }
  }
}
