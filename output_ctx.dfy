/**
 * src/av/output_ctx.rs: the output format context and the table of output streams,
 * which only ever grows at its end.
 */
module OutputCtxs {
  import opened Utils
  import opened Ffmpeg

  /** What add_stream makes the muxer do for a stream it could allocate: the allocation,
      the parameter copy and the report of a failed copy. */
  function AddStreamLog(params: CodecParams, ref: nat, copyResponse: int): (log: seq<Event>)
    ensures Copied(log) == [params] && Writes(log) == [] && Sent(log) == []
    ensures forall k :: 0 <= k < |log| ==> IsStreamSetup(log[k])
  {
    var d := Diagnostic(copyResponse);
    var log := [NewStream(ref), CopyParams(ref, params)] + d;
    ObserversEmpty(d);
    assert log[1..][1..] == d;
    log
  }

  /** The flags after the global-header request of src/cmds/transmux.rs:40-42 (and
      src/cmds/transcode.rs:91-93): when the output format wants global headers, the
      codec flag AV_CODEC_FLAG_GLOBAL_HEADER is OR-ed into the format context flags. The
      source tests `oformat.flags & AVFMT_GLOBALHEADER > 0` on i32 values; as the mask is
      positive, that is a test for a non-zero result. */
  function GlobalHeaderFlags(flags: bv32, formatFlags: bv32): (r: bv32)
    ensures r & AV_CODEC_FLAG_GLOBAL_HEADER != 0 <==>
      (flags & AV_CODEC_FLAG_GLOBAL_HEADER != 0 || formatFlags & AVFMT_GLOBALHEADER != 0)
    ensures r & !AV_CODEC_FLAG_GLOBAL_HEADER == flags & !AV_CODEC_FLAG_GLOBAL_HEADER
    ensures formatFlags & AVFMT_GLOBALHEADER == 0 ==> r == flags
  {
    if formatFlags & AVFMT_GLOBALHEADER != 0 then flags | AV_CODEC_FLAG_GLOBAL_HEADER else flags
  }

  /** Requesting global headers a second time changes nothing. */
  lemma GlobalHeaderIdempotent(flags: bv32, formatFlags: bv32)
    ensures GlobalHeaderFlags(GlobalHeaderFlags(flags, formatFlags), formatFlags) == GlobalHeaderFlags(flags, formatFlags)
  {
  }

  /** OutputCtx. `streams` is the vector of output streams (identified by the reference
      FFmpeg allocated for each); `events` records, in order, the FFmpeg calls made so far
      (the commands add the calls they make directly to it). */
  class OutputCtx {
    /** The flags of the output format (`oformat->flags`). */
    const formatFlags: bv32
    /** The flags of the format context, which the commands may update. */
    var flags: bv32
    var streams: seq<nat>
    var events: seq<Event>

    /** new: the format context is allocated by FFmpeg (for the format it guesses from the
        path, with `formatFlags`) and the vector starts empty. */
    constructor (formatFlags: bv32, flags: bv32)
      ensures this.formatFlags == formatFlags && this.flags == flags
      ensures streams == [] && events == []
    {
      this.formatFlags := formatFlags;
      this.flags := flags;
      streams := [];
      events := [];
    }

    /** add_stream: `newStream` is what avformat_new_stream answers (None for null),
        `copyResponse` what avcodec_parameters_copy answers. A null stream fails the
        assertion (a panic); a failed copy is only reported and the stream is still
        appended. */
    method AddStream(params: CodecParams, newStream: Option<nat>, copyResponse: int) returns (ok: bool)
      modifies this
      ensures flags == old(flags)
      ensures ok <==> newStream.Some?
      ensures ok ==> streams == old(streams) + [newStream.value]
      ensures ok ==> events == old(events) + AddStreamLog(params, newStream.value, copyResponse)
      ensures !ok ==> streams == old(streams) && events == old(events) + [Panic]
    {
      if newStream.None? {
        events := events + [Panic];
        return false;
      }
      var stream := newStream.value;
      events := events + [NewStream(stream), CopyParams(stream, params)];
      var response := copyResponse;
      var checked := CheckError(response);
      if checked.printed.Some? {
        events := events + [ErrorLogged(checked.printed.value)];
      }
      streams := streams + [stream];
      ok := true;
    }

    /** open_file: avio_open, then the header write (which sees the current flags); each
        answer is only reported. A path with an interior NUL byte makes the C-string
        conversion panic first. */
    method OpenFile(path: seq<byte>, openResponse: int, headerResponse: int) returns (ok: bool)
      modifies this`events
      ensures ok <==> StrToCStr(path).Some?
      ensures ok ==> events == old(events) + OpenLog(flags, openResponse, headerResponse)
      ensures !ok ==> events == old(events) + [Panic]
    {
      if StrToCStr(path).None? {
        events := events + [Panic];
        return false;
      }
      var response := openResponse;
      var calls := [OpenIo] + Diagnostic(response);
      response := headerResponse;
      calls := calls + [WriteHeader(flags)] + Diagnostic(response);
      events := events + calls;
      ok := true;
    }

    /** The global-header request the commands make on the format context. */
    method RequestGlobalHeader()
      modifies this`flags
      ensures flags == GlobalHeaderFlags(old(flags), formatFlags)
    {
      if formatFlags & AVFMT_GLOBALHEADER != 0 {
        flags := flags | AV_CODEC_FLAG_GLOBAL_HEADER;
      }
    }

    /** get_streams: the whole vector, in the order the streams were added. */
    function GetStreams(): seq<nat>
      reads this
    {
      streams
    }

    /** get_stream: the i-th stream added; indexing past the end panics (None). */
    function GetStream(i: nat): (r: Option<nat>)
      reads this
      ensures r.Some? <==> i < |GetStreams()|
      ensures r.Some? ==> r.value == GetStreams()[i]
    {
      if i < |streams| then Some(streams[i]) else None
    }
  }
}
