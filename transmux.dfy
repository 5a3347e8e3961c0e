/**
 * src/cmds/transmux.rs: copies every stream into a new container, opening a decoder per
 * input stream on the way, and passes every packet read through to the muxer with its
 * timestamps converted. Unlike remux there is no bounds check on the stream index and no
 * unref.
 */
module Transmux {
  import opened Utils
  import opened Ffmpeg
  import opened InputCtxs
  import opened OutputCtxs

  /** What the setup loop does for input stream i: open a decoder for it, allocate an output
      stream and copy the parameters over (the answer of the copy is ignored). */
  function StreamSetup(i: nat, stream: Stream, mux: Muxer): (log: seq<Event>)
    ensures |log| == 3
    ensures Copied(log) == [stream.codecpar] && Writes(log) == []
    ensures forall k :: 0 <= k < |log| ==> IsStreamSetup(log[k])
  {
    var log := [OpenDecoder(i), NewStream(mux.newStream(i)), CopyParams(mux.newStream(i), stream.codecpar)];
    assert log[2..][1..] == [];
    assert log[1..][1..] == log[2..];
    assert Copied(log[2..]) == [stream.codecpar] && Writes(log[2..]) == [];
    assert Copied(log[1..]) == [stream.codecpar] && Writes(log[1..]) == [];
    log
  }

  /** The setup loop (src/cmds/transmux.rs:27-45) over the input streams. */
  function SetupLog(streams: seq<Stream>, mux: Muxer): (log: seq<Event>)
    decreases |streams|
  {
    if streams == [] then []
    else
      var i := |streams| - 1;
      SetupLog(streams[..i], mux) + StreamSetup(i, streams[i], mux)
  }

  /** The format context flags after the setup loop over `n` streams: the global-header
      request is made once per stream, so with no stream the flags stay as they were. */
  function SetupFlags(flags: bv32, formatFlags: bv32, n: nat): (r: bv32)
    ensures r & AV_CODEC_FLAG_GLOBAL_HEADER != 0 <==>
      (flags & AV_CODEC_FLAG_GLOBAL_HEADER != 0 || (n > 0 && formatFlags & AVFMT_GLOBALHEADER != 0))
    ensures r & !AV_CODEC_FLAG_GLOBAL_HEADER == flags & !AV_CODEC_FLAG_GLOBAL_HEADER
  {
    if n == 0 then flags else GlobalHeaderFlags(flags, formatFlags)
  }

  /** One more stream: one more request, which after the first changes nothing. */
  lemma SetupFlagsStep(flags: bv32, formatFlags: bv32, n: nat)
    ensures SetupFlags(flags, formatFlags, n + 1) == GlobalHeaderFlags(SetupFlags(flags, formatFlags, n), formatFlags)
  {
    if n > 0 {
      GlobalHeaderIdempotent(flags, formatFlags);
    }
  }

  /** The setup loop opens one decoder and makes one output stream per input stream, in
      input order: the events for stream i are at positions 3i to 3i + 2. */
  lemma {:induction false} SetupPerStream(streams: seq<Stream>, mux: Muxer)
    ensures |SetupLog(streams, mux)| == 3 * |streams|
    ensures forall i :: 0 <= i < |streams| ==>
      SetupLog(streams, mux)[3 * i..3 * i + 3] == StreamSetup(i, streams[i], mux)
    decreases |streams|
  {
    if streams != [] {
      var n := |streams| - 1;
      var before := SetupLog(streams[..n], mux);
      SetupPerStream(streams[..n], mux);
      forall i | 0 <= i < |streams|
        ensures SetupLog(streams, mux)[3 * i..3 * i + 3] == StreamSetup(i, streams[i], mux)
      {
        if i < n {
          assert SetupLog(streams, mux)[3 * i..3 * i + 3] == before[3 * i..3 * i + 3];
        } else {
          assert SetupLog(streams, mux)[3 * i..3 * i + 3] == StreamSetup(n, streams[n], mux);
        }
      }
    }
  }

  /** The setup loop copies the parameters of every input stream, in input order, and does
      nothing but stream setup. */
  lemma {:induction false} SetupCopiesInOrder(streams: seq<Stream>, mux: Muxer)
    ensures Copied(SetupLog(streams, mux)) == CodecParamsOf(streams)
    ensures Writes(SetupLog(streams, mux)) == []
    ensures forall k :: 0 <= k < |SetupLog(streams, mux)| ==> IsStreamSetup(SetupLog(streams, mux)[k])
    decreases |streams|
  {
    if streams != [] {
      var i := |streams| - 1;
      var s := StreamSetup(i, streams[i], mux);
      SetupCopiesInOrder(streams[..i], mux);
      CopiedAppend(SetupLog(streams[..i], mux), s);
      WritesAppend(SetupLog(streams[..i], mux), s);
    }
  }

  /** The length of the leading run of packets whose index, cast to usize, names a stream. */
  function InRangeRun(ps: seq<Packet>, n: nat): (m: nat)
    ensures m <= |ps|
    ensures forall k :: 0 <= k < m ==> AsUsize(ps[k].streamIndex) < n
    ensures m < |ps| ==> AsUsize(ps[m].streamIndex) >= n
  {
    if ps == [] || AsUsize(ps[0].streamIndex) >= n then 0 else 1 + InRangeRun(ps[1..], n)
  }

  /** The packets transmux should write for packets that all name a stream: each one
      converted from its input stream's time base to its output stream's. */
  function Rescaled(ps: seq<Packet>, streams: seq<Stream>, tbs: seq<Rational>, rs: Rescaler): (qs: seq<Packet>)
    requires |tbs| == |streams|
    requires forall k :: 0 <= k < |ps| ==> AsUsize(ps[k].streamIndex) < |streams|
    ensures |qs| == |ps|
  {
    seq(|ps|, k requires 0 <= k < |ps| =>
      var i := AsUsize(ps[k].streamIndex);
      RescaleTs(ps[k], streams[i].timeBase, tbs[i], rs))
  }

  /** The read loop (src/cmds/transmux.rs:49-67) over the packets read before the first
      negative answer: each packet is converted and written, the write answer ignored; an
      index past the end of the stream tables panics. */
  function PacketsLog(ps: seq<Packet>, streams: seq<Stream>, tbs: seq<Rational>, rs: Rescaler): Pumped
    requires |tbs| == |streams|
  {
    if ps == [] then Pumped([], Drained)
    else
      var index := AsUsize(ps[0].streamIndex);
      if index >= |streams| then Pumped([Panic], Crashed)
      else
        var rest := PacketsLog(ps[1..], streams, tbs, rs);
        rest.(log := [Write(RescaleTs(ps[0], streams[index].timeBase, tbs[index], rs))] + rest.log)
  }

  /** The read loop writes the converted form of every packet up to the first one whose
      index names no stream. */
  lemma {:induction false} PacketsLogWrites(ps: seq<Packet>, streams: seq<Stream>, tbs: seq<Rational>, rs: Rescaler)
    requires |tbs| == |streams|
    ensures var m := InRangeRun(ps, |streams|);
      Writes(PacketsLog(ps, streams, tbs, rs).log) == Rescaled(ps[..m], streams, tbs, rs)
  {
    var m := InRangeRun(ps, |streams|);
    if ps == [] {
    } else if AsUsize(ps[0].streamIndex) >= |streams| {
      assert ps[..m] == [];
    } else {
      var index := AsUsize(ps[0].streamIndex);
      var q := RescaleTs(ps[0], streams[index].timeBase, tbs[index], rs);
      var rest := PacketsLog(ps[1..], streams, tbs, rs);
      PacketsLogWrites(ps[1..], streams, tbs, rs);
      WritesAppend([Write(q)], rest.log);
      assert ps[..m][1..] == ps[1..][..m - 1];
      assert Rescaled(ps[..m], streams, tbs, rs) == [q] + Rescaled(ps[1..][..m - 1], streams, tbs, rs);
    }
  }

  /** The read loop drains exactly when every packet names a stream; otherwise it panics,
      as its last act. */
  lemma {:induction false} PacketsLogExit(ps: seq<Packet>, streams: seq<Stream>, tbs: seq<Rational>, rs: Rescaler)
    requires |tbs| == |streams|
    ensures var pumped := PacketsLog(ps, streams, tbs, rs);
      && (pumped.exit == Drained <==> InRangeRun(ps, |streams|) == |ps|)
      && (pumped.exit != Drained ==> pumped.exit == Crashed && pumped.log != [] && pumped.log[|pumped.log| - 1] == Panic)
  {
    if ps != [] && AsUsize(ps[0].streamIndex) < |streams| {
      var index := AsUsize(ps[0].streamIndex);
      var q := RescaleTs(ps[0], streams[index].timeBase, tbs[index], rs);
      var rest := PacketsLog(ps[1..], streams, tbs, rs);
      PacketsLogExit(ps[1..], streams, tbs, rs);
      assert PacketsLog(ps, streams, tbs, rs) == rest.(log := [Write(q)] + rest.log);
    }
  }

  /** The read loop never copies parameters or writes the trailer. */
  lemma {:induction false} PacketsLogQuiet(ps: seq<Packet>, streams: seq<Stream>, tbs: seq<Rational>, rs: Rescaler)
    requires |tbs| == |streams|
    ensures var pumped := PacketsLog(ps, streams, tbs, rs);
      Count(pumped.log, Trailer) == 0 && Copied(pumped.log) == []
  {
    if ps != [] && AsUsize(ps[0].streamIndex) < |streams| {
      var index := AsUsize(ps[0].streamIndex);
      var q := RescaleTs(ps[0], streams[index].timeBase, tbs[index], rs);
      var rest := PacketsLog(ps[1..], streams, tbs, rs);
      PacketsLogQuiet(ps[1..], streams, tbs, rs);
      assert PacketsLog(ps, streams, tbs, rs).log == [Write(q)] + rest.log;
      CountAppend([Write(q)], rest.log, Trailer);
      CopiedAppend([Write(q)], rest.log);
    }
  }

  /** The two lemmas above together. */
  lemma PacketsLogEnds(ps: seq<Packet>, streams: seq<Stream>, tbs: seq<Rational>, rs: Rescaler)
    requires |tbs| == |streams|
    ensures var pumped := PacketsLog(ps, streams, tbs, rs);
      && (pumped.exit == Drained <==> InRangeRun(ps, |streams|) == |ps|)
      && (pumped.exit != Drained ==> pumped.exit == Crashed && pumped.log != [] && pumped.log[|pumped.log| - 1] == Panic)
      && Count(pumped.log, Trailer) == 0 && Copied(pumped.log) == []
  {
    PacketsLogExit(ps, streams, tbs, rs);
    PacketsLogQuiet(ps, streams, tbs, rs);
  }

  /** What happens before the first read: the setup loop, then open_file with the flags
      the setup left. */
  function Prelude(streams: seq<Stream>, mux: Muxer): seq<Event>
  {
    SetupLog(streams, mux) + OpenLog(SetupFlags(mux.initialFlags, mux.formatFlags, |streams|), mux.openResult, mux.headerResult)
  }

  /** Everything transmux makes FFmpeg do, and how it ends: a panic before any call when
      the input is missing or a path does not convert; otherwise the prelude, the read
      loop, and the trailer if the loop drained. */
  function TransmuxLog(inputExists: bool, inputPath: seq<byte>, outputPath: seq<byte>, probed: FormatContext,
                       mux: Muxer, rs: Rescaler, demuxed: seq<Demuxed>): Pumped
  {
    if !CanStart(inputExists, inputPath, outputPath) then Pumped([Panic], Crashed)
    else
      var streams := probed.streams;
      var pumped := PacketsLog(Taken(demuxed), streams, UnrequestedTimeBases(streams, mux), rs);
      Pumped(Prelude(streams, mux) + pumped.log + (if pumped.exit == Drained then [Trailer] else []), pumped.exit)
  }

  /** The prelude sets up one output stream per input stream, copying the parameters in
      input order, and only then opens the output, writing the header with the flags the
      setup left; it writes no packet and no trailer. */
  lemma PreludeInOrder(streams: seq<Stream>, mux: Muxer, rest: seq<Event>)
    ensures var setup := SetupLog(streams, mux);
      var prelude := Prelude(streams, mux);
      && setup < prelude + rest && (prelude + rest)[|setup|] == OpenIo
      && Copied(prelude) == CodecParamsOf(streams)
      && Writes(prelude) == [] && Count(prelude, Trailer) == 0
      && HeaderFlags(prelude + rest) == Some(SetupFlags(mux.initialFlags, mux.formatFlags, |streams|))
  {
    SetupCopiesInOrder(streams, mux);
    SetupThenOpenQuiet(SetupLog(streams, mux), SetupFlags(mux.initialFlags, mux.formatFlags, |streams|),
                       mux.openResult, mux.headerResult);
    OpenAfterSetup(SetupLog(streams, mux), SetupFlags(mux.initialFlags, mux.formatFlags, |streams|),
                   mux.openResult, mux.headerResult, rest);
  }

  /** A run that starts first sets up one output stream per input stream, copying the
      parameters in input order, and only then opens the output; the header is written
      with the global-header flag set exactly when it already was or the format asks for
      it and there is a stream. */
  lemma TransmuxSetupFirst(inputExists: bool, inputPath: seq<byte>, outputPath: seq<byte>, probed: FormatContext,
                           mux: Muxer, rs: Rescaler, demuxed: seq<Demuxed>)
    requires CanStart(inputExists, inputPath, outputPath)
    ensures var log := TransmuxLog(inputExists, inputPath, outputPath, probed, mux, rs, demuxed).log;
      var setup := SetupLog(probed.streams, mux);
      && setup < log && log[|setup|] == OpenIo
      && Copied(log) == CodecParamsOf(probed.streams)
      && HeaderFlags(log) == Some(SetupFlags(mux.initialFlags, mux.formatFlags, |probed.streams|))
  {
    var streams := probed.streams;
    var prelude := Prelude(streams, mux);
    var pumped := PacketsLog(Taken(demuxed), streams, UnrequestedTimeBases(streams, mux), rs);
    var drained := pumped.exit == Drained;
    var tail := pumped.log + (if drained then [Trailer] else []);
    var log := TransmuxLog(inputExists, inputPath, outputPath, probed, mux, rs, demuxed).log;
    assert log == prelude + pumped.log + (if drained then [Trailer] else []);
    assert log == prelude + tail;
    PreludeInOrder(streams, mux, tail);
    PacketsLogEnds(Taken(demuxed), streams, UnrequestedTimeBases(streams, mux), rs);
    EndObservers(prelude, pumped.log, drained, Trailer);
  }

  /** A run that starts writes the converted form of every packet read up to the first
      whose index names no stream, in order. */
  lemma TransmuxWrites(inputExists: bool, inputPath: seq<byte>, outputPath: seq<byte>, probed: FormatContext,
                       mux: Muxer, rs: Rescaler, demuxed: seq<Demuxed>)
    requires CanStart(inputExists, inputPath, outputPath)
    ensures var ps := Taken(demuxed);
      var streams := probed.streams;
      var r := TransmuxLog(inputExists, inputPath, outputPath, probed, mux, rs, demuxed);
      Writes(r.log) == Rescaled(ps[..InRangeRun(ps, |streams|)], streams, UnrequestedTimeBases(streams, mux), rs)
  {
    var streams := probed.streams;
    var prelude := Prelude(streams, mux);
    var pumped := PacketsLog(Taken(demuxed), streams, UnrequestedTimeBases(streams, mux), rs);
    var r := TransmuxLog(inputExists, inputPath, outputPath, probed, mux, rs, demuxed);
    assert r.log == prelude + pumped.log + (if pumped.exit == Drained then [Trailer] else []);
    PreludeInOrder(streams, mux, []);
    PacketsLogWrites(Taken(demuxed), streams, UnrequestedTimeBases(streams, mux), rs);
    EndObservers(prelude, pumped.log, pumped.exit == Drained, Trailer);
  }

  /** A run that starts drains exactly when every packet read names a stream; it then
      writes the trailer exactly once, last. Otherwise it panics on the first packet that
      names no stream and never writes the trailer. */
  lemma TransmuxEnds(inputExists: bool, inputPath: seq<byte>, outputPath: seq<byte>, probed: FormatContext,
                     mux: Muxer, rs: Rescaler, demuxed: seq<Demuxed>)
    requires CanStart(inputExists, inputPath, outputPath)
    ensures var ps := Taken(demuxed);
      var r := TransmuxLog(inputExists, inputPath, outputPath, probed, mux, rs, demuxed);
      && (r.exit == Drained <==> InRangeRun(ps, |probed.streams|) == |ps|)
      && (r.exit == Drained ==> Count(r.log, Trailer) == 1 && r.log[|r.log| - 1] == Trailer)
      && (r.exit != Drained ==> r.exit == Crashed && Count(r.log, Trailer) == 0 && r.log[|r.log| - 1] == Panic)
  {
    var streams := probed.streams;
    var prelude := Prelude(streams, mux);
    var pumped := PacketsLog(Taken(demuxed), streams, UnrequestedTimeBases(streams, mux), rs);
    var r := TransmuxLog(inputExists, inputPath, outputPath, probed, mux, rs, demuxed);
    assert r.log == prelude + pumped.log + (if pumped.exit == Drained then [Trailer] else []);
    assert r.exit == pumped.exit;
    PreludeInOrder(streams, mux, []);
    PacketsLogEnds(Taken(demuxed), streams, UnrequestedTimeBases(streams, mux), rs);
    EndObservers(prelude, pumped.log, pumped.exit == Drained, Trailer);
  }

  /** One turn of the read loop, seen from the position of the packet read. */
  lemma PacketsLogStep(demuxed: seq<Demuxed>, k: nat, streams: seq<Stream>, tbs: seq<Rational>, rs: Rescaler)
    requires |tbs| == |streams|
    requires k < |demuxed| && demuxed[k].ret >= 0
    ensures var p := demuxed[k].packet;
      var index := AsUsize(p.streamIndex);
      PacketsLog(Taken(demuxed[k..]), streams, tbs, rs) ==
        if index >= |streams| then Pumped([Panic], Crashed)
        else
          var rest := PacketsLog(Taken(demuxed[k + 1..]), streams, tbs, rs);
          rest.(log := [Write(RescaleTs(p, streams[index].timeBase, tbs[index], rs))] + rest.log)
  {
    assert demuxed[k..][1..] == demuxed[k + 1..];
    assert Taken(demuxed[k..]) == [demuxed[k].packet] + Taken(demuxed[k + 1..]);
    assert Taken(demuxed[k..])[1..] == Taken(demuxed[k + 1..]);
  }

  /** The setup loop of transmux::run: the decoder, the new output stream and the parameter
      copy for each input stream, and the global-header request after each. The vector of
      output streams is local to `run`, not the one of OutputCtx. */
  method AddStreams(output: OutputCtx, streams: seq<Stream>, mux: Muxer) returns (outStreams: seq<nat>)
    modifies output
    requires output.events == []
    ensures outStreams == Refs(mux, |streams|)
    ensures output.streams == old(output.streams)
    ensures output.flags == SetupFlags(old(output.flags), output.formatFlags, |streams|)
    ensures output.events == SetupLog(streams, mux)
  {
    outStreams := [];
    for i := 0 to |streams|
      invariant output.streams == old(output.streams)
      invariant output.flags == SetupFlags(old(output.flags), output.formatFlags, i)
      invariant outStreams == Refs(mux, i)
      invariant output.events == SetupLog(streams[..i], mux)
    {
      assert streams[..i + 1][..i] == streams[..i];
      var outStream := mux.newStream(i);
      output.events := output.events + [OpenDecoder(i)];
      output.events := output.events + [NewStream(outStream), CopyParams(outStream, streams[i].codecpar)];
      SetupFlagsStep(old(output.flags), output.formatFlags, i);
      output.RequestGlobalHeader();
      outStreams := outStreams + [outStream];
    }
    assert streams[..|streams|] == streams;
  }

  /** The read loop of transmux::run, after open_file. */
  method Pump(input: InputCtx, outStreams: seq<nat>, mux: Muxer, rs: Rescaler, demuxed: seq<Demuxed>) returns (pumped: Pumped)
    requires outStreams == Refs(mux, |input.av.streams|)
    ensures pumped == PacketsLog(Taken(demuxed), input.av.streams, UnrequestedTimeBases(input.av.streams, mux), rs)
  {
    ghost var streams := input.av.streams;
    ghost var tbs := UnrequestedTimeBases(streams, mux);
    ghost var whole := PacketsLog(Taken(demuxed), streams, tbs, rs);
    var inStreams := input.GetStreams();
    var log := [];
    var k := 0;
    while k < |demuxed| && demuxed[k].ret >= 0
      invariant k <= |demuxed|
      invariant whole == var rest := PacketsLog(Taken(demuxed[k..]), streams, tbs, rs);
                         rest.(log := log + rest.log)
      decreases |demuxed| - k
    {
      var p := demuxed[k].packet;
      PacketsLogStep(demuxed, k, streams, tbs, rs);
      var index := AsUsize(p.streamIndex);
      if index >= |inStreams| || index >= |outStreams| {
        return Pumped(log + [Panic], Crashed);
      }
      var inStream := inStreams[index];
      var outStream := outStreams[index];
      assert inStream == streams[index] && mux.timeBase(outStream, None) == tbs[index];
      ghost var rest := PacketsLog(Taken(demuxed[k + 1..]), streams, tbs, rs);
      p := RescaleTs(p, inStream.timeBase, mux.timeBase(outStream, None), rs);
      assert whole == rest.(log := log + ([Write(p)] + rest.log));
      log := log + [Write(p)];
      assert whole == rest.(log := log + rest.log);
      k := k + 1;
    }
    assert Taken(demuxed[k..]) == [];
    return Pumped(log, Drained);
  }

  /** transmux::run as the source writes it; the inputs are as for remux. */
  method Run(inputExists: bool, inputPath: seq<byte>, outputPath: seq<byte>, probed: FormatContext,
             mux: Muxer, rs: Rescaler, demuxed: seq<Demuxed>) returns (r: Pumped)
    ensures r == TransmuxLog(inputExists, inputPath, outputPath, probed, mux, rs, demuxed)
  {
    if !inputExists || StrToCStr(inputPath).None? || StrToCStr(outputPath).None? {
      return Pumped([Panic], Crashed);
    }
    var input := new InputCtx(probed);
    var output := new OutputCtx(mux.formatFlags, mux.initialFlags);
    var outStreams := AddStreams(output, input.GetStreams(), mux);
    var _ := output.OpenFile(outputPath, mux.openResult, mux.headerResult);
    var pumped := Pump(input, outStreams, mux, rs, demuxed);
    if pumped.exit == Drained {
      return Pumped(output.events + pumped.log + [Trailer], Drained);
    }
    return Pumped(output.events + pumped.log, pumped.exit);
  }
}
