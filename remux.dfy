/**
 * src/cmds/remux.rs: copies every stream of the input into a new container without
 * decoding, converting the timestamps of each packet to the time base of its output
 * stream.
 */
module Remux {
  import opened Utils
  import opened Ffmpeg
  import opened InputCtxs
  import opened OutputCtxs

  /** The rounding remux asks for on pts and dts: nearest, ties away from zero, with
      INT64_MIN/INT64_MAX passed through unchanged. */
  const ROUNDING: bv32 := AV_ROUND_NEAR_INF | AV_ROUND_PASS_MINMAX

  /** The in-place rewrite of an in-range packet: pts and dts through the rounding
      rescale, duration through the plain one, and the byte position made unknown. */
  function Rewrite(p: Packet, from: Rational, to: Rational, rs: Rescaler): (q: Packet)
    ensures q.streamIndex == p.streamIndex && q.pos == -1
  {
    Packet(p.streamIndex, rs.rnd(p.pts, from, to, ROUNDING), rs.rnd(p.dts, from, to, ROUNDING),
           rs.plain(p.duration, from, to), -1)
  }

  /** What the setup loop (src/cmds/remux.rs:26-30) makes the muxer do. */
  function SetupLog(streams: seq<Stream>, mux: Muxer): seq<Event>
    decreases |streams|
  {
    if streams == [] then []
    else
      var i := |streams| - 1;
      SetupLog(streams[..i], mux) + AddStreamLog(streams[i].codecpar, mux.newStream(i), mux.copyResult(i))
  }

  /** One output stream per input stream: the parameters are copied in input order, and
      nothing but setup happens: no open, no write. */
  lemma {:induction false} SetupCopiesInOrder(streams: seq<Stream>, mux: Muxer)
    ensures Copied(SetupLog(streams, mux)) == CodecParamsOf(streams)
    ensures Writes(SetupLog(streams, mux)) == []
    ensures forall k :: 0 <= k < |SetupLog(streams, mux)| ==> IsStreamSetup(SetupLog(streams, mux)[k])
    decreases |streams|
  {
    if streams != [] {
      var i := |streams| - 1;
      var a := AddStreamLog(streams[i].codecpar, mux.newStream(i), mux.copyResult(i));
      SetupCopiesInOrder(streams[..i], mux);
      CopiedAppend(SetupLog(streams[..i], mux), a);
      WritesAppend(SetupLog(streams[..i], mux), a);
    }
  }

  /** The rewritten packet when its index names an input stream, nothing otherwise:
      input stream i always maps to output stream i. */
  function RemuxOne(p: Packet, streams: seq<Stream>, tbs: seq<Rational>, rs: Rescaler): (qs: seq<Packet>)
    requires |tbs| == |streams|
    ensures |qs| == if AsUsize(p.streamIndex) < |streams| then 1 else 0
  {
    var index := AsUsize(p.streamIndex);
    if index < |streams| then [Rewrite(p, streams[index].timeBase, tbs[index], rs)] else []
  }

  /** One turn of the read loop for a packet read: a packet with an index out of range is
      only unreferenced; any other is rewritten, written, its write
      result reported, and then unreferenced. */
  function Routed(p: Packet, streams: seq<Stream>, tbs: seq<Rational>, mux: Muxer, rs: Rescaler, n: nat): seq<Event>
    requires |tbs| == |streams|
  {
    var index := AsUsize(p.streamIndex);
    if index >= |streams| then [Unref]
    else [Write(Rewrite(p, streams[index].timeBase, tbs[index], rs))] + Diagnostic(mux.writeResult(n, 0)) + [Unref]
  }

  /** Each turn writes the packet's remuxed form and nothing else. */
  lemma RoutedWrites(p: Packet, streams: seq<Stream>, tbs: seq<Rational>, mux: Muxer, rs: Rescaler, n: nat)
    requires |tbs| == |streams|
    ensures Writes(Routed(p, streams, tbs, mux, rs, n)) == RemuxOne(p, streams, tbs, rs)
  {
    if AsUsize(p.streamIndex) < |streams| {
      var d := Diagnostic(mux.writeResult(n, 0));
      ObserversEmpty(d + [Unref]);
      assert Routed(p, streams, tbs, mux, rs, n)[1..] == d + [Unref];
    }
  }

  /** Each turn unreferences the packet exactly once, and neither copies parameters nor
      writes the trailer. */
  lemma RoutedUnrefsOnce(p: Packet, streams: seq<Stream>, tbs: seq<Rational>, mux: Muxer, rs: Rescaler, n: nat)
    requires |tbs| == |streams|
    ensures Count(Routed(p, streams, tbs, mux, rs, n), Unref) == 1
    ensures Count(Routed(p, streams, tbs, mux, rs, n), Trailer) == 0
    ensures Copied(Routed(p, streams, tbs, mux, rs, n)) == []
  {
    var log := Routed(p, streams, tbs, mux, rs, n);
    CountZero(log, Trailer);
    if AsUsize(p.streamIndex) < |streams| {
      var d := Diagnostic(mux.writeResult(n, 0));
      ObserversEmpty(d + [Unref]);
      assert log[1..] == d + [Unref];
      CountZero(d, Unref);
      CountAppend(d, [Unref], Unref);
    }
  }

  /** The read loop (src/cmds/remux.rs:34-76) over the packets read before the first
      negative av_read_frame answer; `n` numbers the packet among those read. */
  function PacketsLog(ps: seq<Packet>, streams: seq<Stream>, tbs: seq<Rational>, mux: Muxer, rs: Rescaler, n: nat): seq<Event>
    requires |tbs| == |streams|
  {
    if ps == [] then []
    else Routed(ps[0], streams, tbs, mux, rs, n)
           + PacketsLog(ps[1..], streams, tbs, mux, rs, n + 1)
  }

  /** The packets remux should write: the remuxed form of each packet read, in order. */
  function Remuxed(ps: seq<Packet>, streams: seq<Stream>, tbs: seq<Rational>, rs: Rescaler): (qs: seq<Packet>)
    requires |tbs| == |streams|
    ensures |qs| <= |ps|
    ensures forall k :: 0 <= k < |qs| ==> qs[k].pos == -1 && AsUsize(qs[k].streamIndex) < |streams|
  {
    if ps == [] then [] else RemuxOne(ps[0], streams, tbs, rs) + Remuxed(ps[1..], streams, tbs, rs)
  }

  /** The loop writes exactly the remuxed packets, in the order read, whatever the write
      results. */
  lemma {:induction false} PacketsLogWritesRemuxed(ps: seq<Packet>, streams: seq<Stream>, tbs: seq<Rational>, mux: Muxer, rs: Rescaler, n: nat)
    requires |tbs| == |streams|
    ensures Writes(PacketsLog(ps, streams, tbs, mux, rs, n)) == Remuxed(ps, streams, tbs, rs)
  {
    if ps != [] {
      PacketsLogWritesRemuxed(ps[1..], streams, tbs, mux, rs, n + 1);
      RoutedWrites(ps[0], streams, tbs, mux, rs, n);
      WritesAppend(Routed(ps[0], streams, tbs, mux, rs, n), PacketsLog(ps[1..], streams, tbs, mux, rs, n + 1));
    }
  }

  /** Every packet read is unreferenced exactly once, whether or not it was written. */
  lemma {:induction false} PacketsLogUnrefsEach(ps: seq<Packet>, streams: seq<Stream>, tbs: seq<Rational>, mux: Muxer, rs: Rescaler, n: nat)
    requires |tbs| == |streams|
    ensures Count(PacketsLog(ps, streams, tbs, mux, rs, n), Unref) == |ps|
  {
    if ps != [] {
      PacketsLogUnrefsEach(ps[1..], streams, tbs, mux, rs, n + 1);
      RoutedUnrefsOnce(ps[0], streams, tbs, mux, rs, n);
      CountAppend(Routed(ps[0], streams, tbs, mux, rs, n), PacketsLog(ps[1..], streams, tbs, mux, rs, n + 1), Unref);
    }
  }

  /** The loop neither copies parameters nor writes the trailer. */
  lemma {:induction false} PacketsLogQuiet(ps: seq<Packet>, streams: seq<Stream>, tbs: seq<Rational>, mux: Muxer, rs: Rescaler, n: nat)
    requires |tbs| == |streams|
    ensures Count(PacketsLog(ps, streams, tbs, mux, rs, n), Trailer) == 0
    ensures Copied(PacketsLog(ps, streams, tbs, mux, rs, n)) == []
  {
    if ps != [] {
      PacketsLogQuiet(ps[1..], streams, tbs, mux, rs, n + 1);
      RoutedUnrefsOnce(ps[0], streams, tbs, mux, rs, n);
      CountAppend(Routed(ps[0], streams, tbs, mux, rs, n), PacketsLog(ps[1..], streams, tbs, mux, rs, n + 1), Trailer);
      CopiedAppend(Routed(ps[0], streams, tbs, mux, rs, n), PacketsLog(ps[1..], streams, tbs, mux, rs, n + 1));
    }
  }

  /** What happens before the first read: the setup loop and open_file. */
  function Prelude(streams: seq<Stream>, mux: Muxer): seq<Event>
  {
    SetupLog(streams, mux) + OpenLog(mux.initialFlags, mux.openResult, mux.headerResult)
  }

  /** Everything remux makes FFmpeg do: a panic before any call when the input is missing
      or a path does not convert, otherwise the setup, open_file, the read loop and the
      trailer. */
  function RemuxLog(inputExists: bool, inputPath: seq<byte>, outputPath: seq<byte>, probed: FormatContext,
                    mux: Muxer, rs: Rescaler, demuxed: seq<Demuxed>): seq<Event>
  {
    if !CanStart(inputExists, inputPath, outputPath) then [Panic]
    else
      var streams := probed.streams;
      Prelude(streams, mux) + PacketsLog(Taken(demuxed), streams, UnrequestedTimeBases(streams, mux), mux, rs, 0) + [Trailer]
  }

  /** A run that cannot start panics before doing anything. One that starts first adds
      one output stream per input stream, copying the parameters in input order (and by
      SetupCopiesInOrder doing nothing else), and only then opens the output. */
  lemma RemuxSetupFirst(inputExists: bool, inputPath: seq<byte>, outputPath: seq<byte>, probed: FormatContext,
                        mux: Muxer, rs: Rescaler, demuxed: seq<Demuxed>)
    ensures !CanStart(inputExists, inputPath, outputPath) ==>
              RemuxLog(inputExists, inputPath, outputPath, probed, mux, rs, demuxed) == [Panic]
    ensures CanStart(inputExists, inputPath, outputPath) ==>
              var log := RemuxLog(inputExists, inputPath, outputPath, probed, mux, rs, demuxed);
              var setup := SetupLog(probed.streams, mux);
              && setup < log && log[|setup|] == OpenIo
              && Copied(log) == CodecParamsOf(probed.streams)
  {
    if CanStart(inputExists, inputPath, outputPath) {
      var streams := probed.streams;
      var setup := SetupLog(streams, mux);
      var open := OpenLog(mux.initialFlags, mux.openResult, mux.headerResult);
      var packets := PacketsLog(Taken(demuxed), streams, UnrequestedTimeBases(streams, mux), mux, rs, 0);
      SetupCopiesInOrder(streams, mux);
      OpenLogQuiet(mux.initialFlags, mux.openResult, mux.headerResult);
      PacketsLogQuiet(Taken(demuxed), streams, UnrequestedTimeBases(streams, mux), mux, rs, 0);
      CopiedAppend(setup, open);
      RunObservers(setup + open, packets);
      PrefixThen(setup, open, packets);
    }
  }

  /** remux never touches the format context flags: the header is written with the
      flags the output context started with. */
  lemma RemuxHeaderFlags(inputExists: bool, inputPath: seq<byte>, outputPath: seq<byte>, probed: FormatContext,
                         mux: Muxer, rs: Rescaler, demuxed: seq<Demuxed>)
    requires CanStart(inputExists, inputPath, outputPath)
    ensures HeaderFlags(RemuxLog(inputExists, inputPath, outputPath, probed, mux, rs, demuxed)) == Some(mux.initialFlags)
  {
    var streams := probed.streams;
    var setup := SetupLog(streams, mux);
    var open := OpenLog(mux.initialFlags, mux.openResult, mux.headerResult);
    var packets := PacketsLog(Taken(demuxed), streams, UnrequestedTimeBases(streams, mux), mux, rs, 0);
    var log := RemuxLog(inputExists, inputPath, outputPath, probed, mux, rs, demuxed);
    assert log == setup + open + (packets + [Trailer]);
    SetupCopiesInOrder(streams, mux);
    OpenAfterSetup(setup, mux.initialFlags, mux.openResult, mux.headerResult, packets + [Trailer]);
  }

  /** A run that starts writes exactly the remuxed packets, in the order read. */
  lemma RemuxWrites(inputExists: bool, inputPath: seq<byte>, outputPath: seq<byte>, probed: FormatContext,
                    mux: Muxer, rs: Rescaler, demuxed: seq<Demuxed>)
    requires CanStart(inputExists, inputPath, outputPath)
    ensures Writes(RemuxLog(inputExists, inputPath, outputPath, probed, mux, rs, demuxed))
            == Remuxed(Taken(demuxed), probed.streams, UnrequestedTimeBases(probed.streams, mux), rs)
  {
    var streams := probed.streams;
    var setup := SetupLog(streams, mux);
    var open := OpenLog(mux.initialFlags, mux.openResult, mux.headerResult);
    var packets := PacketsLog(Taken(demuxed), streams, UnrequestedTimeBases(streams, mux), mux, rs, 0);
    SetupCopiesInOrder(streams, mux);
    OpenLogQuiet(mux.initialFlags, mux.openResult, mux.headerResult);
    PacketsLogWritesRemuxed(Taken(demuxed), streams, UnrequestedTimeBases(streams, mux), mux, rs, 0);
    WritesAppend(setup, open);
    RunObservers(setup + open, packets);
  }

  /** The setup loop neither unreferences a packet nor writes the trailer. */
  lemma SetupQuiet(streams: seq<Stream>, mux: Muxer)
    ensures Count(SetupLog(streams, mux), Unref) == 0 && Count(SetupLog(streams, mux), Trailer) == 0
  {
    SetupCopiesInOrder(streams, mux);
    SetupOnly(SetupLog(streams, mux));
  }

  /** A run that starts unreferences every packet read exactly once and writes the
      trailer exactly once, as its last act. */
  lemma RemuxUnrefsAndEnds(inputExists: bool, inputPath: seq<byte>, outputPath: seq<byte>, probed: FormatContext,
                           mux: Muxer, rs: Rescaler, demuxed: seq<Demuxed>)
    requires CanStart(inputExists, inputPath, outputPath)
    ensures var log := RemuxLog(inputExists, inputPath, outputPath, probed, mux, rs, demuxed);
      && Count(log, Unref) == |Taken(demuxed)|
      && Count(log, Trailer) == 1 && log[|log| - 1] == Trailer
  {
    var streams := probed.streams;
    var setup := SetupLog(streams, mux);
    var open := OpenLog(mux.initialFlags, mux.openResult, mux.headerResult);
    var taken, tbs := Taken(demuxed), UnrequestedTimeBases(streams, mux);
    var packets := PacketsLog(taken, streams, tbs, mux, rs, 0);
    assert Count(setup + open, Unref) == 0 && Count(setup + open, Trailer) == 0 by {
      SetupQuiet(streams, mux);
      OpenLogQuiet(mux.initialFlags, mux.openResult, mux.headerResult);
      CountAppend(setup, open, Unref);
      CountAppend(setup, open, Trailer);
    }
    assert Count(packets, Unref) == |taken| && Count(packets, Trailer) == 0 by {
      PacketsLogUnrefsEach(taken, streams, tbs, mux, rs, 0);
      PacketsLogQuiet(taken, streams, tbs, mux, rs, 0);
    }
    DrainedRunEnds(setup + open, packets, |taken|);
    assert RemuxLog(inputExists, inputPath, outputPath, probed, mux, rs, demuxed) == setup + open + packets + [Trailer];
  }

  /** One turn of the read loop, seen from the position of the packet read. */
  lemma PacketsLogStep(whole: seq<Event>, log: seq<Event>, demuxed: seq<Demuxed>, k: nat, streams: seq<Stream>,
                       tbs: seq<Rational>, mux: Muxer, rs: Rescaler)
    requires |tbs| == |streams|
    requires k < |demuxed| && demuxed[k].ret >= 0
    requires whole == log + PacketsLog(Taken(demuxed[k..]), streams, tbs, mux, rs, k)
    ensures whole == (log + Routed(demuxed[k].packet, streams, tbs, mux, rs, k))
                     + PacketsLog(Taken(demuxed[k + 1..]), streams, tbs, mux, rs, k + 1)
  {
    assert demuxed[k..][1..] == demuxed[k + 1..];
    assert Taken(demuxed[k..]) == [demuxed[k].packet] + Taken(demuxed[k + 1..]);
    assert Taken(demuxed[k..])[1..] == Taken(demuxed[k + 1..]);
  }

  /** One more add_stream, seen from the number of streams added so far. */
  lemma SetupLogStep(streams: seq<Stream>, i: nat, mux: Muxer)
    requires i < |streams|
    ensures SetupLog(streams[..i + 1], mux)
      == SetupLog(streams[..i], mux) + AddStreamLog(streams[i].codecpar, mux.newStream(i), mux.copyResult(i))
  {
    assert streams[..i + 1][..i] == streams[..i];
  }

  /** The setup loop of remux::run: one add_stream per input stream, in order. */
  method AddStreams(output: OutputCtx, streams: seq<Stream>, mux: Muxer)
    modifies output
    requires output.streams == [] && output.events == []
    ensures output.flags == old(output.flags)
    ensures output.streams == Refs(mux, |streams|)
    ensures output.events == SetupLog(streams, mux)
  {
    for i := 0 to |streams|
      invariant output.flags == old(output.flags)
      invariant output.streams == Refs(mux, i)
      invariant output.events == SetupLog(streams[..i], mux)
    {
      SetupLogStep(streams, i, mux);
      var _ := output.AddStream(streams[i].codecpar, Some(mux.newStream(i)), mux.copyResult(i));
    }
    assert streams[..|streams|] == streams;
  }

  /** The body of remux's read loop for one packet read (the `n`-th): the bounds guard,
      then the in-place rewrite, the write and the unref. */
  method Turn(input: InputCtx, output: OutputCtx, mux: Muxer, rs: Rescaler, packet: Packet, n: nat) returns (turn: seq<Event>)
    requires output.streams == Refs(mux, |input.av.streams|)
    ensures turn == Routed(packet, input.av.streams, UnrequestedTimeBases(input.av.streams, mux), mux, rs, n)
  {
    var p := packet;
    var index := AsUsize(p.streamIndex);
    if index >= |input.GetStreams()| {
      return [Unref];
    }
    var inStream := input.GetStream(index).value;
    var outStream := output.GetStream(index).value;
    var outTimeBase := mux.timeBase(outStream, None);
    p := p.(pts := rs.rnd(p.pts, inStream.timeBase, outTimeBase, ROUNDING));
    p := p.(dts := rs.rnd(p.dts, inStream.timeBase, outTimeBase, ROUNDING));
    p := p.(duration := rs.plain(p.duration, inStream.timeBase, outTimeBase));
    p := p.(pos := -1);
    turn := [Write(p)];
    var ret := mux.writeResult(n, 0);
    turn := turn + Diagnostic(ret);
    turn := turn + [Unref];
  }

  /** The read loop of remux::run, after open_file: what it makes FFmpeg do. */
  method Pump(input: InputCtx, output: OutputCtx, mux: Muxer, rs: Rescaler, demuxed: seq<Demuxed>) returns (log: seq<Event>)
    requires output.streams == Refs(mux, |input.av.streams|)
    ensures log == PacketsLog(Taken(demuxed), input.av.streams, UnrequestedTimeBases(input.av.streams, mux), mux, rs, 0)
  {
    ghost var streams := input.av.streams;
    ghost var tbs := UnrequestedTimeBases(streams, mux);
    ghost var whole := PacketsLog(Taken(demuxed), streams, tbs, mux, rs, 0);
    log := [];
    var k := 0;
    assert demuxed[0..] == demuxed;
    while k < |demuxed| && demuxed[k].ret >= 0
      invariant k <= |demuxed|
      invariant whole == log + PacketsLog(Taken(demuxed[k..]), streams, tbs, mux, rs, k)
      decreases |demuxed| - k
    {
      PacketsLogStep(whole, log, demuxed, k, streams, tbs, mux, rs);
      var turn := Turn(input, output, mux, rs, demuxed[k].packet, k);
      log := log + turn;
      k := k + 1;
    }
    assert Taken(demuxed[k..]) == [];
  }

  /** remux::run as the source writes it. `inputExists` is what the file-system check
      answers, `probed` what opening and probing the input gives, `demuxed` the answers of
      av_read_frame; the result is everything the run makes FFmpeg do. */
  method Run(inputExists: bool, inputPath: seq<byte>, outputPath: seq<byte>, probed: FormatContext,
             mux: Muxer, rs: Rescaler, demuxed: seq<Demuxed>) returns (log: seq<Event>)
    ensures log == RemuxLog(inputExists, inputPath, outputPath, probed, mux, rs, demuxed)
  {
    if !inputExists || StrToCStr(inputPath).None? || StrToCStr(outputPath).None? {
      return [Panic];
    }
    var input := new InputCtx(probed);
    var output := new OutputCtx(mux.formatFlags, mux.initialFlags);
    AddStreams(output, input.GetStreams(), mux);
    var _ := output.OpenFile(outputPath, mux.openResult, mux.headerResult);
    var packets := Pump(input, output, mux, rs, demuxed);
    log := output.events + packets + [Trailer];
  }
}
