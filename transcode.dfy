/**
 * src/cmds/transcode.rs: re-encodes the packets of stream 0 through a decoder and an
 * encoder and passes the packets of every other stream through with their timestamps
 * converted. `encode` drains the encoder after each decoded frame, stamping each packet
 * with the stream index and a duration computed from the output time base and the input
 * frame rate.
 */
module Transcode {
  import opened Utils
  import opened Ffmpeg
  import opened InputCtxs
  import opened OutputCtxs

  // ---------------------------------------------------------------------------
  // The packet duration of `encode`

  function Abs(a: int): nat
  {
    if a < 0 then -a else a
  }

  /** Rust's `/` on i64: the quotient truncated toward zero. */
  function TDiv(a: int, b: int): int
    requires b != 0
  {
    var q := Abs(a) / Abs(b);
    if (a < 0) == (b < 0) then q else -q
  }

  /** Truncating division leaves a remainder of the dividend's sign, smaller than the
      divisor: a == q * b + r with |r| < |b|. */
  lemma TDivRemainder(a: int, b: int)
    requires b != 0
    ensures var r := a - TDiv(a, b) * b;
      Abs(r) < Abs(b) && (r == 0 || ((r < 0) <==> (a < 0)))
  {
    var q := Abs(a) / Abs(b);
    var m := Abs(a) % Abs(b);
    assert Abs(a) == q * Abs(b) + m;
    if a < 0 && b < 0 {
      assert a - q * b == -m;
    } else if a < 0 {
      assert a - (-q) * b == -m;
    } else if b < 0 {
      assert a - (-q) * b == m;
    } else {
      assert a - q * b == m;
    }
  }

  /** The duration `encode` gives each packet (src/cmds/transcode.rs:170-172):
      out.den / out.num / fr.num * fr.den, in i64 with truncating divisions left to right.
      A zero divisor panics (None). */
  function Duration(outTime: Rational, frameRate: Rational): Option<int>
  {
    if outTime.num == 0 || frameRate.num == 0 then None
    else Some(TDiv(TDiv(outTime.den, outTime.num), frameRate.num) * frameRate.den)
  }

  /** The formula panics exactly when a divisor is zero. */
  lemma DurationPanics(outTime: Rational, frameRate: Rational)
    ensures Duration(outTime, frameRate).None? <==> outTime.num == 0 || frameRate.num == 0
  {
  }

  lemma DivShrinks(x: nat, y: nat)
    requires y >= 1
    ensures x / y <= x
  {
    var q := x / y;
    assert q * y <= x;
    assert q * y == q + q * (y - 1);
  }

  lemma TDivShrinks(a: int, b: int)
    requires b != 0
    ensures Abs(TDiv(a, b)) <= Abs(a)
  {
    DivShrinks(Abs(a), Abs(b));
  }

  lemma MulBound(x: int, y: int, boundX: nat, boundY: nat)
    requires Abs(x) <= boundX && Abs(y) <= boundY
    ensures Abs(x * y) <= boundX * boundY
  {
    assert Abs(x * y) == Abs(x) * Abs(y);
    assert Abs(x) * Abs(y) <= boundX * Abs(y);
    assert boundX * Abs(y) <= boundX * boundY;
  }

  /** With i32 rationals, as the source's fields are, the i64 arithmetic cannot overflow. */
  lemma DurationFitsI64(outTime: Rational, frameRate: Rational)
    requires outTime.Valid() && frameRate.Valid()
    requires Duration(outTime, frameRate).Some?
    ensures IsI64(Duration(outTime, frameRate).value)
  {
    var q1 := TDiv(outTime.den, outTime.num);
    var q2 := TDiv(q1, frameRate.num);
    TDivShrinks(outTime.den, outTime.num);
    TDivShrinks(q1, frameRate.num);
    MulBound(q2, frameRate.den, 0x8000_0000, 0x8000_0000);
  }

  /** Nothing is lost to the truncations unless the rates leave a remainder: for positive
      rationals the duration never exceeds out.den * fr.den / (out.num * fr.num), the frame
      period in output ticks. */
  lemma DurationAtMostExact(outTime: Rational, frameRate: Rational)
    requires outTime.num > 0 && outTime.den >= 0 && frameRate.num > 0 && frameRate.den >= 0
    ensures Duration(outTime, frameRate).Some?
    ensures Duration(outTime, frameRate).value * outTime.num * frameRate.num <= outTime.den * frameRate.den
  {
    var q1 := outTime.den / outTime.num;
    var q2 := q1 / frameRate.num;
    assert TDiv(outTime.den, outTime.num) == q1;
    assert TDiv(q1, frameRate.num) == q2;
    assert q1 * outTime.num <= outTime.den;
    assert q2 * frameRate.num <= q1;
    assert q2 * frameRate.num * outTime.num <= q1 * outTime.num;
    assert q2 * outTime.num * frameRate.num <= outTime.den;
    assert q2 * outTime.num * frameRate.num * frameRate.den <= outTime.den * frameRate.den;
    assert q2 * frameRate.den * outTime.num * frameRate.num == q2 * outTime.num * frameRate.num * frameRate.den;
  }

  /** With an integer frame rate f and the output time base 1/f the source sets up, each
      packet lasts one tick. */
  lemma DurationIntegerRate(f: int)
    requires f > 0
    ensures Duration(InvQ(Rational(f, 1)), Rational(f, 1)) == Some(1)
  {
    assert TDiv(f, 1) == f;
    assert f / f == 1;
  }

  /** With the NTSC rate 30000/1001 and its inverse as output time base, the first
      truncation gives 29 and the second 0: every packet gets duration 0. */
  lemma DurationNtsc()
    ensures Duration(InvQ(Rational(30000, 1001)), Rational(30000, 1001)) == Some(0)
  {
    assert TDiv(30000, 1001) == 29;
  }

  // ---------------------------------------------------------------------------
  // encode

  /** One encoder answer: the return code and, for a packet, the packet it filled. */
  datatype EncReply = EncReply(code: int, packet: Packet)

  /** What one `encode` call answers: its result, its log, the encoder answers left, and
      the number of the next av_interleaved_write_frame for the packet read. `crashed`
      marks a panic in the duration formula. */
  datatype Encoded = Encoded(result: int, log: seq<Event>, crashed: bool, enc: seq<EncReply>, writes: nat)

  /** The encoder's next answer; an exhausted script answers the EAGAIN code. */
  function EncAnswer(enc: seq<EncReply>, codes: Codes): EncReply
  {
    if enc == [] then EncReply(codes.eagain, Packet(0, 0, 0, 0, 0)) else enc[0]
  }

  /** The receive loop of encode (src/cmds/transcode.rs:156-175) after a non-negative
      answer: `j` numbers the next write. */
  function EncodeLoop(enc: seq<EncReply>, index: int, n: nat, j: nat, inTime: Rational, outTime: Rational,
                      frameRate: Rational, mux: Muxer, rs: Rescaler, codes: Codes): (e: Encoded)
    decreases |enc|
  {
    var r := EncAnswer(enc, codes);
    var rest := Next(enc);
    if r.code == codes.eagain || r.code == codes.eof then Encoded(0, [Unref, Free], false, rest, j)
    else if r.code < 0 then Encoded(-1, [], false, rest, j)
    else
      match Duration(outTime, frameRate)
      case None => Encoded(0, [Panic], true, rest, j)
      case Some(d) =>
        var q := RescaleTs(r.packet.(streamIndex := index, duration := d), inTime, outTime, rs);
        if mux.writeResult(n, j) < 0 then Encoded(0, [Write(q), Unref, Free], false, rest, j + 1)
        else
          var e := EncodeLoop(rest, index, n, j + 1, inTime, outTime, frameRate, mux, rs, codes);
          e.(log := [Write(q)] + e.log)
  }

  /** encode (src/cmds/transcode.rs:145-181): send the frame, then drain the encoder. */
  function Encode(enc: seq<EncReply>, index: int, n: nat, j: nat, inTime: Rational, outTime: Rational,
                  frameRate: Rational, mux: Muxer, rs: Rescaler, codes: Codes): (e: Encoded)
  {
    if EncAnswer(enc, codes).code < 0 then Encoded(0, [SendFrame, Unref, Free], false, Next(enc), j)
    else
      var e := EncodeLoop(Next(enc), index, n, j, inTime, outTime, frameRate, mux, rs, codes);
      e.(log := [SendFrame] + e.log)
  }

  /** A packet as encode writes it: stamped with `index`, given the formula's duration `d`,
      and converted from the input to the output time base. */
  predicate Stamped(q: Packet, index: int, d: int, inTime: Rational, outTime: Rational, rs: Rescaler)
  {
    q.streamIndex == index && q.duration == rs.ts(d, inTime, outTime)
  }

  predicate AllStamped(ws: seq<Packet>, index: int, d: int, inTime: Rational, outTime: Rational, rs: Rescaler)
  {
    forall k :: 0 <= k < |ws| ==> Stamped(ws[k], index, d, inTime, outTime, rs)
  }

  /** The calls encode makes: it sends frames, writes, releases its packet or panics. */
  predicate EncoderEvent(e: Event)
  {
    e.Write? || e == SendFrame || e == Unref || e == Free || e == Panic
  }

  predicate EncoderCalls(log: seq<Event>)
  {
    forall k :: 0 <= k < |log| ==> EncoderEvent(log[k])
  }

  /** Encoder calls send no packet to a decoder, copy no parameters and write no trailer. */
  lemma {:induction false} EncoderQuiet(log: seq<Event>)
    requires EncoderCalls(log)
    ensures Sent(log) == [] && Copied(log) == [] && Count(log, Trailer) == 0
  {
    if log != [] {
      EncoderQuiet(log[1..]);
    }
  }

  /** The Write events for `ws`, in order. */
  function WriteEvents(ws: seq<Packet>): (log: seq<Event>)
    ensures |log| == |ws|
  {
    if ws == [] then [] else [Write(ws[0])] + WriteEvents(ws[1..])
  }

  /** How an encode loop ends its log: a panic on a crash, the unref and the free on
      result 0, nothing after a receive error. */
  function Ending(e: Encoded): seq<Event>
  {
    if e.crashed then [Panic] else if e.result == 0 then [Unref, Free] else []
  }

  /** A run of writes is all Write events: it holds those packets, makes only encoder
      calls, and counts no other event. */
  lemma {:induction false} WriteEventsOnly(ws: seq<Packet>, x: Event)
    requires !x.Write?
    ensures Writes(WriteEvents(ws)) == ws && EncoderCalls(WriteEvents(ws)) && Count(WriteEvents(ws), x) == 0
    decreases |ws|
  {
    if ws != [] {
      var log := WriteEvents(ws);
      WriteEventsOnly(ws[1..], x);
      assert log[1..] == WriteEvents(ws[1..]);
      forall k | 0 < k < |log|
        ensures EncoderEvent(log[k])
      {
        assert log[k] == WriteEvents(ws[1..])[k - 1];
      }
    }
  }

  /** Whether the loop goes on after the current answer: a packet was received, the
      duration formula did not panic and the write succeeded. */
  predicate Continues(enc: seq<EncReply>, n: nat, j: nat, outTime: Rational, frameRate: Rational,
                      mux: Muxer, codes: Codes)
  {
    var r := EncAnswer(enc, codes);
    r.code != codes.eagain && r.code != codes.eof && r.code >= 0
    && Duration(outTime, frameRate).Some? && mux.writeResult(n, j) >= 0
  }

  /** The answers that end a receive loop of transcode.rs: AVERROR(EAGAIN) and AVERROR_EOF,
      which the file compares with averror_eof() itself. */
  predicate EndCode(code: int, codes: Codes)
  {
    code == codes.eagain || code == codes.eof
  }

  /** An answer that makes a receive loop of transcode.rs return: negative, not an end code. */
  predicate ReceiveError(code: int, codes: Codes)
  {
    code < 0 && !EndCode(code, codes)
  }

  /** An encoder answer that hands over a packet. */
  predicate IsPacket(r: EncReply, codes: Codes)
  {
    r.code >= 0 && !EndCode(r.code, codes)
  }

  /** How many turns of encode's receive loop go on from `enc`: each received a packet,
      computed its duration and wrote it with success. */
  function AcceptedRun(enc: seq<EncReply>, n: nat, j: nat, outTime: Rational, frameRate: Rational,
                       mux: Muxer, codes: Codes): (m: nat)
    ensures m <= |enc|
    ensures forall k :: 0 <= k < m ==> Continues(enc[k..], n, j + k, outTime, frameRate, mux, codes)
    ensures !Continues(enc[m..], n, j + m, outTime, frameRate, mux, codes)
    decreases |enc|
  {
    if Continues(enc, n, j, outTime, frameRate, mux, codes) then
      var m := AcceptedRun(enc[1..], n, j + 1, outTime, frameRate, mux, codes);
      assert forall k :: 1 <= k <= |enc| ==> enc[1..][k - 1..] == enc[k..];
      1 + m
    else
      assert enc[0..] == enc;
      0
  }

  /** The answer that ends encode's receive loop: the first that is not a packet written
      with success. */
  function StopAnswer(enc: seq<EncReply>, n: nat, j: nat, outTime: Rational, frameRate: Rational,
                      mux: Muxer, codes: Codes): EncReply
  {
    EncAnswer(enc[AcceptedRun(enc, n, j, outTime, frameRate, mux, codes)..], codes)
  }

  /** A turn that goes on changes nothing but the log. */
  lemma EncodeLoopSkipOne(enc: seq<EncReply>, index: int, n: nat, j: nat, inTime: Rational,
                          outTime: Rational, frameRate: Rational, mux: Muxer, rs: Rescaler, codes: Codes)
    requires Continues(enc, n, j, outTime, frameRate, mux, codes)
    ensures EncodeLoop(enc, index, n, j, inTime, outTime, frameRate, mux, rs, codes).(log := [])
              == EncodeLoop(enc[1..], index, n, j + 1, inTime, outTime, frameRate, mux, rs, codes).(log := [])
  {
  }

  /** The turns that go on change nothing but the log: the loop ends as it would from the
      answer that stops it. */
  lemma {:induction false} EncodeLoopSkips(enc: seq<EncReply>, index: int, n: nat, j: nat, inTime: Rational,
                                           outTime: Rational, frameRate: Rational, mux: Muxer, rs: Rescaler, codes: Codes)
    ensures var m := AcceptedRun(enc, n, j, outTime, frameRate, mux, codes);
      EncodeLoop(enc, index, n, j, inTime, outTime, frameRate, mux, rs, codes).(log := [])
        == EncodeLoop(enc[m..], index, n, j + m, inTime, outTime, frameRate, mux, rs, codes).(log := [])
    decreases |enc|
  {
    if Continues(enc, n, j, outTime, frameRate, mux, codes) {
      EncodeLoopSkips(enc[1..], index, n, j + 1, inTime, outTime, frameRate, mux, rs, codes);
      EncodeLoopSkipOne(enc, index, n, j, inTime, outTime, frameRate, mux, rs, codes);
      var m := AcceptedRun(enc[1..], n, j + 1, outTime, frameRate, mux, codes);
      assert enc[1..][m..] == enc[1 + m..];
    } else {
      assert enc[0..] == enc;
    }
  }

  /** The turn that ends the loop: a receive error gives -1 and anything else 0; a packet
      crashes in the duration formula or is written once more, the write having failed. */
  lemma EncodeLoopStopTurn(enc: seq<EncReply>, index: int, n: nat, j: nat, inTime: Rational,
                           outTime: Rational, frameRate: Rational, mux: Muxer, rs: Rescaler, codes: Codes)
    requires !Continues(enc, n, j, outTime, frameRate, mux, codes)
    ensures var e := EncodeLoop(enc, index, n, j, inTime, outTime, frameRate, mux, rs, codes);
      var r := EncAnswer(enc, codes);
      var written := IsPacket(r, codes) && Duration(outTime, frameRate).Some?;
      && e.result == (if ReceiveError(r.code, codes) then -1 else 0)
      && (e.crashed <==> IsPacket(r, codes) && Duration(outTime, frameRate).None?)
      && e.writes == j + (if written then 1 else 0)
      && (written ==> mux.writeResult(n, j) < 0)
      && e.enc == Next(enc)
  {
  }

  /** encode's receive loop ends at the first answer that is not a packet written with
      success. Every write before it succeeded. That answer decides the end: -1 for a
      receive error and 0 otherwise, a crash exactly for a packet whose duration formula
      panics, and one more (failed) write for a packet whose duration it knows. */
  lemma EncodeLoopExit(enc: seq<EncReply>, index: int, n: nat, j: nat, inTime: Rational,
                       outTime: Rational, frameRate: Rational, mux: Muxer, rs: Rescaler, codes: Codes)
    ensures var e := EncodeLoop(enc, index, n, j, inTime, outTime, frameRate, mux, rs, codes);
      var m := AcceptedRun(enc, n, j, outTime, frameRate, mux, codes);
      var r := StopAnswer(enc, n, j, outTime, frameRate, mux, codes);
      var written := IsPacket(r, codes) && Duration(outTime, frameRate).Some?;
      && e.result == (if ReceiveError(r.code, codes) then -1 else 0)
      && (e.crashed <==> IsPacket(r, codes) && Duration(outTime, frameRate).None?)
      && e.writes == j + m + (if written then 1 else 0)
      && (forall k :: j <= k < j + m ==> mux.writeResult(n, k) >= 0)
      && (written ==> mux.writeResult(n, j + m) < 0)
      && e.enc == Next(enc[m..])
  {
    var m := AcceptedRun(enc, n, j, outTime, frameRate, mux, codes);
    EncodeLoopSkips(enc, index, n, j, inTime, outTime, frameRate, mux, rs, codes);
    EncodeLoopStopTurn(enc[m..], index, n, j + m, inTime, outTime, frameRate, mux, rs, codes);
    forall k | j <= k < j + m
      ensures mux.writeResult(n, k) >= 0
    {
      assert Continues(enc[k - j..], n, j + (k - j), outTime, frameRate, mux, codes);
    }
  }

  /** Writes followed by `rest` count an event other than a write as `rest` does. */
  lemma WritesThenCount(ws: seq<Packet>, rest: seq<Event>, x: Event)
    requires !x.Write?
    ensures Count(WriteEvents(ws) + rest, x) == Count(rest, x)
  {
    WriteEventsOnly(ws, x);
    CountAppend(WriteEvents(ws), rest, x);
  }

  /** A turn that ends the loop writes at most one packet and then ends as Ending says. */
  lemma EncodeLoopFormStop(enc: seq<EncReply>, index: int, n: nat, j: nat, inTime: Rational,
                           outTime: Rational, frameRate: Rational, mux: Muxer, rs: Rescaler, codes: Codes)
    requires !Continues(enc, n, j, outTime, frameRate, mux, codes)
    ensures var e := EncodeLoop(enc, index, n, j, inTime, outTime, frameRate, mux, rs, codes);
      e.log == WriteEvents(Writes(e.log)) + Ending(e)
  {
    var e := EncodeLoop(enc, index, n, j, inTime, outTime, frameRate, mux, rs, codes);
    var r := EncAnswer(enc, codes);
    if r.code == codes.eagain || r.code == codes.eof || r.code < 0 || Duration(outTime, frameRate).None? {
      ObserversEmpty(e.log);
      assert e.log == Ending(e);
    } else {
      var d := Duration(outTime, frameRate).value;
      var q := RescaleTs(r.packet.(streamIndex := index, duration := d), inTime, outTime, rs);
      assert e.log == [Write(q)] + [Unref, Free];
      ObserversEmpty([Unref, Free]);
      WritesAppend([Write(q)], [Unref, Free]);
      assert WriteEvents(Writes(e.log)) == [Write(q)];
    }
  }

  /** A turn that goes on prepends its write to the form of the rest of the loop. */
  lemma EncodeLoopFormStep(enc: seq<EncReply>, index: int, n: nat, j: nat, inTime: Rational,
                           outTime: Rational, frameRate: Rational, mux: Muxer, rs: Rescaler, codes: Codes)
    requires Continues(enc, n, j, outTime, frameRate, mux, codes)
    requires var e' := EncodeLoop(Next(enc), index, n, j + 1, inTime, outTime, frameRate, mux, rs, codes);
      e'.log == WriteEvents(Writes(e'.log)) + Ending(e')
    ensures var e := EncodeLoop(enc, index, n, j, inTime, outTime, frameRate, mux, rs, codes);
      e.log == WriteEvents(Writes(e.log)) + Ending(e)
  {
    var e := EncodeLoop(enc, index, n, j, inTime, outTime, frameRate, mux, rs, codes);
    var e' := EncodeLoop(Next(enc), index, n, j + 1, inTime, outTime, frameRate, mux, rs, codes);
    var r := EncAnswer(enc, codes);
    var d := Duration(outTime, frameRate).value;
    var q := RescaleTs(r.packet.(streamIndex := index, duration := d), inTime, outTime, rs);
    assert e == e'.(log := [Write(q)] + e'.log);
    WritesAppend([Write(q)], e'.log);
    assert WriteEvents(Writes(e.log)) == [Write(q)] + WriteEvents(Writes(e'.log));
  }

  /** The loop writes, then ends as Ending says. */
  lemma {:induction false} EncodeLoopForm(enc: seq<EncReply>, index: int, n: nat, j: nat, inTime: Rational,
                                          outTime: Rational, frameRate: Rational, mux: Muxer, rs: Rescaler, codes: Codes)
    ensures var e := EncodeLoop(enc, index, n, j, inTime, outTime, frameRate, mux, rs, codes);
      e.log == WriteEvents(Writes(e.log)) + Ending(e)
    decreases |enc|
  {
    if Continues(enc, n, j, outTime, frameRate, mux, codes) {
      EncodeLoopForm(Next(enc), index, n, j + 1, inTime, outTime, frameRate, mux, rs, codes);
      EncodeLoopFormStep(enc, index, n, j, inTime, outTime, frameRate, mux, rs, codes);
    } else {
      EncodeLoopFormStop(enc, index, n, j, inTime, outTime, frameRate, mux, rs, codes);
    }
  }

  /** The loop returns 0 or -1, and 0 on a crash; -1 exactly when the answer that ends
      it is a receive error. */
  lemma EncodeLoopResult(enc: seq<EncReply>, index: int, n: nat, j: nat, inTime: Rational,
                         outTime: Rational, frameRate: Rational, mux: Muxer, rs: Rescaler, codes: Codes)
    ensures var e := EncodeLoop(enc, index, n, j, inTime, outTime, frameRate, mux, rs, codes);
      && (e.result == 0 || e.result == -1) && (e.crashed ==> e.result == 0)
      && (e.result == -1 <==> ReceiveError(StopAnswer(enc, n, j, outTime, frameRate, mux, codes).code, codes))
  {
    EncodeLoopExit(enc, index, n, j, inTime, outTime, frameRate, mux, rs, codes);
  }

  /** The loop makes only encoder calls. */
  lemma EncodeLoopEvents(enc: seq<EncReply>, index: int, n: nat, j: nat, inTime: Rational,
                         outTime: Rational, frameRate: Rational, mux: Muxer, rs: Rescaler, codes: Codes)
    ensures EncoderCalls(EncodeLoop(enc, index, n, j, inTime, outTime, frameRate, mux, rs, codes).log)
  {
    var e := EncodeLoop(enc, index, n, j, inTime, outTime, frameRate, mux, rs, codes);
    EncodeLoopForm(enc, index, n, j, inTime, outTime, frameRate, mux, rs, codes);
    WriteEventsOnly(Writes(e.log), Panic);
    EncoderCallsJoin(WriteEvents(Writes(e.log)), Ending(e));
  }

  /** Every packet written by the loop carries the stream index and the converted formula
      duration. */
  lemma {:induction false} EncodeLoopStamps(enc: seq<EncReply>, index: int, n: nat, j: nat, inTime: Rational,
                                            outTime: Rational, frameRate: Rational, mux: Muxer, rs: Rescaler, codes: Codes)
    ensures var ws := Writes(EncodeLoop(enc, index, n, j, inTime, outTime, frameRate, mux, rs, codes).log);
      ws != [] ==> Duration(outTime, frameRate).Some? &&
                   AllStamped(ws, index, Duration(outTime, frameRate).value, inTime, outTime, rs)
    decreases |enc|
  {
    var e := EncodeLoop(enc, index, n, j, inTime, outTime, frameRate, mux, rs, codes);
    var r := EncAnswer(enc, codes);
    if r.code == codes.eagain || r.code == codes.eof || r.code < 0 || Duration(outTime, frameRate).None? {
      ObserversEmpty(e.log);
    } else {
      var d := Duration(outTime, frameRate).value;
      var q := RescaleTs(r.packet.(streamIndex := index, duration := d), inTime, outTime, rs);
      var tail := if mux.writeResult(n, j) < 0 then [Unref, Free]
                  else EncodeLoop(Next(enc), index, n, j + 1, inTime, outTime, frameRate, mux, rs, codes).log;
      assert e.log == [Write(q)] + tail;
      if mux.writeResult(n, j) < 0 {
        ObserversEmpty(tail);
      } else {
        EncodeLoopStamps(Next(enc), index, n, j + 1, inTime, outTime, frameRate, mux, rs, codes);
      }
      WritesAppend([Write(q)], tail);
      assert Writes(e.log) == [q] + Writes(tail);
    }
  }

  /** A turn that ends the loop numbers the one write it may make. */
  lemma EncodeLoopNumbersStop(enc: seq<EncReply>, index: int, n: nat, j: nat, inTime: Rational,
                              outTime: Rational, frameRate: Rational, mux: Muxer, rs: Rescaler, codes: Codes)
    requires !Continues(enc, n, j, outTime, frameRate, mux, codes)
    ensures var e := EncodeLoop(enc, index, n, j, inTime, outTime, frameRate, mux, rs, codes);
      e.writes == j + |Writes(e.log)|
  {
    var e := EncodeLoop(enc, index, n, j, inTime, outTime, frameRate, mux, rs, codes);
    var r := EncAnswer(enc, codes);
    if r.code == codes.eagain || r.code == codes.eof || r.code < 0 || Duration(outTime, frameRate).None? {
      ObserversEmpty(e.log);
    } else {
      var d := Duration(outTime, frameRate).value;
      var q := RescaleTs(r.packet.(streamIndex := index, duration := d), inTime, outTime, rs);
      assert e.log == [Write(q)] + [Unref, Free] && e.writes == j + 1;
      ObserversEmpty([Unref, Free]);
      WritesAppend([Write(q)], [Unref, Free]);
    }
  }

  /** A turn that goes on adds its write to those of the rest of the loop. */
  lemma EncodeLoopNumbersStep(enc: seq<EncReply>, index: int, n: nat, j: nat, inTime: Rational,
                              outTime: Rational, frameRate: Rational, mux: Muxer, rs: Rescaler, codes: Codes)
    requires Continues(enc, n, j, outTime, frameRate, mux, codes)
    ensures var e := EncodeLoop(enc, index, n, j, inTime, outTime, frameRate, mux, rs, codes);
      var e' := EncodeLoop(Next(enc), index, n, j + 1, inTime, outTime, frameRate, mux, rs, codes);
      e.writes == e'.writes && |Writes(e.log)| == |Writes(e'.log)| + 1
  {
    var e := EncodeLoop(enc, index, n, j, inTime, outTime, frameRate, mux, rs, codes);
    var e' := EncodeLoop(Next(enc), index, n, j + 1, inTime, outTime, frameRate, mux, rs, codes);
    var r := EncAnswer(enc, codes);
    var d := Duration(outTime, frameRate).value;
    var q := RescaleTs(r.packet.(streamIndex := index, duration := d), inTime, outTime, rs);
    assert e == e'.(log := [Write(q)] + e'.log);
    WritesAppend([Write(q)], e'.log);
  }

  /** The writes are numbered on from `j`. */
  lemma {:induction false} EncodeLoopNumbers(enc: seq<EncReply>, index: int, n: nat, j: nat, inTime: Rational,
                                             outTime: Rational, frameRate: Rational, mux: Muxer, rs: Rescaler, codes: Codes)
    ensures var e := EncodeLoop(enc, index, n, j, inTime, outTime, frameRate, mux, rs, codes);
      e.writes == j + |Writes(e.log)|
    decreases |enc|
  {
    if Continues(enc, n, j, outTime, frameRate, mux, codes) {
      EncodeLoopNumbers(Next(enc), index, n, j + 1, inTime, outTime, frameRate, mux, rs, codes);
      EncodeLoopNumbersStep(enc, index, n, j, inTime, outTime, frameRate, mux, rs, codes);
    } else {
      EncodeLoopNumbersStop(enc, index, n, j, inTime, outTime, frameRate, mux, rs, codes);
    }
  }

  /** The loop goes on exactly while the muxer accepts: a packet written with success
      makes it receive again, so every write but the last succeeded, and a last write
      that failed is the one that ended it. */
  lemma EncodeLoopAccepted(enc: seq<EncReply>, index: int, n: nat, j: nat, inTime: Rational,
                           outTime: Rational, frameRate: Rational, mux: Muxer, rs: Rescaler, codes: Codes)
    ensures var e := EncodeLoop(enc, index, n, j, inTime, outTime, frameRate, mux, rs, codes);
      var m := AcceptedRun(enc, n, j, outTime, frameRate, mux, codes);
      var r := StopAnswer(enc, n, j, outTime, frameRate, mux, codes);
      && j + m <= e.writes <= j + m + 1
      && (forall k :: j <= k < j + m ==> mux.writeResult(n, k) >= 0)
      && (e.writes == j + m + 1 <==> IsPacket(r, codes) && Duration(outTime, frameRate).Some?)
      && (e.writes == j + m + 1 ==> mux.writeResult(n, j + m) < 0)
  {
    EncodeLoopExit(enc, index, n, j, inTime, outTime, frameRate, mux, rs, codes);
  }

  /** How the loop ends: a crash ends the log with a panic; otherwise the result is 0,
      with the unref and the free as the last two acts, or -1. A crash comes exactly from
      a packet whose duration formula panics, -1 exactly from a receive error. */
  lemma EncodeLoopEnding(enc: seq<EncReply>, index: int, n: nat, j: nat, inTime: Rational,
                         outTime: Rational, frameRate: Rational, mux: Muxer, rs: Rescaler, codes: Codes)
    ensures var e := EncodeLoop(enc, index, n, j, inTime, outTime, frameRate, mux, rs, codes);
      && (e.crashed ==> e.log != [] && e.log[|e.log| - 1] == Panic)
      && (!e.crashed ==> e.result == 0 || e.result == -1)
      && (!e.crashed && e.result == 0 ==> |e.log| >= 2 && e.log[|e.log| - 2..] == [Unref, Free])
      && var r := StopAnswer(enc, n, j, outTime, frameRate, mux, codes);
      && (e.crashed <==> IsPacket(r, codes) && Duration(outTime, frameRate).None?)
      && (e.result == -1 <==> ReceiveError(r.code, codes))
  {
    var e := EncodeLoop(enc, index, n, j, inTime, outTime, frameRate, mux, rs, codes);
    EncodeLoopForm(enc, index, n, j, inTime, outTime, frameRate, mux, rs, codes);
    EncodeLoopResult(enc, index, n, j, inTime, outTime, frameRate, mux, rs, codes);
    EncodeLoopExit(enc, index, n, j, inTime, outTime, frameRate, mux, rs, codes);
    var ws := WriteEvents(Writes(e.log));
    if e.crashed || e.result == 0 {
      assert e.log[|ws|..] == Ending(e);
    }
  }

  /** How often the loop unreferences, frees and panics: once each for the unref and the
      free when the result is 0, never after a receive error, one panic exactly on a
      crash. */
  lemma EncodeLoopCounts(enc: seq<EncReply>, index: int, n: nat, j: nat, inTime: Rational,
                         outTime: Rational, frameRate: Rational, mux: Muxer, rs: Rescaler, codes: Codes)
    ensures var e := EncodeLoop(enc, index, n, j, inTime, outTime, frameRate, mux, rs, codes);
      && (!e.crashed && e.result == 0 ==> Count(e.log, Unref) == 1 && Count(e.log, Free) == 1)
      && (!e.crashed && e.result != 0 ==> Count(e.log, Unref) == 0 && Count(e.log, Free) == 0)
      && Count(e.log, Panic) == (if e.crashed then 1 else 0)
  {
    var e := EncodeLoop(enc, index, n, j, inTime, outTime, frameRate, mux, rs, codes);
    EncodeLoopForm(enc, index, n, j, inTime, outTime, frameRate, mux, rs, codes);
    ReleaseCounts(Ending(e));
    WritesThenCount(Writes(e.log), Ending(e), Unref);
    WritesThenCount(Writes(e.log), Ending(e), Free);
    WritesThenCount(Writes(e.log), Ending(e), Panic);
  }

  /** The counts of the short logs that end the loop. */
  lemma ReleaseCounts(log: seq<Event>)
    requires log == [] || log == [Panic] || log == [Unref, Free] || log == [SendFrame, Unref, Free]
    ensures Count(log, Unref) == (if |log| >= 2 then 1 else 0)
    ensures Count(log, Free) == (if |log| >= 2 then 1 else 0)
    ensures Count(log, Panic) == (if log == [Panic] then 1 else 0)
  {
    if log == [Panic] {
      assert log[1..] == [];
    } else if log == [Unref, Free] {
      assert log[1..] == [Free] && log[1..][1..] == [];
    } else if log == [SendFrame, Unref, Free] {
      assert log[1..] == [Unref, Free] && log[1..][1..] == [Free] && log[1..][1..][1..] == [];
    }
  }

  /** encode with its send: it makes only encoder calls, sending the frame first; the
      writes carry the stream index and the converted formula duration and are numbered on
      from `j`. */
  lemma EncodeWrites(enc: seq<EncReply>, index: int, n: nat, j: nat, inTime: Rational, outTime: Rational,
                     frameRate: Rational, mux: Muxer, rs: Rescaler, codes: Codes)
    ensures var e := Encode(enc, index, n, j, inTime, outTime, frameRate, mux, rs, codes);
      var ws := Writes(e.log);
      && e.log != [] && e.log[0] == SendFrame
      && EncoderCalls(e.log)
      && (ws != [] ==> Duration(outTime, frameRate).Some? &&
                       AllStamped(ws, index, Duration(outTime, frameRate).value, inTime, outTime, rs))
      && e.writes == j + |ws|
  {
    var e := Encode(enc, index, n, j, inTime, outTime, frameRate, mux, rs, codes);
    if EncAnswer(enc, codes).code < 0 {
      ObserversEmpty(e.log);
    } else {
      var e' := EncodeLoop(Next(enc), index, n, j, inTime, outTime, frameRate, mux, rs, codes);
      EncodeLoopEvents(Next(enc), index, n, j, inTime, outTime, frameRate, mux, rs, codes);
      EncodeLoopStamps(Next(enc), index, n, j, inTime, outTime, frameRate, mux, rs, codes);
      EncodeLoopNumbers(Next(enc), index, n, j, inTime, outTime, frameRate, mux, rs, codes);
      WritesAppend([SendFrame], e'.log);
      assert e.log == [SendFrame] + e'.log;
      EncoderCallsJoin([SendFrame], e'.log);
    }
  }

  /** encode with its send ends as its loop does: a crash ends the log with a panic,
      otherwise the result is 0 or -1. */
  lemma EncodeTail(enc: seq<EncReply>, index: int, n: nat, j: nat, inTime: Rational, outTime: Rational,
                     frameRate: Rational, mux: Muxer, rs: Rescaler, codes: Codes)
    ensures var e := Encode(enc, index, n, j, inTime, outTime, frameRate, mux, rs, codes);
      && (e.crashed ==> e.log[|e.log| - 1] == Panic)
      && (!e.crashed ==> e.result == 0 || e.result == -1)
  {
    var e := Encode(enc, index, n, j, inTime, outTime, frameRate, mux, rs, codes);
    if EncAnswer(enc, codes).code >= 0 {
      var e' := EncodeLoop(Next(enc), index, n, j, inTime, outTime, frameRate, mux, rs, codes);
      EncodeLoopEnding(Next(enc), index, n, j, inTime, outTime, frameRate, mux, rs, codes);
      assert e == e'.(log := [SendFrame] + e'.log);
    }
  }

  /** What ends encode with its send: a refused send gives 0; after an accepted one, the
      answer that ends the receive loop decides: -1 exactly for a receive error, a crash
      exactly for a packet whose duration formula panics. */
  lemma EncodeExit(enc: seq<EncReply>, index: int, n: nat, j: nat, inTime: Rational, outTime: Rational,
                   frameRate: Rational, mux: Muxer, rs: Rescaler, codes: Codes)
    ensures var e := Encode(enc, index, n, j, inTime, outTime, frameRate, mux, rs, codes);
      var accepted := EncAnswer(enc, codes).code >= 0;
      var r := StopAnswer(Next(enc), n, j, outTime, frameRate, mux, codes);
      && e.result == (if accepted && ReceiveError(r.code, codes) then -1 else 0)
      && (e.crashed <==> accepted && IsPacket(r, codes) && Duration(outTime, frameRate).None?)
  {
    if EncAnswer(enc, codes).code >= 0 {
      var e' := EncodeLoop(Next(enc), index, n, j, inTime, outTime, frameRate, mux, rs, codes);
      EncodeLoopExit(Next(enc), index, n, j, inTime, outTime, frameRate, mux, rs, codes);
      assert Encode(enc, index, n, j, inTime, outTime, frameRate, mux, rs, codes) == e'.(log := [SendFrame] + e'.log);
    }
  }

  /** How encode with its send ends, and why: a crash ends the log with a panic and comes
      exactly from a packet, received after an accepted frame, whose duration formula
      panics; otherwise the result is -1 exactly when the frame was accepted and the answer
      that ends the receive loop is a receive error, and 0 else. */
  lemma EncodeEnding(enc: seq<EncReply>, index: int, n: nat, j: nat, inTime: Rational, outTime: Rational,
                     frameRate: Rational, mux: Muxer, rs: Rescaler, codes: Codes)
    ensures var e := Encode(enc, index, n, j, inTime, outTime, frameRate, mux, rs, codes);
      var accepted := EncAnswer(enc, codes).code >= 0;
      var r := StopAnswer(Next(enc), n, j, outTime, frameRate, mux, codes);
      && (e.crashed ==> e.log[|e.log| - 1] == Panic)
      && e.result == (if accepted && ReceiveError(r.code, codes) then -1 else 0)
      && (e.crashed <==> accepted && IsPacket(r, codes) && Duration(outTime, frameRate).None?)
  {
    EncodeTail(enc, index, n, j, inTime, outTime, frameRate, mux, rs, codes);
    EncodeExit(enc, index, n, j, inTime, outTime, frameRate, mux, rs, codes);
  }

  /** encode with its send releases the packet as its loop does: result 0 comes with one
      unref and one free, result -1 with neither. */
  lemma EncodeReleases(enc: seq<EncReply>, index: int, n: nat, j: nat, inTime: Rational, outTime: Rational,
                       frameRate: Rational, mux: Muxer, rs: Rescaler, codes: Codes)
    ensures var e := Encode(enc, index, n, j, inTime, outTime, frameRate, mux, rs, codes);
      && (!e.crashed && e.result == 0 ==> Count(e.log, Unref) == 1 && Count(e.log, Free) == 1)
      && (!e.crashed && e.result == -1 ==> Count(e.log, Unref) == 0 && Count(e.log, Free) == 0)
  {
    var e := Encode(enc, index, n, j, inTime, outTime, frameRate, mux, rs, codes);
    if EncAnswer(enc, codes).code < 0 {
      ReleaseCounts(e.log);
    } else {
      var e' := EncodeLoop(Next(enc), index, n, j, inTime, outTime, frameRate, mux, rs, codes);
      EncodeLoopCounts(Next(enc), index, n, j, inTime, outTime, frameRate, mux, rs, codes);
      assert e == e'.(log := [SendFrame] + e'.log);
      CountAppend([SendFrame], e'.log, Unref);
      CountAppend([SendFrame], e'.log, Free);
    }
  }

  /** Where encode stands in its loop after `response`, with `log` made so far: a
      non-negative response receives again, a negative one releases the packet. */
  function EncodeFrom(response: int, enc: seq<EncReply>, log: seq<Event>, index: int, n: nat, j: nat, inTime: Rational,
                      outTime: Rational, frameRate: Rational, mux: Muxer, rs: Rescaler, codes: Codes): Encoded
  {
    if response >= 0 then
      var rest := EncodeLoop(enc, index, n, j, inTime, outTime, frameRate, mux, rs, codes);
      rest.(log := log + rest.log)
    else Encoded(0, log + [Unref, Free], false, enc, j)
  }

  /** One written packet, as the loop of encode goes on from it. */
  lemma EncodeWriteStep(enc: seq<EncReply>, log: seq<Event>, index: int, n: nat, j: nat, inTime: Rational,
                        outTime: Rational, frameRate: Rational, mux: Muxer, rs: Rescaler, codes: Codes)
    requires var code := EncAnswer(enc, codes).code; code >= 0 && code != codes.eagain && code != codes.eof
    requires Duration(outTime, frameRate).Some?
    ensures var q := RescaleTs(EncAnswer(enc, codes).packet.(streamIndex := index, duration := Duration(outTime, frameRate).value),
                               inTime, outTime, rs);
      EncodeFrom(0, enc, log, index, n, j, inTime, outTime, frameRate, mux, rs, codes) ==
      EncodeFrom(mux.writeResult(n, j), Next(enc), log + [Write(q)], index, n, j + 1, inTime, outTime, frameRate, mux, rs, codes)
  {
    var q := RescaleTs(EncAnswer(enc, codes).packet.(streamIndex := index, duration := Duration(outTime, frameRate).value),
                       inTime, outTime, rs);
    if mux.writeResult(n, j) >= 0 {
      var rest := EncodeLoop(Next(enc), index, n, j + 1, inTime, outTime, frameRate, mux, rs, codes);
      assert log + ([Write(q)] + rest.log) == log + [Write(q)] + rest.log;
    } else {
      assert log + [Write(q), Unref, Free] == log + [Write(q)] + [Unref, Free];
    }
  }

  /** encode as the source writes it: `inStream` is the input stream handed in (its time
      base and average frame rate), `outTime` the time base the header left on the output
      stream. */
  method EncodeFrame(enc: seq<EncReply>, index: int, n: nat, j: nat, inStream: Stream, outTime: Rational,
                     mux: Muxer, rs: Rescaler, codes: Codes) returns (e: Encoded)
    ensures e == Encode(enc, index, n, j, inStream.timeBase, outTime, inStream.avgFrameRate, mux, rs, codes)
  {
    ghost var whole := Encode(enc, index, n, j, inStream.timeBase, outTime, inStream.avgFrameRate, mux, rs, codes);
    var script := enc;
    var log := [SendFrame];
    var response := EncAnswer(script, codes).code;
    script := Next(script);
    var w := j;
    while response >= 0
      invariant whole == EncodeFrom(response, script, log, index, n, w, inStream.timeBase, outTime, inStream.avgFrameRate, mux, rs, codes)
      decreases |script|
    {
      ghost var script0 := script;
      var reply := EncAnswer(script, codes);
      script := Next(script);
      response := reply.code;
      if response == codes.eagain || response == codes.eof {
        break;
      } else if response < 0 {
        assert log + [] == log;
        return Encoded(-1, log, false, script, w);
      }
      var packet := reply.packet.(streamIndex := index);
      var frameRate := inStream.avgFrameRate;
      if outTime.num == 0 || frameRate.num == 0 {
        return Encoded(0, log + [Panic], true, script, w);
      }
      packet := packet.(duration := TDiv(TDiv(outTime.den, outTime.num), frameRate.num) * frameRate.den);
      packet := RescaleTs(packet, inStream.timeBase, outTime, rs);
      EncodeWriteStep(script0, log, index, n, w, inStream.timeBase, outTime, frameRate, mux, rs, codes);
      log := log + [Write(packet)];
      response := mux.writeResult(n, w);
      w := w + 1;
    }
    return Encoded(0, log + [Unref, Free], false, script, w);
  }

  // ---------------------------------------------------------------------------
  // The setup loop of run (src/cmds/transcode.rs:37-97)

  predicate IsVideo(stream: Stream)
  {
    stream.codecpar.codecType == Video
  }

  /** What the setup loop does for input stream i: allocate an output stream; for a video
      stream open a decoder on it and an encoder whose time base is the inverse of the
      frame rate FFmpeg guesses for the stream (`guess`); for any other stream copy its
      parameters. */
  function StreamSetup(i: nat, stream: Stream, mux: Muxer, guess: nat -> Rational): (log: seq<Event>)
    ensures forall k :: 0 <= k < |log| ==> IsStreamSetup(log[k])
  {
    var ref := mux.newStream(i);
    if IsVideo(stream) then [NewStream(ref), OpenDecoder(i), OpenEncoder(ref, InvQ(guess(i)))]
    else [NewStream(ref), CopyParams(ref, stream.codecpar)]
  }

  function SetupLog(streams: seq<Stream>, mux: Muxer, guess: nat -> Rational): seq<Event>
    decreases |streams|
  {
    if streams == [] then []
    else
      var i := |streams| - 1;
      SetupLog(streams[..i], mux, guess) + StreamSetup(i, streams[i], mux, guess)
  }

  /** The format context flags after the setup loop: every stream that is not video makes
      the global-header request. */
  function SetupFlags(flags: bv32, formatFlags: bv32, streams: seq<Stream>): bv32
    decreases |streams|
  {
    if streams == [] then flags
    else
      var i := |streams| - 1;
      var before := SetupFlags(flags, formatFlags, streams[..i]);
      if IsVideo(streams[i]) then before else GlobalHeaderFlags(before, formatFlags)
  }

  predicate HasOther(streams: seq<Stream>)
  {
    exists i :: 0 <= i < |streams| && !IsVideo(streams[i])
  }

  /** However many streams make the request, it acts as one request made if there is any
      stream that is not video. */
  lemma {:induction false} SetupFlagsOnce(flags: bv32, formatFlags: bv32, streams: seq<Stream>)
    ensures SetupFlags(flags, formatFlags, streams) ==
      if HasOther(streams) then GlobalHeaderFlags(flags, formatFlags) else flags
    decreases |streams|
  {
    if streams != [] {
      var i := |streams| - 1;
      var before := SetupFlags(flags, formatFlags, streams[..i]);
      SetupFlagsOnce(flags, formatFlags, streams[..i]);
      if HasOther(streams[..i]) {
        var w :| 0 <= w < i && !IsVideo(streams[..i][w]);
        assert !IsVideo(streams[w]);
        assert HasOther(streams);
        GlobalHeaderIdempotent(flags, formatFlags);
      } else if IsVideo(streams[i]) {
        assert before == flags;
        forall w | 0 <= w < |streams|
          ensures IsVideo(streams[w])
        {
          if w < i {
            assert streams[w] == streams[..i][w];
          }
        }
        assert !HasOther(streams);
      } else {
        assert before == flags;
        assert HasOther(streams);
      }
    }
  }

  /** The flags the header is written with: the global-header bit is set exactly when it was
      set before or the output format wants global headers and some input stream is not
      video; no other bit changes. */
  lemma SetupFlagsBits(flags: bv32, formatFlags: bv32, streams: seq<Stream>)
    ensures var r := SetupFlags(flags, formatFlags, streams);
      && (r & AV_CODEC_FLAG_GLOBAL_HEADER != 0 <==>
           (flags & AV_CODEC_FLAG_GLOBAL_HEADER != 0 || (HasOther(streams) && formatFlags & AVFMT_GLOBALHEADER != 0)))
      && r & !AV_CODEC_FLAG_GLOBAL_HEADER == flags & !AV_CODEC_FLAG_GLOBAL_HEADER
  {
    SetupFlagsOnce(flags, formatFlags, streams);
  }

  /** The stream whose decoder (and encoder) the setup loop leaves open: each video stream
      overwrites the contexts, so the last one wins; None leaves them null. */
  function LastVideo(streams: seq<Stream>): (r: Option<nat>)
    ensures r.Some? ==> r.value < |streams| && IsVideo(streams[r.value])
    ensures r.Some? ==> forall i :: r.value < i < |streams| ==> !IsVideo(streams[i])
    ensures r.None? ==> forall i :: 0 <= i < |streams| ==> !IsVideo(streams[i])
    decreases |streams|
  {
    if streams == [] then None
    else if IsVideo(streams[|streams| - 1]) then Some(|streams| - 1)
    else
      var r := LastVideo(streams[..|streams| - 1]);
      assert forall i :: 0 <= i < |streams| - 1 ==> streams[..|streams| - 1][i] == streams[i];
      r
  }

  /** The parameters of the streams that are not video, in input order. */
  function OtherParams(streams: seq<Stream>): seq<CodecParams>
    decreases |streams|
  {
    if streams == [] then []
    else
      var i := |streams| - 1;
      OtherParams(streams[..i]) + (if IsVideo(streams[i]) then [] else [streams[i].codecpar])
  }

  /** The codecs opened for the video streams, in input order: a decoder on the stream and
      an encoder on its output stream with the inverse guessed frame rate as time base. */
  function VideoCodecs(streams: seq<Stream>, mux: Muxer, guess: nat -> Rational): seq<Event>
    decreases |streams|
  {
    if streams == [] then []
    else
      var i := |streams| - 1;
      VideoCodecs(streams[..i], mux, guess) +
        (if IsVideo(streams[i]) then [OpenDecoder(i), OpenEncoder(mux.newStream(i), InvQ(guess(i)))] else [])
  }

  /** The output streams allocated, in order. */
  function Allocated(log: seq<Event>): seq<nat>
  {
    if log == [] then [] else (if log[0].NewStream? then [log[0].ref] else []) + Allocated(log[1..])
  }

  /** The codecs opened, in order. */
  function Codecs(log: seq<Event>): seq<Event>
  {
    if log == [] then [] else (if log[0].OpenDecoder? || log[0].OpenEncoder? then [log[0]] else []) + Codecs(log[1..])
  }

  lemma {:induction false} AllocatedCodecsAppend(a: seq<Event>, b: seq<Event>)
    ensures Allocated(a + b) == Allocated(a) + Allocated(b)
    ensures Codecs(a + b) == Codecs(a) + Codecs(b)
    decreases |a|
  {
    if a != [] {
      assert (a + b)[1..] == a[1..] + b;
      AllocatedCodecsAppend(a[1..], b);
    } else {
      assert a + b == b;
    }
  }

  /** One stream's setup: one allocation, the copy of a non-video stream's parameters, the
      codecs of a video stream. */
  lemma StreamSetupObserved(i: nat, stream: Stream, mux: Muxer, guess: nat -> Rational)
    ensures var log := StreamSetup(i, stream, mux, guess);
      && Allocated(log) == [mux.newStream(i)]
      && Copied(log) == (if IsVideo(stream) then [] else [stream.codecpar])
      && Codecs(log) == (if IsVideo(stream) then [OpenDecoder(i), OpenEncoder(mux.newStream(i), InvQ(guess(i)))] else [])
      && Writes(log) == [] && Sent(log) == []
  {
    var log := StreamSetup(i, stream, mux, guess);
    var ref := mux.newStream(i);
    assert Codecs([]) == [] && Allocated([]) == [];
    if IsVideo(stream) {
      var e := OpenEncoder(ref, InvQ(guess(i)));
      assert log[1..] == [OpenDecoder(i), e] && log[1..][1..] == [e] && [e][1..] == [];
      assert Allocated([e]) == [] && Codecs([e]) == [e];
      assert Allocated(log[1..]) == [] && Codecs(log[1..]) == [OpenDecoder(i), e];
    } else {
      var c := CopyParams(ref, stream.codecpar);
      assert log[1..] == [c] && [c][1..] == [];
      assert Allocated([c]) == [] && Codecs([c]) == [];
    }
    ObserversEmpty(log[1..][1..]);
  }

  /** The setup loop allocates one output stream per input stream in input order (the
      references the muxer hands out), copies the parameters of exactly the streams that
      are not video, opens a decoder and an encoder for exactly the video streams, and does
      nothing but stream setup. */
  lemma {:induction false} SetupInOrder(streams: seq<Stream>, mux: Muxer, guess: nat -> Rational)
    ensures var log := SetupLog(streams, mux, guess);
      && Allocated(log) == Refs(mux, |streams|)
      && Copied(log) == OtherParams(streams)
      && Codecs(log) == VideoCodecs(streams, mux, guess)
      && Writes(log) == [] && Sent(log) == []
      && forall k :: 0 <= k < |log| ==> IsStreamSetup(log[k])
    decreases |streams|
  {
    if streams != [] {
      var i := |streams| - 1;
      var before := SetupLog(streams[..i], mux, guess);
      var s := StreamSetup(i, streams[i], mux, guess);
      SetupInOrder(streams[..i], mux, guess);
      StreamSetupObserved(i, streams[i], mux, guess);
      AllocatedCodecsAppend(before, s);
      CopiedAppend(before, s);
      WritesAppend(before, s);
      SentAppend(before, s);
    }
  }

  /** The time base requested for output stream i: the encoder's for a video stream, none
      otherwise. */
  function Requested(i: nat, stream: Stream, guess: nat -> Rational): Option<Rational>
  {
    if IsVideo(stream) then Some(InvQ(guess(i))) else None
  }

  /** The time bases of the output streams once the header is written. */
  function TimeBases(streams: seq<Stream>, mux: Muxer, guess: nat -> Rational): (tbs: seq<Rational>)
    ensures |tbs| == |streams|
  {
    seq(|streams|, i requires 0 <= i < |streams| => mux.timeBase(mux.newStream(i), Requested(i, streams[i], guess)))
  }

  lemma SetupLogStep(streams: seq<Stream>, i: nat, mux: Muxer, guess: nat -> Rational)
    requires i < |streams|
    ensures SetupLog(streams[..i + 1], mux, guess) == SetupLog(streams[..i], mux, guess) + StreamSetup(i, streams[i], mux, guess)
  {
    assert streams[..i + 1][..i] == streams[..i];
  }

  lemma SetupFlagsStep(flags: bv32, formatFlags: bv32, streams: seq<Stream>, i: nat)
    requires i < |streams|
    ensures SetupFlags(flags, formatFlags, streams[..i + 1]) ==
      if IsVideo(streams[i]) then SetupFlags(flags, formatFlags, streams[..i])
      else GlobalHeaderFlags(SetupFlags(flags, formatFlags, streams[..i]), formatFlags)
  {
    assert streams[..i + 1][..i] == streams[..i];
  }

  lemma LastVideoStep(streams: seq<Stream>, i: nat)
    requires i < |streams|
    ensures LastVideo(streams[..i + 1]) == if IsVideo(streams[i]) then Some(i) else LastVideo(streams[..i])
  {
    assert streams[..i + 1][..i] == streams[..i];
  }

  /** The body of the setup loop for input stream i: allocate the output stream, then
      open the codecs of a video stream or copy the parameters of any other, the latter
      with the global-header request. */
  method SetupStream(output: OutputCtx, i: nat, inStream: Stream, mux: Muxer, guess: nat -> Rational)
    returns (outStream: nat, video: bool)
    modifies output
    ensures outStream == mux.newStream(i) && video == IsVideo(inStream)
    ensures output.streams == old(output.streams)
    ensures output.flags == if video then old(output.flags) else GlobalHeaderFlags(old(output.flags), output.formatFlags)
    ensures output.events == old(output.events) + StreamSetup(i, inStream, mux, guess)
  {
    outStream := mux.newStream(i);
    var calls := [NewStream(outStream)];
    video := inStream.codecpar.codecType == Video;
    if video {
      calls := calls + [OpenDecoder(i)];
      var timeBase := InvQ(guess(i));
      calls := calls + [OpenEncoder(outStream, timeBase)];
    } else {
      calls := calls + [CopyParams(outStream, inStream.codecpar)];
      output.RequestGlobalHeader();
    }
    output.events := output.events + calls;
  }

  /** The setup loop as the source writes it: it returns the output streams and the input
      stream whose decoder and encoder are left open. */
  method AddStreams(output: OutputCtx, streams: seq<Stream>, mux: Muxer, guess: nat -> Rational)
    returns (outStreams: seq<nat>, coder: Option<nat>)
    modifies output
    requires output.events == []
    ensures outStreams == Refs(mux, |streams|)
    ensures coder == LastVideo(streams)
    ensures output.streams == old(output.streams)
    ensures output.flags == SetupFlags(old(output.flags), output.formatFlags, streams)
    ensures output.events == SetupLog(streams, mux, guess)
  {
    outStreams := [];
    coder := None;
    ghost var flags := output.flags;
    ghost var added := output.streams;
    for i := 0 to |streams|
      invariant output.streams == added
      invariant output.flags == SetupFlags(flags, output.formatFlags, streams[..i])
      invariant outStreams == Refs(mux, i)
      invariant coder == LastVideo(streams[..i])
      invariant output.events == SetupLog(streams[..i], mux, guess)
    {
      SetupLogStep(streams, i, mux, guess);
      SetupFlagsStep(flags, output.formatFlags, streams, i);
      LastVideoStep(streams, i);
      var outStream, video := SetupStream(output, i, streams[i], mux, guess);
      if video {
        coder := Some(i);
      }
      outStreams := outStreams + [outStream];
    }
    assert streams[..|streams|] == streams;
  }

  // ---------------------------------------------------------------------------
  // The read loop of run (src/cmds/transcode.rs:101-139)

  /** What the read loop works with: the input streams, the time bases the header left on
      the output streams, whether a decoder was left open, the muxer, the rescaling
      routines and the codes answers are compared with. */
  datatype Plan = Plan(streams: seq<Stream>, outTimes: seq<Rational>, hasDecoder: bool, mux: Muxer, rs: Rescaler, codes: Codes)
  {
    predicate Valid()
    {
      |outTimes| == |streams|
    }
  }

  /** Where the read loop stands after one packet: its log, whether run stops (and how),
      and the decoder and encoder answers left. */
  datatype Turned = Turned(log: seq<Event>, stop: Option<Exit>, dec: seq<int>, enc: seq<EncReply>)

  /** The receive loop of the decoder (src/cmds/transcode.rs:111-130) after a packet was
      accepted; `index` is the packet's stream index, `j` numbers the next write. The loop
      condition tests the send's response, which the receive's shadows, so only a
      sentinel or an error ends it; the result of encode is ignored. */
  function DecodeLoop(dec: seq<int>, enc: seq<EncReply>, index: int, n: nat, j: nat, pl: Plan): Turned
    requires pl.Valid() && |pl.streams| > 0
    decreases |dec|
  {
    var r := Answer(dec, pl.codes.eagain);
    var rest := Next(dec);
    if r == pl.codes.eagain || r == pl.codes.eof then Turned([], None, rest, enc)
    else if r < 0 then Turned([], Some(Aborted), rest, enc)
    else
      var e := Encode(enc, index, n, j, pl.streams[0].timeBase, pl.outTimes[0], pl.streams[0].avgFrameRate,
                      pl.mux, pl.rs, pl.codes);
      if e.crashed then Turned(e.log, Some(Crashed), rest, e.enc)
      else
        var t := DecodeLoop(rest, e.enc, index, n, e.writes, pl);
        t.(log := e.log + t.log)
  }

  /** One packet read (the n-th): its cast index selects the streams (out of range
      panics); stream 0 goes to the decoder (a null one, left when there is no video
      stream, crashes), any other stream is converted to its output time base and written,
      the write's answer ignored. */
  function OnePacket(p: Packet, n: nat, dec: seq<int>, enc: seq<EncReply>, pl: Plan): Turned
    requires pl.Valid()
  {
    var index := AsUsize(p.streamIndex);
    if index >= |pl.streams| then Turned([Panic], Some(Crashed), dec, enc)
    else if index == 0 then
      if !pl.hasDecoder then Turned([Panic], Some(Crashed), dec, enc)
      else if Answer(dec, pl.codes.eagain) < 0 then Turned([SendPacket(p)], None, Next(dec), enc)
      else
        var t := DecodeLoop(Next(dec), enc, p.streamIndex, n, 0, pl);
        t.(log := [SendPacket(p)] + t.log)
    else Turned([Write(RescaleTs(p, pl.streams[index].timeBase, pl.outTimes[index], pl.rs))], None, dec, enc)
  }

  /** The read loop over the packets read, the n-th first. */
  function PacketsLog(ps: seq<Packet>, n: nat, dec: seq<int>, enc: seq<EncReply>, pl: Plan): Pumped
    requires pl.Valid()
    decreases |ps|
  {
    if ps == [] then Pumped([], Drained)
    else
      var t := OnePacket(ps[0], n, dec, enc, pl);
      if t.stop.Some? then Pumped(t.log, t.stop.value)
      else
        var rest := PacketsLog(ps[1..], n + 1, t.dec, t.enc, pl);
        rest.(log := t.log + rest.log)
  }

  // ---------------------------------------------------------------------------
  // What the read loop is meant to do

  /** The packets of stream 0, in order: the ones meant for the decoder. */
  function StreamZero(ps: seq<Packet>): seq<Packet>
  {
    if ps == [] then [] else (if AsUsize(ps[0].streamIndex) == 0 then [ps[0]] else []) + StreamZero(ps[1..])
  }

  /** The packets of the other streams, converted to their output time bases: what is meant
      to be passed through. */
  function Forwarded(ps: seq<Packet>, pl: Plan): seq<Packet>
    requires pl.Valid()
  {
    if ps == [] then []
    else
      var index := AsUsize(ps[0].streamIndex);
      (if 0 < index < |pl.streams| then [RescaleTs(ps[0], pl.streams[index].timeBase, pl.outTimes[index], pl.rs)] else [])
        + Forwarded(ps[1..], pl)
  }

  /** The written packets that do not belong to stream 0. */
  function Passed(ws: seq<Packet>): seq<Packet>
  {
    if ws == [] then [] else (if AsUsize(ws[0].streamIndex) != 0 then [ws[0]] else []) + Passed(ws[1..])
  }

  lemma {:induction false} PassedAppend(a: seq<Packet>, b: seq<Packet>)
    ensures Passed(a + b) == Passed(a) + Passed(b)
    decreases |a|
  {
    if a != [] {
      assert (a + b)[1..] == a[1..] + b;
      PassedAppend(a[1..], b);
    } else {
      assert a + b == b;
    }
  }

  /** The duration every encoded packet gets, if the formula does not panic. */
  function FrameDuration(pl: Plan): Option<int>
  {
    if |pl.streams| > 0 && |pl.outTimes| > 0 then Duration(pl.outTimes[0], pl.streams[0].avgFrameRate) else None
  }

  /** A packet of stream 0 written as encode writes it: the formula's duration converted
      from the time base of input stream 0 to that of output stream 0. */
  predicate EncodedWrite(q: Packet, pl: Plan)
  {
    FrameDuration(pl).Some? && |pl.streams| > 0 && |pl.outTimes| > 0 &&
    q.duration == pl.rs.ts(FrameDuration(pl).value, pl.streams[0].timeBase, pl.outTimes[0])
  }

  /** Every written packet of stream 0 was written by encode. */
  predicate EncodedWrites(ws: seq<Packet>, pl: Plan)
  {
    forall k :: 0 <= k < |ws| && AsUsize(ws[k].streamIndex) == 0 ==> EncodedWrite(ws[k], pl)
  }

  lemma EncodedWritesAppend(a: seq<Packet>, b: seq<Packet>, pl: Plan)
    requires EncodedWrites(a, pl) && EncodedWrites(b, pl)
    ensures EncodedWrites(a + b, pl)
  {
    forall k | 0 <= k < |a + b| && AsUsize((a + b)[k].streamIndex) == 0
      ensures EncodedWrite((a + b)[k], pl)
    {
      if k >= |a| {
        assert (a + b)[k] == b[k - |a|];
      }
    }
  }

  lemma EncoderCallsJoin(a: seq<Event>, b: seq<Event>)
    requires EncoderCalls(a) && EncoderCalls(b)
    ensures EncoderCalls(a + b)
  {
    forall k | 0 <= k < |a + b|
      ensures EncoderEvent((a + b)[k])
    {
      if k >= |a| {
        assert (a + b)[k] == b[k - |a|];
      }
    }
  }

  /** The packets encode writes for a packet of stream 0 are not passed-through ones, and
      carry the formula's duration. */
  lemma {:induction false} StampedWrites(ws: seq<Packet>, index: int, pl: Plan)
    requires pl.Valid() && |pl.streams| > 0 && AsUsize(index) == 0
    requires ws != [] ==>
      FrameDuration(pl).Some? && AllStamped(ws, index, FrameDuration(pl).value, pl.streams[0].timeBase, pl.outTimes[0], pl.rs)
    ensures Passed(ws) == [] && EncodedWrites(ws, pl)
    decreases |ws|
  {
    if ws != [] {
      StampedWrites(ws[1..], index, pl);
    }
  }

  /** The receive loop of the decoder makes only encoder calls, and what it writes
      belongs to stream 0 and carries the formula's duration. */
  lemma {:induction false} DecodeLoopCalls(dec: seq<int>, enc: seq<EncReply>, index: int, n: nat, j: nat, pl: Plan)
    requires pl.Valid() && |pl.streams| > 0 && AsUsize(index) == 0
    ensures var t := DecodeLoop(dec, enc, index, n, j, pl);
      && EncoderCalls(t.log)
      && Passed(Writes(t.log)) == [] && EncodedWrites(Writes(t.log), pl)
    decreases |dec|
  {
    var t := DecodeLoop(dec, enc, index, n, j, pl);
    var r := Answer(dec, pl.codes.eagain);
    if r == pl.codes.eagain || r == pl.codes.eof || r < 0 {
      ObserversEmpty(t.log);
      StampedWrites([], index, pl);
    } else {
      var e := Encode(enc, index, n, j, pl.streams[0].timeBase, pl.outTimes[0], pl.streams[0].avgFrameRate,
                      pl.mux, pl.rs, pl.codes);
      EncodeWrites(enc, index, n, j, pl.streams[0].timeBase, pl.outTimes[0], pl.streams[0].avgFrameRate,
                   pl.mux, pl.rs, pl.codes);
      StampedWrites(Writes(e.log), index, pl);
      if !e.crashed {
        var t' := DecodeLoop(Next(dec), e.enc, index, n, e.writes, pl);
        DecodeLoopCalls(Next(dec), e.enc, index, n, e.writes, pl);
        assert t.log == e.log + t'.log;
        EncoderCallsJoin(e.log, t'.log);
        WritesAppend(e.log, t'.log);
        PassedAppend(Writes(e.log), Writes(t'.log));
        EncodedWritesAppend(Writes(e.log), Writes(t'.log), pl);
      }
    }
  }

  /** Appending to a log keeps its last event. */
  lemma LastOfAppend(a: seq<Event>, b: seq<Event>)
    requires b != []
    ensures a + b != [] && (a + b)[|a + b| - 1] == b[|b| - 1]
  {
  }

  /** The receive loop of the decoder never drains the read loop, and a crash ends its log
      with a panic. */
  lemma {:induction false} DecodeLoopPanics(dec: seq<int>, enc: seq<EncReply>, index: int, n: nat, j: nat, pl: Plan)
    requires pl.Valid() && |pl.streams| > 0
    ensures var t := DecodeLoop(dec, enc, index, n, j, pl);
      && t.stop != Some(Drained)
      && (t.stop == Some(Crashed) ==> t.log != [] && t.log[|t.log| - 1] == Panic)
    decreases |dec|
  {
    var t := DecodeLoop(dec, enc, index, n, j, pl);
    var r := Answer(dec, pl.codes.eagain);
    if !(r == pl.codes.eagain || r == pl.codes.eof || r < 0) {
      var e := Encode(enc, index, n, j, pl.streams[0].timeBase, pl.outTimes[0], pl.streams[0].avgFrameRate,
                      pl.mux, pl.rs, pl.codes);
      EncodeTail(enc, index, n, j, pl.streams[0].timeBase, pl.outTimes[0], pl.streams[0].avgFrameRate,
                 pl.mux, pl.rs, pl.codes);
      if e.crashed {
        assert t == Turned(e.log, Some(Crashed), Next(dec), e.enc);
      } else {
        var t' := DecodeLoop(Next(dec), e.enc, index, n, e.writes, pl);
        DecodeLoopPanics(Next(dec), e.enc, index, n, e.writes, pl);
        assert t == t'.(log := e.log + t'.log);
        if t'.stop == Some(Crashed) {
          LastOfAppend(e.log, t'.log);
        }
      }
    }
  }

  /** How many answers of the decoder, from the first, are frames. */
  function FramesFirst(dec: seq<int>, codes: Codes): (m: nat)
    ensures m <= |dec|
    ensures forall k :: 0 <= k < m ==> dec[k] >= 0 && !EndCode(dec[k], codes)
    ensures m < |dec| ==> dec[m] < 0 || EndCode(dec[m], codes)
  {
    if dec == [] || dec[0] < 0 || EndCode(dec[0], codes) then 0 else 1 + FramesFirst(dec[1..], codes)
  }

  /** The receive loop of the decoder ends at its first answer that is not a frame. A
      crash comes only from the duration formula, in encode. Otherwise that answer decides:
      an end code goes on with the read loop, anything else (a receive error) aborts it; the
      decoder's script resumes after it. */
  lemma {:induction false} DecodeLoopExit(dec: seq<int>, enc: seq<EncReply>, index: int, n: nat, j: nat, pl: Plan)
    requires pl.Valid() && |pl.streams| > 0
    ensures var t := DecodeLoop(dec, enc, index, n, j, pl);
      var m := FramesFirst(dec, pl.codes);
      var r := Answer(dec[m..], pl.codes.eagain);
      && (t.stop == Some(Crashed) ==> FrameDuration(pl).None?)
      && (t.stop != Some(Crashed) ==>
            && (t.stop.None? <==> EndCode(r, pl.codes))
            && (t.stop == Some(Aborted) <==> ReceiveError(r, pl.codes))
            && t.dec == Next(dec[m..]))
    decreases |dec|
  {
    var t := DecodeLoop(dec, enc, index, n, j, pl);
    var r := Answer(dec, pl.codes.eagain);
    if r >= 0 && !EndCode(r, pl.codes) {
      assert dec != [] && r == dec[0];
      var e := Encode(enc, index, n, j, pl.streams[0].timeBase, pl.outTimes[0], pl.streams[0].avgFrameRate,
                      pl.mux, pl.rs, pl.codes);
      EncodeExit(enc, index, n, j, pl.streams[0].timeBase, pl.outTimes[0], pl.streams[0].avgFrameRate,
                 pl.mux, pl.rs, pl.codes);
      if e.crashed {
        assert t.stop == Some(Crashed);
        assert FrameDuration(pl) == Duration(pl.outTimes[0], pl.streams[0].avgFrameRate);
      } else {
        var t' := DecodeLoop(Next(dec), e.enc, index, n, e.writes, pl);
        DecodeLoopExit(Next(dec), e.enc, index, n, e.writes, pl);
        assert t == t'.(log := e.log + t'.log);
        var m := FramesFirst(Next(dec), pl.codes);
        assert FramesFirst(dec, pl.codes) == 1 + m;
        assert dec[1 + m..] == Next(dec)[m..];
      }
    } else {
      assert FramesFirst(dec, pl.codes) == 0;
      assert dec[0..] == dec;
    }
  }

  /** How the receive loop of the decoder ends, and why. It never drains the read loop. A
      crash ends its log with a panic and comes only from the duration formula, in encode.
      Otherwise the decoder's first answer that is not a frame decides: an end code goes on
      with the read loop, a receive error aborts it; the decoder's script resumes after it. */
  lemma DecodeLoopStops(dec: seq<int>, enc: seq<EncReply>, index: int, n: nat, j: nat, pl: Plan)
    requires pl.Valid() && |pl.streams| > 0
    ensures var t := DecodeLoop(dec, enc, index, n, j, pl);
      var m := FramesFirst(dec, pl.codes);
      var r := Answer(dec[m..], pl.codes.eagain);
      && t.stop != Some(Drained)
      && (t.stop == Some(Crashed) ==> t.log != [] && t.log[|t.log| - 1] == Panic && FrameDuration(pl).None?)
      && (t.stop != Some(Crashed) ==>
            && (t.stop.None? <==> EndCode(r, pl.codes))
            && (t.stop == Some(Aborted) <==> ReceiveError(r, pl.codes))
            && t.dec == Next(dec[m..]))
  {
    DecodeLoopPanics(dec, enc, index, n, j, pl);
    DecodeLoopExit(dec, enc, index, n, j, pl);
  }

  /** The packet's own share of the intended behaviour. */
  lemma OneForwarded(p: Packet, pl: Plan)
    requires pl.Valid()
    ensures StreamZero([p]) == (if AsUsize(p.streamIndex) == 0 then [p] else [])
    ensures Forwarded([p], pl) ==
      var index := AsUsize(p.streamIndex);
      if 0 < index < |pl.streams| then [RescaleTs(p, pl.streams[index].timeBase, pl.outTimes[index], pl.rs)] else []
  {
    assert [p][1..] == [];
  }

  /** A packet of stream 0 with a decoder to go to: it is sent, and all that follows is
      encoder calls whose writes belong to stream 0 and carry the formula's duration. */
  lemma DecodePath(p: Packet, n: nat, dec: seq<int>, enc: seq<EncReply>, pl: Plan)
    requires pl.Valid() && AsUsize(p.streamIndex) == 0 && 0 < |pl.streams| && pl.hasDecoder
    ensures var t := OnePacket(p, n, dec, enc, pl);
      && t.log != [] && t.log[0] == SendPacket(p)
      && EncoderCalls(t.log[1..])
      && Passed(Writes(t.log[1..])) == [] && EncodedWrites(Writes(t.log[1..]), pl)
      && t.stop != Some(Drained)
      && (t.stop == Some(Crashed) ==> t.log[|t.log| - 1] == Panic)
  {
    var t := OnePacket(p, n, dec, enc, pl);
    if Answer(dec, pl.codes.eagain) < 0 {
      assert t.log[1..] == [];
      StampedWrites([], p.streamIndex, pl);
    } else {
      var d := DecodeLoop(Next(dec), enc, p.streamIndex, n, 0, pl);
      DecodeLoopCalls(Next(dec), enc, p.streamIndex, n, 0, pl);
      DecodeLoopPanics(Next(dec), enc, p.streamIndex, n, 0, pl);
      assert t.log[1..] == d.log;
      if t.stop == Some(Crashed) {
        assert t.log[|t.log| - 1] == d.log[|d.log| - 1];
      }
    }
  }

  /** One packet: it goes to the decoder exactly when it belongs to stream 0 and there is
      a decoder; no parameters are copied and no trailer written. */
  lemma OnePacketSends(p: Packet, n: nat, dec: seq<int>, enc: seq<EncReply>, pl: Plan)
    requires pl.Valid()
    ensures var t := OnePacket(p, n, dec, enc, pl);
      && Sent(t.log) == (if AsUsize(p.streamIndex) == 0 && 0 < |pl.streams| && pl.hasDecoder then [p] else [])
      && Copied(t.log) == [] && Count(t.log, Trailer) == 0
  {
    var t := OnePacket(p, n, dec, enc, pl);
    var index := AsUsize(p.streamIndex);
    if index == 0 && 0 < |pl.streams| && pl.hasDecoder {
      DecodePath(p, n, dec, enc, pl);
      var body := t.log[1..];
      assert t.log == [SendPacket(p)] + body;
      EncoderQuiet(body);
      assert [SendPacket(p)][1..] == [];
      assert Sent([SendPacket(p)]) == [p] && Copied([SendPacket(p)]) == [];
      SentAppend([SendPacket(p)], body);
      CopiedAppend([SendPacket(p)], body);
      CountAppend([SendPacket(p)], body, Trailer);
    } else if index >= |pl.streams| || index == 0 {
      ObserversEmpty(t.log);
      CountZero(t.log, Trailer);
    } else {
      var q := RescaleTs(p, pl.streams[index].timeBase, pl.outTimes[index], pl.rs);
      assert t.log == [Write(q)] && [Write(q)][1..] == [];
    }
  }

  /** One packet: it is passed through exactly when it belongs to another stream in range,
      and whatever is written for stream 0 carries the formula's duration. */
  lemma OnePacketWrites(p: Packet, n: nat, dec: seq<int>, enc: seq<EncReply>, pl: Plan)
    requires pl.Valid()
    ensures var t := OnePacket(p, n, dec, enc, pl);
      && Passed(Writes(t.log)) == Forwarded([p], pl)
      && EncodedWrites(Writes(t.log), pl)
  {
    var t := OnePacket(p, n, dec, enc, pl);
    var index := AsUsize(p.streamIndex);
    OneForwarded(p, pl);
    if index >= |pl.streams| || (index == 0 && !pl.hasDecoder) {
      ObserversEmpty(t.log);
    } else if index == 0 {
      DecodePath(p, n, dec, enc, pl);
      var body := t.log[1..];
      assert t.log == [SendPacket(p)] + body;
      assert [SendPacket(p)][1..] == [];
      assert Writes([SendPacket(p)]) == [];
      WritesAppend([SendPacket(p)], body);
      assert Writes(t.log) == Writes(body);
    } else {
      var q := RescaleTs(p, pl.streams[index].timeBase, pl.outTimes[index], pl.rs);
      assert t.log == [Write(q)];
      assert [Write(q)][1..] == [];
      assert Passed([q]) == [q] by { assert [q][1..] == []; }
    }
  }

  /** One packet: the loop goes on only for a packet in range that has somewhere to go;
      it never drains the loop, and a crash ends the log with a panic. Conversely, a packet
      out of range or without a decoder crashes; one of another stream, or one the decoder
      refuses, goes on; one the decoder accepts ends as the receive loop does: a crash only
      from the duration formula, otherwise on with the read loop exactly when the first
      answer that is not a frame is an end code, and aborted exactly when it is an error. */
  lemma OnePacketStops(p: Packet, n: nat, dec: seq<int>, enc: seq<EncReply>, pl: Plan)
    requires pl.Valid()
    ensures var t := OnePacket(p, n, dec, enc, pl);
      var index := AsUsize(p.streamIndex);
      var decoding := index == 0 && 0 < |pl.streams| && pl.hasDecoder;
      && (t.stop.None? ==> index < |pl.streams| && (index == 0 ==> pl.hasDecoder))
      && t.stop != Some(Drained)
      && (t.stop == Some(Crashed) ==> t.log != [] && t.log[|t.log| - 1] == Panic)
      && (!(index < |pl.streams| && (index == 0 ==> pl.hasDecoder)) ==> t.stop == Some(Crashed))
      && (0 < index < |pl.streams| ==> t.stop.None?)
      && (decoding && Answer(dec, pl.codes.eagain) < 0 ==> t.stop.None?)
      && (decoding && Answer(dec, pl.codes.eagain) >= 0 ==>
            var m := FramesFirst(Next(dec), pl.codes);
            var r := Answer(Next(dec)[m..], pl.codes.eagain);
            && (t.stop == Some(Crashed) ==> FrameDuration(pl).None?)
            && (t.stop != Some(Crashed) ==>
                  (t.stop.None? <==> EndCode(r, pl.codes)) && (t.stop == Some(Aborted) <==> ReceiveError(r, pl.codes))))
  {
    var index := AsUsize(p.streamIndex);
    if index == 0 && 0 < |pl.streams| && pl.hasDecoder {
      DecodePath(p, n, dec, enc, pl);
      if Answer(dec, pl.codes.eagain) >= 0 {
        DecodeLoopExit(Next(dec), enc, p.streamIndex, n, 0, pl);
      }
    }
  }

  /** The decoder never answers with an error other than an end code. */
  predicate NoDecodeError(dec: seq<int>, codes: Codes)
  {
    forall k :: 0 <= k < |dec| ==> !ReceiveError(dec[k], codes)
  }

  /** A routable packet, when the duration formula works and the decoder reports no error,
      lets the read loop go on, and the decoder still reports no error. */
  lemma OnePacketGoesOn(p: Packet, n: nat, dec: seq<int>, enc: seq<EncReply>, pl: Plan)
    requires pl.Valid() && FrameDuration(pl).Some? && NoDecodeError(dec, pl.codes)
    requires AsUsize(p.streamIndex) < |pl.streams| && (AsUsize(p.streamIndex) == 0 ==> pl.hasDecoder)
    ensures var t := OnePacket(p, n, dec, enc, pl);
      t.stop.None? && NoDecodeError(t.dec, pl.codes)
  {
    var t := OnePacket(p, n, dec, enc, pl);
    if AsUsize(p.streamIndex) == 0 && Answer(dec, pl.codes.eagain) >= 0 {
      DecodeLoopExit(Next(dec), enc, p.streamIndex, n, 0, pl);
      if dec != [] {
        var m := FramesFirst(Next(dec), pl.codes);
        assert Next(dec)[m..] == dec[1 + m..];
        if 1 + m < |dec| {
          assert Answer(dec[1 + m..], pl.codes.eagain) == dec[1 + m];
        }
        assert t.dec == Next(dec[1 + m..]);
      }
    }
  }

  /** When every packet is routable, the duration formula works and the decoder reports no
      error, the read loop drains. */
  lemma {:induction false} RoutableDrains(ps: seq<Packet>, n: nat, dec: seq<int>, enc: seq<EncReply>, pl: Plan)
    requires pl.Valid() && Routable(ps, pl) && FrameDuration(pl).Some? && NoDecodeError(dec, pl.codes)
    ensures PacketsLog(ps, n, dec, enc, pl).exit == Drained
    decreases |ps|
  {
    if ps != [] {
      var t := OnePacket(ps[0], n, dec, enc, pl);
      OnePacketGoesOn(ps[0], n, dec, enc, pl);
      assert Routable(ps[1..], pl) by {
        forall i | 0 <= i < |ps[1..]|
          ensures AsUsize(ps[1..][i].streamIndex) < |pl.streams|
        {
          assert ps[1..][i] == ps[i + 1];
        }
      }
      RoutableDrains(ps[1..], n + 1, t.dec, t.enc, pl);
    }
  }

  lemma PrefixCons(a: seq<Packet>, b: seq<Packet>, c: seq<Packet>)
    requires b <= c
    ensures a + b <= a + c
  {
    assert (a + c)[..|a + b|] == a + c[..|b|];
  }

  /** The read loop hands the decoder the packets of stream 0 in the order read, none
      other and none twice; when it drains, it has handed it all of them. */
  lemma {:induction false} PacketsLogSends(ps: seq<Packet>, n: nat, dec: seq<int>, enc: seq<EncReply>, pl: Plan)
    requires pl.Valid()
    ensures var r := PacketsLog(ps, n, dec, enc, pl);
      && Sent(r.log) <= StreamZero(ps)
      && (r.exit == Drained ==> Sent(r.log) == StreamZero(ps))
    decreases |ps|
  {
    if ps != [] {
      var p := ps[0];
      var t := OnePacket(p, n, dec, enc, pl);
      OnePacketSends(p, n, dec, enc, pl);
      OnePacketStops(p, n, dec, enc, pl);
      var head := if AsUsize(p.streamIndex) == 0 then [p] else [];
      assert StreamZero(ps) == head + StreamZero(ps[1..]);
      if t.stop.Some? {
        PrefixCons(Sent(t.log), [], StreamZero(ps[1..]));
      } else {
        var rest := PacketsLog(ps[1..], n + 1, t.dec, t.enc, pl);
        PacketsLogSends(ps[1..], n + 1, t.dec, t.enc, pl);
        SentAppend(t.log, rest.log);
        assert Sent(t.log) == head;
        PrefixCons(head, Sent(rest.log), StreamZero(ps[1..]));
      }
    }
  }

  /** The read loop writes the packets of the other streams, converted, in the order
      read, none twice; when it drains, it has written all of them. */
  lemma {:induction false} PacketsLogPasses(ps: seq<Packet>, n: nat, dec: seq<int>, enc: seq<EncReply>, pl: Plan)
    requires pl.Valid()
    ensures var r := PacketsLog(ps, n, dec, enc, pl);
      && Passed(Writes(r.log)) <= Forwarded(ps, pl)
      && (r.exit == Drained ==> Passed(Writes(r.log)) == Forwarded(ps, pl))
    decreases |ps|
  {
    if ps != [] {
      var p := ps[0];
      var t := OnePacket(p, n, dec, enc, pl);
      OnePacketWrites(p, n, dec, enc, pl);
      OnePacketStops(p, n, dec, enc, pl);
      OneForwarded(p, pl);
      assert Forwarded(ps, pl) == Forwarded([p], pl) + Forwarded(ps[1..], pl);
      if t.stop.Some? {
        PrefixCons(Forwarded([p], pl), [], Forwarded(ps[1..], pl));
      } else {
        var rest := PacketsLog(ps[1..], n + 1, t.dec, t.enc, pl);
        PacketsLogPasses(ps[1..], n + 1, t.dec, t.enc, pl);
        WritesAppend(t.log, rest.log);
        PassedAppend(Writes(t.log), Writes(rest.log));
        PrefixCons(Forwarded([p], pl), Passed(Writes(rest.log)), Forwarded(ps[1..], pl));
      }
    }
  }

  /** Every packet of the read loop is in range, and one of stream 0 finds a decoder. */
  predicate Routable(ps: seq<Packet>, pl: Plan)
  {
    forall i :: 0 <= i < |ps| ==>
      AsUsize(ps[i].streamIndex) < |pl.streams| && (AsUsize(ps[i].streamIndex) == 0 ==> pl.hasDecoder)
  }

  /** Whatever the read loop writes for stream 0 carries the formula's duration; it copies
      no parameters and writes no trailer. */
  lemma {:induction false} PacketsLogObserved(ps: seq<Packet>, n: nat, dec: seq<int>, enc: seq<EncReply>, pl: Plan)
    requires pl.Valid()
    ensures var r := PacketsLog(ps, n, dec, enc, pl);
      && EncodedWrites(Writes(r.log), pl)
      && Copied(r.log) == [] && Count(r.log, Trailer) == 0
    decreases |ps|
  {
    var r := PacketsLog(ps, n, dec, enc, pl);
    if ps == [] {
      ObserversEmpty(r.log);
      CountZero(r.log, Trailer);
    } else {
      var p := ps[0];
      var t := OnePacket(p, n, dec, enc, pl);
      OnePacketSends(p, n, dec, enc, pl);
      OnePacketWrites(p, n, dec, enc, pl);
      if t.stop.None? {
        var rest := PacketsLog(ps[1..], n + 1, t.dec, t.enc, pl);
        PacketsLogObserved(ps[1..], n + 1, t.dec, t.enc, pl);
        assert r.log == t.log + rest.log;
        WritesAppend(t.log, rest.log);
        EncodedWritesAppend(Writes(t.log), Writes(rest.log), pl);
        CopiedAppend(t.log, rest.log);
        CountAppend(t.log, rest.log, Trailer);
      }
    }
  }

  /** The read loop drains only if every packet was routable. */
  lemma {:induction false} PacketsLogDrains(ps: seq<Packet>, n: nat, dec: seq<int>, enc: seq<EncReply>, pl: Plan)
    requires pl.Valid()
    ensures PacketsLog(ps, n, dec, enc, pl).exit == Drained ==> Routable(ps, pl)
    decreases |ps|
  {
    if ps != [] {
      var p := ps[0];
      var t := OnePacket(p, n, dec, enc, pl);
      OnePacketStops(p, n, dec, enc, pl);
      if t.stop.None? && PacketsLog(ps[1..], n + 1, t.dec, t.enc, pl).exit == Drained {
        PacketsLogDrains(ps[1..], n + 1, t.dec, t.enc, pl);
        forall i | 0 < i < |ps|
          ensures AsUsize(ps[i].streamIndex) < |pl.streams| && (AsUsize(ps[i].streamIndex) == 0 ==> pl.hasDecoder)
        {
          assert ps[i] == ps[1..][i - 1];
        }
      }
    }
  }

  /** A crash of the read loop ends its log with a panic. */
  lemma {:induction false} PacketsLogCrashes(ps: seq<Packet>, n: nat, dec: seq<int>, enc: seq<EncReply>, pl: Plan)
    requires pl.Valid()
    ensures var r := PacketsLog(ps, n, dec, enc, pl);
      r.exit == Crashed ==> r.log != [] && r.log[|r.log| - 1] == Panic
    decreases |ps|
  {
    var r := PacketsLog(ps, n, dec, enc, pl);
    if ps != [] {
      var p := ps[0];
      var t := OnePacket(p, n, dec, enc, pl);
      OnePacketStops(p, n, dec, enc, pl);
      if t.stop.Some? {
        assert r == Pumped(t.log, t.stop.value);
      } else {
        var rest := PacketsLog(ps[1..], n + 1, t.dec, t.enc, pl);
        PacketsLogCrashes(ps[1..], n + 1, t.dec, t.enc, pl);
        assert r == rest.(log := t.log + rest.log);
        if r.exit == Crashed {
          assert r.log[|r.log| - 1] == rest.log[|rest.log| - 1];
        }
      }
    }
  }

  /** The three lemmas above together. */
  lemma PacketsLogEnds(ps: seq<Packet>, n: nat, dec: seq<int>, enc: seq<EncReply>, pl: Plan)
    requires pl.Valid()
    ensures var r := PacketsLog(ps, n, dec, enc, pl);
      && EncodedWrites(Writes(r.log), pl)
      && Copied(r.log) == [] && Count(r.log, Trailer) == 0
      && (r.exit == Drained ==> Routable(ps, pl))
      && (r.exit == Crashed ==> r.log != [] && r.log[|r.log| - 1] == Panic)
  {
    PacketsLogObserved(ps, n, dec, enc, pl);
    PacketsLogDrains(ps, n, dec, enc, pl);
    PacketsLogCrashes(ps, n, dec, enc, pl);
  }

  // ---------------------------------------------------------------------------
  // run

  /** What the read loop works with once the setup loop has run over `streams` and left
      the decoder of `coder` open. */
  function PlanOf(streams: seq<Stream>, mux: Muxer, guess: nat -> Rational, coder: Option<nat>, rs: Rescaler, codes: Codes): (pl: Plan)
    ensures pl.Valid()
  {
    Plan(streams, TimeBases(streams, mux, guess), coder.Some?, mux, rs, codes)
  }

  /** The setup loop, then open_file with the flags the setup left. */
  function Prelude(streams: seq<Stream>, mux: Muxer, guess: nat -> Rational): seq<Event>
  {
    SetupLog(streams, mux, guess) + OpenLog(SetupFlags(mux.initialFlags, mux.formatFlags, streams), mux.openResult, mux.headerResult)
  }

  /** Everything transcode makes FFmpeg do, and how it ends: a panic before any call when
      the input is missing or a path does not convert; otherwise the prelude, the read
      loop over the packets read, and the trailer if the loop drained. `guess` is what
      av_guess_frame_rate answers per stream, `dec` and `enc` the decoder's and the
      encoder's answers in call order. */
  function TranscodeLog(inputExists: bool, inputPath: seq<byte>, outputPath: seq<byte>, probed: FormatContext,
                        mux: Muxer, guess: nat -> Rational, rs: Rescaler, codes: Codes,
                        dec: seq<int>, enc: seq<EncReply>, demuxed: seq<Demuxed>): Pumped
  {
    if !CanStart(inputExists, inputPath, outputPath) then Pumped([Panic], Crashed)
    else
      var streams := probed.streams;
      var pl := PlanOf(streams, mux, guess, LastVideo(streams), rs, codes);
      var pumped := PacketsLog(Taken(demuxed), 0, dec, enc, pl);
      Pumped(Prelude(streams, mux, guess) + pumped.log + (if pumped.exit == Drained then [Trailer] else []), pumped.exit)
  }

  /** The prelude sets the streams up, and only then opens the output, writing the header
      with the flags the setup left; it copies only the parameters of the streams that are
      not video and writes, sends and ends nothing. */
  lemma PreludeInOrder(streams: seq<Stream>, mux: Muxer, guess: nat -> Rational, rest: seq<Event>)
    ensures var setup := SetupLog(streams, mux, guess);
      var prelude := Prelude(streams, mux, guess);
      && setup < prelude + rest && (prelude + rest)[|setup|] == OpenIo
      && Copied(prelude) == OtherParams(streams)
      && Writes(prelude) == [] && Sent(prelude) == [] && Count(prelude, Trailer) == 0
      && HeaderFlags(prelude + rest) == Some(SetupFlags(mux.initialFlags, mux.formatFlags, streams))
  {
    var flags := SetupFlags(mux.initialFlags, mux.formatFlags, streams);
    SetupInOrder(streams, mux, guess);
    SetupThenOpenQuiet(SetupLog(streams, mux, guess), flags, mux.openResult, mux.headerResult);
    OpenAfterSetup(SetupLog(streams, mux, guess), flags, mux.openResult, mux.headerResult, rest);
  }

  /** A run that starts first allocates one output stream per input stream, opens a
      decoder and an encoder for each video stream and copies the parameters of each other
      stream, and only then opens the output; the header is written with the global-header
      flag set exactly when it already was, or the format asks for it and some stream is
      not video. */
  lemma TranscodeSetupFirst(inputExists: bool, inputPath: seq<byte>, outputPath: seq<byte>, probed: FormatContext,
                            mux: Muxer, guess: nat -> Rational, rs: Rescaler, codes: Codes,
                            dec: seq<int>, enc: seq<EncReply>, demuxed: seq<Demuxed>)
    requires CanStart(inputExists, inputPath, outputPath)
    ensures var log := TranscodeLog(inputExists, inputPath, outputPath, probed, mux, guess, rs, codes, dec, enc, demuxed).log;
      var setup := SetupLog(probed.streams, mux, guess);
      && setup < log && log[|setup|] == OpenIo
      && Allocated(setup) == Refs(mux, |probed.streams|)
      && Codecs(setup) == VideoCodecs(probed.streams, mux, guess)
      && Copied(log) == OtherParams(probed.streams)
      && HeaderFlags(log) == Some(SetupFlags(mux.initialFlags, mux.formatFlags, probed.streams))
  {
    var streams := probed.streams;
    var prelude := Prelude(streams, mux, guess);
    var pl := PlanOf(streams, mux, guess, LastVideo(streams), rs, codes);
    var pumped := PacketsLog(Taken(demuxed), 0, dec, enc, pl);
    var drained := pumped.exit == Drained;
    var tail := pumped.log + (if drained then [Trailer] else []);
    assert prelude + pumped.log + (if drained then [Trailer] else []) == prelude + tail;
    PreludeInOrder(streams, mux, guess, tail);
    SetupInOrder(streams, mux, guess);
    PacketsLogEnds(Taken(demuxed), 0, dec, enc, pl);
    EndObservers(prelude, pumped.log, drained, Trailer);
  }

  /** How a run that starts ends: drained, it writes the trailer exactly once, last;
      otherwise it writes none, and a crash ends the log with a panic. */
  lemma TranscodeEnds(inputExists: bool, inputPath: seq<byte>, outputPath: seq<byte>, probed: FormatContext,
                      mux: Muxer, guess: nat -> Rational, rs: Rescaler, codes: Codes,
                      dec: seq<int>, enc: seq<EncReply>, demuxed: seq<Demuxed>)
    requires CanStart(inputExists, inputPath, outputPath)
    ensures var r := TranscodeLog(inputExists, inputPath, outputPath, probed, mux, guess, rs, codes, dec, enc, demuxed);
      && Count(r.log, Trailer) == (if r.exit == Drained then 1 else 0)
      && (r.exit == Drained ==> r.log[|r.log| - 1] == Trailer)
      && (r.exit == Crashed ==> r.log[|r.log| - 1] == Panic)
  {
    var streams := probed.streams;
    var prelude := Prelude(streams, mux, guess);
    var pl := PlanOf(streams, mux, guess, LastVideo(streams), rs, codes);
    var pumped := PacketsLog(Taken(demuxed), 0, dec, enc, pl);
    var r := TranscodeLog(inputExists, inputPath, outputPath, probed, mux, guess, rs, codes, dec, enc, demuxed);
    assert r == Pumped(prelude + pumped.log + (if pumped.exit == Drained then [Trailer] else []), pumped.exit);
    PreludeInOrder(streams, mux, guess, []);
    PacketsLogObserved(Taken(demuxed), 0, dec, enc, pl);
    PacketsLogCrashes(Taken(demuxed), 0, dec, enc, pl);
    RunEnds(prelude, pumped);
  }

  /** A run that starts hands the decoder the packets of stream 0, in the order read,
      none other and none twice; when it drains, it has handed it every one of them. */
  lemma TranscodeSends(inputExists: bool, inputPath: seq<byte>, outputPath: seq<byte>, probed: FormatContext,
                       mux: Muxer, guess: nat -> Rational, rs: Rescaler, codes: Codes,
                       dec: seq<int>, enc: seq<EncReply>, demuxed: seq<Demuxed>)
    requires CanStart(inputExists, inputPath, outputPath)
    ensures var r := TranscodeLog(inputExists, inputPath, outputPath, probed, mux, guess, rs, codes, dec, enc, demuxed);
      && Sent(r.log) <= StreamZero(Taken(demuxed))
      && (r.exit == Drained ==> Sent(r.log) == StreamZero(Taken(demuxed)))
  {
    var streams := probed.streams;
    var prelude := Prelude(streams, mux, guess);
    var pl := PlanOf(streams, mux, guess, LastVideo(streams), rs, codes);
    var pumped := PacketsLog(Taken(demuxed), 0, dec, enc, pl);
    PreludeInOrder(streams, mux, guess, []);
    PacketsLogSends(Taken(demuxed), 0, dec, enc, pl);
    EndObservers(prelude, pumped.log, pumped.exit == Drained, Trailer);
    assert Sent(prelude) + Sent(pumped.log) == Sent(pumped.log);
  }

  /** A run that starts writes the packets of the other streams, converted, in the order
      read, none twice; when it drains, it has written every one of them, and every packet
      read was routable. */
  lemma TranscodePasses(inputExists: bool, inputPath: seq<byte>, outputPath: seq<byte>, probed: FormatContext,
                        mux: Muxer, guess: nat -> Rational, rs: Rescaler, codes: Codes,
                        dec: seq<int>, enc: seq<EncReply>, demuxed: seq<Demuxed>)
    requires CanStart(inputExists, inputPath, outputPath)
    ensures var r := TranscodeLog(inputExists, inputPath, outputPath, probed, mux, guess, rs, codes, dec, enc, demuxed);
      var pl := PlanOf(probed.streams, mux, guess, LastVideo(probed.streams), rs, codes);
      && Passed(Writes(r.log)) <= Forwarded(Taken(demuxed), pl)
      && (r.exit == Drained ==> Passed(Writes(r.log)) == Forwarded(Taken(demuxed), pl) && Routable(Taken(demuxed), pl))
  {
    var streams := probed.streams;
    var prelude := Prelude(streams, mux, guess);
    var pl := PlanOf(streams, mux, guess, LastVideo(streams), rs, codes);
    var pumped := PacketsLog(Taken(demuxed), 0, dec, enc, pl);
    PreludeInOrder(streams, mux, guess, []);
    PacketsLogPasses(Taken(demuxed), 0, dec, enc, pl);
    PacketsLogEnds(Taken(demuxed), 0, dec, enc, pl);
    EndObservers(prelude, pumped.log, pumped.exit == Drained, Trailer);
    assert Writes(prelude) + Writes(pumped.log) == Writes(pumped.log);
  }

  /** Every packet a run writes for stream 0 was encoded and carries the formula's
      duration, converted to the output time base of stream 0. */
  lemma TranscodeEncodes(inputExists: bool, inputPath: seq<byte>, outputPath: seq<byte>, probed: FormatContext,
                         mux: Muxer, guess: nat -> Rational, rs: Rescaler, codes: Codes,
                         dec: seq<int>, enc: seq<EncReply>, demuxed: seq<Demuxed>)
    ensures var r := TranscodeLog(inputExists, inputPath, outputPath, probed, mux, guess, rs, codes, dec, enc, demuxed);
      EncodedWrites(Writes(r.log), PlanOf(probed.streams, mux, guess, LastVideo(probed.streams), rs, codes))
  {
    var r := TranscodeLog(inputExists, inputPath, outputPath, probed, mux, guess, rs, codes, dec, enc, demuxed);
    var pl := PlanOf(probed.streams, mux, guess, LastVideo(probed.streams), rs, codes);
    if !CanStart(inputExists, inputPath, outputPath) {
      ObserversEmpty(r.log);
    } else {
      var prelude := Prelude(probed.streams, mux, guess);
      var pumped := PacketsLog(Taken(demuxed), 0, dec, enc, pl);
      PreludeInOrder(probed.streams, mux, guess, []);
      PacketsLogEnds(Taken(demuxed), 0, dec, enc, pl);
      EndObservers(prelude, pumped.log, pumped.exit == Drained, Trailer);
      assert Writes(prelude) + Writes(pumped.log) == Writes(pumped.log);
    }
  }

  // ---------------------------------------------------------------------------
  // run as the source writes it

  /** One turn of the read loop, seen from the position of the packet read. */
  lemma PacketsLogStep(demuxed: seq<Demuxed>, k: nat, dec: seq<int>, enc: seq<EncReply>, pl: Plan)
    requires pl.Valid()
    requires k < |demuxed| && demuxed[k].ret >= 0
    ensures PacketsLog(Taken(demuxed[k..]), k, dec, enc, pl) ==
      var t := OnePacket(demuxed[k].packet, k, dec, enc, pl);
      if t.stop.Some? then Pumped(t.log, t.stop.value)
      else
        var rest := PacketsLog(Taken(demuxed[k + 1..]), k + 1, t.dec, t.enc, pl);
        rest.(log := t.log + rest.log)
  {
    assert demuxed[k..][1..] == demuxed[k + 1..];
    assert Taken(demuxed[k..]) == [demuxed[k].packet] + Taken(demuxed[k + 1..]);
    assert Taken(demuxed[k..])[1..] == Taken(demuxed[k + 1..]);
  }

  /** One frame decoded, as the receive loop of the decoder goes on from it. */
  lemma DecodeLoopStep(dec: seq<int>, enc: seq<EncReply>, log: seq<Event>, index: int, n: nat, j: nat, pl: Plan)
    requires pl.Valid() && |pl.streams| > 0
    requires var r := Answer(dec, pl.codes.eagain); r >= 0 && r != pl.codes.eagain && r != pl.codes.eof
    ensures var e := Encode(enc, index, n, j, pl.streams[0].timeBase, pl.outTimes[0], pl.streams[0].avgFrameRate,
                            pl.mux, pl.rs, pl.codes);
      var whole := DecodeLoop(dec, enc, index, n, j, pl);
      var rest := DecodeLoop(Next(dec), e.enc, index, n, e.writes, pl);
      && (e.crashed ==> whole.(log := log + whole.log) == Turned(log + e.log, Some(Crashed), Next(dec), e.enc))
      && (!e.crashed ==> whole.(log := log + whole.log) == rest.(log := (log + e.log) + rest.log))
  {
    var e := Encode(enc, index, n, j, pl.streams[0].timeBase, pl.outTimes[0], pl.streams[0].avgFrameRate,
                    pl.mux, pl.rs, pl.codes);
    var rest := DecodeLoop(Next(dec), e.enc, index, n, e.writes, pl);
    assert log + (e.log + rest.log) == (log + e.log) + rest.log;
  }

  /** The body of the read loop for one packet read (the n-th), as the source writes it,
      with the receive loop of the decoder; `coder` is the stream whose decoder the setup
      left open. */
  method Turn(p: Packet, n: nat, dec: seq<int>, enc: seq<EncReply>, inStreams: seq<Stream>, outStreams: seq<nat>,
              coder: Option<nat>, mux: Muxer, guess: nat -> Rational, rs: Rescaler, codes: Codes) returns (t: Turned)
    requires outStreams == Refs(mux, |inStreams|)
    ensures t == OnePacket(p, n, dec, enc, PlanOf(inStreams, mux, guess, coder, rs, codes))
  {
    ghost var pl := PlanOf(inStreams, mux, guess, coder, rs, codes);
    var index := AsUsize(p.streamIndex);
    if index >= |inStreams| || index >= |outStreams| {
      return Turned([Panic], Some(Crashed), dec, enc);
    }
    var inStream := inStreams[index];
    var outStream := outStreams[index];
    var outTime := mux.timeBase(outStream, Requested(index, inStream, guess));
    if index == 0 {
      if coder.None? {
        return Turned([Panic], Some(Crashed), dec, enc);
      }
      var log := [SendPacket(p)];
      var decoder := dec;
      var response := Answer(decoder, codes.eagain);
      decoder := Next(decoder);
      var encoder := enc;
      var j := 0;
      ghost var whole := OnePacket(p, n, dec, enc, pl);
      assert response < 0 ==> whole == Turned(log, None, decoder, encoder);
      while response >= 0
        invariant response >= 0 ==>
          whole == var d := DecodeLoop(decoder, encoder, p.streamIndex, n, j, pl); d.(log := log + d.log)
        invariant response < 0 ==> whole == Turned(log, None, decoder, encoder)
        decreases |decoder|
      {
        ghost var decoder0 := decoder;
        var received := Answer(decoder, codes.eagain);
        decoder := Next(decoder);
        if received == codes.eagain || received == codes.eof {
          assert DecodeLoop(decoder0, encoder, p.streamIndex, n, j, pl) == Turned([], None, decoder, encoder);
          assert whole == Turned(log + [], None, decoder, encoder);
          assert log + [] == log;
          break;
        } else if received < 0 {
          assert log + [] == log;
          return Turned(log, Some(Aborted), decoder, encoder);
        }
        if received >= 0 {
          DecodeLoopStep(decoder0, encoder, log, p.streamIndex, n, j, pl);
          var e := EncodeFrame(encoder, p.streamIndex, n, j, inStream, outTime, mux, rs, codes);
          if e.crashed {
            return Turned(log + e.log, Some(Crashed), decoder, e.enc);
          }
          log := log + e.log;
          encoder := e.enc;
          j := e.writes;
        }
      }
      return Turned(log, None, decoder, encoder);
    } else {
      var q := RescaleTs(p, inStream.timeBase, outTime, rs);
      return Turned([Write(q)], None, dec, enc);
    }
  }

  /** The read loop of transcode::run, after open_file. */
  method Pump(input: InputCtx, outStreams: seq<nat>, coder: Option<nat>, mux: Muxer, guess: nat -> Rational,
              rs: Rescaler, codes: Codes, dec: seq<int>, enc: seq<EncReply>, demuxed: seq<Demuxed>) returns (pumped: Pumped)
    requires outStreams == Refs(mux, |input.av.streams|)
    ensures pumped == PacketsLog(Taken(demuxed), 0, dec, enc, PlanOf(input.av.streams, mux, guess, coder, rs, codes))
  {
    ghost var pl := PlanOf(input.av.streams, mux, guess, coder, rs, codes);
    ghost var whole := PacketsLog(Taken(demuxed), 0, dec, enc, pl);
    var inStreams := input.GetStreams();
    var log := [];
    var decoder := dec;
    var encoder := enc;
    var k := 0;
    while k < |demuxed| && demuxed[k].ret >= 0
      invariant k <= |demuxed|
      invariant whole == var rest := PacketsLog(Taken(demuxed[k..]), k, decoder, encoder, pl);
                         rest.(log := log + rest.log)
      decreases |demuxed| - k
    {
      PacketsLogStep(demuxed, k, decoder, encoder, pl);
      var t := Turn(demuxed[k].packet, k, decoder, encoder, inStreams, outStreams, coder, mux, guess, rs, codes);
      if t.stop.Some? {
        return Pumped(log + t.log, t.stop.value);
      }
      assert log + (t.log + PacketsLog(Taken(demuxed[k + 1..]), k + 1, t.dec, t.enc, pl).log)
          == (log + t.log) + PacketsLog(Taken(demuxed[k + 1..]), k + 1, t.dec, t.enc, pl).log;
      log := log + t.log;
      decoder := t.dec;
      encoder := t.enc;
      k := k + 1;
    }
    assert Taken(demuxed[k..]) == [];
    assert log + [] == log;
    return Pumped(log, Drained);
  }

  /** transcode::run as the source writes it; `guess`, `dec` and `enc` are as for
      TranscodeLog, the other inputs as for the other commands. */
  method Run(inputExists: bool, inputPath: seq<byte>, outputPath: seq<byte>, probed: FormatContext,
             mux: Muxer, guess: nat -> Rational, rs: Rescaler, codes: Codes,
             dec: seq<int>, enc: seq<EncReply>, demuxed: seq<Demuxed>) returns (r: Pumped)
    ensures r == TranscodeLog(inputExists, inputPath, outputPath, probed, mux, guess, rs, codes, dec, enc, demuxed)
  {
    if !inputExists || StrToCStr(inputPath).None? || StrToCStr(outputPath).None? {
      return Pumped([Panic], Crashed);
    }
    var input := new InputCtx(probed);
    var output := new OutputCtx(mux.formatFlags, mux.initialFlags);
    var outStreams, coder := AddStreams(output, input.GetStreams(), mux, guess);
    var _ := output.OpenFile(outputPath, mux.openResult, mux.headerResult);
    var pumped := Pump(input, outStreams, coder, mux, guess, rs, codes, dec, enc, demuxed);
    if pumped.exit == Drained {
      return Pumped(output.events + pumped.log + [Trailer], Drained);
    }
    return Pumped(output.events + pumped.log, pumped.exit);
  }
}
