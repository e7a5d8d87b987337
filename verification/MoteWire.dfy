/** The mote's side of the serial wire: whole packets from slip_send_packet and single characters
    of debug output from putchar, sharing one UART. */
module MoteWire {
  import opened SlipCodec

  const NEWLINE: int := 10
  const MARKER: byte := 13

  // ---------------------------------------------------------------- the code

  class Uart {
    /** static char debug_frame. */
    var debugFrame: bool
    /** Every byte given to slip_arch_writeb. */
    var wire: seq<byte>
    ghost var calls: seq<Call>

    ghost predicate Valid()
      reads this
    {
      wire == Wire(calls) && debugFrame == LineOpen(calls)
    }

    constructor ()
      ensures Valid() && calls == []
    {
      debugFrame, wire, calls := false, [], [];
    }

    /** slip_send_packet. The counter is a uint16_t, so the loop ends only for such lengths. */
    method SendPacket(p: seq<byte>)
      requires Valid() && |p| < 0x10000
      modifies this`wire, this`calls
      ensures Valid() && calls == old(calls) + [Send(p)]
      ensures wire == old(wire) + MoteEncode(p) && MoteEncode(p) == [192] + Escape(p) + [192]
    {
      hide Wire, LineOpen, Escape;
      wire := wire + [END];
      ghost var start := wire;
      EscapeAppends(start, p);
      for i := 0 to |p|
        modifies this`wire
        invariant wire == start + Escape(p[..i])
      {
        assert start + Escape(p[..i + 1]) == start + Escape(p[..i]) + EscapeByte(p[i]);
        WriteEscaped(p[i]);
      }
      assert p[..|p|] == p;
      wire := wire + [END];
      assert wire == old(wire) + MoteEncode(p);
      EncodingBytes(p, 0);
      calls := calls + [Send(p)];
      WireSnoc(old(calls), Send(p));
    }

    /** The body of its loop. */
    method WriteEscaped(b: byte)
      modifies this`wire
      ensures wire == old(wire) + EscapeByte(b)
    {
      var c := b;
      if c == END {
        wire := wire + [ESC];
        c := ESC_END;
      } else if c == ESC {
        wire := wire + [ESC];
        c := ESC_ESC;
      }
      wire := wire + [c];
    }

    method PutChar(c: int)
      requires Valid()
      modifies this
      ensures Valid() && calls == old(calls) + [Put(c)]
      ensures wire == old(wire) + PutBytes(old(debugFrame), c)
      ensures wire == old(wire) + (if old(debugFrame) then [] else [192, 13]) + [(c % 256) as byte]
                    + if c == 10 then [192] else []
      ensures debugFrame == (c != 10)
    {
      hide Wire;
      if !debugFrame {
        wire := wire + [END];
        wire := wire + [MARKER];
        debugFrame := true;
      }
      wire := wire + [Low8(c)];
      if c == NEWLINE {
        wire := wire + [END];
        debugFrame := false;
      }
      assert wire == old(wire) + PutBytes(old(debugFrame), c);
      calls := calls + [Put(c)];
      WireSnoc(old(calls), Put(c));
    }
  }

  lemma EscapeAppends(start: seq<byte>, p: seq<byte>)
    ensures start + Escape(p[..0]) == start
    ensures forall i | 0 <= i < |p| :: start + Escape(p[..i + 1]) == start + Escape(p[..i]) + EscapeByte(p[i])
  {
    forall i | 0 <= i < |p|
      ensures start + Escape(p[..i + 1]) == start + Escape(p[..i]) + EscapeByte(p[i])
    {
      EscapeStep(p, i);
    }
  }

  // ---------------------------------------------------------------- schedules

  /** Any interleaving of the two callers. */
  datatype Call = Send(p: seq<byte>) | Put(c: int)

  /** Is a line of debug output unfinished? Decided by the last character alone. */
  predicate LineOpen(calls: seq<Call>) {
    if calls == [] then false
    else
      match calls[|calls| - 1]
      case Put(c) => c != NEWLINE
      case Send(_) => LineOpen(calls[..|calls| - 1])
  }

  function PutBytes(open: bool, c: int): seq<byte> {
    (if open then [] else [END, MARKER]) + [Low8(c)] + if c == NEWLINE then [END] else []
  }

  function CallBytes(open: bool, call: Call): seq<byte> {
    match call
    case Send(p) => MoteEncode(p)
    case Put(c) => PutBytes(open, c)
  }

  function Wire(calls: seq<Call>): seq<byte> {
    if calls == [] then []
    else
      var init := calls[..|calls| - 1];
      Wire(init) + CallBytes(LineOpen(init), calls[|calls| - 1])
  }

  lemma WireSnoc(calls: seq<Call>, call: Call)
    ensures Wire(calls + [call]) == Wire(calls) + CallBytes(LineOpen(calls), call)
    ensures LineOpen(calls + [call]) == if call.Put? then call.c != NEWLINE else LineOpen(calls)
  {
    assert (calls + [call])[..|calls|] == calls;
  }

  /** Debug output that the framing can carry: no END and no ESC in it. */
  predicate PlainText(calls: seq<Call>) {
    forall call | call in calls && call.Put? :: Low8(call.c) != END && Low8(call.c) != ESC
  }

  // ---------------------------------------------------------------- what arrives

  /** A frame on the wire, known to be a packet or a piece of debug text. */
  datatype Piece = Whole(bytes: seq<byte>) | Text(bytes: seq<byte>)

  /** line: debug text since the last frame boundary. */
  datatype Arrival = Arrival(pieces: seq<Piece>, line: seq<byte>)

  function Flush(a: Arrival): Arrival {
    if a.line == [] then a else Arrival(a.pieces + [Text(a.line)], [])
  }

  function Arrive(calls: seq<Call>): Arrival {
    if calls == [] then Arrival([], [])
    else
      var init, call := calls[..|calls| - 1], calls[|calls| - 1];
      var a := Arrive(init);
      match call
      case Send(p) =>
        if p == [] then Flush(a) else Arrival(Flush(a).pieces + [Whole(p)], [])
      case Put(c) =>
        var b := if LineOpen(init) then Arrival(a.pieces, a.line + [Low8(c)])
                 else Arrival(Flush(a).pieces, [MARKER, Low8(c)]);
        if c == NEWLINE then Flush(b) else b
  }

  function Bytes(pieces: seq<Piece>): seq<seq<byte>> {
    if pieces == [] then [] else Bytes(pieces[..|pieces| - 1]) + [pieces[|pieces| - 1].bytes]
  }

  function Packets(pieces: seq<Piece>): seq<seq<byte>> {
    if pieces == [] then []
    else if pieces[|pieces| - 1].Whole? then Packets(pieces[..|pieces| - 1]) + [pieces[|pieces| - 1].bytes]
    else Packets(pieces[..|pieces| - 1])
  }

  function Texts(pieces: seq<Piece>): seq<byte> {
    if pieces == [] then []
    else if pieces[|pieces| - 1].Text? then Texts(pieces[..|pieces| - 1]) + pieces[|pieces| - 1].bytes
    else Texts(pieces[..|pieces| - 1])
  }

  function SentPackets(calls: seq<Call>): seq<seq<byte>> {
    if calls == [] then []
    else if calls[|calls| - 1].Send? then SentPackets(calls[..|calls| - 1]) + [calls[|calls| - 1].p]
    else SentPackets(calls[..|calls| - 1])
  }

  /** The debug output itself: the characters, with a marker where a line begins. */
  function SentText(calls: seq<Call>): seq<byte> {
    if calls == [] then []
    else
      var init := calls[..|calls| - 1];
      match calls[|calls| - 1]
      case Send(_) => SentText(init)
      case Put(c) => SentText(init) + (if LineOpen(init) then [] else [MARKER]) + [Low8(c)]
  }

  lemma PiecesSnoc(pieces: seq<Piece>, x: Piece)
    ensures Bytes(pieces + [x]) == Bytes(pieces) + [x.bytes]
    ensures Packets(pieces + [x]) == if x.Whole? then Packets(pieces) + [x.bytes] else Packets(pieces)
    ensures Texts(pieces + [x]) == if x.Text? then Texts(pieces) + x.bytes else Texts(pieces)
  {
    assert (pieces + [x])[..|pieces|] == pieces;
  }

  function View(a: Arrival): Decoder { Decoder(a.line, false, Bytes(a.pieces)) }

  lemma FlushView(a: Arrival)
    ensures View(Flush(a)) == Decoder([], false, Bytes(a.pieces) + Deliver(a.line))
    ensures Packets(Flush(a).pieces) == Packets(a.pieces)
    ensures Texts(Flush(a).pieces) + Flush(a).line == Texts(a.pieces) + a.line
  {
    PiecesSnoc(a.pieces, Text(a.line));
    assert Bytes(a.pieces) + [] == Bytes(a.pieces);
  }

  lemma Decode2(d: Decoder, x: byte, y: byte)
    ensures Decode(d, [x]) == Decode1(d, x)
    ensures Decode(d, [x, y]) == Decode1(Decode1(d, x), y)
  {
    assert [x][..0] == [] && [x, y][..1] == [x];
  }

  lemma SendView(a: Arrival, p: seq<byte>)
    ensures var b := if p == [] then Flush(a) else Arrival(Flush(a).pieces + [Whole(p)], []);
      && Decode(View(a), MoteEncode(p)) == View(b)
      && Packets(b.pieces) == Packets(a.pieces) + Deliver(p)
      && Texts(b.pieces) + b.line == Texts(a.pieces) + a.line
  {
    hide Decode, Bytes, Packets, Texts;
    DecodeMoteEncode(View(a), p);
    FlushView(a);
    PiecesSnoc(Flush(a).pieces, Whole(p));
    assert Flush(a).line == [];
    assert Bytes(Flush(a).pieces) + [] == Bytes(Flush(a).pieces);
    assert Packets(a.pieces) + [] == Packets(a.pieces);
  }

  lemma PutView(a: Arrival, open: bool, c: int)
    requires Low8(c) != END && Low8(c) != ESC
    ensures var b := if open then Arrival(a.pieces, a.line + [Low8(c)])
                     else Arrival(Flush(a).pieces, [MARKER, Low8(c)]);
      var e := if c == NEWLINE then Flush(b) else b;
      && Decode(View(a), PutBytes(open, c)) == View(e)
      && Packets(e.pieces) == Packets(a.pieces)
      && Texts(e.pieces) + e.line == Texts(a.pieces) + a.line + (if open then [] else [MARKER]) + [Low8(c)]
  {
    hide Decode, Bytes, Packets, Texts;
    var b := if open then Arrival(a.pieces, a.line + [Low8(c)]) else Arrival(Flush(a).pieces, [MARKER, Low8(c)]);
    var head := (if open then [] else [END, MARKER]) + [Low8(c)];
    FlushView(a);
    FlushView(b);
    assert Decode(View(a), head) == View(b) by {
      Decode2(View(a), Low8(c), END);
      if open {
        assert head == [Low8(c)];
      } else {
        DecodeConcat(View(a), [END, MARKER], [Low8(c)]);
        Decode2(View(a), END, MARKER);
        Decode2(Decode(View(a), [END, MARKER]), Low8(c), END);
      }
    }
    if c == NEWLINE {
      DecodeConcat(View(a), head, [END]);
      Decode2(View(b), END, END);
    } else {
      assert head + [] == head;
    }
  }

  /** Interleaving safety: for every interleaving of whole packets with plain debug characters
      the wire decodes to exactly these pieces. The packets among them are the non-empty ones
      sent, each intact, once and in order; the rest is the debug output, in order. */
  lemma {:induction false} InterleavingSafety(calls: seq<Call>)
    requires PlainText(calls)
    ensures Decode(IDLE, Wire(calls)) == View(Arrive(calls))
    ensures Packets(Arrive(calls).pieces) == NonEmpty(SentPackets(calls))
    ensures Texts(Arrive(calls).pieces) + Arrive(calls).line == SentText(calls)
  {
    if calls != [] {
      var init, call := calls[..|calls| - 1], calls[|calls| - 1];
      InterleavingSafety(init);
      DecodeConcat(IDLE, Wire(init), CallBytes(LineOpen(init), call));
      match call {
        case Send(p) => SendView(Arrive(init), p);
        case Put(c) => PutView(Arrive(init), LineOpen(init), c);
      }
    }
  }

  // ---------------------------------------------------------------- any characters, and who sent what

  /** A frame that completes on the wire; `own`: it is one packet, sent by a marked call. */
  datatype Tagged = Tagged(f: seq<byte>, own: bool)

  /** What the decoder makes of the wire. */
  function Decoded(calls: seq<Call>): Decoder { Decode(IDLE, Wire(calls)) }

  function Foreign(fs: seq<seq<byte>>): seq<Tagged> {
    if fs == [] then [] else Foreign(fs[..|fs| - 1]) + [Tagged(fs[|fs| - 1], false)]
  }

  /** The frames that one more call completes. Only a packet that finds no escape open is a frame of its
      own; otherwise its first END is taken for a character, and the text before it and the packet
      become one frame. */
  function Completed(d: Decoder, open: bool, call: Call, own: bool): seq<Tagged> {
    match call
    case Put(c) => Foreign(Decode(d.(frames := []), PutBytes(open, c)).frames)
    case Send(p) =>
      if d.esc then [Tagged(d.acc + [END] + p, false)]
      else Foreign(Deliver(d.acc)) + if p == [] then [] else [Tagged(p, own)]
  }

  function Mark(own: seq<bool>, i: nat): bool { i < |own| && own[i] }

  /** All frames that complete on the wire, with the marks of the calls. */
  function Arrived(calls: seq<Call>, own: seq<bool>): seq<Tagged> {
    if calls == [] then []
    else
      var n := |calls| - 1;
      var init := calls[..n];
      Arrived(init, own) + Completed(Decoded(init), LineOpen(init), calls[n], Mark(own, n))
  }

  function Frames(ts: seq<Tagged>): seq<seq<byte>> {
    if ts == [] then [] else Frames(ts[..|ts| - 1]) + [ts[|ts| - 1].f]
  }

  function Own(ts: seq<Tagged>): seq<seq<byte>> {
    if ts == [] then []
    else Own(ts[..|ts| - 1]) + if ts[|ts| - 1].own then [ts[|ts| - 1].f] else []
  }

  lemma {:induction false} TaggedConcat(a: seq<Tagged>, b: seq<Tagged>)
    ensures Frames(a + b) == Frames(a) + Frames(b)
    ensures Own(a + b) == Own(a) + Own(b)
  {
    if b == [] {
      assert a + b == a;
    } else {
      var n := |b| - 1;
      assert (a + b)[..|a + b| - 1] == a + b[..n];
      TaggedConcat(a, b[..n]);
    }
  }

  lemma {:induction false} ForeignFrames(fs: seq<seq<byte>>)
    ensures Frames(Foreign(fs)) == fs && Own(Foreign(fs)) == []
    ensures |Foreign(fs)| == |fs| && forall t | t in Foreign(fs) :: !t.own
  {
    if fs != [] {
      var init, f := fs[..|fs| - 1], fs[|fs| - 1];
      ForeignFrames(init);
      assert Foreign(fs)[..|Foreign(init)|] == Foreign(init);
      assert fs == init + [f];
    }
  }

  lemma {:induction false} MarksOfOthers(calls: seq<Call>, own: seq<bool>, more: seq<bool>)
    requires |calls| <= |own|
    ensures Arrived(calls, own + more) == Arrived(calls, own)
  {
    hide Completed, Decoded, LineOpen;
    if calls != [] {
      MarksOfOthers(calls[..|calls| - 1], own, more);
    }
  }

  lemma ArrivedSnoc(calls: seq<Call>, own: seq<bool>, call: Call, mine: bool)
    requires |own| == |calls|
    ensures Arrived(calls + [call], own + [mine])
         == Arrived(calls, own) + Completed(Decoded(calls), LineOpen(calls), call, mine)
  {
    hide Completed, Decoded, LineOpen;
    assert (calls + [call])[..|calls|] == calls;
    MarksOfOthers(calls, own, [mine]);
  }

  lemma {:induction false} DecodeOffset(d: Decoder, s: seq<byte>)
    ensures var e := Decode(d.(frames := []), s); Decode(d, s) == e.(frames := d.frames + e.frames)
  {
    if s == [] {
      assert d.frames + [] == d.frames;
    } else {
      var init := s[..|s| - 1];
      DecodeOffset(d, init);
      var e := Decode(d.(frames := []), init);
      assert d.frames + e.frames + [e.acc] == d.frames + (e.frames + [e.acc]);
    }
  }

  /** A packet that finds an escape open. */
  lemma SendInEscape(d: Decoder, p: seq<byte>)
    requires d.esc
    ensures Decode(d, MoteEncode(p)) == Decoder([], false, d.frames + [d.acc + [END] + p])
  {
    hide Decode, Escape;
    DecodeConcat(d, [END], Encode(p));
    Decode2(d, END, END);
    DecodeEncode(Decode(d, [END]), p);
  }

  lemma CompletedFrames(d: Decoder, open: bool, call: Call, own: bool)
    ensures Decode(d, CallBytes(open, call)).frames == d.frames + Frames(Completed(d, open, call, own))
  {
    hide Decode, Foreign, MoteEncode, PutBytes;
    match call
    case Put(c) =>
      DecodeOffset(d, PutBytes(open, c));
      ForeignFrames(Decode(d.(frames := []), PutBytes(open, c)).frames);
    case Send(p) =>
      if d.esc {
        SendInEscape(d, p);
        assert [Tagged(d.acc + [END] + p, false)][..0] == [];
        assert Frames([]) + [d.acc + [END] + p] == [d.acc + [END] + p];
      } else {
        DecodeMoteEncode(d, p);
        ForeignFrames(Deliver(d.acc));
        var last := if p == [] then [] else [Tagged(p, own)];
        assert p != [] ==> last[..0] == [];
        assert Frames(last) == Deliver(p);
        TaggedConcat(Foreign(Deliver(d.acc)), last);
        assert d.frames + Deliver(d.acc) + Deliver(p) == d.frames + (Deliver(d.acc) + Deliver(p));
      }
  }

  /** They are all frames of the wire. */
  lemma {:induction false} ArrivedFrames(calls: seq<Call>, own: seq<bool>)
    ensures Frames(Arrived(calls, own)) == Decoded(calls).frames
  {
    hide Completed, CallBytes, LineOpen, Decode;
    if calls == [] {
      assert Decode(IDLE, []) == IDLE by { NothingDecoded(IDLE); }
    } else {
      var n := |calls| - 1;
      var init := calls[..n];
      ArrivedFrames(init, own);
      DecodeConcat(IDLE, Wire(init), CallBytes(LineOpen(init), calls[n]));
      CompletedFrames(Decoded(init), LineOpen(init), calls[n], Mark(own, n));
      TaggedConcat(Arrived(init, own), Completed(Decoded(init), LineOpen(init), calls[n], Mark(own, n)));
    }
  }

  lemma NothingDecoded(d: Decoder)
    ensures Decode(d, []) == d
  {}

  /** Does the receiver take the next byte for the second half of an escape? putchar escapes nothing, so
      that an ESC in the debug text opens one. */
  predicate EscOpen(calls: seq<Call>) {
    if calls == [] then false
    else
      var init := calls[..|calls| - 1];
      match calls[|calls| - 1]
      case Send(_) => false
      case Put(c) => Low8(c) == ESC && !(LineOpen(init) && EscOpen(init))
  }

  lemma PutEscapes(d: Decoder, open: bool, c: int)
    ensures Decode(d, PutBytes(open, c)).esc <==> Low8(c) == ESC && !(open && d.esc)
  {
    hide Decode;
    var head := if open then [] else [END, MARKER];
    var x := Low8(c);
    var e := Decode(d, head);
    NothingDecoded(d);
    Decode2(d, END, MARKER);
    assert open || !e.esc;
    DecodeConcat(d, head, [x]);
    Decode2(e, x, END);
    if c == NEWLINE {
      DecodeConcat(d, head + [x], [END]);
      Decode2(Decode(d, head + [x]), END, END);
    } else {
      assert head + [x] + [] == head + [x];
    }
  }

  lemma {:induction false} EscOpenIsExact(calls: seq<Call>)
    ensures Decoded(calls).esc <==> EscOpen(calls)
  {
    hide Decode, PutBytes, MoteEncode;
    if calls == [] {
      NothingDecoded(IDLE);
    } else {
      var n := |calls| - 1;
      var init := calls[..n];
      EscOpenIsExact(init);
      var d := Decoded(init);
      DecodeConcat(IDLE, Wire(init), CallBytes(LineOpen(init), calls[n]));
      match calls[n]
      case Put(c) => PutEscapes(d, LineOpen(init), c);
      case Send(p) => if d.esc { SendInEscape(d, p); } else { DecodeMoteEncode(d, p); }
    }
  }

  /** A packet is sent while an escape is open. */
  ghost predicate SendsInEscape(calls: seq<Call>) {
    exists k :: 0 <= k < |calls| && SpoiledAt(calls, k)
  }

  ghost predicate SpoiledAt(calls: seq<Call>, k: nat)
    requires k < |calls|
  {
    calls[k].Send? && calls[k].p != [] && EscOpen(calls[..k])
  }

  lemma SpoiledSnoc(init: seq<Call>, x: Call)
    ensures SendsInEscape(init + [x]) <==> SendsInEscape(init) || (x.Send? && x.p != [] && EscOpen(init))
  {
    hide EscOpen;
    var calls := init + [x];
    assert calls[..|init|] == init;
    if SendsInEscape(calls) {
      var k :| 0 <= k < |calls| && SpoiledAt(calls, k);
      if k < |init| {
        assert calls[..k] == init[..k] && SpoiledAt(init, k);
      }
    }
    if SendsInEscape(init) {
      var k :| 0 <= k < |init| && SpoiledAt(init, k);
      assert calls[..k] == init[..k] && SpoiledAt(calls, k);
    }
    if x.Send? && x.p != [] && EscOpen(init) {
      assert SpoiledAt(calls, |init|);
    }
  }

  /** Every call is marked that sends a packet. */
  function Sends(calls: seq<Call>): seq<bool> {
    if calls == [] then [] else Sends(calls[..|calls| - 1]) + [calls[|calls| - 1].Send?]
  }

  lemma {:induction false} SendsSize(calls: seq<Call>)
    ensures |Sends(calls)| == |calls|
  {
    if calls != [] { SendsSize(calls[..|calls| - 1]); }
  }

  lemma OwnCompleted(d: Decoder, open: bool, call: Call)
    ensures Own(Completed(d, open, call, call.Send?)) == if call.Send? && !d.esc then Deliver(call.p) else []
  {
    match call
    case Put(c) => ForeignFrames(Decode(d.(frames := []), PutBytes(open, c)).frames);
    case Send(p) =>
      if d.esc {
        assert [Tagged(d.acc + [END] + p, false)][..0] == [];
      } else {
        ForeignFrames(Deliver(d.acc));
        var last := if p == [] then [] else [Tagged(p, true)];
        assert p != [] ==> last[..0] == [];
        TaggedConcat(Foreign(Deliver(d.acc)), last);
      }
  }

  /** The second list is the first one unless something is lost. */
  ghost predicate Survive(own: seq<seq<byte>>, sent: seq<seq<byte>>, lost: bool) {
    |own| <= |sent| && (own == sent <==> !lost) && (lost ==> |own| < |sent|)
  }

  lemma GrowBoth(a: seq<seq<byte>>, b: seq<seq<byte>>, x: seq<seq<byte>>, y: seq<seq<byte>>, lost: bool, loses: bool)
    requires Survive(a, b, lost) && if loses then |x| < |y| else x == y
    ensures Survive(a + x, b + y, lost || loses)
  {}

  lemma SurviveStep(init: seq<Call>, call: Call)
    requires Survive(Own(Arrived(init, Sends(init))), NonEmpty(SentPackets(init)), SendsInEscape(init))
    ensures var calls := init + [call];
      Survive(Own(Arrived(calls, Sends(calls))), NonEmpty(SentPackets(calls)), SendsInEscape(calls))
  {
    EscOpenIsExact(init);
    SendsSize(init);
    hide *;
    var d, open := Decoded(init), LineOpen(init);
    var x := if call.Send? && !d.esc then Deliver(call.p) else [];
    var y := if call.Send? then Deliver(call.p) else [];
    ArrivedSnoc(init, Sends(init), call, call.Send?);
    TaggedConcat(Arrived(init, Sends(init)), Completed(d, open, call, call.Send?));
    OwnCompleted(d, open, call);
    SpoiledSnoc(init, call);
    SentStep(init, call);
    DeliverSize(call);
    GrowBoth(Own(Arrived(init, Sends(init))), NonEmpty(SentPackets(init)), x, y,
             SendsInEscape(init), call.Send? && call.p != [] && EscOpen(init));
  }

  lemma {:induction false} AllSurvive(calls: seq<Call>)
    ensures Survive(Own(Arrived(calls, Sends(calls))), NonEmpty(SentPackets(calls)), SendsInEscape(calls))
  {
    if calls != [] {
      hide *;
      var init, call := calls[..|calls| - 1], calls[|calls| - 1];
      assert init + [call] == calls;
      AllSurvive(init);
      SurviveStep(init, call);
    }
  }

  /** Interleaving safety for debug output of any characters, END and ESC included: the frames of the
      wire that are packets are exactly the non-empty ones sent, each intact, once and in order, if and
      only if none is sent while an ESC of the debug text waits for the next byte. An END in the text
      harms no packet. */
  lemma {:induction false} AnyTextSafety(calls: seq<Call>)
    ensures Frames(Arrived(calls, Sends(calls))) == Decode(IDLE, Wire(calls)).frames
    ensures Own(Arrived(calls, Sends(calls))) == NonEmpty(SentPackets(calls)) <==> !SendsInEscape(calls)
    ensures |Own(Arrived(calls, Sends(calls)))| <= |NonEmpty(SentPackets(calls))|
  {
    hide Arrived, Own, SendsInEscape, Wire, Decode, Sends, SentPackets, Frames;
    ArrivedFrames(calls, Sends(calls));
    AllSurvive(calls);
  }

  lemma DeliverSize(call: Call)
    ensures call.Send? ==> |Deliver(call.p)| == if call.p == [] then 0 else 1
  {}

  lemma SentStep(init: seq<Call>, call: Call)
    ensures Sends(init + [call]) == Sends(init) + [call.Send?]
    ensures NonEmpty(SentPackets(init + [call]))
         == NonEmpty(SentPackets(init)) + if call.Send? then Deliver(call.p) else []
  {
    assert (init + [call])[..|init|] == init;
    var sent := SentPackets(init);
    if call.Send? {
      assert (sent + [call.p])[..|sent|] == sent;
    } else {
      assert NonEmpty(sent) + [] == NonEmpty(sent);
    }
  }
}
