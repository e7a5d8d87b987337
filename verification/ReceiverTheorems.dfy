/** What the host's receiver delivers for streams produced by the two encoders. */
module ReceiverTheorems {
  import opened SlipCodec
  import opened SerialInput
  import opened CommandLetters

  // ---------------------------------------------------------------- round trip, oversize packets

  lemma LeftOfNothing(verbose: int)
    ensures Left([], verbose) == []
  {}

  lemma {:induction false} LeftsNonEmpty(ps: seq<seq<byte>>, verbose: int)
    ensures Lefts(NonEmpty(ps), verbose) == Lefts(ps, verbose)
  {
    if ps != [] {
      hide Left;
      var init, p := ps[..|ps| - 1], ps[|ps| - 1];
      LeftsNonEmpty(init, verbose);
      if p == [] {
        LeftOfNothing(verbose);
        assert NonEmpty(init) + [] == NonEmpty(init);
        assert Lefts(init, verbose) + [] == Lefts(init, verbose);
      } else {
        LeftsSnoc(NonEmpty(init), p, verbose);
      }
    }
  }

  /** For any list of packets of any size, in the host's encoding and at every verbosity: each is
      delivered in order, reduced to what the buffer holds of it at its end, and dropped when that is
      nothing. Unless lines are echoed that is its last |p| % 2048 bytes. */
  lemma {:induction false} HostStreamDelivery(ps: seq<seq<byte>>, verbose: int)
    ensures var r := Receive(FRESH, EncodeAll(ps), verbose);
      r.acc == [] && !r.esc && Frames(r.events) == Lefts(ps, verbose)
    ensures !EchoesLines(verbose) ==> Lefts(ps, verbose) == Tails(ps)
  {
    hide Receive, Lefts, Decode;
    BoundedRefinesDecoder(EncodeAll(ps), verbose);
    HostRoundTrip(ps);
    LeftsNonEmpty(ps, verbose);
    if !EchoesLines(verbose) { LeftsAreTails(ps, verbose); }
  }

  /** The same for the mote's encoding. */
  lemma {:induction false} MoteStreamDelivery(ps: seq<seq<byte>>, verbose: int)
    ensures var r := Receive(FRESH, MoteEncodeAll(ps), verbose);
      r.acc == [] && !r.esc && Frames(r.events) == Lefts(ps, verbose)
    ensures !EchoesLines(verbose) ==> Lefts(ps, verbose) == Tails(ps)
  {
    hide Receive, Lefts, Decode;
    BoundedRefinesDecoder(MoteEncodeAll(ps), verbose);
    MoteRoundTrip(ps);
    LeftsNonEmpty(ps, verbose);
    if !EchoesLines(verbose) { LeftsAreTails(ps, verbose); }
  }

  lemma DeliverExactly(a: seq<byte>, p: seq<byte>)
    ensures Deliver(a) == [p] <==> a == p && a != []
  {
    assert a != [] ==> Deliver(a)[0] == a;
  }

  lemma TailWhole(p: seq<byte>)
    ensures Deliver(Tail(p)) == [p] <==> 1 <= |p| < SIZE
  {
    DeliverExactly(Tail(p), p);
    assert |Tail(p)| == |p| % SIZE;
  }

  ghost predicate AllSmall(ps: seq<seq<byte>>) { forall p | p in ps :: 1 <= |p| < SIZE }

  lemma SmallSnoc(init: seq<seq<byte>>, p: seq<byte>)
    ensures AllSmall(init + [p]) <==> AllSmall(init) && 1 <= |p| < SIZE
  {
    var ps := init + [p];
    assert p in ps && forall q | q in init :: q in ps;
  }

  lemma TailsLast(ps: seq<seq<byte>>)
    ensures ps == [] ==> Tails(ps) == []
    ensures ps != [] ==> Tails(ps) == Tails(ps[..|ps| - 1]) + Deliver(Tail(ps[|ps| - 1]))
  {
    hide Tail, Deliver;
  }

  lemma {:induction false} SmallPacketsSurvive(ps: seq<seq<byte>>)
    ensures Tails(ps) == ps <==> AllSmall(ps)
    ensures |Tails(ps)| <= |ps|
  {
    TailsLast(ps);
    if ps != [] {
      hide *;
      var init, p := ps[..|ps| - 1], ps[|ps| - 1];
      SmallPacketsSurvive(init);
      TailWhole(p);
      SmallSnoc(init, p);
      assert ps == init + [p];
      LastOf(Tails(init), Tail(p), init, p);
    }
  }

  lemma LastOf(a: seq<seq<byte>>, t: seq<byte>, init: seq<seq<byte>>, p: seq<byte>)
    requires |a| <= |init|
    ensures a + Deliver(t) == init + [p] <==> a == init && Deliver(t) == [p]
    ensures |a + Deliver(t)| <= |init| + 1
  {
    var b := Deliver(t);
    if a + b == init + [p] {
      assert (a + b)[..|a|] == a && (a + b)[|a|..] == b;
      assert (init + [p])[..|init|] == init && (init + [p])[|init|..] == [p];
    }
  }

  /** Round trip: a list of packets in the host's encoding comes out as it went in exactly when every
      packet has 1 to 2047 bytes. */
  lemma {:induction false} RoundTrip(ps: seq<seq<byte>>, verbose: int)
    requires !EchoesLines(verbose)
    ensures Frames(Receive(FRESH, EncodeAll(ps), verbose).events) == ps <==> forall p | p in ps :: 1 <= |p| < 2048
  {
    HostStreamDelivery(ps, verbose);
    SmallPacketsSurvive(ps);
  }

  /** The same for the mote's encoding. */
  lemma {:induction false} MoteStreamRoundTrip(ps: seq<seq<byte>>, verbose: int)
    requires !EchoesLines(verbose)
    ensures Frames(Receive(FRESH, MoteEncodeAll(ps), verbose).events) == ps <==> forall p | p in ps :: 1 <= |p| < 2048
  {
    MoteStreamDelivery(ps, verbose);
    SmallPacketsSurvive(ps);
  }

  lemma {:induction false} LeftsConcat(a: seq<seq<byte>>, b: seq<seq<byte>>, verbose: int)
    ensures Lefts(a + b, verbose) == Lefts(a, verbose) + Lefts(b, verbose)
  {
    if b == [] {
      assert a + b == a;
    } else {
      hide Left;
      var n := |b| - 1;
      assert (a + b)[..|a + b| - 1] == a + b[..n];
      LeftsConcat(a, b[..n], verbose);
    }
  }

  lemma Assoc(x: seq<byte>, y: seq<byte>, z: seq<byte>)
    ensures (x + y) + z == x + (y + z)
  {}

  lemma MoteEncodeAllLast(ps: seq<seq<byte>>)
    requires ps != []
    ensures MoteEncodeAll(ps) == MoteEncodeAll(ps[..|ps| - 1]) + MoteEncode(ps[|ps| - 1])
  {
    hide MoteEncode;
  }

  lemma {:induction false} MoteEncodeAllConcat(a: seq<seq<byte>>, b: seq<seq<byte>>)
    ensures MoteEncodeAll(a + b) == MoteEncodeAll(a) + MoteEncodeAll(b)
  {
    if b == [] {
      assert a + b == a;
    } else {
      hide *;
      var init, p := b[..|b| - 1], b[|b| - 1];
      MoteEncodeAllConcat(a, init);
      MoteEncodeAllLast(a + b);
      MoteEncodeAllLast(b);
      assert (a + b)[..|a + b| - 1] == a + init;
      Assoc(MoteEncodeAll(a), MoteEncodeAll(init), MoteEncode(p));
    }
  }

  /** One packet from the mote, read by a receiver in any state that is not inside an escape: what had
      been collected becomes a frame of its own, and then comes the packet. */
  lemma PacketFromAny(r: Receiver, p: seq<byte>, verbose: int)
    requires !r.esc
    ensures var t := Receive(r, MoteEncode(p), verbose);
      t.acc == [] && !t.esc && Frames(t.events) == Frames(r.events) + Deliver(r.acc) + Deliver(Left(p, verbose))
  {
    hide Receive, Left, Encode;
    var idle := Receive1(r, END, verbose);
    FramesSnoc(r.events, if r.acc == [] then Echo([]) else Dispatch(r.acc));
    assert Frames(r.events) + [] == Frames(r.events);
    ReceiveCons(r, MoteEncode(p), verbose);
    assert MoteEncode(p)[1..] == Encode(p);
    ReceiveEncode(idle, p, verbose);
  }

  /** Any number of packets from the mote, at every verbosity, read by a receiver in any state that is
      not inside an escape. */
  lemma {:induction false} StreamFromAny(r: Receiver, ps: seq<seq<byte>>, verbose: int)
    requires !r.esc && ps != []
    ensures var t := Receive(r, MoteEncodeAll(ps), verbose);
      && t.acc == [] && !t.esc
      && Frames(t.events) == Frames(r.events) + Deliver(r.acc) + Lefts(ps, verbose)
  {
    hide Receive, MoteEncode, Left, Frames;
    var init, p := ps[..|ps| - 1], ps[|ps| - 1];
    var t := Receive(r, MoteEncodeAll(init), verbose);
    ReceiveConcat(r, MoteEncodeAll(init), MoteEncode(p), verbose);
    if init == [] {
      ReceiveNothing(r, verbose);
      PacketFromAny(r, p, verbose);
      assert Lefts(ps, verbose) == Deliver(Left(p, verbose));
    } else {
      StreamFromAny(r, init, verbose);
      PacketFromAny(t, p, verbose);
      assert Frames(t.events) + [] == Frames(t.events);
    }
  }

  /** Whatever bytes came before, if they do not end inside an escape all packets of the mote that
      follow are delivered as if the stream had begun there. */
  lemma {:induction false} Resynchronisation(before: seq<byte>, ps: seq<seq<byte>>, verbose: int)
    requires !Decode(IDLE, before).esc && ps != []
    ensures Frames(Receive(FRESH, before + MoteEncodeAll(ps), verbose).events)
         == Frames(Receive(FRESH, before + [END], verbose).events)
          + Frames(Receive(FRESH, MoteEncodeAll(ps), verbose).events)
  {
    hide Decode, Receive, Frames, Lefts, Left, MoteEncodeAll;
    var r := Receive(FRESH, before, verbose);
    BoundedRefinesDecoder(before, verbose);
    ReceiveConcat(FRESH, before, MoteEncodeAll(ps), verbose);
    StreamFromAny(r, ps, verbose);
    MoteStreamDelivery(ps, verbose);
    ReceiveSnoc(FRESH, before, END, verbose);
    FramesSnoc(r.events, if r.acc == [] then Echo([]) else Dispatch(r.acc));
    assert Frames(r.events) + [] == Frames(r.events);
  }

  lemma {:induction false} EscapeClosed(r: Receiver, p: seq<byte>, verbose: int)
    requires !r.esc
    ensures !Receive(r, Escape(p), verbose).esc
  {
    if p != [] {
      var q, b := p[..|p| - 1], p[|p| - 1];
      EscapeClosed(r, q, verbose);
      ReceiveConcat(r, Escape(q), EscapeByte(b), verbose);
      ReceiveEscapeByte(Receive(r, Escape(q), verbose), b, verbose);
    }
  }

  /** A receiver in any state at all loses or spoils no packet but the first. */
  lemma {:induction false} OnlyFirstIsLost(r: Receiver, p: seq<byte>, ps: seq<seq<byte>>, verbose: int)
    ensures Frames(Receive(r, MoteEncodeAll([p] + ps), verbose).events)
         == Frames(Receive(r, MoteEncode(p), verbose).events) + Lefts(ps, verbose)
  {
    hide Receive, Escape, Left, Frames;
    var t := Receive(r, MoteEncode(p), verbose);
    assert t.acc == [] && !t.esc by {
      var s := Receive1(r, END, verbose);
      var e := Receive(s, Escape(p), verbose);
      EscapeClosed(s, p, verbose);
      ReceiveCons(r, MoteEncode(p), verbose);
      assert MoteEncode(p)[1..] == Encode(p);
      ReceiveSnoc(s, Escape(p), END, verbose);
    }
    MoteEncodeAllConcat([p], ps);
    assert [p][..0] == [] && MoteEncodeAll([p]) == MoteEncode(p);
    ReceiveConcat(r, MoteEncode(p), MoteEncodeAll(ps), verbose);
    if ps == [] {
      ReceiveNothing(t, verbose);
    } else {
      StreamFromAny(t, ps, verbose);
    }
    assert Frames(t.events) + [] == Frames(t.events);
  }

  // ---------------------------------------------------------------- kinds of frames

  /** Every completed frame is handed to the handler of its kind, at every verbosity. */
  lemma {:induction false} EveryFrameIsDispatched(s: seq<byte>, verbose: int)
    ensures forall e | e in Receive(FRESH, s, verbose).events :: e.Echo? || (e.f != [] && e == Dispatch(e.f))
  {
    if s != [] {
      EveryFrameIsDispatched(s[..|s| - 1], verbose);
    }
  }

  /** The frames given to the command handler. */
  function CommandsIn(events: seq<Event>): seq<seq<byte>> {
    if events == [] then []
    else CommandsIn(events[..|events| - 1]) + if events[|events| - 1].Command? then [events[|events| - 1].f] else []
  }

  /** The commands among some frames. */
  function OnlyCommands(fs: seq<seq<byte>>): seq<seq<byte>> {
    if fs == [] then []
    else
      var f := fs[|fs| - 1];
      OnlyCommands(fs[..|fs| - 1]) + if f != [] && f[0] == BANG then [f] else []
  }

  lemma OnlyCommandsSnoc(fs: seq<seq<byte>>, f: seq<byte>)
    ensures OnlyCommands(fs + [f]) == OnlyCommands(fs) + if f != [] && f[0] == BANG then [f] else []
  {
    assert (fs + [f])[..|fs|] == fs;
  }

  ghost predicate Dispatched(events: seq<Event>) {
    forall e | e in events :: e.Echo? || (e.f != [] && e == Dispatch(e.f))
  }

  lemma DispatchedCommand(e: Event)
    requires !e.Echo? && e.f != [] && e == Dispatch(e.f)
    ensures e.Command? <==> e.f[0] == BANG
  {
    hide Sensible;
  }

  lemma {:induction false} CommandsAmongFrames(events: seq<Event>)
    requires Dispatched(events)
    ensures CommandsIn(events) == OnlyCommands(Frames(events))
  {
    if events != [] {
      var init, e := events[..|events| - 1], events[|events| - 1];
      assert e in events && forall x | x in init :: x in events;
      CommandsAmongFrames(init);
      hide OnlyCommands, Dispatch;
      assert CommandsIn(init) + [] == CommandsIn(init) && Frames(init) + [] == Frames(init);
      if !e.Echo? {
        DispatchedCommand(e);
        OnlyCommandsSnoc(Frames(init), e.f);
      }
    }
  }

  /** On every byte stream the command handler is given exactly the completed frames that begin with
      an exclamation mark, in order. */
  lemma CommandsOfFrames(s: seq<byte>, verbose: int)
    ensures var r := Receive(FRESH, s, verbose); CommandsIn(r.events) == OnlyCommands(Frames(r.events))
  {
    EveryFrameIsDispatched(s, verbose);
    CommandsAmongFrames(Receive(FRESH, s, verbose).events);
  }

  /** The frames of the events picked. */
  function Handed(events: seq<Event>, pick: Event -> bool): seq<seq<byte>> {
    if events == [] then []
    else Handed(events[..|events| - 1], pick) + if pick(events[|events| - 1]) then [events[|events| - 1].f] else []
  }

  function Among(fs: seq<seq<byte>>, pick: seq<byte> -> bool): seq<seq<byte>> {
    if fs == [] then []
    else Among(fs[..|fs| - 1], pick) + if pick(fs[|fs| - 1]) then [fs[|fs| - 1]] else []
  }

  predicate IsCommand(e: Event) { e.Command? }
  predicate IsRequest(e: Event) { e.Request? }
  predicate IsDebugLine(e: Event) { e.DebugLine? }
  predicate IsText(e: Event) { e.Text? }
  predicate IsPacket(e: Event) { e.Packet? }

  predicate From33(f: seq<byte>) { f != [] && f[0] == 33 }
  predicate From63(f: seq<byte>) { f != [] && f[0] == 63 }
  predicate From13(f: seq<byte>) { f != [] && f[0] == 13 }

  /** NUL, tab, newline, carriage return, or 32 to 126. */
  predicate Readable(b: byte) { b == 0 || b == 9 || b == 10 || b == 13 || 32 <= b <= 126 }

  predicate ReadableFrame(f: seq<byte>) {
    && f != [] && f[0] != 33 && f[0] != 63 && f[0] != 13
    && forall i | 1 <= i < |f| :: Readable(f[i])
  }

  predicate BinaryFrame(f: seq<byte>) {
    && f != [] && f[0] != 33 && f[0] != 63 && f[0] != 13
    && exists i :: 1 <= i < |f| && !Readable(f[i])
  }

  lemma DispatchedByKind(e: Event)
    requires !e.Echo? && e.f != [] && e == Dispatch(e.f)
    ensures IsCommand(e) <==> From33(e.f)
    ensures IsRequest(e) <==> From63(e.f)
    ensures IsDebugLine(e) <==> From13(e.f)
    ensures IsText(e) <==> ReadableFrame(e.f)
    ensures IsPacket(e) <==> BinaryFrame(e.f)
  {
    assert forall i | 0 <= i < |e.f| :: Printable(e.f[i]) <==> Readable(e.f[i]);
  }

  lemma AmongSnoc(fs: seq<seq<byte>>, f: seq<byte>, pick: seq<byte> -> bool)
    ensures Among(fs + [f], pick) == Among(fs, pick) + if pick(f) then [f] else []
  {
    assert (fs + [f])[..|fs|] == fs;
  }

  lemma {:induction false} HandedAmong(events: seq<Event>, pick: Event -> bool, kind: seq<byte> -> bool)
    requires forall e | e in events :: if e.Echo? then !pick(e) else (pick(e) <==> kind(e.f))
    ensures Handed(events, pick) == Among(Frames(events), kind)
  {
    if events != [] {
      var init, e := events[..|events| - 1], events[|events| - 1];
      assert e in events && forall x | x in init :: x in events;
      HandedAmong(init, pick, kind);
      assert Handed(init, pick) + [] == Handed(init, pick) && Frames(init) + [] == Frames(init);
      if !e.Echo? {
        AmongSnoc(Frames(init), e.f, kind);
      }
    }
  }

  /** On every byte stream and at every verbosity, of the frames that the decoder completes, as the buffer holds
      them: those that begin with 33 go to the command handler, those with 63 are requests, those with 13
      debug lines; of the others those with a byte behind the first that is no text go to the IP stack, and
      the rest is text. Each handler gets its frames in order. */
  lemma FramesByKind(s: seq<byte>, verbose: int)
    ensures var events, fs := Receive(FRESH, s, verbose).events, Lefts(Decode(IDLE, s).frames, verbose);
      && Handed(events, IsCommand) == Among(fs, From33)
      && Handed(events, IsRequest) == Among(fs, From63)
      && Handed(events, IsDebugLine) == Among(fs, From13)
      && Handed(events, IsPacket) == Among(fs, BinaryFrame)
      && Handed(events, IsText) == Among(fs, ReadableFrame)
  {
    EveryFrameIsDispatched(s, verbose);
    BoundedRefinesDecoder(s, verbose);
    hide Receive, Dispatch, ReadableFrame, BinaryFrame, From33, From63, From13, Lefts, Decode, Handed, Among, Frames;
    var events := Receive(FRESH, s, verbose).events;
    forall e | e in events && !e.Echo?
      ensures IsCommand(e) <==> From33(e.f)
      ensures IsRequest(e) <==> From63(e.f)
      ensures IsDebugLine(e) <==> From13(e.f)
      ensures IsText(e) <==> ReadableFrame(e.f)
      ensures IsPacket(e) <==> BinaryFrame(e.f)
    {
      DispatchedByKind(e);
    }
    HandedAmong(events, IsCommand, From33);
    HandedAmong(events, IsRequest, From63);
    HandedAmong(events, IsDebugLine, From13);
    HandedAmong(events, IsText, ReadableFrame);
    HandedAmong(events, IsPacket, BinaryFrame);
  }

  /** One more byte of a packet: at the verbosities from 2 on, 4 excepted, a newline behind readable bytes
      is echoed with them and empties the buffer, and so does, unechoed, the 2048th byte; at verbosity 4 every
      readable byte is echoed. */
  ghost function After(r: Receiver, b: byte, verbose: int): Receiver {
    if verbose >= 2 && verbose != 4 && b == 10 && (forall i | 1 <= i < |r.acc| :: Readable(r.acc[i])) then
      Receiver([], false, r.events + [Echo(r.acc + [b])])
    else
      Receiver(if |r.acc| >= 2047 then [] else r.acc + [b], false,
               r.events + if verbose == 4 && Readable(b) then [Echo([b])] else [])
  }

  lemma StoreIsAfter(r: Receiver, b: byte, verbose: int)
    ensures Store(r, b, verbose) == After(r, b, verbose)
  {
    var acc := r.acc + [b];
    assert forall i | 0 <= i < |r.acc| :: acc[i] == r.acc[i];
    assert forall c: byte :: Printable(c) <==> Readable(c);
    assert r.events + [] == r.events;
  }

  /** What the receiver makes of each byte, and of each byte behind 219. */
  lemma ReceivedBytes(r: Receiver, c: byte, verbose: int)
    requires !r.esc
    ensures var t := Receive(r, [192], verbose);
      t.acc == [] && !t.esc && Frames(t.events) == Frames(r.events) + Deliver(r.acc)
    ensures c != 192 && c != 219 ==> Receive(r, [c], verbose) == After(r, c, verbose)
    ensures Receive(r, [219], verbose) == r.(esc := true)
    ensures Receive(r, [219, c], verbose)
         == After(r, if c == 220 then 192 else if c == 221 then 219 else c, verbose)
  {
    var x := if c == 220 then 192 else if c == 221 then 219 else c;
    StoreIsAfter(r, c, verbose);
    StoreIsAfter(r, x, verbose);
    StoreIgnoresEscape(r, x, verbose);
    hide Store, After, Frames;
    assert [c][..0] == [] && [192 as byte][..0] == [] && [219 as byte][..0] == [];
    assert [219, c][..1] == [219];
    FramesSnoc(r.events, if r.acc == [] then Echo([]) else Dispatch(r.acc));
    assert Frames(r.events) + [] == Frames(r.events);
  }

  lemma StoreIgnoresEscape(r: Receiver, c: byte, verbose: int)
    ensures Store(r.(esc := true), c, verbose) == Store(r, c, verbose)
  {}

  lemma {:induction false} TailsNonEmpty(ps: seq<seq<byte>>)
    ensures Tails(NonEmpty(ps)) == Tails(ps)
  {
    LeftsNonEmpty(ps, 0);
    LeftsAreTails(ps, 0);
    LeftsAreTails(NonEmpty(ps), 0);
  }

  // ---------------------------------------------------------------- verbosities that echo lines

  lemma {:induction false} ReceiveEscape(r: Receiver, p: seq<byte>, verbose: int)
    requires r.acc == [] && !r.esc
    ensures var t := Receive(r, Escape(p), verbose);
      t.acc == Left(p, verbose) && !t.esc && Frames(t.events) == Frames(r.events)
  {
    if p != [] {
      var q, b := p[..|p| - 1], p[|p| - 1];
      ReceiveEscape(r, q, verbose);
      ReceiveConcat(r, Escape(q), EscapeByte(b), verbose);
      ReceiveEscapeByte(Receive(r, Escape(q), verbose), b, verbose);
    }
  }

  lemma ReceiveEscapeByte(r: Receiver, b: byte, verbose: int)
    requires !r.esc
    ensures var t := Receive(r, EscapeByte(b), verbose);
      t.acc == Store(Receiver(r.acc, false, []), b, verbose).acc && !t.esc && Frames(t.events) == Frames(r.events)
  {
    hide Receive, Frames, Sensible;
    var s := EscapeByte(b);
    ReceiveCons(r, s, verbose);
    if b == END || b == ESC {
      ReceiveCons(Receive1(r, ESC, verbose), s[1..], verbose);
      assert s[1..][1..] == [];
    } else {
      assert s[1..] == [];
    }
    ReceiveNothing(Store(r, b, verbose), verbose);
    assert Receive(r, s, verbose) == Store(r, b, verbose);
    StoreFrames(r, b, verbose);
  }

  lemma StoreFrames(r: Receiver, b: byte, verbose: int)
    ensures var t := Store(r, b, verbose);
      t.acc == Store(Receiver(r.acc, false, []), b, verbose).acc && !t.esc && Frames(t.events) == Frames(r.events)
  {
    hide Sensible;
    FramesSnoc(r.events, Echo(r.acc + [b]));
    FramesSnoc(r.events, Echo([b]));
    assert r.events + [] == r.events;
  }

  /** Some part of p from its start up to a newline looks like a line of text. */
  ghost predicate LooksLikeLine(p: seq<byte>) {
    exists k :: 0 <= k < |p| && p[k] == NL && Sensible(p[..k + 1])
  }

  lemma LineSnoc(q: seq<byte>, b: byte)
    ensures LooksLikeLine(q + [b]) <==> LooksLikeLine(q) || (b == NL && Sensible(q + [b]))
  {
    var p := q + [b];
    if LooksLikeLine(q) {
      var k :| 0 <= k < |q| && q[k] == NL && Sensible(q[..k + 1]);
      assert p[..k + 1] == q[..k + 1] && p[k] == NL;
    } else if b == NL && Sensible(p) {
      assert p[..|q| + 1] == p && p[|q|] == NL;
    }
    if LooksLikeLine(p) {
      var k :| 0 <= k < |p| && p[k] == NL && Sensible(p[..k + 1]);
      if k < |q| {
        assert p[..k + 1] == q[..k + 1] && q[k] == NL;
      } else {
        assert p[..k + 1] == p;
      }
    }
  }

  lemma {:induction false} LeftExactly(p: seq<byte>, verbose: int)
    requires EchoesLines(verbose) && |p| < SIZE
    ensures |Left(p, verbose)| <= |p|
    ensures LooksLikeLine(p) ==> |Left(p, verbose)| < |p|
    ensures !LooksLikeLine(p) ==> Left(p, verbose) == p
  {
    if p != [] {
      var q, b := p[..|p| - 1], p[|p| - 1];
      assert q + [b] == p;
      LeftExactly(q, verbose);
      LineSnoc(q, b);
      hide LooksLikeLine, Sensible;
    }
  }

  lemma ReceiveSnoc(r: Receiver, s: seq<byte>, c: byte, verbose: int)
    ensures Receive(r, s + [c], verbose) == Receive1(Receive(r, s, verbose), c, verbose)
  {
    assert (s + [c])[..|s|] == s;
  }

  lemma {:induction false} LeftFits(p: seq<byte>, verbose: int)
    ensures |Left(p, verbose)| < SIZE
  {
    if p != [] {
      LeftFits(p[..|p| - 1], verbose);
    }
  }

  /** It has 1 to 2047 bytes and does not look like a line of text. */
  ghost predicate SurvivesEcho(p: seq<byte>) { 1 <= |p| < SIZE && !LooksLikeLine(p) }

  ghost predicate AllSurvive(ps: seq<seq<byte>>) { forall p | p in ps :: SurvivesEcho(p) }

  lemma {:induction false} LeftWhole(p: seq<byte>, verbose: int)
    requires EchoesLines(verbose)
    ensures Deliver(Left(p, verbose)) == [p] <==> SurvivesEcho(p)
  {
    LeftFits(p, verbose);
    DeliverExactly(Left(p, verbose), p);
    if |p| < SIZE {
      LeftExactly(p, verbose);
    }
  }

  lemma ReceiveEncode(r: Receiver, p: seq<byte>, verbose: int)
    requires r.acc == [] && !r.esc
    ensures var t := Receive(r, Encode(p), verbose);
      t.acc == [] && !t.esc && Frames(t.events) == Frames(r.events) + Deliver(Left(p, verbose))
    ensures Receive(r, MoteEncode(p), verbose) == Receive(r, Encode(p), verbose)
  {
    hide Left, Escape, Receive, Sensible;
    var t := Receive(r, Escape(p), verbose);
    ReceiveEscape(r, p, verbose);
    ReceiveSnoc(r, Escape(p), END, verbose);
    FramesSnoc(t.events, if t.acc == [] then Echo([]) else Dispatch(t.acc));
    assert Frames(r.events) + [] == Frames(r.events);
    ReceiveCons(r, MoteEncode(p), verbose);
    assert MoteEncode(p)[1..] == Encode(p);
  }

  /** To this receiver the two encodings are the same. */
  lemma {:induction false} EncodingsAgree(ps: seq<seq<byte>>, verbose: int)
    ensures Receive(FRESH, MoteEncodeAll(ps), verbose) == Receive(FRESH, EncodeAll(ps), verbose)
  {
    if ps != [] {
      var init, p := ps[..|ps| - 1], ps[|ps| - 1];
      EncodingsAgree(init, verbose);
      ReceiveConcat(FRESH, EncodeAll(init), Encode(p), verbose);
      ReceiveConcat(FRESH, MoteEncodeAll(init), MoteEncode(p), verbose);
      hide Receive;
      HostStreamDelivery(init, verbose);
      ReceiveEncode(Receive(FRESH, EncodeAll(init), verbose), p, verbose);
    }
  }

  lemma {:induction false} LeftsExactly(ps: seq<seq<byte>>, verbose: int)
    requires EchoesLines(verbose)
    ensures Lefts(ps, verbose) == ps <==> AllSurvive(ps)
    ensures |Lefts(ps, verbose)| <= |ps|
  {
    LeftsLast(ps, verbose);
    if ps != [] {
      hide *;
      var init, p := ps[..|ps| - 1], ps[|ps| - 1];
      LeftsExactly(init, verbose);
      LeftWhole(p, verbose);
      SurviveSnoc(init, p);
      assert ps == init + [p];
      LastOf(Lefts(init, verbose), Left(p, verbose), init, p);
    }
  }

  lemma LeftsLast(ps: seq<seq<byte>>, verbose: int)
    ensures ps == [] ==> Lefts(ps, verbose) == []
    ensures ps != [] ==>
      && Lefts(ps, verbose) == Lefts(ps[..|ps| - 1], verbose) + Deliver(Left(ps[|ps| - 1], verbose))
  {
    hide Left, Deliver;
  }

  lemma SurviveSnoc(init: seq<seq<byte>>, p: seq<byte>)
    ensures AllSurvive(init + [p]) <==> AllSurvive(init) && SurvivesEcho(p)
  {
    hide SurvivesEcho;
    var ps := init + [p];
    assert p in ps && forall q | q in init :: q in ps;
  }

  /** The round trip at the verbosities that echo lines, for both encoders: a list of packets comes
      out as it went in exactly when, besides, no packet looks like a line of text. */
  lemma {:induction false} EchoingRoundTrip(ps: seq<seq<byte>>, verbose: int)
    requires EchoesLines(verbose)
    ensures Frames(Receive(FRESH, EncodeAll(ps), verbose).events) == ps <==>
      forall p | p in ps :: SurvivesEcho(p)
    ensures Receive(FRESH, MoteEncodeAll(ps), verbose) == Receive(FRESH, EncodeAll(ps), verbose)
  {
    hide Receive, Lefts, SurvivesEcho, EncodeAll, MoteEncodeAll, Frames;
    HostStreamDelivery(ps, verbose);
    EncodingsAgree(ps, verbose);
    LeftsExactly(ps, verbose);
  }
}
