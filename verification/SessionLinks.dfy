/** What travels on the two links of the session protocol, as bytes: `!S` commands down to the mote and
    `!R` reports back up, each among other traffic. */
module SessionLinks {
  import opened SlipCodec
  import opened CommandLetters
  import opened Options
  import opened SessionRings
  import opened SessionProtocol
  import opened ReceiverTheorems
  import SerialInput
  import MoteWire
  import BridgeRdc
  import MoteRadio

  // ---------------------------------------------------------------- commands of one letter

  predicate Starts(f: seq<byte>, letter: byte) { |f| >= 2 && f[0] == BANG && f[1] == letter }

  /** The commands with this letter among some frames. */
  function Starting(fs: seq<seq<byte>>, letter: byte): seq<seq<byte>> {
    if fs == [] then []
    else
      var f := fs[|fs| - 1];
      Starting(fs[..|fs| - 1], letter) + if Starts(f, letter) then [f] else []
  }

  lemma StartingSnoc(fs: seq<seq<byte>>, f: seq<byte>, letter: byte)
    ensures Starting(fs + [f], letter) == Starting(fs, letter) + if Starts(f, letter) then [f] else []
  {
    assert (fs + [f])[..|fs|] == fs;
  }

  lemma {:induction false} StartingPrefix(a: seq<seq<byte>>, b: seq<seq<byte>>, letter: byte)
    requires a <= b
    ensures Starting(a, letter) <= Starting(b, letter)
  {
    if |a| == |b| {
      assert a == b;
    } else {
      assert a <= b[..|b| - 1];
      StartingPrefix(a, b[..|b| - 1], letter);
    }
  }

  lemma {:induction false} StartingCommands(fs: seq<seq<byte>>, letter: byte)
    ensures Starting(OnlyCommands(fs), letter) == Starting(fs, letter)
  {
    if fs != [] {
      var init, f := fs[..|fs| - 1], fs[|fs| - 1];
      StartingCommands(init, letter);
      if f != [] && f[0] == BANG {
        StartingSnoc(OnlyCommands(init), f, letter);
      } else {
        assert OnlyCommands(init) + [] == OnlyCommands(init);
      }
    }
  }

  // ---------------------------------------------------------------- down to the mote

  /** The attributes and the payload of a packet. */
  datatype Sent = Sent(atts: seq<byte>, payload: seq<byte>)

  /** The command that carries packet number k. */
  function FrameOf(packets: seq<Sent>, k: nat): seq<byte>
    requires k < |packets|
  {
    BridgeRdc.SessionFrame((k % SLOTS) as byte, packets[k].atts, packets[k].payload)
  }

  /** These commands carry these packets, with their numbers mod 16 as session ids. */
  ghost predicate Carries(fs: seq<seq<byte>>, packets: seq<Sent>) {
    |fs| == |packets| && forall k | 0 <= k < |fs| :: fs[k] == FrameOf(packets, k)
  }

  /** All frames have two bytes at least; the `!S` commands among them carry the packets, and so many
      of these are among the first `taken`, which the mote has looked at. */
  ghost predicate DownOk(packets: seq<Sent>, arrived: int, frames: seq<seq<byte>>, taken: nat) {
    && (forall f | f in frames :: |f| >= 2)
    && Carries(Starting(frames, CHAR_S), packets)
    && taken <= |frames|
    && |Starting(frames[..taken], CHAR_S)| == arrived
  }

  lemma FrameStarts(packets: seq<Sent>, k: nat)
    requires k < |packets|
    ensures Starts(FrameOf(packets, k), CHAR_S) && |FrameOf(packets, k)| >= 3
  {}

  lemma CarriesOne(fs: seq<seq<byte>>, packets: seq<Sent>, x: Sent)
    requires Carries(fs, packets)
    ensures Carries(fs + [FrameOf(packets + [x], |packets|)], packets + [x])
  {
    hide BridgeRdc.SessionFrame;
  }

  lemma DownSend(packets: seq<Sent>, arrived: int, frames: seq<seq<byte>>, taken: nat, x: Sent)
    requires DownOk(packets, arrived, frames, taken)
    ensures DownOk(packets + [x], arrived, frames + [FrameOf(packets + [x], |packets|)], taken)
  {
    var f := FrameOf(packets + [x], |packets|);
    FrameStarts(packets + [x], |packets|);
    StartingSnoc(frames, f, CHAR_S);
    CarriesOne(Starting(frames, CHAR_S), packets, x);
    hide Starting, FrameOf, Starts, Carries;
    assert (frames + [f])[..taken] == frames[..taken];
    assert forall y | y in frames + [f] :: y in frames || y == f;
  }

  lemma DownOther(packets: seq<Sent>, arrived: int, frames: seq<seq<byte>>, taken: nat, f: seq<byte>)
    requires DownOk(packets, arrived, frames, taken) && |f| >= 2 && !Starts(f, CHAR_S)
    ensures DownOk(packets, arrived, frames + [f], taken)
  {
    StartingSnoc(frames, f, CHAR_S);
    hide Starting;
    assert (frames + [f])[..taken] == frames[..taken];
    assert Starting(frames, CHAR_S) + [] == Starting(frames, CHAR_S);
    assert forall x | x in frames + [f] :: x in frames || x == f;
  }

  /** The mote looks at one more frame: the next packet in the order of sending, or no `!S` command. */
  lemma DownNext(packets: seq<Sent>, arrived: int, frames: seq<seq<byte>>, taken: nat)
    requires DownOk(packets, arrived, frames, taken) && taken < |frames|
    ensures var f := frames[taken];
      && |f| >= 2
      && (Starts(f, CHAR_S) ==> 0 <= arrived < |packets| && f == FrameOf(packets, arrived))
      && DownOk(packets, if Starts(f, CHAR_S) then arrived + 1 else arrived, frames, taken + 1)
  {
    var f := frames[taken];
    assert f in frames;
    assert frames[..taken + 1] == frames[..taken] + [f];
    StartingSnoc(frames[..taken], f, CHAR_S);
    StartingPrefix(frames[..taken + 1], frames, CHAR_S);
    hide Starting, FrameOf;
    if Starts(f, CHAR_S) {
      assert Starting(frames[..taken + 1], CHAR_S)[arrived] == f;
      assert Starting(frames, CHAR_S)[arrived] == f;
    }
  }

  /** Once the mote has looked at every frame, all packets have arrived. */
  lemma DownEmpty(packets: seq<Sent>, arrived: int, frames: seq<seq<byte>>)
    requires DownOk(packets, arrived, frames, |frames|)
    ensures arrived == |packets|
  {
    assert frames[..|frames|] == frames;
  }

  // ---------------------------------------------------------------- back up to the host

  function InvokedFrames(vs: seq<Invocation>): seq<seq<byte>> {
    seq(|vs|, i requires 0 <= i < |vs| => MoteRadio.ReportFrame(vs[i].sid, vs[i].status, vs[i].tx))
  }

  function UpFrames(up: seq<Up>): seq<seq<byte>> {
    seq(|up|, i requires 0 <= i < |up| => MoteRadio.ReportFrame(up[i].sid, up[i].status, up[i].tx))
  }

  /** All reports sent so far. */
  function ReportFrames(w: World): seq<seq<byte>> { InvokedFrames(w.invoked) + UpFrames(w.up) }

  lemma CompleteReports(w: World, which: nat, status: int, tx: int)
    requires Shape(w) && which < |w.air| && w.air[which].slot < |w.mote.slots|
    ensures ReportFrames(DoComplete(w, which, status, tx))
         == ReportFrames(w) + [MoteRadio.ReportFrame(w.mote.slots[w.air[which].slot], Low8(status), Low8(tx))]
  {
    var v := DoComplete(w, which, status, tx);
    var f := MoteRadio.ReportFrame(w.mote.slots[w.air[which].slot], Low8(status), Low8(tx));
    assert UpFrames(v.up) == UpFrames(w.up) + [f];
    assert InvokedFrames(w.invoked) + (UpFrames(w.up) + [f]) == ReportFrames(w) + [f];
  }

  lemma HandleReports(w: World)
    requires Shape(w) && w.up != []
    ensures ReportFrames(DoHandle(w)) == ReportFrames(w)
    ensures |ReportFrames(w)| > |w.invoked|
    ensures ReportFrames(w)[|w.invoked|] == MoteRadio.ReportFrame(w.up[0].sid, w.up[0].status, w.up[0].tx)
  {
    var v := DoHandle(w);
    var f := UpFrames(w.up)[0];
    assert InvokedFrames(v.invoked) == InvokedFrames(w.invoked) + [f];
    assert UpFrames(w.up) == [f] + UpFrames(v.up);
  }

  /** The commands among these frames, as the host's buffer keeps them. */
  function Heard(ts: seq<MoteWire.Tagged>, verbose: int): seq<MoteWire.Tagged> {
    if ts == [] then []
    else
      var t := ts[|ts| - 1];
      var kept := SerialInput.Left(t.f, verbose);
      Heard(ts[..|ts| - 1], verbose) + if kept != [] && kept[0] == BANG then [MoteWire.Tagged(kept, t.own)] else []
  }

  lemma {:induction false} HeardConcat(a: seq<MoteWire.Tagged>, b: seq<MoteWire.Tagged>, verbose: int)
    ensures Heard(a + b, verbose) == Heard(a, verbose) + Heard(b, verbose)
  {
    hide SerialInput.Left;
    if b == [] {
      assert a + b == a;
    } else {
      var n := |b| - 1;
      assert (a + b)[..|a + b| - 1] == a + b[..n];
      HeardConcat(a, b[..n], verbose);
    }
  }

  lemma {:induction false} HeardFrames(ts: seq<MoteWire.Tagged>, verbose: int)
    ensures MoteWire.Frames(Heard(ts, verbose)) == OnlyCommands(SerialInput.Lefts(MoteWire.Frames(ts), verbose))
  {
    if ts != [] {
      var init, t := ts[..|ts| - 1], ts[|ts| - 1];
      HeardFrames(init, verbose);
      hide *;
      assert ts == init + [t];
      HeardStep(init, t, verbose);
    }
  }

  lemma HeardSnoc(init: seq<MoteWire.Tagged>, t: MoteWire.Tagged, verbose: int)
    ensures var kept := SerialInput.Left(t.f, verbose);
      Heard(init + [t], verbose)
      == Heard(init, verbose) + if kept != [] && kept[0] == BANG then [MoteWire.Tagged(kept, t.own)] else []
  {
    assert (init + [t])[..|init|] == init;
  }

  lemma TaggedSnoc(ts: seq<MoteWire.Tagged>, t: MoteWire.Tagged)
    ensures MoteWire.Frames(ts + [t]) == MoteWire.Frames(ts) + [t.f]
  {
    assert (ts + [t])[..|ts|] == ts;
  }

  lemma TailsSnoc(fs: seq<seq<byte>>, f: seq<byte>)
    ensures SerialInput.Tails(fs + [f]) == SerialInput.Tails(fs) + Deliver(SerialInput.Tail(f))
  {
    hide SerialInput.Tail;
    assert (fs + [f])[..|fs|] == fs;
  }

  lemma DeliveredCommand(fs: seq<seq<byte>>, kept: seq<byte>)
    ensures OnlyCommands(fs + Deliver(kept)) == OnlyCommands(fs) + if kept != [] && kept[0] == BANG then [kept] else []
  {
    if kept == [] {
      assert fs + [] == fs && OnlyCommands(fs) + [] == OnlyCommands(fs);
    } else {
      OnlyCommandsSnoc(fs, kept);
    }
  }

  lemma HeardStep(init: seq<MoteWire.Tagged>, t: MoteWire.Tagged, verbose: int)
    requires MoteWire.Frames(Heard(init, verbose)) == OnlyCommands(SerialInput.Lefts(MoteWire.Frames(init), verbose))
    ensures MoteWire.Frames(Heard(init + [t], verbose))
         == OnlyCommands(SerialInput.Lefts(MoteWire.Frames(init + [t]), verbose))
  {
    hide *;
    var kept, fs := SerialInput.Left(t.f, verbose), MoteWire.Frames(init);
    HeardSnoc(init, t, verbose);
    TaggedSnoc(init, t);
    SerialInput.LeftsSnoc(fs, t.f, verbose);
    DeliveredCommand(SerialInput.Lefts(fs, verbose), kept);
    if kept != [] && kept[0] == BANG {
      TaggedSnoc(Heard(init, verbose), MoteWire.Tagged(kept, t.own));
    } else {
      assert Heard(init, verbose) + [] == Heard(init, verbose);
      assert MoteWire.Frames(Heard(init, verbose)) + [] == MoteWire.Frames(Heard(init, verbose));
    }
  }

  lemma {:induction false} TaggedAt(ts: seq<MoteWire.Tagged>, i: nat)
    requires i < |ts|
    ensures |MoteWire.Frames(ts)| == |ts| && MoteWire.Frames(ts)[i] == ts[i].f
  {
    if |ts| > 1 {
      TaggedAt(ts[..|ts| - 1], if i < |ts| - 1 then i else 0);
    } else {
      assert ts[..0] == [];
    }
  }

  /** When the host has read everything, these are the commands it was given. */
  lemma AllHeard(calls: seq<MoteWire.Call>, own: seq<bool>, verbose: int)
    ensures CommandsIn(SerialInput.Receive(SerialInput.FRESH, MoteWire.Wire(calls), verbose).events)
         == MoteWire.Frames(Heard(MoteWire.Arrived(calls, own), verbose))
  {
    hide SerialInput.Receive, SerialInput.Lefts, Decode, MoteWire.Wire, MoteWire.Arrived, Heard,
      MoteWire.Frames, OnlyCommands, CommandsIn;
    MoteWire.ArrivedFrames(calls, own);
    HeardFrames(MoteWire.Arrived(calls, own), verbose);
    SerialInput.BoundedRefinesDecoder(MoteWire.Wire(calls), verbose);
    CommandsOfFrames(MoteWire.Wire(calls), verbose);
  }

  /** The commands on a stretch of the wire. */
  function CommandsOn(s: seq<byte>, verbose: int): seq<seq<byte>> {
    CommandsIn(SerialInput.Receive(SerialInput.FRESH, s, verbose).events)
  }

  /** A prefix of the bytes yields a prefix of the commands, and all bytes all of them. */
  lemma SomeHeard(calls: seq<MoteWire.Call>, own: seq<bool>, n: nat, verbose: int)
    requires n <= |MoteWire.Wire(calls)|
    ensures var all := MoteWire.Frames(Heard(MoteWire.Arrived(calls, own), verbose));
      && CommandsOn(MoteWire.Wire(calls)[..n], verbose) <= all
      && (n == |MoteWire.Wire(calls)| ==> CommandsOn(MoteWire.Wire(calls)[..n], verbose) == all)
  {
    hide SerialInput.Receive, CommandsIn, MoteWire.Wire, MoteWire.Arrived, Heard, MoteWire.Frames;
    var wire := MoteWire.Wire(calls);
    AllHeard(calls, own, verbose);
    EventsGrow(wire, n, verbose);
    CommandsPrefix(SerialInput.Receive(SerialInput.FRESH, wire[..n], verbose).events,
                   SerialInput.Receive(SerialInput.FRESH, wire, verbose).events);
    if n == |wire| {
      assert wire[..n] == wire;
    }
  }

  lemma {:induction false} EventsGrow(s: seq<byte>, n: nat, verbose: int)
    requires n <= |s|
    ensures SerialInput.Receive(SerialInput.FRESH, s[..n], verbose).events
         <= SerialInput.Receive(SerialInput.FRESH, s, verbose).events
  {
    hide SerialInput.Sensible;
    if n == |s| {
      assert s[..n] == s;
    } else {
      var init := s[..|s| - 1];
      EventsGrow(init, n, verbose);
      assert init[..n] == s[..n];
    }
  }

  lemma {:induction false} CommandsPrefix(a: seq<SerialInput.Event>, b: seq<SerialInput.Event>)
    requires a <= b
    ensures CommandsIn(a) <= CommandsIn(b)
  {
    if |a| == |b| {
      assert a == b;
    } else {
      assert a <= b[..|b| - 1];
      CommandsPrefix(a, b[..|b| - 1]);
    }
  }

  lemma {:induction false} OwnPrefix(ts: seq<MoteWire.Tagged>, n: nat)
    requires n <= |ts|
    ensures MoteWire.Own(ts[..n]) <= MoteWire.Own(ts)
  {
    assert ts == ts[..n] + ts[n..];
    MoteWire.TaggedConcat(ts[..n], ts[n..]);
  }

  lemma OwnNext(ts: seq<MoteWire.Tagged>, n: nat)
    requires n < |ts|
    ensures MoteWire.Own(ts[..n + 1]) == MoteWire.Own(ts[..n]) + if ts[n].own then [ts[n].f] else []
  {
    assert ts[..n + 1][..n] == ts[..n];
  }

  lemma {:induction false} HeardForeign(ts: seq<MoteWire.Tagged>, verbose: int)
    requires forall t | t in ts :: !t.own
    ensures MoteWire.Own(Heard(ts, verbose)) == [] && forall t | t in Heard(ts, verbose) :: !t.own
  {
    if ts != [] {
      hide SerialInput.Left;
      var init, t := ts[..|ts| - 1], ts[|ts| - 1];
      assert t in ts && forall x | x in init :: x in ts;
      HeardForeign(init, verbose);
      var last := Heard(ts, verbose)[|Heard(init, verbose)|..];
      assert Heard(ts, verbose) == Heard(init, verbose) + last;
      MoteWire.TaggedConcat(Heard(init, verbose), last);
      assert last != [] ==> last[..0] == [];
    }
  }

  /** One more call of the mote that is no report of its own. */
  lemma HeardOther(calls: seq<MoteWire.Call>, own: seq<bool>, call: MoteWire.Call, verbose: int)
    requires |own| == |calls|
    ensures var a := Heard(MoteWire.Arrived(calls, own), verbose);
      var b := Heard(MoteWire.Arrived(calls + [call], own + [false]), verbose);
      a <= b && MoteWire.Own(b) == MoteWire.Own(a)
  {
    var d, open := MoteWire.Decoded(calls), MoteWire.LineOpen(calls);
    var more := MoteWire.Completed(d, open, call, false);
    assert forall t | t in more :: !t.own by {
      match call
      case Put(c) => MoteWire.ForeignFrames(Decode(d.(frames := []), MoteWire.PutBytes(open, c)).frames);
      case Send(p) => MoteWire.ForeignFrames(Deliver(d.acc));
    }
    hide *;
    MoteWire.ArrivedSnoc(calls, own, call, false);
    var before := MoteWire.Arrived(calls, own);
    HeardConcat(before, more, verbose);
    HeardForeign(more, verbose);
    MoteWire.TaggedConcat(Heard(before, verbose), Heard(more, verbose));
    assert MoteWire.Own(Heard(before, verbose)) + [] == MoteWire.Own(Heard(before, verbose));
  }

  /** A command that the host does not echo away. */
  lemma HeardAsSent(p: seq<byte>, own: bool, verbose: int)
    requires p != [] && p[0] == BANG && SerialInput.Left(p, verbose) == p
    ensures Heard([MoteWire.Tagged(p, own)], verbose) == [MoteWire.Tagged(p, own)]
    ensures MoteWire.Own([MoteWire.Tagged(p, own)]) == if own then [p] else []
  {
    hide SerialInput.Left;
    var one := [MoteWire.Tagged(p, own)];
    assert one[..0] == [] && Heard([], verbose) == [];
    assert Heard(one, verbose) == Heard([], verbose) + one;
  }

  lemma PacketCompleted(d: Decoder, open: bool, p: seq<byte>, own: bool)
    requires !d.esc && p != []
    ensures MoteWire.Completed(d, open, MoteWire.Send(p), own)
         == MoteWire.Foreign(Deliver(d.acc)) + [MoteWire.Tagged(p, own)]
  {}

  /** A report of its own, unless an escape is open or the host echoes it away. */
  lemma HeardReport(calls: seq<MoteWire.Call>, own: seq<bool>, p: seq<byte>, verbose: int)
    requires |own| == |calls| && !MoteWire.EscOpen(calls)
    requires p != [] && p[0] == BANG && SerialInput.Left(p, verbose) == p
    ensures var a := Heard(MoteWire.Arrived(calls, own), verbose);
      var b := Heard(MoteWire.Arrived(calls + [MoteWire.Send(p)], own + [true]), verbose);
      a <= b && MoteWire.Own(b) == MoteWire.Own(a) + [p]
  {
    hide *;
    var d := MoteWire.Decoded(calls);
    var text, one, before := MoteWire.Foreign(Deliver(d.acc)), [MoteWire.Tagged(p, true)], MoteWire.Arrived(calls, own);
    MoteWire.EscOpenIsExact(calls);
    PacketCompleted(d, MoteWire.LineOpen(calls), p, true);
    MoteWire.ForeignFrames(Deliver(d.acc));
    HeardAsSent(p, true, verbose);
    MoteWire.ArrivedSnoc(calls, own, MoteWire.Send(p), true);
    assert before + (text + one) == (before + text) + one;
    HeardConcat(before + text, one, verbose);
    HeardConcat(before, text, verbose);
    HeardForeign(text, verbose);
    MoteWire.TaggedConcat(Heard(before, verbose), Heard(text, verbose));
    MoteWire.TaggedConcat(Heard(before, verbose) + Heard(text, verbose), one);
    assert MoteWire.Own(Heard(before, verbose)) + [] == MoteWire.Own(Heard(before, verbose));
  }

  // ---------------------------------------------------------------- callbacks

  /** The driver's callback for what the protocol found in a slot. */
  function CallbackOf(found: Option<nat>, registered: seq<BridgeRdc.TxCallback>): BridgeRdc.TxCallback {
    if found.Some? && found.value < |registered| then registered[found.value] else BridgeRdc.Unset
  }

  /** The calls made are those of the protocol. */
  ghost predicate CallsOk(vs: seq<Invocation>, registered: seq<BridgeRdc.TxCallback>, calls: seq<BridgeRdc.SentCall>) {
    && |calls| == |vs|
    && forall i | 0 <= i < |vs| ::
         && (vs[i].callback.Some? ==> vs[i].callback.value < |registered|)
         && calls[i] == BridgeRdc.SentCall(CallbackOf(vs[i].callback, registered), vs[i].status, vs[i].tx)
  }

  lemma CallsRegister(vs: seq<Invocation>, registered: seq<BridgeRdc.TxCallback>, calls: seq<BridgeRdc.SentCall>,
                      c: BridgeRdc.TxCallback)
    requires CallsOk(vs, registered, calls)
    ensures CallsOk(vs, registered + [c], calls)
  {}

  lemma CallsHandle(w: World, registered: seq<BridgeRdc.TxCallback>, calls: seq<BridgeRdc.SentCall>,
                    call: BridgeRdc.SentCall)
    requires Shape(w) && HostOk(w) && w.up != [] && |registered| == w.sent
    requires CallsOk(w.invoked, registered, calls)
    requires w.up[0].sid as nat < SLOTS && call.status == w.up[0].status && call.tx == w.up[0].tx
    requires call.callback == if w.up[0].sid as nat < |registered|
                              then registered[Latest(|registered|, w.up[0].sid as nat)] else BridgeRdc.Unset
    ensures CallsOk(DoHandle(w).invoked, registered, calls + [call])
  {
    var u := w.up[0];
    assert w.host.slots[u.sid] == if u.sid as nat < w.sent then Some(Latest(w.sent, u.sid as nat)) else None;
  }
}
