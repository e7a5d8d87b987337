/** The machine of TwoNodes.dfy carried out by the code of both nodes: the driver and its transmit buffer, the
    mote's command handler and radio callback, its UART, and the host's receiver and command handler. */
module SessionRun {
  import opened SlipCodec
  import opened CommandLetters
  import opened Options
  import opened SessionRings
  import opened SessionLinks
  import opened TwoNodes
  import SessionProtocol
  import TransmitLink
  import SlipQueue
  import SerialInput
  import ReceiverTheorems
  import MoteWire
  import BridgeRdc
  import MoteRadio
  import Commands

  class Pair {
    const rdc: BridgeRdc.Rdc
    const radio: MoteRadio.Radio
    const uart: MoteWire.Uart
    const port: SerialInput.SerialPort
    const handler: Commands.Handler
    const lladdr: seq<byte>

    /** The mote's SLIP input, and how many of its frames the command handler has seen. */
    var inbox: Decoder
    var taken: nat
    /** The packets that the radio works on. */
    var jobs: seq<MoteRadio.Transmission>
    /** How many bytes from the mote the host has read, and how many of the receiver's calls it has
        carried out. */
    var read: nat
    var seen: nat
    /** The commands given to the host's handler, and the calls made by packet_sent. */
    var given: seq<Given>
    var calls: seq<HostCall>

    ghost var state: State

    ghost function Cfg(): Config {
      Config(rdc.bufSize, rdc.slip.sendDelay, radio.packetbufSize, port.verbose)
    }

    ghost predicate Separate() {
      && rdc.callbacks as object != rdc.slip.slipBuf && rdc.slip.slipBuf != radio.packetIds
      && rdc.callbacks as object != radio.packetIds && rdc.callbacks as object != port.inbuf
      && rdc.slip.slipBuf != port.inbuf && radio.packetIds != port.inbuf
      && |lladdr| == 8
    }

    ghost predicate DriverIs(registered: seq<BridgeRdc.TxCallback>, queue: TransmitLink.Queue,
                             timer: TransmitLink.Timer)
      reads rdc, rdc.callbacks, rdc.slip, rdc.slip.slipBuf
    {
      && rdc.Valid() && rdc.LinkValid()
      && rdc.registered == registered && rdc.slip.queue == queue && rdc.slip.timer == timer
    }

    ghost predicate RadioIs(ids: Ring<byte>)
      reads radio, radio.packetIds
    {
      radio.Valid() && radio.Ids() == ids
    }

    ghost predicate UartIs(wired: seq<MoteWire.Call>)
      reads uart
    {
      uart.Valid() && uart.calls == wired
    }

    /** The receiver has read so many bytes of this wire. */
    ghost predicate PortIs(wire: seq<byte>, read: nat)
      reads port, port.inbuf
    {
      && port.Valid() && read <= |wire|
      && port.State() == SerialInput.Receive(SerialInput.FRESH, wire[..read], port.verbose)
    }

    /** Everything that the two nodes have stored is as in `s`. */
    ghost predicate Holds(s: State)
      reads this`inbox, this`taken, this`jobs, this`read, this`given, this`calls, rdc, rdc.callbacks, rdc.slip,
        rdc.slip.slipBuf, radio, radio.packetIds, uart, port, port.inbuf
    {
      && DriverIs(s.registered, s.queue, s.timer) && RadioIs(s.ids) && UartIs(s.wired)
      && PortIs(MoteWire.Wire(s.wired), s.read)
      && inbox == s.inbox && taken == s.taken && jobs == s.jobs
      && read == s.read && given == s.given && calls == s.calls
    }

    ghost predicate Valid()
      reads this, rdc, rdc.callbacks, rdc.slip, rdc.slip.slipBuf, radio, radio.packetIds, uart, port, port.inbuf
    {
      Separate() && Holds(state) && seen == |port.events| && Inv(Cfg(), state) && TransmitLink.OffsetOk(state.queue)
    }

    ghost function Objects(): set<object> {
      {this, rdc, rdc.callbacks, rdc.slip, rdc.slip.slipBuf, radio, radio.packetIds, uart, port, port.inbuf, handler}
    }

    /** Both nodes before anything has happened. */
    constructor (rdc: BridgeRdc.Rdc, radio: MoteRadio.Radio, uart: MoteWire.Uart, port: SerialInput.SerialPort,
                 lladdr: seq<byte>, ghost now: int)
      requires rdc.callbacks as object != rdc.slip.slipBuf && rdc.slip.slipBuf != radio.packetIds
      requires rdc.callbacks as object != radio.packetIds && rdc.callbacks as object != port.inbuf
      requires rdc.slip.slipBuf != port.inbuf && radio.packetIds != port.inbuf && |lladdr| == 8
      requires rdc.Valid() && rdc.LinkValid() && rdc.registered == []
      requires rdc.slip.queue == TransmitLink.BOOT && rdc.slip.timer == TransmitLink.Timer(now, 0)
      requires radio.Valid() && radio.Ids() == Ring(0, seq(SLOTS, _ => 0))
      requires uart.Valid() && uart.calls == []
      requires port.Valid() && port.State() == SerialInput.FRESH
      ensures Valid() && state == Begin(now, port.verbose)
      ensures this.rdc == rdc && this.radio == radio && this.uart == uart && this.port == port && fresh(handler)
    {
      hide BridgeRdc.Rdc.Valid, BridgeRdc.Rdc.LinkValid, MoteWire.Uart.Valid, MoteRadio.Radio.Valid, Inv, MoteWire.Wire,
        SerialInput.Receive;
      this.rdc, this.radio, this.uart, this.port, this.lladdr := rdc, radio, uart, port, lladdr;
      handler := new Commands.Handler();
      inbox, taken, jobs, read, seen, given, calls := IDLE, 0, [], 0, 0, [], [];
      state := Begin(now, port.verbose);
      new;
      BeginKeeps(Cfg(), now);
      NothingRead(port.verbose);
    }

    lemma Unfold()
      requires Valid()
      ensures Separate() && Inv(Cfg(), state) && TransmitLink.OffsetOk(state.queue) && seen == |port.events|
      ensures DriverIs(state.registered, state.queue, state.timer) && RadioIs(state.ids) && UartIs(state.wired)
      ensures PortIs(MoteWire.Wire(state.wired), state.read)
      ensures inbox == state.inbox && taken == state.taken && jobs == state.jobs
      ensures read == state.read && given == state.given && calls == state.calls
    {
      hide Inv, DriverIs, RadioIs, UartIs, PortIs, MoteWire.Wire, TransmitLink.OffsetOk;
    }

    lemma Refold()
      requires Separate() && Inv(Cfg(), state) && TransmitLink.OffsetOk(state.queue) && seen == |port.events|
      requires DriverIs(state.registered, state.queue, state.timer) && RadioIs(state.ids) && UartIs(state.wired)
      requires PortIs(MoteWire.Wire(state.wired), state.read)
      requires inbox == state.inbox && taken == state.taken && jobs == state.jobs
      requires read == state.read && given == state.given && calls == state.calls
      ensures Valid()
    {
      hide Inv, DriverIs, RadioIs, UartIs, PortIs, MoteWire.Wire, TransmitLink.OffsetOk;
    }

    /** The model makes the same move. */
    ghost method Follow(m: Move)
      requires TransmitLink.OffsetOk(state.queue) && Inv(Cfg(), state) && Do(Cfg(), state, m).Some?
      modifies this`state
      ensures state == Do(Cfg(), old(state), m).value
      ensures Inv(Cfg(), state) && TransmitLink.OffsetOk(state.queue)
    {
      DoKeeps(Cfg(), state, m);
      state := Do(Cfg(), state, m).value;
    }

    /** A packet is sent: refused at once, or registered and queued, or the transmit buffer overflows, which
        ends the program. */
    method Send(cback: int, ptr: int, attrs: seq<byte>, framed: bool, atts: Option<seq<byte>>, payload: seq<byte>)
      returns (result: BridgeRdc.SendResult)
      requires Valid() && (atts.Some? ==> |atts.value| <= rdc.bufSize - 3)
      modifies this`state, rdc, rdc.callbacks, rdc.slip, rdc.slip.slipBuf
      ensures var next := Do(Cfg(), old(state), TwoNodes.Send(cback, ptr, attrs, framed, atts, payload));
        && (result.Overflow? <==> next.None?)
        && (next.Some? ==> Valid() && state == next.value)
      ensures result.FatalCallback? <==> !Accepted(Cfg(), framed, atts, payload)
      ensures !result.FatalCallback? ==> result.sid as nat == |old(state).packets| % SLOTS
    {
      hide Inv, Do, DoSend, DriverIs, RadioIs, UartIs, PortIs, TransmitLink.OffsetOk, MoteWire.Wire, Accepted, Holds,
        Valid;
      Unfold();
      ghost var s, m := state, TwoNodes.Send(cback, ptr, attrs, framed, atts, payload);
      Counted(Cfg(), s);
      SendRest(Cfg(), s, m);
      result := SendDown(cback, ptr, attrs, framed, atts, payload, s);
      if !result.Overflow? {
        Follow(m);
        Refold();
      }
    }

    method SendDown(cback: int, ptr: int, attrs: seq<byte>, framed: bool, atts: Option<seq<byte>>, payload: seq<byte>,
                    ghost s: State)
      returns (result: BridgeRdc.SendResult)
      requires Separate() && DriverIs(s.registered, s.queue, s.timer) && |s.packets| == |s.registered|
      requires atts.Some? ==> |atts.value| <= rdc.bufSize - 3
      modifies rdc, rdc.callbacks, rdc.slip, rdc.slip.slipBuf
      ensures var next := DoSend(Cfg(), s, BridgeRdc.TxCallback(cback, ptr, attrs), framed, atts, payload);
        && (result.Overflow? <==> next.None?)
        && (next.Some? ==> DriverIs(next.value.registered, next.value.queue, next.value.timer))
      ensures result.FatalCallback? <==> !Accepted(Cfg(), framed, atts, payload)
      ensures !result.FatalCallback? ==> result.sid as nat == |s.packets| % SLOTS
    {
      hide BridgeRdc.Rdc.Valid, BridgeRdc.Rdc.LinkValid, TransmitLink.Fits, BridgeRdc.SessionFrame, TransmitLink.Push;
      DriverUnfolds(s.registered, s.queue, s.timer);
      result := rdc.SendPacket(cback, ptr, attrs, framed, atts, payload, 1);
      if !result.FatalCallback? {
        ghost var packets := s.packets + [Sent(atts.value, payload)];
        assert FrameOf(packets, |s.packets|) == BridgeRdc.SessionFrame(result.sid, atts.value, payload);
      }
    }

    lemma DriverUnfolds(registered: seq<BridgeRdc.TxCallback>, queue: TransmitLink.Queue, timer: TransmitLink.Timer)
      requires DriverIs(registered, queue, timer)
      ensures rdc.Valid() && rdc.LinkValid()
    {}

    /** The select loop looks at the serial line, and the mote reads what is written. False if the program
        ended. */
    method Flush(result: TransmitLink.WriteResult, checked: int, lag: nat) returns (running: bool)
      requires Valid()
      modifies this`state, this`inbox, rdc.slip, rdc.slip.slipBuf
      ensures var next := Do(Cfg(), old(state), TwoNodes.Flush(result, checked, lag));
        running == next.Some? && (running ==> Valid() && state == next.value)
    {
      hide Inv, Do, DriverIs, RadioIs, UartIs, PortIs, TransmitLink.OffsetOk, TransmitLink.Apply, Decode,
        MoteWire.Wire, Behind, Holds, Valid;
      Unfold();
      ghost var s, m := state, TwoNodes.Flush(result, checked, lag);
      QueueLong(Cfg(), s);
      FlushRest(Cfg(), s, result, checked, lag);
      var chunk;
      running, chunk := FlushDown(result, checked, lag, s);
      inbox := Decode(inbox, chunk);
      if running {
        Follow(m);
        Refold();
      }
    }

    method FlushDown(result: TransmitLink.WriteResult, checked: int, lag: nat, ghost s: State)
      returns (running: bool, chunk: seq<byte>)
      requires Separate() && DriverIs(s.registered, s.queue, s.timer) && TransmitLink.OffsetOk(s.queue)
      requires forall f | f in s.queue.packets :: |f| >= 2
      modifies rdc.slip, rdc.slip.slipBuf
      ensures var l := TransmitLink.Apply(TransmitLink.Link(s.queue, s.timer, checked, [], false), rdc.slip.sendDelay,
                                          TransmitLink.Round(0, lag, result));
        && running == !l.halted
        && (running ==> DriverIs(s.registered, l.queue, l.timer) && chunk == Behind(l.queue.wire, |s.queue.wire|))
    {
      hide BridgeRdc.Rdc.Valid, TransmitLink.Apply, SlipQueue.BringsLoneEnd, TransmitLink.Consistent,
        TransmitLink.Flatten;
      ghost var l := TransmitLink.Link(s.queue, s.timer, checked, [], false);
      ghost var step := TransmitLink.Round(0, lag, result);
      SmoothRound(l, rdc.slip.sendDelay, step);
      var halted, now;
      halted, now, chunk := SlipQueue.GoRound(rdc.slip, checked, 0, lag, result, l, true);
      running := !halted;
    }

    /** The mote's command handler sees the next frame of its SLIP input; `buffer` is what its buffer
        still holds behind it. */
    method Receive(attsLen: int, buffer: seq<byte>)
      requires Valid() && taken < |inbox.frames| && |buffer| >= 3
      requires attsLen < 0 || attsLen + 3 <= |inbox.frames[taken]|
      modifies this`state, this`taken, this`jobs, radio, radio.packetIds
      ensures Valid() && Do(Cfg(), old(state), TwoNodes.Receive(attsLen, buffer)) == Some(state)
    {
      hide Inv, Do, DoReceive, DriverIs, RadioIs, UartIs, PortIs, TransmitLink.OffsetOk, MoteWire.Wire, Starts, Holds,
        Valid;
      Unfold();
      ghost var s, m := state, TwoNodes.Receive(attsLen, buffer);
      NextFrameLong(Cfg(), s);
      ReceiveRest(Cfg(), s, attsLen, buffer);
      var f := inbox.frames[taken];
      taken := taken + 1;
      GiveToRadio(f, buffer, attsLen, s);
      Follow(m);
      Refold();
    }

    method GiveToRadio(f: seq<byte>, buffer: seq<byte>, attsLen: int, ghost s: State)
      requires RadioIs(s.ids) && jobs == s.jobs && |buffer| >= 3
      requires s.taken < |s.inbox.frames| && f == s.inbox.frames[s.taken]
      requires |f| >= 2 && (Starts(f, CHAR_S) ==> |f| >= 3)
      requires attsLen < 0 || attsLen + 3 <= |f|
      modifies this`jobs, radio, radio.packetIds
      ensures RadioIs(DoReceive(Cfg(), s, attsLen).ids) && jobs == DoReceive(Cfg(), s, attsLen).jobs
    {
      hide MoteRadio.Cut;
      var handled, sent := radio.CmdHandler(f + buffer, |f|, attsLen);
      if sent.Some? {
        assert (f + buffer)[3 + attsLen..|f|] == f[3 + attsLen..];
        jobs := jobs + [sent.value];
      } else {
        assert s.jobs + [] == s.jobs;
      }
    }

    /** The radio is done with one of its packets, and the mote reports: the report arrives as one, or it is
        lost. */
    method Complete(which: nat, status: int, tx: int)
      requires Valid() && which < |jobs|
      modifies this`state, this`jobs, uart
      ensures Valid() && Do(Cfg(), old(state), TwoNodes.Complete(which, status, tx)) == Some(state)
    {
      hide Inv, Do, DoComplete, DriverIs, RadioIs, UartIs, PortIs, TransmitLink.OffsetOk, MoteRadio.ReportFrame,
        MoteWire.Wire, Holds, Valid;
      Unfold();
      ghost var s, m := state, TwoNodes.Complete(which, status, tx);
      SlotsKnown(Cfg(), s);
      UartUnfolds(s.wired);
      CompleteRest(Cfg(), s, which, status, tx);
      var report := EndJob(which, status, tx, s);
      jobs := jobs[..which] + jobs[which + 1..];
      PassUp(report, s.wired, s.read);
      Follow(m);
      Refold();
    }

    method EndJob(which: nat, status: int, tx: int, ghost s: State) returns (report: seq<byte>)
      requires RadioIs(s.ids) && jobs == s.jobs && which < |s.jobs| && s.jobs[which].slot < SLOTS
      ensures s.jobs[which].slot < |s.ids.slots| && |report| == 5
      ensures report == MoteRadio.ReportFrame(s.ids.slots[s.jobs[which].slot], Low8(status), Low8(tx))
    {
      report := radio.PacketSent(jobs[which].slot, status, tx);
    }

    method PassUp(p: seq<byte>, ghost wired: seq<MoteWire.Call>, ghost n: nat)
      requires UartIs(wired) && PortIs(MoteWire.Wire(wired), n) && |p| < 0x10000
      modifies uart
      ensures UartIs(wired + [MoteWire.Send(p)]) && PortIs(MoteWire.Wire(wired + [MoteWire.Send(p)]), n)
    {
      hide SerialInput.Receive, MoteWire.Wire, MoteEncode;
      uart.SendPacket(p);
      WireGrows(wired, MoteWire.Send(p), n);
    }

    /** The mote passes on what the radio received, whatever it is. */
    method Forward(p: seq<byte>)
      requires Valid() && |p| < 0x10000
      modifies this`state, uart
      ensures Valid() && Do(Cfg(), old(state), TwoNodes.Forward(p)) == Some(state)
    {
      hide Inv, Do, DoOther, DriverIs, RadioIs, UartIs, PortIs, TransmitLink.OffsetOk, MoteWire.Wire, Holds, Valid;
      Unfold();
      ghost var s := state;
      OtherRest(Cfg(), s, TwoNodes.Forward(p), MoteWire.Send(p));
      PassUp(p, s.wired, s.read);
      Follow(TwoNodes.Forward(p));
      Refold();
    }

    /** The mote prints a character. */
    method Print(c: int)
      requires Valid()
      modifies this`state, uart
      ensures Valid() && Do(Cfg(), old(state), TwoNodes.Put(c)) == Some(state)
    {
      hide Inv, Do, DoOther, DriverIs, RadioIs, UartIs, PortIs, TransmitLink.OffsetOk, MoteWire.Wire, Holds, Valid;
      Unfold();
      ghost var s := state;
      OtherRest(Cfg(), s, TwoNodes.Put(c), MoteWire.Put(c));
      PrintUp(c, s.wired, s.read);
      Follow(TwoNodes.Put(c));
      Refold();
    }

    method PrintUp(c: int, ghost wired: seq<MoteWire.Call>, ghost n: nat)
      requires UartIs(wired) && PortIs(MoteWire.Wire(wired), n)
      modifies uart
      ensures UartIs(wired + [MoteWire.Put(c)]) && PortIs(MoteWire.Wire(wired + [MoteWire.Put(c)]), n)
    {
      hide SerialInput.Receive, MoteWire.Wire, MoteWire.PutBytes;
      uart.PutChar(c);
      WireGrows(wired, MoteWire.Put(c), n);
    }

    lemma UartUnfolds(wired: seq<MoteWire.Call>)
      requires UartIs(wired)
      ensures uart.calls == wired && uart.wire == MoteWire.Wire(wired)
    {
      hide MoteWire.Wire, MoteWire.LineOpen;
    }

    /** The host reads n more bytes and carries out the calls that they lead to. A callback that sends
        at once is a Send between two chunks: however the stream is cut, the calls are the same. */
    method HostReads(n: nat, stale: seq<byte>)
      requires Valid() && 1 <= n <= |uart.wire| - read && |stale| >= 10
      modifies this`state, this`read, this`seen, this`given, this`calls, port, port.inbuf, handler
      ensures Valid() && Do(Cfg(), old(state), TwoNodes.HostReads(n, stale)) == Some(state)
    {
      hide Inv, Do, DoRead, DriverIs, RadioIs, UartIs, PortIs, TransmitLink.OffsetOk, MoteWire.Wire, Holds, Valid,
        Hear1, HearAll, CommandsOn, ReceiverTheorems.CommandsIn, SerialInput.Receive, CallFor;
      Unfold();
      ghost var s := state;
      UartUnfolds(s.wired);
      ghost var bytes := MoteWire.Wire(s.wired)[..s.read + n];
      ghost var cmds := CommandsOn(bytes, port.verbose);
      ghost var cur := s.(read := s.read + n);
      GivenSoFar(s.wired, s.read);
      ReadUp(n, s.wired, s.read);
      ReadRest(Cfg(), s, n, stale);
      while seen < |port.events|
        modifies this`seen, this`given, this`calls, handler
        invariant seen <= |port.events| && given == cur.given && calls == cur.calls
        invariant cur == s.(read := s.read + n, given := cur.given, calls := cur.calls, steps := cur.steps)
        invariant |given| == |ReceiverTheorems.CommandsIn(port.events[..seen])|
        invariant HearAll(cur, cmds, stale) == HearAll(s.(read := s.read + n), cmds, stale)
      {
        var e := port.events[seen];
        PortUnfolds(s.wired, s.read + n);
        CommandAt(bytes, port.verbose, seen);
        if e.Command? {
          HearNext(cur, cmds, stale);
          GiveCommand(e.f, stale, s.registered, s.queue, s.timer);
          cur := Hear1(cur, e.f, stale);
        }
        seen := seen + 1;
      }
      PortUnfolds(s.wired, s.read + n);
      assert port.events[..seen] == port.events;
      HearDone(cur, cmds, stale);
      Follow(TwoNodes.HostReads(n, stale));
      Refold();
    }

    lemma PortUnfolds(wired: seq<MoteWire.Call>, n: nat)
      requires PortIs(MoteWire.Wire(wired), n)
      ensures n <= |MoteWire.Wire(wired)|
      ensures port.events == SerialInput.Receive(SerialInput.FRESH, MoteWire.Wire(wired)[..n], port.verbose).events
      ensures ReceiverTheorems.CommandsIn(port.events) == CommandsOn(MoteWire.Wire(wired)[..n], port.verbose)
    {
      hide MoteWire.Wire, SerialInput.Receive, ReceiverTheorems.CommandsIn;
    }

    /** All commands received so far have been given. */
    lemma GivenSoFar(wired: seq<MoteWire.Call>, n: nat)
      requires PortIs(MoteWire.Wire(wired), n) && Inv(Cfg(), state) && state.wired == wired && state.read == n
      ensures |state.given| == |ReceiverTheorems.CommandsIn(port.events)|
    {
      hide MoteWire.Wire, SerialInput.Receive, ReceiverTheorems.CommandsIn, DownInv, AirInv, UpInv, CallInv,
        SessionProtocol.Run;
      PortUnfolds(wired, n);
    }

    method ReadUp(n: nat, ghost wired: seq<MoteWire.Call>, ghost before: nat)
      requires UartIs(wired) && PortIs(MoteWire.Wire(wired), before) && read == before
      requires seen == |port.events| && 1 <= n <= |uart.wire| - read
      modifies this`read, port, port.inbuf
      ensures PortIs(MoteWire.Wire(wired), before + n) && read == before + n
      ensures seen <= |port.events| && port.events[..seen] == old(port.events)
    {
      hide SerialInput.Receive, MoteWire.Wire, MoteWire.LineOpen;
      ghost var wire := MoteWire.Wire(wired);
      var ok := port.HandleReadable(uart.wire[read..read + n]);
      assert wire[..before] + wire[before..before + n] == wire[..before + n];
      SerialInput.ReceiveConcat(SerialInput.FRESH, wire[..before], wire[before..before + n], port.verbose);
      EventsGrow(wire[..before + n], before, port.verbose);
      assert wire[..before + n][..before] == wire[..before];
      read := read + n;
    }

    /** The END branch of serial_input calls the command handler, and that packet_sent. */
    method GiveCommand(f: seq<byte>, stale: seq<byte>, ghost registered: seq<BridgeRdc.TxCallback>,
                       ghost queue: TransmitLink.Queue, ghost timer: TransmitLink.Timer)
      requires Separate() && DriverIs(registered, queue, timer) && f != [] && f[0] == BANG && |stale| >= 10
      modifies this`given, this`calls, handler
      ensures given == old(given) + [Given(f, stale)]
      ensures calls == old(calls) + CallFor(Given(f, stale), |old(given)|, registered)
    {
      hide BridgeRdc.Rdc.LinkValid;
      handler.commandContext := Commands.CONTEXT_RADIO;
      var action := handler.CmdHandler(f + stale, |f|, lladdr);
      ghost var before := calls;
      if action.Report? {
        var call := rdc.PacketSent(action.sid, action.status, action.tx);
        if call.Some? {
          calls := calls + [HostCall(|given|, call.value)];
        }
      }
      assert before + [] == before;
      given := given + [Given(f, stale)];
    }

    /** A line typed at the host's terminal: whatever it says, it never reaches packet_sent, the MAC address or
        the sensors; at most it joins the queue to the mote. */
    method Stdin(line: seq<byte>, stale: seq<byte>) returns (running: bool, action: Commands.Action)
      requires Valid() && 0 !in line && |stale| >= 10
      modifies this`state, handler, rdc.slip, rdc.slip.slipBuf
      ensures var next := Do(Cfg(), old(state), TwoNodes.Stdin(line, stale));
        running == next.Some? && (running ==> Valid() && state == next.value)
      ensures !action.Report? && !action.SetMac? && !action.SetSensors?
    {
      hide Inv, Do, DoStdin, DriverIs, RadioIs, UartIs, PortIs, TransmitLink.OffsetOk, MoteWire.Wire, Holds, Valid,
        TransmitLink.Fits;
      Unfold();
      ghost var s, m := state, TwoNodes.Stdin(line, stale);
      StdinRest(Cfg(), s, line, stale);
      running := true;
      handler.commandContext := Commands.CONTEXT_STDIO;
      var data := line + [0] + stale;
      action := handler.CmdHandler(data, |line|, lladdr);
      TypedLine(line, stale);
      if action.Forward? {
        assert action.data == line;
        running := QueueDown(line, s);
      }
      if running {
        Follow(m);
        Refold();
      }
    }

    method QueueDown(p: seq<byte>, ghost s: State) returns (ok: bool)
      requires Separate() && DriverIs(s.registered, s.queue, s.timer)
      modifies rdc.slip, rdc.slip.slipBuf
      ensures ok <==> TransmitLink.Fits(s.queue, p)
      ensures ok ==> DriverIs(s.registered, TransmitLink.Push(s.queue, p), s.timer)
    {
      hide BridgeRdc.Rdc.Valid, TransmitLink.Consistent, TransmitLink.Flatten, Encode, TransmitLink.Fits,
        TransmitLink.Push;
      ok := rdc.slip.WriteToSlip(1, p);
    }
  }

  /** The `strlen` bytes of the line are forwarded when it is a `?C` request. */
  lemma TypedLine(line: seq<byte>, stale: seq<byte>)
    requires 0 !in line
    ensures var data := line + [0] + stale;
      && data[..|line|] == line
      && (|data| >= 2 && data[0] == QUERY && data[1] == CHAR_C <==> Forwarded(line))
  {
    var data := line + [0] + stale;
    if |line| >= 1 { assert data[0] == line[0]; }
    if |line| >= 2 { assert data[1] == line[1]; }
    if |line| < 2 { assert data[|line|] == 0; }
  }

  /** The next event of the receiver, as far as commands go. */
  lemma CommandAt(bytes: seq<byte>, verbose: int, seen: nat)
    requires seen < |SerialInput.Receive(SerialInput.FRESH, bytes, verbose).events|
    ensures var events := SerialInput.Receive(SerialInput.FRESH, bytes, verbose).events;
      var e, n := events[seen], |ReceiverTheorems.CommandsIn(events[..seen])|;
      && |ReceiverTheorems.CommandsIn(events[..seen + 1])| == n + (if e.Command? then 1 else 0)
      && (e.Command? ==>
            && e.f != [] && e.f[0] == BANG
            && n < |CommandsOn(bytes, verbose)| && CommandsOn(bytes, verbose)[n] == e.f)
  {
    ReceiverTheorems.EveryFrameIsDispatched(bytes, verbose);
    hide SerialInput.Receive, SerialInput.Sensible;
    var events := SerialInput.Receive(SerialInput.FRESH, bytes, verbose).events;
    assert events[seen] in events;
    assert events[..seen + 1][..seen] == events[..seen];
    CommandsPrefix(events[..seen + 1], events);
  }

  lemma HearNext(cur: State, cmds: seq<seq<byte>>, stale: seq<byte>)
    requires |cur.given| < |cmds|
    ensures HearAll(cur, cmds, stale) == HearAll(Hear1(cur, cmds[|cur.given|], stale), cmds, stale)
    ensures var t := Hear1(cur, cmds[|cur.given|], stale);
      && t == cur.(given := t.given, calls := t.calls, steps := t.steps)
      && t.given == cur.given + [Given(cmds[|cur.given|], stale)]
      && t.calls == cur.calls + CallFor(Given(cmds[|cur.given|], stale), |cur.given|, cur.registered)
  {
    hide CallFor, Heard, MoteWire.Arrived;
  }

  lemma HearDone(cur: State, cmds: seq<seq<byte>>, stale: seq<byte>)
    requires |cur.given| >= |cmds|
    ensures HearAll(cur, cmds, stale) == cur
  {}

  lemma NothingRead(verbose: int)
    ensures MoteWire.Wire([]) == [] && MoteWire.Wire([])[..0] == []
    ensures SerialInput.Receive(SerialInput.FRESH, [], verbose) == SerialInput.FRESH
  {}

  lemma Counted(cfg: Config, s: State)
    requires Inv(cfg, s)
    ensures |s.packets| == |s.registered|
  {
    hide SessionProtocol.Run, UpInv, AirInv, CallInv;
  }

  lemma QueueLong(cfg: Config, s: State)
    requires Inv(cfg, s)
    ensures forall f | f in s.queue.packets :: |f| >= 2
  {
    hide SessionProtocol.Run, UpInv, AirInv, CallInv, TransmitLink.Consistent, Starting, Carries;
  }

  /** With frames of two bytes at least no round brings a lone END to the front. */
  lemma SmoothRound(l: TransmitLink.Link, delay: nat, step: TransmitLink.Step)
    requires TransmitLink.Consistent(l.queue) && TransmitLink.OffsetOk(l.queue)
    requires forall f | f in l.queue.packets :: |f| >= 2
    ensures SlipQueue.SmoothAt(l, delay, step)
  {
    hide TransmitLink.Consistent, TransmitLink.Flatten, SlipQueue.BringsLoneEnd;
    if TransmitLink.Writes(l, delay, step) {
      SlipQueue.NonEmptyPayloadsStayRepresented(
        l.queue, TransmitLink.Min(step.result.n, |l.queue.frames[0]| - l.queue.offset));
    }
  }

  // ---------------------------------------------------------------- whole runs

  method Connect(cfg: Config, now: int, linux: bool, lladdr: seq<byte>) returns (pair: Pair)
    requires cfg.bufSize >= 3 && |lladdr| == 8
    ensures fresh(pair.Objects()) && pair.Valid() && pair.Cfg() == cfg && pair.state == Begin(now, cfg.verbose)
  {
    hide BridgeRdc.Rdc.Valid, MoteWire.Uart.Valid, SlipQueue.Matches, SlipQueue.SlipBuffer.Bounded, Pair.Valid, Begin;
    var slip := new SlipQueue.SlipBuffer(cfg.sendDelay, now);
    var rdc := new BridgeRdc.Rdc(slip, cfg.bufSize);
    var radio := new MoteRadio.Radio(cfg.packetbufSize);
    var uart := new MoteWire.Uart();
    var port := new SerialInput.SerialPort(cfg.verbose, linux);
    pair := new Pair(rdc, radio, uart, port, lladdr, now);
  }

  /** A move that is not possible is left out, in the model as here. */
  lemma Impossible(cfg: Config, s: State, m: Move)
    requires TransmitLink.OffsetOk(s.queue)
    requires match m
      case Send(_, _, _, _, atts, _) => atts.Some? && |atts.value| + 3 > cfg.bufSize
      case Receive(attsLen, buffer) =>
        |buffer| < 3 || s.taken >= |s.inbox.frames| || (attsLen >= 0 && attsLen + 3 > |s.inbox.frames[s.taken]|)
      case Complete(which, _, _) => which >= |s.jobs|
      case Forward(p) => |p| >= 0x10000
      case HostReads(n, stale) => n < 1 || s.read + n > |MoteWire.Wire(s.wired)| || |stale| < 10
      case Stdin(line, stale) => 0 in line || |stale| < 10
      case _ => false
    ensures Do(cfg, s, m) == Some(s)
  {
    hide MoteWire.Wire, Arrives, HearAll, TransmitLink.Apply, TransmitLink.Fits, CommandsOn, FrameOf;
  }

  /** One move on the code of both nodes is that move of the model. */
  method Perform(pair: Pair, m: Move) returns (running: bool)
    requires pair.Valid()
    modifies pair.Objects()
    ensures running <==> Do(pair.Cfg(), old(pair.state), m).Some?
    ensures running ==> pair.Valid() && pair.state == Do(pair.Cfg(), old(pair.state), m).value
  {
    hide Do, Inv, Pair.Valid, Pair.Holds, Pair.DriverIs, Pair.RadioIs, Pair.UartIs, Pair.PortIs, MoteWire.Wire,
      TransmitLink.OffsetOk, Decode;
    pair.Unfold();
    pair.UartUnfolds(pair.state.wired);
    running := true;
    match m
    case Send(cback, ptr, attrs, framed, atts, payload) =>
      if atts.None? || |atts.value| + 3 <= pair.rdc.bufSize {
        var result := pair.Send(cback, ptr, attrs, framed, atts, payload);
        running := !result.Overflow?;
      } else {
        Impossible(pair.Cfg(), pair.state, m);
      }
    case Flush(result, checked, lag) =>
      running := pair.Flush(result, checked, lag);
    case Receive(attsLen, buffer) =>
      if |buffer| >= 3 && pair.taken < |pair.inbox.frames|
         && (attsLen < 0 || attsLen + 3 <= |pair.inbox.frames[pair.taken]|) {
        pair.Receive(attsLen, buffer);
      } else {
        Impossible(pair.Cfg(), pair.state, m);
      }
    case Complete(which, status, tx) =>
      if which < |pair.jobs| {
        pair.Complete(which, status, tx);
      } else {
        Impossible(pair.Cfg(), pair.state, m);
      }
    case Forward(p) =>
      if |p| < 0x10000 {
        pair.Forward(p);
      } else {
        Impossible(pair.Cfg(), pair.state, m);
      }
    case Put(c) =>
      pair.Print(c);
    case HostReads(n, stale) =>
      if 1 <= n && pair.read + n <= |pair.uart.wire| && |stale| >= 10 {
        pair.HostReads(n, stale);
      } else {
        Impossible(pair.Cfg(), pair.state, m);
      }
    case Stdin(line, stale) =>
      if 0 !in line && |stale| >= 10 {
        var action;
        running, action := pair.Stdin(line, stale);
      } else {
        Impossible(pair.Cfg(), pair.state, m);
      }
  }

  /** Any list of moves, carried out on both nodes from their initial state: the program has ended exactly if it
      has in the model, and otherwise everything that the two nodes have stored is as in the model. */
  method Execute(cfg: Config, now: int, moves: seq<Move>, linux: bool, lladdr: seq<byte>)
    returns (pair: Pair, running: bool)
    requires cfg.bufSize >= 3 && |lladdr| == 8
    ensures running <==> Run(cfg, now, moves).Some?
    ensures running ==> pair.Valid() && pair.Cfg() == cfg && pair.state == Run(cfg, now, moves).value
  {
    hide Do, Run, Pair.Valid, Begin;
    pair := Connect(cfg, now, linux, lladdr);
    running := true;
    assert moves[..0] == [];
    RunBegins(cfg, now);
    for i := 0 to |moves|
      invariant fresh(pair.Objects()) && pair.Valid() && pair.Cfg() == cfg
      invariant Run(cfg, now, moves[..i]) == Some(pair.state)
    {
      RunStep(cfg, now, moves, i);
      running := Perform(pair, moves[i]);
      if !running {
        RunStays(cfg, now, moves, i + 1);
        return;
      }
    }
    assert moves[..|moves|] == moves;
  }

  lemma RunBegins(cfg: Config, now: int)
    ensures Run(cfg, now, []) == Some(Begin(now, cfg.verbose))
  {}

  lemma RunStep(cfg: Config, now: int, moves: seq<Move>, i: nat)
    requires i < |moves| && Run(cfg, now, moves[..i]).Some?
    ensures Run(cfg, now, moves[..i + 1]) == Do(cfg, Run(cfg, now, moves[..i]).value, moves[i])
  {
    hide Do;
    assert moves[..i + 1][..i] == moves[..i];
  }

  lemma {:induction false} RunStays(cfg: Config, now: int, moves: seq<Move>, i: nat)
    requires i <= |moves| && Run(cfg, now, moves[..i]).None?
    ensures Run(cfg, now, moves).None?
    decreases |moves| - i
  {
    hide Do;
    if i == |moves| {
      assert moves[..i] == moves;
    } else {
      assert moves[..i + 1][..i] == moves[..i];
      RunStays(cfg, now, moves, i + 1);
    }
  }
}
