/** Both nodes and the serial line between them as one machine: what each has stored, what can happen next,
    and what it leads to. SessionRun.dfy carries these moves out on the code of the two nodes; here every
    run is shown to be a run of SessionProtocol, amid whatever else the line carries. */
module TwoNodes {
  import opened SlipCodec
  import opened CommandLetters
  import opened Options
  import opened SessionRings
  import opened SessionLinks
  import SessionProtocol
  import TransmitLink
  import SerialInput
  import ReceiverTheorems
  import MoteWire
  import BridgeRdc
  import MoteRadio

  datatype Config = Config(bufSize: nat, sendDelay: nat, packetbufSize: nat, verbose: int)

  /** A command as the host's handler finds it: the frame, and what the buffer holds behind it. */
  datatype Given = Given(f: seq<byte>, stale: seq<byte>)

  /** A call made by packet_sent on the host, and the number of the command that led to it. */
  datatype HostCall = HostCall(cause: nat, call: BridgeRdc.SentCall)

  /** On the host: packets sent, callbacks registered, the transmit queue and its timer; bytes read from the
      mote, commands given to the handler and calls made. On the mote: its SLIP input, how many frames of it
      have been looked at, the ring of session ids, the radio's packets, and what went to the UART, where
      `own` marks the reports. `steps` is what happened in the terms of SessionProtocol. */
  datatype State = State(
    packets: seq<Sent>, registered: seq<BridgeRdc.TxCallback>, queue: TransmitLink.Queue, timer: TransmitLink.Timer,
    read: nat, given: seq<Given>, calls: seq<HostCall>,
    inbox: Decoder, taken: nat, ids: Ring<byte>, jobs: seq<MoteRadio.Transmission>,
    wired: seq<MoteWire.Call>, own: seq<bool>,
    steps: seq<SessionProtocol.Step>, verbose: int)

  function Begin(now: int, verbose: int): State {
    State([], [], TransmitLink.BOOT, TransmitLink.Timer(now, 0), 0, [], [],
          IDLE, 0, Ring(0, seq(SLOTS, _ => 0)), [], [], [], [], verbose)
  }

  /** One thing that can happen on either node. */
  datatype Move =
    | Send(cback: int, ptr: int, attrs: seq<byte>, framed: bool, atts: Option<seq<byte>>, payload: seq<byte>)
    | Flush(result: TransmitLink.WriteResult, checked: int, lag: nat)
    | Receive(attsLen: int, buffer: seq<byte>)
    | Complete(which: nat, status: int, tx: int)
    | Forward(p: seq<byte>)
    | Put(c: int)
    | HostReads(n: nat, stale: seq<byte>)
    | Stdin(line: seq<byte>, stale: seq<byte>)

  // ---------------------------------------------------------------- moves of the host

  predicate Accepted(cfg: Config, framed: bool, atts: Option<seq<byte>>, payload: seq<byte>) {
    framed && atts.Some? && |atts.value| + |payload| + 3 <= cfg.bufSize
  }

  function DoSend(cfg: Config, s: State, c: BridgeRdc.TxCallback, framed: bool, atts: Option<seq<byte>>,
                  payload: seq<byte>): Option<State>
  {
    if !Accepted(cfg, framed, atts, payload) then Some(s)
    else
      var packets := s.packets + [Sent(atts.value, payload)];
      var f := FrameOf(packets, |s.packets|);
      if !TransmitLink.Fits(s.queue, f) then None
      else Some(s.(packets := packets, registered := s.registered + [c], queue := TransmitLink.Push(s.queue, f),
                   steps := s.steps + [SessionProtocol.Send]))
  }

  function Behind(whole: seq<byte>, n: nat): seq<byte> { if n <= |whole| then whole[n..] else [] }

  function DoFlush(cfg: Config, s: State, result: TransmitLink.WriteResult, checked: int, lag: nat): Option<State>
    requires TransmitLink.OffsetOk(s.queue)
  {
    var l := TransmitLink.Apply(TransmitLink.Link(s.queue, s.timer, checked, [], false), cfg.sendDelay,
                                TransmitLink.Round(0, lag, result));
    if l.halted then None
    else Some(s.(queue := l.queue, timer := l.timer,
                 inbox := Decode(s.inbox, Behind(l.queue.wire, |s.queue.wire|))))
  }

  predicate Forwarded(line: seq<byte>) { 0 !in line && |line| >= 2 && line[0] == QUERY && line[1] == CHAR_C }

  function DoStdin(s: State, line: seq<byte>): Option<State> {
    if !Forwarded(line) then Some(s)
    else if TransmitLink.Fits(s.queue, line) then Some(s.(queue := TransmitLink.Push(s.queue, line)))
    else None
  }

  function Data(g: Given): seq<byte> { g.f + g.stale }

  /** The handler takes the command for a report. */
  predicate IsReport(g: Given) { |Data(g)| >= 5 && Data(g)[0] == BANG && Data(g)[1] == CHAR_R }

  /** packet_sent then makes a call. */
  predicate IsCall(g: Given) { IsReport(g) && Data(g)[2] as nat < SLOTS }

  /** What packet_sent finds in a slot. */
  function Found(registered: seq<BridgeRdc.TxCallback>, slot: nat): BridgeRdc.TxCallback
    requires slot < SLOTS
  {
    if slot < |registered| then registered[Latest(|registered|, slot)] else BridgeRdc.Unset
  }

  function CallFor(g: Given, cause: nat, registered: seq<BridgeRdc.TxCallback>): seq<HostCall> {
    if IsCall(g) then
      [HostCall(cause, BridgeRdc.SentCall(Found(registered, Data(g)[2] as nat), Data(g)[3], Data(g)[4]))]
    else []
  }

  /** The commands that the mote's output so far leads to, and which of them are its own reports. */
  function Commands(s: State): seq<MoteWire.Tagged> { Heard(MoteWire.Arrived(s.wired, s.own), s.verbose) }

  function Hear1(s: State, f: seq<byte>, stale: seq<byte>): State {
    var g, n := Given(f, stale), |s.given|;
    s.(given := s.given + [g], calls := s.calls + CallFor(g, n, s.registered),
       steps := s.steps + if n < |Commands(s)| && Commands(s)[n].own then [SessionProtocol.Handle] else [])
  }

  /** The handler is given the commands that it has not had yet. */
  function HearAll(s: State, cmds: seq<seq<byte>>, stale: seq<byte>): State
    decreases |cmds| - |s.given|
  {
    if |s.given| >= |cmds| then s else HearAll(Hear1(s, cmds[|s.given|], stale), cmds, stale)
  }

  function DoRead(cfg: Config, s: State, n: nat, stale: seq<byte>): State {
    var wire := MoteWire.Wire(s.wired);
    if 1 <= n && s.read + n <= |wire| && |stale| >= 10 then
      HearAll(s.(read := s.read + n), CommandsOn(wire[..s.read + n], cfg.verbose), stale)
    else s
  }

  // ---------------------------------------------------------------- moves of the mote

  function DoReceive(cfg: Config, s: State, attsLen: int): State {
    if s.taken >= |s.inbox.frames| || (attsLen >= 0 && attsLen + 3 > |s.inbox.frames[s.taken]|) then s
    else
      var f, t := s.inbox.frames[s.taken], s.(taken := s.taken + 1);
      if !Starts(f, CHAR_S) || |f| < 3 || s.ids.pos >= |s.ids.slots| then t
      else
        t.(ids := Note(s.ids, f[2], attsLen >= 0),
           jobs := s.jobs + if attsLen < 0 then [] else
                     [MoteRadio.Transmission(s.ids.pos, MoteRadio.Cut(f[3 + attsLen..], cfg.packetbufSize))],
           steps := s.steps + [SessionProtocol.Receive(attsLen >= 0)])
  }

  /** A report arrives as one unless an ESC of the debug text waits for the next byte, or the host echoes
      lines and takes it for one. */
  predicate Arrives(s: State, report: seq<byte>) {
    !MoteWire.EscOpen(s.wired) && SerialInput.Left(report, s.verbose) == report
  }

  function DoComplete(s: State, which: nat, status: int, tx: int): State {
    if which >= |s.jobs| || s.jobs[which].slot >= |s.ids.slots| then s
    else
      var report := MoteRadio.ReportFrame(s.ids.slots[s.jobs[which].slot], Low8(status), Low8(tx));
      s.(jobs := s.jobs[..which] + s.jobs[which + 1..],
         wired := s.wired + [MoteWire.Send(report)], own := s.own + [Arrives(s, report)],
         steps := s.steps + [if Arrives(s, report) then SessionProtocol.Complete(which, status, tx)
                             else SessionProtocol.Lose(which)])
  }

  function DoOther(s: State, call: MoteWire.Call): State { s.(wired := s.wired + [call], own := s.own + [false]) }

  // ---------------------------------------------------------------- runs

  /** None: the program has ended. */
  function Do(cfg: Config, s: State, m: Move): (r: Option<State>)
    requires TransmitLink.OffsetOk(s.queue)
    ensures r.Some? ==> TransmitLink.OffsetOk(r.value.queue)
  {
    match m
    case Send(cback, ptr, attrs, framed, atts, payload) =>
      PushOffset(s.queue);
      DoSend(cfg, s, BridgeRdc.TxCallback(cback, ptr, attrs), framed, atts, payload)
    case Flush(result, checked, lag) => DoFlush(cfg, s, result, checked, lag)
    case Receive(attsLen, buffer) => Some(if |buffer| >= 3 then DoReceive(cfg, s, attsLen) else s)
    case Complete(which, status, tx) => Some(DoComplete(s, which, status, tx))
    case Forward(p) => Some(if |p| < 0x10000 then DoOther(s, MoteWire.Send(p)) else s)
    case Put(c) => Some(DoOther(s, MoteWire.Put(c)))
    case HostReads(n, stale) => ReadKeepsQueue(cfg, s, n, stale); Some(DoRead(cfg, s, n, stale))
    case Stdin(line, stale) => PushOffset(s.queue); if |stale| >= 10 then DoStdin(s, line) else Some(s)
  }

  lemma PushOffset(q: TransmitLink.Queue)
    requires TransmitLink.OffsetOk(q)
    ensures forall p :: TransmitLink.OffsetOk(TransmitLink.Push(q, p))
  {}

  lemma {:induction false} HearKeepsRest(s: State, cmds: seq<seq<byte>>, stale: seq<byte>)
    ensures var t := HearAll(s, cmds, stale);
      t == s.(given := t.given, calls := t.calls, steps := t.steps)
    decreases |cmds| - |s.given|
  {
    hide CallFor, Heard, MoteWire.Arrived;
    if |s.given| < |cmds| {
      HearKeepsRest(Hear1(s, cmds[|s.given|], stale), cmds, stale);
    }
  }

  lemma ReadKeepsQueue(cfg: Config, s: State, n: nat, stale: seq<byte>)
    ensures DoRead(cfg, s, n, stale).queue == s.queue
  {
    hide HearAll, MoteWire.Wire, CommandsOn;
    if 1 <= n && s.read + n <= |MoteWire.Wire(s.wired)| {
      HearKeepsRest(s.(read := s.read + n), CommandsOn(MoteWire.Wire(s.wired)[..s.read + n], cfg.verbose), stale);
    }
  }

  function Run(cfg: Config, now: int, moves: seq<Move>): (r: Option<State>)
    ensures r.Some? ==> TransmitLink.OffsetOk(r.value.queue)
  {
    if moves == [] then Some(Begin(now, cfg.verbose))
    else
      var s := Run(cfg, now, moves[..|moves| - 1]);
      if s.None? then None else Do(cfg, s.value, moves[|moves| - 1])
  }

  // ---------------------------------------------------------------- what every run keeps

  ghost predicate JobsOk(air: seq<SessionProtocol.Job>, jobs: seq<MoteRadio.Transmission>) {
    |jobs| == |air| && forall i | 0 <= i < |air| :: jobs[i].slot == air[i].slot
  }

  /** Transmit queue and SLIP input are the protocol's link down. */
  ghost predicate DownInv(s: State, w: SessionProtocol.World) {
    && TransmitLink.Consistent(s.queue)
    && |s.registered| == |s.packets| == w.sent
    && s.inbox == Decode(IDLE, s.queue.wire)
    && s.taken <= |s.inbox.frames|
    && DownOk(s.packets, SessionProtocol.Taken(w), s.queue.packets, s.taken)
  }

  ghost predicate AirInv(s: State, w: SessionProtocol.World) { s.ids == w.mote && JobsOk(w.air, s.jobs) }

  /** These commands have been given. */
  ghost predicate GivenOk(given: seq<Given>, cmds: seq<seq<byte>>) {
    |given| <= |cmds| && forall i | 0 <= i < |given| :: given[i].f == cmds[i]
  }

  /** The mote's own reports among the commands are those of the protocol, and as many of them as have been
      given to the handler have been handled. */
  ghost predicate UpInv(s: State, w: SessionProtocol.World, cmds: seq<seq<byte>>) {
    && |s.own| == |s.wired|
    && MoteWire.Own(Commands(s)) == ReportFrames(w)
    && cmds <= MoteWire.Frames(Commands(s))
    && GivenOk(s.given, cmds)
    && |s.given| <= |Commands(s)|
    && |MoteWire.Own(Commands(s)[..|s.given|])| == |w.invoked|
  }

  /** The commands given so far. */
  function Seen(s: State): seq<MoteWire.Tagged> {
    if |s.given| <= |Commands(s)| then Commands(s)[..|s.given|] else Commands(s)
  }

  /** The calls that reports of the mote led to. */
  function OwnCalls(calls: seq<HostCall>, seen: seq<MoteWire.Tagged>): seq<BridgeRdc.SentCall> {
    if calls == [] then []
    else
      var c := calls[|calls| - 1];
      OwnCalls(calls[..|calls| - 1], seen) + if c.cause < |seen| && seen[c.cause].own then [c.call] else []
  }

  /** The numbers of the commands that lead to calls. */
  function Calling(gs: seq<Given>): seq<nat> {
    if gs == [] then []
    else Calling(gs[..|gs| - 1]) + if IsCall(gs[|gs| - 1]) then [|gs| - 1] else []
  }

  function Causes(calls: seq<HostCall>): seq<nat> { seq(|calls|, i requires 0 <= i < |calls| => calls[i].cause) }

  ghost predicate CallInv(s: State, w: SessionProtocol.World) {
    && Causes(s.calls) == Calling(s.given)
    && CallsOk(w.invoked, s.registered, OwnCalls(s.calls, Seen(s)))
  }

  function Heardable(cfg: Config, s: State): seq<seq<byte>>
    requires s.read <= |MoteWire.Wire(s.wired)|
  {
    CommandsOn(MoteWire.Wire(s.wired)[..s.read], cfg.verbose)
  }

  ghost predicate Inv(cfg: Config, s: State) {
    var w := SessionProtocol.Run(s.steps);
    && s.verbose == cfg.verbose
    && DownInv(s, w) && AirInv(s, w)
    && s.read <= |MoteWire.Wire(s.wired)|
    && UpInv(s, w, Heardable(cfg, s)) && |s.given| == |Heardable(cfg, s)|
    && CallInv(s, w)
  }

  // ---------------------------------------------------------------- the protocol's part in each move

  /** Sending leaves the mote, the radio and the reports alone. */
  lemma SendWorld(w: SessionProtocol.World, v: SessionProtocol.World)
    requires SessionProtocol.Shape(w) && v == SessionProtocol.Apply(w, SessionProtocol.Send)
    ensures v.sent == w.sent + 1 && SessionProtocol.Taken(v) == SessionProtocol.Taken(w)
    ensures v.mote == w.mote && v.air == w.air && v.invoked == w.invoked && ReportFrames(v) == ReportFrames(w)
  {}

  /** The next packet arrives with its number mod 16. */
  lemma ReceiveWorld(w: SessionProtocol.World, v: SessionProtocol.World, ok: bool)
    requires SessionProtocol.Inv(w) && SessionProtocol.Taken(w) < w.sent
    requires v == SessionProtocol.Apply(w, SessionProtocol.Receive(ok))
    ensures v.sent == w.sent && SessionProtocol.Taken(v) == SessionProtocol.Taken(w) + 1
    ensures 0 <= SessionProtocol.Taken(w) && w.mote.pos < |w.mote.slots|
    ensures v.mote == Note(w.mote, (SessionProtocol.Taken(w) % SLOTS) as byte, ok)
    ensures v.air == w.air + if ok then [SessionProtocol.Job(w.mote.pos, SessionProtocol.Taken(w), w.accepted)] else []
    ensures v.invoked == w.invoked && ReportFrames(v) == ReportFrames(w)
  {
    assert w.down[0].pkt == SessionProtocol.Taken(w) + 0;
    assert w.air + [] == w.air;
  }

  lemma CompleteWorld(w: SessionProtocol.World, v: SessionProtocol.World, which: nat, status: int, tx: int)
    requires SessionProtocol.Shape(w) && which < |w.air|
    requires v == SessionProtocol.Apply(w, SessionProtocol.Complete(which, status, tx))
    ensures v.sent == w.sent && SessionProtocol.Taken(v) == SessionProtocol.Taken(w)
    ensures v.mote == w.mote && v.air == w.air[..which] + w.air[which + 1..] && v.invoked == w.invoked
    ensures w.air[which].slot < |w.mote.slots|
    ensures ReportFrames(v) ==
      ReportFrames(w) + [MoteRadio.ReportFrame(w.mote.slots[w.air[which].slot], Low8(status), Low8(tx))]
  {
    assert w.air[which] in w.air;
    CompleteReports(w, which, status, tx);
  }

  lemma LoseWorld(w: SessionProtocol.World, v: SessionProtocol.World, which: nat)
    requires SessionProtocol.Shape(w) && which < |w.air| && v == SessionProtocol.Apply(w, SessionProtocol.Lose(which))
    ensures v.sent == w.sent && SessionProtocol.Taken(v) == SessionProtocol.Taken(w)
    ensures v.mote == w.mote && v.air == w.air[..which] + w.air[which + 1..] && v.invoked == w.invoked
    ensures ReportFrames(v) == ReportFrames(w)
  {}

  /** The next report received is the oldest one that the protocol has on its link. */
  lemma NextReport(w: SessionProtocol.World, f: seq<byte>)
    requires SessionProtocol.Inv(w) && |w.invoked| < |ReportFrames(w)| && ReportFrames(w)[|w.invoked|] == f
    ensures w.up != [] && w.up[0].sid < 16
    ensures f == MoteRadio.ReportFrame(w.up[0].sid, w.up[0].status, w.up[0].tx)
  {
    PendingReports(w);
    assert w.up[0] in w.up;
    HandleReports(w);
  }

  lemma PendingReports(w: SessionProtocol.World)
    requires |ReportFrames(w)| > |w.invoked|
    ensures w.up != []
  {}

  lemma HandleWorld(w: SessionProtocol.World, v: SessionProtocol.World)
    requires SessionProtocol.Shape(w) && w.up != [] && v == SessionProtocol.Apply(w, SessionProtocol.Handle)
    ensures v.sent == w.sent && SessionProtocol.Taken(v) == SessionProtocol.Taken(w)
    ensures v.mote == w.mote && v.air == w.air && |v.invoked| == |w.invoked| + 1 && ReportFrames(v) == ReportFrames(w)
    ensures v == SessionProtocol.DoHandle(w)
  {
    HandleReports(w);
  }

  // ---------------------------------------------------------------- each move keeps it

  lemma SendKeeps(cfg: Config, s: State, c: BridgeRdc.TxCallback, framed: bool, atts: Option<seq<byte>>,
                  payload: seq<byte>)
    requires Inv(cfg, s) && DoSend(cfg, s, c, framed, atts, payload).Some?
    ensures Inv(cfg, DoSend(cfg, s, c, framed, atts, payload).value)
  {
    hide SessionProtocol.Run, Heard, MoteWire.Arrived, ReportFrames, FrameOf, TransmitLink.Consistent,
      TransmitLink.Fits, DownOk, CallsOk, OwnCalls, Calling, CommandsOn, MoteWire.Wire, MoteWire.Own, MoteWire.Frames,
      SessionProtocol.Apply, SessionProtocol.Shape, SessionProtocol.Taken, JobsOk, GivenOk;
    if Accepted(cfg, framed, atts, payload) {
      var t := DoSend(cfg, s, c, framed, atts, payload).value;
      var w, v := SessionProtocol.Run(s.steps), SessionProtocol.Run(t.steps);
      SessionProtocol.RunSnoc(s.steps, SessionProtocol.Send);
      SendWorld(w, v);
      QueueKeeps(s.queue, FrameOf(t.packets, |s.packets|));
      DownSend(s.packets, SessionProtocol.Taken(w), s.queue.packets, s.taken, Sent(atts.value, payload));
      CallsRegister(w.invoked, s.registered, OwnCalls(s.calls, Seen(s)), c);
    }
  }

  lemma QueueKeeps(q: TransmitLink.Queue, p: seq<byte>)
    requires TransmitLink.Consistent(q)
    ensures TransmitLink.Consistent(TransmitLink.Push(q, p))
  {
    TransmitLink.PushConserves(q, p);
    TransmitLink.PushFrames(q, p);
  }

  lemma StdinKeeps(cfg: Config, s: State, line: seq<byte>)
    requires Inv(cfg, s) && DoStdin(s, line).Some?
    ensures Inv(cfg, DoStdin(s, line).value)
  {
    hide SessionProtocol.Run, Heard, MoteWire.Arrived, ReportFrames, TransmitLink.Consistent, TransmitLink.Fits,
      DownOk, CallsOk, OwnCalls, Calling, CommandsOn, MoteWire.Wire, MoteWire.Own, MoteWire.Frames,
      SessionProtocol.Shape, SessionProtocol.Taken, JobsOk, GivenOk;
    if Forwarded(line) {
      QueueKeeps(s.queue, line);
      DownOther(s.packets, SessionProtocol.Taken(SessionProtocol.Run(s.steps)), s.queue.packets, s.taken, line);
    }
  }

  lemma RoundWire(l: TransmitLink.Link, delay: nat, r: TransmitLink.Step)
    requires TransmitLink.Consistent(l.queue) && r.Round?
    ensures var m := TransmitLink.Apply(l, delay, r);
      && TransmitLink.Consistent(m.queue) && m.queue.packets == l.queue.packets
      && m.queue.wire == l.queue.wire + Behind(m.queue.wire, |l.queue.wire|)
  {
    TransmitLink.ApplyConsistent(l, delay, r);
    hide TransmitLink.Consistent, TransmitLink.Flatten, Encode;
  }

  lemma FlushKeeps(cfg: Config, s: State, result: TransmitLink.WriteResult, checked: int, lag: nat)
    requires Inv(cfg, s) && TransmitLink.OffsetOk(s.queue) && DoFlush(cfg, s, result, checked, lag).Some?
    ensures Inv(cfg, DoFlush(cfg, s, result, checked, lag).value)
  {
    hide SessionProtocol.Run, Heard, MoteWire.Arrived, ReportFrames, TransmitLink.Consistent, TransmitLink.Apply,
      Behind, DownOk, CallsOk, OwnCalls, Calling, CommandsOn, MoteWire.Wire, MoteWire.Own, MoteWire.Frames, Decode,
      SessionProtocol.Shape, SessionProtocol.Taken, JobsOk, GivenOk;
    var t := DoFlush(cfg, s, result, checked, lag).value;
    var chunk := Behind(t.queue.wire, |s.queue.wire|);
    RoundWire(TransmitLink.Link(s.queue, s.timer, checked, [], false), cfg.sendDelay,
              TransmitLink.Round(0, lag, result));
    DecodeConcat(IDLE, s.queue.wire, chunk);
    DecodeGrows(s.inbox, chunk);
  }

  /** What the mote's SLIP input has decoded is a part of what was queued. */
  lemma InboxQueued(q: TransmitLink.Queue, inbox: Decoder)
    requires TransmitLink.Consistent(q) && inbox == Decode(IDLE, q.wire) && forall f | f in q.packets :: |f| >= 2
    ensures inbox.frames <= q.packets
    ensures q.frames == [] ==> inbox.frames == q.packets
  {
    hide TransmitLink.Consistent, TransmitLink.Flatten, Decode, NonEmpty;
    TransmitLink.DecodedFromWire(q);
    NonEmptyIdentity(q.packets);
  }

  lemma PacketsLong(packets: seq<Sent>, arrived: int, frames: seq<seq<byte>>, taken: nat)
    requires DownOk(packets, arrived, frames, taken)
    ensures forall f | f in frames :: |f| >= 2
  {}

  lemma ReceiveKeeps(cfg: Config, s: State, attsLen: int)
    requires Inv(cfg, s)
    ensures Inv(cfg, DoReceive(cfg, s, attsLen))
  {
    hide SessionProtocol.Run, Heard, MoteWire.Arrived, ReportFrames, TransmitLink.Consistent, SessionProtocol.Apply,
      DownOk, CallsOk, OwnCalls, Calling, CommandsOn, MoteWire.Wire, MoteWire.Own, MoteWire.Frames, Decode,
      SessionProtocol.Shape, SessionProtocol.Taken, SessionProtocol.Inv, GivenOk, FrameOf, MoteRadio.Cut, Note, Starts;
    if s.taken < |s.inbox.frames| && (attsLen < 0 || attsLen + 3 <= |s.inbox.frames[s.taken]|) {
      var w, f := SessionProtocol.Run(s.steps), s.inbox.frames[s.taken];
      var k := SessionProtocol.Taken(w);
      PacketsLong(s.packets, k, s.queue.packets, s.taken);
      InboxQueued(s.queue, s.inbox);
      DownNext(s.packets, k, s.queue.packets, s.taken);
      if Starts(f, CHAR_S) {
        FrameHas(s.packets, k);
        SessionProtocol.RunSnoc(s.steps, SessionProtocol.Receive(attsLen >= 0));
        SessionProtocol.RunKeeps(s.steps);
        ReceiveWorld(w, SessionProtocol.Run(s.steps + [SessionProtocol.Receive(attsLen >= 0)]), attsLen >= 0);
        assert w.air + [] == w.air && s.jobs + [] == s.jobs;
      }
    }
  }

  lemma FrameHas(packets: seq<Sent>, k: nat)
    requires k < |packets|
    ensures |FrameOf(packets, k)| >= 3 && FrameOf(packets, k)[2] == (k % SLOTS) as byte
  {}

  /** The bytes read stay what they were. */
  lemma WireGrows(calls: seq<MoteWire.Call>, call: MoteWire.Call, n: nat)
    requires n <= |MoteWire.Wire(calls)|
    ensures n <= |MoteWire.Wire(calls + [call])| && MoteWire.Wire(calls + [call])[..n] == MoteWire.Wire(calls)[..n]
  {
    hide MoteWire.Wire, MoteWire.CallBytes;
    MoteWire.WireSnoc(calls, call);
  }

  lemma FramesPrefix(a: seq<MoteWire.Tagged>, b: seq<MoteWire.Tagged>)
    requires a <= b
    ensures MoteWire.Frames(a) <= MoteWire.Frames(b)
  {
    assert b == a + b[|a|..];
    MoteWire.TaggedConcat(a, b[|a|..]);
  }

  /** One more call of the mote's, whatever it is: what the host has read and done so far is not affected. */
  lemma WiredKeeps(cfg: Config, s: State, t: State, w: SessionProtocol.World, v: SessionProtocol.World,
                   call: MoteWire.Call, mine: bool)
    requires s.read <= |MoteWire.Wire(s.wired)|
    requires UpInv(s, w, Heardable(cfg, s)) && |s.given| == |Heardable(cfg, s)| && CallInv(s, w)
    requires t.wired == s.wired + [call] && t.own == s.own + [mine]
    requires t.read == s.read && t.given == s.given && t.calls == s.calls && t.registered == s.registered
    requires t.verbose == s.verbose
    requires Commands(s) <= Commands(t) && MoteWire.Own(Commands(t)) == ReportFrames(v) && v.invoked == w.invoked
    ensures t.read <= |MoteWire.Wire(t.wired)|
    ensures UpInv(t, v, Heardable(cfg, t)) && |t.given| == |Heardable(cfg, t)| && CallInv(t, v)
  {
    hide Commands, CommandsOn, MoteWire.Wire, MoteWire.Own, MoteWire.Frames, OwnCalls, Calling, CallsOk, ReportFrames,
      GivenOk;
    WireGrows(s.wired, call, s.read);
    FramesPrefix(Commands(s), Commands(t));
    assert Commands(t)[..|s.given|] == Commands(s)[..|s.given|];
  }

  lemma OtherKeeps(cfg: Config, s: State, call: MoteWire.Call)
    requires Inv(cfg, s)
    ensures Inv(cfg, DoOther(s, call))
  {
    hide SessionProtocol.Run, Heard, MoteWire.Arrived, DownInv, AirInv, CallInv, CommandsOn, MoteWire.Wire,
      MoteWire.Own, MoteWire.Frames, ReportFrames, GivenOk;
    var w := SessionProtocol.Run(s.steps);
    HeardOther(s.wired, s.own, call, s.verbose);
    WiredKeeps(cfg, s, DoOther(s, call), w, w, call, false);
    SameDown(s, DoOther(s, call), w);
  }

  lemma SameDown(s: State, t: State, w: SessionProtocol.World)
    requires DownInv(s, w) && AirInv(s, w)
    requires t.queue == s.queue && t.registered == s.registered && t.packets == s.packets && t.inbox == s.inbox
    requires t.taken == s.taken && t.ids == s.ids && t.jobs == s.jobs
    ensures DownInv(t, w) && AirInv(t, w)
  {}

  lemma CompleteKeeps(cfg: Config, s: State, which: nat, status: int, tx: int)
    requires Inv(cfg, s)
    ensures Inv(cfg, DoComplete(s, which, status, tx))
  {
    hide SessionProtocol.Run, Heard, MoteWire.Arrived, CallInv, CommandsOn, MoteWire.Wire, MoteWire.Own,
      MoteWire.Frames, ReportFrames, GivenOk, DownOk, SessionProtocol.Shape, SessionProtocol.Apply,
      SessionProtocol.Taken, Decode, TransmitLink.Consistent, MoteWire.EscOpen, SerialInput.Left;
    if which < |s.jobs| && s.jobs[which].slot < |s.ids.slots| {
      var t := DoComplete(s, which, status, tx);
      var w, v := SessionProtocol.Run(s.steps), SessionProtocol.Run(t.steps);
      var report := MoteRadio.ReportFrame(s.ids.slots[s.jobs[which].slot], Low8(status), Low8(tx));
      if Arrives(s, report) {
        SessionProtocol.RunSnoc(s.steps, SessionProtocol.Complete(which, status, tx));
        CompleteWorld(w, v, which, status, tx);
        HeardReport(s.wired, s.own, report, s.verbose);
      } else {
        SessionProtocol.RunSnoc(s.steps, SessionProtocol.Lose(which));
        LoseWorld(w, v, which);
        HeardOther(s.wired, s.own, MoteWire.Send(report), s.verbose);
      }
      WiredKeeps(cfg, s, t, w, v, MoteWire.Send(report), Arrives(s, report));
    }
  }

  /** The invariant while the handler is given these commands. */
  ghost predicate Hearing(s: State, cmds: seq<seq<byte>>) {
    var w := SessionProtocol.Run(s.steps);
    DownInv(s, w) && AirInv(s, w) && UpInv(s, w, cmds) && CallInv(s, w)
  }

  /** What the next command is: the next report of the protocol, or none. */
  lemma NextCommand(s: State, w: SessionProtocol.World, cmds: seq<seq<byte>>)
    requires UpInv(s, w, cmds) && |s.given| < |cmds| && SessionProtocol.Inv(w)
    ensures var n := |s.given|;
      && n < |Commands(s)| && Commands(s)[n].f == cmds[n]
      && |MoteWire.Own(Commands(s)[..n + 1])| == |w.invoked| + (if Commands(s)[n].own then 1 else 0)
      && (Commands(s)[n].own ==>
            w.up != [] && w.up[0].sid < 16 && cmds[n] == MoteRadio.ReportFrame(w.up[0].sid, w.up[0].status, w.up[0].tx))
  {
    var all, n := Commands(s), |s.given|;
    hide Commands, MoteWire.Own, MoteWire.Frames, ReportFrames, SessionProtocol.Inv, GivenOk;
    CountTagged(all);
    TaggedAt(all, n);
    OwnNext(all, n);
    OwnPrefix(all, n + 1);
    if all[n].own {
      assert MoteWire.Own(all[..n + 1])[|w.invoked|] == all[n].f;
      NextReport(w, all[n].f);
    }
  }

  lemma CountTagged(ts: seq<MoteWire.Tagged>)
    ensures |MoteWire.Frames(ts)| == |ts|
  {
    if ts != [] {
      TaggedAt(ts, 0);
    }
  }

  /** A report leads to the call that the protocol makes. */
  lemma ReportCalls(g: Given, n: nat, registered: seq<BridgeRdc.TxCallback>, sid: byte, status: byte, tx: byte)
    requires g.f == MoteRadio.ReportFrame(sid, status, tx) && sid < 16
    ensures CallFor(g, n, registered) == [HostCall(n, BridgeRdc.SentCall(Found(registered, sid as nat), status, tx))]
    ensures IsCall(g)
  {
    assert Data(g)[..5] == g.f;
    assert Data(g)[0] == g.f[0] && Data(g)[1] == g.f[1] && Data(g)[2] == g.f[2] && Data(g)[3] == g.f[3];
    assert Data(g)[4] == g.f[4];
  }

  lemma {:induction false} OwnCallsMore(calls: seq<HostCall>, seen: seq<MoteWire.Tagged>, t: MoteWire.Tagged)
    requires forall c | c in calls :: c.cause < |seen|
    ensures OwnCalls(calls, seen + [t]) == OwnCalls(calls, seen)
  {
    if calls != [] {
      assert calls[|calls| - 1] in calls && forall c | c in calls[..|calls| - 1] :: c in calls;
      OwnCallsMore(calls[..|calls| - 1], seen, t);
    }
  }

  lemma OwnCallsSnoc(calls: seq<HostCall>, c: HostCall, seen: seq<MoteWire.Tagged>)
    ensures OwnCalls(calls + [c], seen)
         == OwnCalls(calls, seen) + if c.cause < |seen| && seen[c.cause].own then [c.call] else []
  {
    assert (calls + [c])[..|calls|] == calls;
  }

  lemma {:induction false} CallingExact(gs: seq<Given>)
    ensures forall i | i in Calling(gs) :: i < |gs| && IsCall(gs[i])
    ensures forall i | 0 <= i < |gs| && IsCall(gs[i]) :: i in Calling(gs)
  {
    if gs != [] {
      hide IsCall;
      var init := gs[..|gs| - 1];
      CallingExact(init);
      assert forall i | 0 <= i < |init| :: init[i] == gs[i];
    }
  }

  lemma CausesGiven(s: State)
    requires Causes(s.calls) == Calling(s.given)
    ensures forall c | c in s.calls :: c.cause < |s.given| && IsCall(s.given[c.cause])
  {
    CallingExact(s.given);
    hide IsCall, Calling;
    forall c | c in s.calls
      ensures c.cause < |s.given| && IsCall(s.given[c.cause])
    {
      var i :| 0 <= i < |s.calls| && s.calls[i] == c;
      assert Causes(s.calls)[i] == c.cause && c.cause in Calling(s.given);
    }
  }

  lemma CallingSnoc(gs: seq<Given>, g: Given)
    ensures Calling(gs + [g]) == Calling(gs) + if IsCall(g) then [|gs|] else []
  {
    assert (gs + [g])[..|gs|] == gs;
  }

  lemma CallForCauses(calls: seq<HostCall>, g: Given, n: nat, registered: seq<BridgeRdc.TxCallback>)
    ensures Causes(calls + CallFor(g, n, registered)) == Causes(calls) + if IsCall(g) then [n] else []
  {
    hide IsCall, Found;
  }

  /** The calls after one more command, which is the next report exactly if `own`. */
  lemma CallsAfter(s: State, w: SessionProtocol.World, g: Given, t: MoteWire.Tagged, seen: seq<MoteWire.Tagged>)
    requires Causes(s.calls) == Calling(s.given) && |seen| == |s.given|
    requires CallsOk(w.invoked, s.registered, OwnCalls(s.calls, seen))
    requires SessionProtocol.Shape(w) && SessionProtocol.HostOk(w) && |s.registered| == w.sent
    requires t.own ==>
      w.up != [] && w.up[0].sid < 16 && g.f == MoteRadio.ReportFrame(w.up[0].sid, w.up[0].status, w.up[0].tx)
    ensures var calls := s.calls + CallFor(g, |s.given|, s.registered);
      && Causes(calls) == Calling(s.given + [g])
      && CallsOk(if t.own then SessionProtocol.DoHandle(w).invoked else w.invoked, s.registered,
                 OwnCalls(calls, seen + [t]))
  {
    CausesGiven(s);
    CallingSnoc(s.given, g);
    CallForCauses(s.calls, g, |s.given|, s.registered);
    OwnCallsMore(s.calls, seen, t);
    var n := |s.given|;
    var one := CallFor(g, n, s.registered);
    hide Calling, Causes, CallsOk, SessionProtocol.HostOk;
    if t.own {
      var u := w.up[0];
      ReportCalls(g, n, s.registered, u.sid, u.status, u.tx);
      hide IsCall, CallFor, SessionProtocol.DoHandle;
      OwnCallsSnoc(s.calls, one[0], seen + [t]);
      CallsHandle(w, s.registered, OwnCalls(s.calls, seen), one[0].call);
    } else if IsCall(g) {
      hide IsCall, Found;
      OwnCallsSnoc(s.calls, one[0], seen + [t]);
      assert OwnCalls(s.calls, seen) + [] == OwnCalls(s.calls, seen);
    } else {
      assert s.calls + [] == s.calls;
    }
  }

  /** The handler is given one more command. */
  lemma Hear1Keeps(s: State, cmds: seq<seq<byte>>, stale: seq<byte>)
    requires Hearing(s, cmds) && |s.given| < |cmds|
    ensures Hearing(Hear1(s, cmds[|s.given|], stale), cmds)
  {
    hide SessionProtocol.Run, Heard, MoteWire.Arrived, ReportFrames, MoteWire.Own, MoteWire.Frames, CallsOk, OwnCalls,
      Calling, CallFor, Causes, SessionProtocol.Apply, SessionProtocol.Taken, TransmitLink.Consistent, DownOk, JobsOk,
      Decode, SessionProtocol.Shape, SessionProtocol.HostOk, SessionProtocol.DoHandle;
    var w, n := SessionProtocol.Run(s.steps), |s.given|;
    var t := Hear1(s, cmds[n], stale);
    SessionProtocol.RunKeeps(s.steps);
    NextCommand(s, w, cmds);
    var x := Commands(s)[n];
    assert Commands(s)[..n + 1] == Commands(s)[..n] + [x];
    CallsAfter(s, w, Given(cmds[n], stale), x, Commands(s)[..n]);
    if x.own {
      SessionProtocol.RunSnoc(s.steps, SessionProtocol.Handle);
      HandleWorld(w, SessionProtocol.Run(t.steps));
    } else {
      assert t.steps == s.steps;
    }
  }

  lemma {:induction false} HearAllKeeps(s: State, cmds: seq<seq<byte>>, stale: seq<byte>)
    requires Hearing(s, cmds)
    ensures Hearing(HearAll(s, cmds, stale), cmds) && |HearAll(s, cmds, stale).given| == |cmds|
    decreases |cmds| - |s.given|
  {
    assert |s.given| <= |cmds|;
    hide Hearing, Hear1;
    if |s.given| < |cmds| {
      Hear1Keeps(s, cmds, stale);
      GivenGrows(s, cmds[|s.given|], stale);
      HearAllKeeps(Hear1(s, cmds[|s.given|], stale), cmds, stale);
    }
  }

  lemma GivenGrows(s: State, f: seq<byte>, stale: seq<byte>)
    ensures |Hear1(s, f, stale).given| == |s.given| + 1
  {
    hide CallFor, Heard, MoteWire.Arrived;
  }

  lemma CommandsGrow(s: seq<byte>, n: nat, verbose: int)
    requires n <= |s|
    ensures CommandsOn(s[..n], verbose) <= CommandsOn(s, verbose)
  {
    hide SerialInput.Receive, ReceiverTheorems.CommandsIn;
    EventsGrow(s, n, verbose);
    CommandsPrefix(SerialInput.Receive(SerialInput.FRESH, s[..n], verbose).events,
                   SerialInput.Receive(SerialInput.FRESH, s, verbose).events);
  }

  /** More bytes have been read: more commands are to be given. */
  lemma MoreRead(cfg: Config, s: State, n: nat)
    requires Inv(cfg, s) && s.read + n <= |MoteWire.Wire(s.wired)|
    ensures Hearing(s.(read := s.read + n), CommandsOn(MoteWire.Wire(s.wired)[..s.read + n], cfg.verbose))
  {
    hide SessionProtocol.Run, Heard, MoteWire.Arrived, ReportFrames, MoteWire.Own, MoteWire.Frames, MoteWire.Wire,
      CommandsOn, CallsOk, OwnCalls, Calling, DownOk, TransmitLink.Consistent, Decode, JobsOk, SessionProtocol.Taken;
    var wire := MoteWire.Wire(s.wired);
    SomeHeard(s.wired, s.own, s.read + n, cfg.verbose);
    CommandsGrow(wire[..s.read + n], s.read, cfg.verbose);
    assert wire[..s.read + n][..s.read] == wire[..s.read];
  }

  lemma ReadKeeps(cfg: Config, s: State, n: nat, stale: seq<byte>)
    requires Inv(cfg, s)
    ensures Inv(cfg, DoRead(cfg, s, n, stale))
  {
    var wire := MoteWire.Wire(s.wired);
    hide SessionProtocol.Run, MoteWire.Wire, CommandsOn, HearAll, DownInv, AirInv, UpInv, CallInv, Heard,
      MoteWire.Arrived;
    if 1 <= n && s.read + n <= |wire| && |stale| >= 10 {
      var cmds := CommandsOn(wire[..s.read + n], cfg.verbose);
      MoreRead(cfg, s, n);
      HearAllKeeps(s.(read := s.read + n), cmds, stale);
      HearKeepsRest(s.(read := s.read + n), cmds, stale);
    }
  }

  lemma DoKeeps(cfg: Config, s: State, m: Move)
    requires TransmitLink.OffsetOk(s.queue) && Inv(cfg, s) && Do(cfg, s, m).Some?
    ensures Inv(cfg, Do(cfg, s, m).value)
  {
    hide Inv, DoSend, DoFlush, DoReceive, DoComplete, DoOther, DoRead, DoStdin;
    match m
    case Send(cback, ptr, attrs, framed, atts, payload) =>
      SendKeeps(cfg, s, BridgeRdc.TxCallback(cback, ptr, attrs), framed, atts, payload);
    case Flush(result, checked, lag) => FlushKeeps(cfg, s, result, checked, lag);
    case Receive(attsLen, buffer) => if |buffer| >= 3 { ReceiveKeeps(cfg, s, attsLen); }
    case Complete(which, status, tx) => CompleteKeeps(cfg, s, which, status, tx);
    case Forward(p) => OtherKeeps(cfg, s, MoteWire.Send(p));
    case Put(c) => OtherKeeps(cfg, s, MoteWire.Put(c));
    case HostReads(n, stale) => ReadKeeps(cfg, s, n, stale);
    case Stdin(line, stale) => if |stale| >= 10 { StdinKeeps(cfg, s, line); }
  }

  lemma BeginKeeps(cfg: Config, now: int)
    ensures Inv(cfg, Begin(now, cfg.verbose))
  {
    TransmitLink.BootConsistent();
  }

  /** Every state of every run is one of the protocol, reached by its steps. */
  lemma {:induction false} RunKeeps(cfg: Config, now: int, moves: seq<Move>)
    requires Run(cfg, now, moves).Some?
    ensures Inv(cfg, Run(cfg, now, moves).value)
  {
    hide Inv, Do;
    if moves == [] {
      BeginKeeps(cfg, now);
    } else {
      RunKeeps(cfg, now, moves[..|moves| - 1]);
      DoKeeps(cfg, Run(cfg, now, moves[..|moves| - 1]).value, moves[|moves| - 1]);
    }
  }

  // ---------------------------------------------------------------- what each move leaves as it was

  ghost predicate SameHost(s: State, t: State) { t.read == s.read && t.given == s.given && t.calls == s.calls }
  ghost predicate SameLink(s: State, t: State) {
    t.registered == s.registered && t.queue == s.queue && t.timer == s.timer
  }
  ghost predicate SameMote(s: State, t: State) {
    t.inbox == s.inbox && t.taken == s.taken && t.ids == s.ids && t.jobs == s.jobs
  }

  lemma SendRest(cfg: Config, s: State, m: Move)
    requires TransmitLink.OffsetOk(s.queue) && m.Send?
    ensures Do(cfg, s, m) == DoSend(cfg, s, BridgeRdc.TxCallback(m.cback, m.ptr, m.attrs), m.framed, m.atts, m.payload)
    ensures Do(cfg, s, m).Some? ==>
      var t := Do(cfg, s, m).value; SameHost(s, t) && SameMote(s, t) && t.wired == s.wired
  {
    hide TransmitLink.Fits, FrameOf, Accepted;
  }

  lemma FlushRest(cfg: Config, s: State, result: TransmitLink.WriteResult, checked: int, lag: nat)
    requires TransmitLink.OffsetOk(s.queue)
    ensures var next := Do(cfg, s, Flush(result, checked, lag));
      var l := TransmitLink.Apply(TransmitLink.Link(s.queue, s.timer, checked, [], false), cfg.sendDelay,
                                  TransmitLink.Round(0, lag, result));
      && (next.None? <==> l.halted)
      && (next.Some? ==>
            var t := next.value;
            && SameHost(s, t) && t.wired == s.wired && t.taken == s.taken && t.ids == s.ids && t.jobs == s.jobs
            && t.registered == s.registered && t.queue == l.queue && t.timer == l.timer
            && t.inbox == Decode(s.inbox, Behind(l.queue.wire, |s.queue.wire|)))
  {
    hide TransmitLink.Apply, Decode, Behind;
  }

  lemma ReceiveRest(cfg: Config, s: State, attsLen: int, buffer: seq<byte>)
    requires TransmitLink.OffsetOk(s.queue) && |buffer| >= 3
    requires s.taken < |s.inbox.frames| && (attsLen < 0 || attsLen + 3 <= |s.inbox.frames[s.taken]|)
    ensures var t := DoReceive(cfg, s, attsLen);
      && Do(cfg, s, Receive(attsLen, buffer)) == Some(t)
      && SameHost(s, t) && SameLink(s, t) && t.wired == s.wired && t.inbox == s.inbox && t.taken == s.taken + 1
  {
    hide Note, MoteRadio.Cut, Starts;
  }

  lemma CompleteRest(cfg: Config, s: State, which: nat, status: int, tx: int)
    requires TransmitLink.OffsetOk(s.queue) && which < |s.jobs| && s.jobs[which].slot < |s.ids.slots|
    ensures var t := DoComplete(s, which, status, tx);
      && Do(cfg, s, Complete(which, status, tx)) == Some(t)
      && t.wired == s.wired
           + [MoteWire.Send(MoteRadio.ReportFrame(s.ids.slots[s.jobs[which].slot], Low8(status), Low8(tx)))]
      && SameHost(s, t) && SameLink(s, t) && t.inbox == s.inbox && t.taken == s.taken && t.ids == s.ids
      && t.jobs == s.jobs[..which] + s.jobs[which + 1..]
  {
    hide MoteRadio.ReportFrame, Arrives;
  }

  lemma OtherRest(cfg: Config, s: State, m: Move, call: MoteWire.Call)
    requires TransmitLink.OffsetOk(s.queue)
    requires (m.Forward? && |m.p| < 0x10000 && call == MoteWire.Send(m.p)) || (m.Put? && call == MoteWire.Put(m.c))
    ensures var t := DoOther(s, call);
      Do(cfg, s, m) == Some(t)
      && SameHost(s, t) && SameLink(s, t) && SameMote(s, t) && t.wired == s.wired + [call]
  {}

  lemma ReadRest(cfg: Config, s: State, n: nat, stale: seq<byte>)
    requires TransmitLink.OffsetOk(s.queue) && 1 <= n && s.read + n <= |MoteWire.Wire(s.wired)| && |stale| >= 10
    ensures Do(cfg, s, HostReads(n, stale)) ==
      Some(HearAll(s.(read := s.read + n), CommandsOn(MoteWire.Wire(s.wired)[..s.read + n], cfg.verbose), stale))
  {
    hide DoRead, DoSend, DoFlush, DoReceive, DoComplete, DoStdin, TransmitLink.OffsetOk, HearAll, MoteWire.Wire,
      CommandsOn;
    ReadIs(cfg, s, n, stale);
  }

  lemma ReadIs(cfg: Config, s: State, n: nat, stale: seq<byte>)
    requires 1 <= n && s.read + n <= |MoteWire.Wire(s.wired)| && |stale| >= 10
    ensures DoRead(cfg, s, n, stale) ==
      HearAll(s.(read := s.read + n), CommandsOn(MoteWire.Wire(s.wired)[..s.read + n], cfg.verbose), stale)
  {
    hide HearAll, MoteWire.Wire, CommandsOn;
  }

  lemma StdinRest(cfg: Config, s: State, line: seq<byte>, stale: seq<byte>)
    requires TransmitLink.OffsetOk(s.queue) && |stale| >= 10
    ensures var next := Do(cfg, s, Stdin(line, stale));
      next == if !Forwarded(line) then Some(s)
              else if TransmitLink.Fits(s.queue, line) then Some(s.(queue := TransmitLink.Push(s.queue, line)))
              else None
  {
    hide TransmitLink.Fits;
  }

  lemma RingShape(w: SessionProtocol.World)
    requires SessionProtocol.Shape(w)
    ensures w.mote.pos < |w.mote.slots| == SLOTS && forall j | j in w.air :: j.slot < SLOTS
  {}

  lemma SlotsKnown(cfg: Config, s: State)
    requires Inv(cfg, s)
    ensures |s.ids.slots| == SLOTS && forall i | 0 <= i < |s.jobs| :: s.jobs[i].slot < SLOTS
  {
    hide SessionProtocol.Run, UpInv, CallInv, DownInv, SessionProtocol.Shape;
    var w := SessionProtocol.Run(s.steps);
    RingShape(w);
    forall i | 0 <= i < |s.jobs| ensures s.jobs[i].slot < SLOTS {
      assert w.air[i] in w.air;
    }
  }

  lemma NextFrameLong(cfg: Config, s: State)
    requires Inv(cfg, s) && s.taken < |s.inbox.frames|
    ensures var f := s.inbox.frames[s.taken]; |f| >= 2 && (Starts(f, CHAR_S) ==> |f| >= 3)
    ensures s.ids.pos < |s.ids.slots|
  {
    hide SessionProtocol.Run, UpInv, CallInv, TransmitLink.Consistent, DownOk, Decode, FrameOf, Starts,
      SessionProtocol.Taken, SessionProtocol.Shape;
    var w := SessionProtocol.Run(s.steps);
    var k := SessionProtocol.Taken(w);
    PacketsLong(s.packets, k, s.queue.packets, s.taken);
    InboxQueued(s.queue, s.inbox);
    DownNext(s.packets, k, s.queue.packets, s.taken);
    if Starts(s.inbox.frames[s.taken], CHAR_S) {
      FrameHas(s.packets, k);
    }
    RingShape(w);
  }
}
