/** The two nodes never get stuck: whatever has happened, they can go on until everything is quiet. */
module TwoNodeProgress {
  import opened SlipCodec
  import opened CommandLetters
  import opened Options
  import opened SessionLinks
  import opened TwoNodes
  import opened TwoNodeTheorems
  import SessionProtocol
  import TransmitLink
  import SerialInput
  import MoteWire
  import MoteRadio
  import EndToEnd

  // ---------------------------------------------------------------- going on

  /** Nothing more has been sent, and unless lines are echoed no packet rejected and no report lost. */
  ghost predicate Spares(verbose: int, s: State, t: State) {
    && t.packets == s.packets && t.registered == s.registered
    && (!SerialInput.EchoesLines(verbose) ==> GentlyOn(s.steps, t.steps))
  }

  ghost predicate GentlyOn(before: seq<SessionProtocol.Step>, after: seq<SessionProtocol.Step>) {
    before <= after && forall x | x in after[|before|..] :: SessionProtocol.Gentle(x)
  }

  lemma GentlyTwice(a: seq<SessionProtocol.Step>, b: seq<SessionProtocol.Step>, c: seq<SessionProtocol.Step>)
    requires GentlyOn(a, b) && GentlyOn(b, c)
    ensures GentlyOn(a, c)
  {
    hide SessionProtocol.Gentle;
    assert c[|a|..] == b[|a|..] + c[|b|..];
  }

  ghost predicate GoesOn(cfg: Config, now: int, moves: seq<Move>, more: seq<Move>) {
    && Run(cfg, now, moves).Some? && Run(cfg, now, moves + more).Some?
    && Spares(cfg.verbose, Run(cfg, now, moves).value, Run(cfg, now, moves + more).value)
  }

  lemma NoMore(cfg: Config, now: int, moves: seq<Move>)
    requires Run(cfg, now, moves).Some?
    ensures GoesOn(cfg, now, moves, []) && moves + [] == moves
  {
    hide Run;
    assert moves + [] == moves;
  }

  lemma OneMove(cfg: Config, now: int, moves: seq<Move>, m: Move)
    requires Run(cfg, now, moves).Some?
    requires var s := Run(cfg, now, moves).value;
      Do(cfg, s, m).Some? && Spares(cfg.verbose, s, Do(cfg, s, m).value)
    ensures GoesOn(cfg, now, moves, [m])
    ensures Run(cfg, now, moves + [m]) == Do(cfg, Run(cfg, now, moves).value, m)
  {
    hide Do, Spares;
    assert (moves + [m])[..|moves|] == moves;
  }

  lemma AndOn(cfg: Config, now: int, moves: seq<Move>, a: seq<Move>, b: seq<Move>)
    requires GoesOn(cfg, now, moves, a) && GoesOn(cfg, now, moves + a, b)
    ensures GoesOn(cfg, now, moves, a + b) && moves + (a + b) == moves + a + b
  {
    hide Run, GentlyOn;
    assert moves + (a + b) == moves + a + b;
    var s, t, u := Run(cfg, now, moves).value, Run(cfg, now, moves + a).value, Run(cfg, now, moves + a + b).value;
    if !SerialInput.EchoesLines(cfg.verbose) {
      GentlyTwice(s.steps, t.steps, u.steps);
    }
  }

  // ---------------------------------------------------------------- the transmit queue

  ghost function Waiting(q: TransmitLink.Queue): nat {
    if q.offset <= |TransmitLink.Flatten(q.frames)| then |TransmitLink.Pending(q)| else 0
  }

  /** Once the timer has expired a `write` of one byte brings the queue on. */
  function Write1(s: State): Move { Flush(TransmitLink.Took(1), s.timer.start + s.timer.interval, 0) }

  lemma RoundTakes1(q: TransmitLink.Queue, timer: TransmitLink.Timer, delay: nat)
    requires TransmitLink.Consistent(q) && q.frames != []
    ensures var l := TransmitLink.Apply(TransmitLink.Link(q, timer, timer.start + timer.interval, [], false), delay,
                                        TransmitLink.Round(0, 0, TransmitLink.Took(1)));
      !l.halted && Waiting(l.queue) < Waiting(q)
  {
    var l := TransmitLink.Link(q, timer, timer.start + timer.interval, [], false);
    TransmitLink.ApplyConsistent(l, delay, TransmitLink.Round(0, 0, TransmitLink.Took(1)));
    TransmitLink.PendingSize(q);
    TransmitLink.DrainedSize(q, 1);
    hide TransmitLink.Flatten, TransmitLink.Pending, Encode, EncodeAll;
  }

  lemma Write1Goes(cfg: Config, s: State)
    requires Inv(cfg, s) && TransmitLink.OffsetOk(s.queue) && s.queue.frames != []
    ensures var next := Do(cfg, s, Write1(s));
      next.Some? && Spares(cfg.verbose, s, next.value) && Waiting(next.value.queue) < Waiting(s.queue)
  {
    hide *;
    QueueConsistent(cfg, s);
    Write1Queue(cfg, s);
    DoSends(cfg, s, Write1(s));
    NoSend(cfg, s);
    FlushSteps(cfg, s, TransmitLink.Took(1), s.timer.start + s.timer.interval, 0);
    SameSteps(cfg.verbose, s, Do(cfg, s, Write1(s)).value);
  }

  lemma NoSend(cfg: Config, s: State)
    ensures !Admits(cfg, Write1(s)) && s.packets + [] == s.packets && s.registered + [] == s.registered
    ensures Write1(s) == Flush(TransmitLink.Took(1), s.timer.start + s.timer.interval, 0)
  {}

  lemma Write1Queue(cfg: Config, s: State)
    requires TransmitLink.Consistent(s.queue) && TransmitLink.OffsetOk(s.queue) && s.queue.frames != []
    ensures var next := Do(cfg, s, Write1(s)); next.Some? && Waiting(next.value.queue) < Waiting(s.queue)
  {
    hide Do, Waiting, TransmitLink.Consistent, TransmitLink.Apply, TransmitLink.OffsetOk, Decode, Behind;
    RoundTakes1(s.queue, s.timer, cfg.sendDelay);
    FlushRest(cfg, s, TransmitLink.Took(1), s.timer.start + s.timer.interval, 0);
  }

  lemma QueueConsistent(cfg: Config, s: State)
    requires Inv(cfg, s)
    ensures TransmitLink.Consistent(s.queue)
  {
    hide SessionProtocol.Run, UpInv, AirInv, CallInv, TransmitLink.Consistent, DownOk, Decode;
  }

  lemma SameSteps(verbose: int, s: State, t: State)
    requires t.packets == s.packets && t.registered == s.registered && t.steps == s.steps
    ensures Spares(verbose, s, t)
  {}

  lemma FlushSteps(cfg: Config, s: State, result: TransmitLink.WriteResult, checked: int, lag: nat)
    requires TransmitLink.OffsetOk(s.queue) && Do(cfg, s, Flush(result, checked, lag)).Some?
    ensures var t := Do(cfg, s, Flush(result, checked, lag)).value; t.steps == s.steps
  {
    hide TransmitLink.Apply, Decode, Behind;
  }

  lemma {:induction false} WriteAll(cfg: Config, now: int, moves: seq<Move>) returns (more: seq<Move>)
    requires Run(cfg, now, moves).Some?
    ensures GoesOn(cfg, now, moves, more)
    ensures Run(cfg, now, moves + more).value.queue.frames == []
    decreases Waiting(Run(cfg, now, moves).value.queue)
  {
    hide Run, Do, Inv, Waiting, Spares, GoesOn, TransmitLink.OffsetOk;
    var s := Run(cfg, now, moves).value;
    NoMore(cfg, now, moves);
    more := [];
    if s.queue.frames != [] {
      RunOffset(cfg, now, moves);
      RunKeeps(cfg, now, moves);
      Write1Goes(cfg, s);
      OneMove(cfg, now, moves, Write1(s));
      GoesRun(cfg, now, moves, [Write1(s)]);
      var rest := WriteAll(cfg, now, moves + [Write1(s)]);
      AndOn(cfg, now, moves, [Write1(s)], rest);
      more := [Write1(s)] + rest;
    }
  }

  lemma RunOffset(cfg: Config, now: int, moves: seq<Move>)
    requires Run(cfg, now, moves).Some?
    ensures TransmitLink.OffsetOk(Run(cfg, now, moves).value.queue)
  {}

  lemma GoesRun(cfg: Config, now: int, moves: seq<Move>, more: seq<Move>)
    requires GoesOn(cfg, now, moves, more)
    ensures Run(cfg, now, moves + more).Some?
  {}

  // ---------------------------------------------------------------- the mote's commands

  /** The mote takes the next command, and accepts it if it is an `!S` command. */
  function Accept(s: State): Move
    requires s.taken < |s.inbox.frames|
  {
    Receive(if Starts(s.inbox.frames[s.taken], CHAR_S) then 0 else -1, [0, 0, 0])
  }

  lemma AcceptGoes(cfg: Config, s: State)
    requires Inv(cfg, s) && TransmitLink.OffsetOk(s.queue) && s.taken < |s.inbox.frames|
    ensures var next := Do(cfg, s, Accept(s));
      && next.Some? && Spares(cfg.verbose, s, next.value)
      && next.value.queue == s.queue && next.value.inbox == s.inbox && next.value.taken == s.taken + 1
  {
    NextFrameLong(cfg, s);
    var attsLen := if Starts(s.inbox.frames[s.taken], CHAR_S) then 0 else -1;
    hide Inv, Do, TransmitLink.OffsetOk, Spares;
    ReceiveRest(cfg, s, attsLen, [0, 0, 0]);
    DoSends(cfg, s, Accept(s));
    AcceptSteps(cfg, s, attsLen);
    var t := DoReceive(cfg, s, attsLen);
    if Starts(s.inbox.frames[s.taken], CHAR_S) {
      OneStep(cfg.verbose, s, t, SessionProtocol.Receive(true));
    } else {
      SameSteps(cfg.verbose, s, t);
    }
  }

  lemma AcceptSteps(cfg: Config, s: State, attsLen: int)
    requires s.taken < |s.inbox.frames| && s.ids.pos < |s.ids.slots|
    requires var f := s.inbox.frames[s.taken];
      (Starts(f, CHAR_S) ==> |f| >= 3) && attsLen == if Starts(f, CHAR_S) then 0 else -1
    ensures DoReceive(cfg, s, attsLen).steps
         == s.steps + if Starts(s.inbox.frames[s.taken], CHAR_S) then [SessionProtocol.Receive(true)] else []
  {
    hide MoteRadio.Cut, Starts;
    assert s.steps + [] == s.steps;
  }

  lemma OneStep(verbose: int, s: State, t: State, x: SessionProtocol.Step)
    requires t.packets == s.packets && t.registered == s.registered && t.steps == s.steps + [x]
    requires SessionProtocol.Gentle(x)
    ensures Spares(verbose, s, t)
  {
    assert t.steps[|s.steps|..] == [x];
  }

  lemma {:induction false} AcceptAll(cfg: Config, now: int, moves: seq<Move>) returns (more: seq<Move>)
    requires Run(cfg, now, moves).Some? && Run(cfg, now, moves).value.queue.frames == []
    ensures GoesOn(cfg, now, moves, more)
    ensures var t := Run(cfg, now, moves + more).value; t.queue.frames == [] && t.taken == |t.inbox.frames|
    decreases |Run(cfg, now, moves).value.inbox.frames| - Run(cfg, now, moves).value.taken
  {
    hide Run, Do, Inv, Spares, GoesOn, TransmitLink.OffsetOk, Accept;
    var s := Run(cfg, now, moves).value;
    NoMore(cfg, now, moves);
    RunKeeps(cfg, now, moves);
    TakenSome(cfg, s);
    more := [];
    if s.taken < |s.inbox.frames| {
      RunOffset(cfg, now, moves);
      AcceptGoes(cfg, s);
      OneMove(cfg, now, moves, Accept(s));
      GoesRun(cfg, now, moves, [Accept(s)]);
      var rest := AcceptAll(cfg, now, moves + [Accept(s)]);
      AndOn(cfg, now, moves, [Accept(s)], rest);
      more := [Accept(s)] + rest;
    }
  }

  lemma TakenSome(cfg: Config, s: State)
    requires Inv(cfg, s)
    ensures s.taken <= |s.inbox.frames|
  {
    hide SessionProtocol.Run, UpInv, AirInv, CallInv, TransmitLink.Consistent, DownOk, Decode;
  }

  // ---------------------------------------------------------------- the radio

  /** The link down is quiet, and no ESC of the text is open. */
  ghost predicate Ready(s: State) {
    s.queue.frames == [] && s.taken == |s.inbox.frames| && !MoteWire.EscOpen(s.wired)
  }

  lemma PutGoes(cfg: Config, s: State)
    requires TransmitLink.OffsetOk(s.queue) && s.queue.frames == [] && s.taken == |s.inbox.frames|
    ensures var next := Do(cfg, s, Put(0));
      next.Some? && Spares(cfg.verbose, s, next.value) && Ready(next.value)
  {
    var call := MoteWire.Put(0);
    assert (s.wired + [call])[..|s.wired|] == s.wired;
    hide MoteWire.LineOpen;
    SameSteps(cfg.verbose, s, DoOther(s, call));
  }

  lemma Finish1Goes(cfg: Config, s: State)
    requires Inv(cfg, s) && TransmitLink.OffsetOk(s.queue) && Ready(s) && s.jobs != []
    ensures var next := Do(cfg, s, Complete(0, 0, 0));
      && next.Some? && Spares(cfg.verbose, s, next.value) && Ready(next.value)
      && |next.value.jobs| == |s.jobs| - 1
  {
    SlotsKnown(cfg, s);
    var report := MoteRadio.ReportFrame(s.ids.slots[s.jobs[0].slot], Low8(0), Low8(0));
    SentCloses(s.wired, report);
    EndToEnd.ReportRemains(s.ids.slots[s.jobs[0].slot], Low8(0), Low8(0), cfg.verbose);
    OwnCount(cfg, s);
    hide Inv, Do, TransmitLink.OffsetOk, MoteWire.EscOpen, SerialInput.Left, MoteRadio.ReportFrame,
      SerialInput.EchoesLines;
    CompleteRest(cfg, s, 0, 0, 0);
    DoSends(cfg, s, Complete(0, 0, 0));
    if !SerialInput.EchoesLines(cfg.verbose) {
      OneStep(cfg.verbose, s, DoComplete(s, 0, 0, 0), SessionProtocol.Complete(0, 0, 0));
    }
  }

  lemma SentCloses(calls: seq<MoteWire.Call>, p: seq<byte>)
    ensures !MoteWire.EscOpen(calls + [MoteWire.Send(p)])
  {}

  lemma {:induction false} FinishAll(cfg: Config, now: int, moves: seq<Move>) returns (more: seq<Move>)
    requires Run(cfg, now, moves).Some? && Ready(Run(cfg, now, moves).value)
    ensures GoesOn(cfg, now, moves, more)
    ensures var t := Run(cfg, now, moves + more).value; Ready(t) && t.jobs == []
    decreases |Run(cfg, now, moves).value.jobs|
  {
    hide Run, Do, Inv, Spares, GoesOn, TransmitLink.OffsetOk, Ready;
    var s, m := Run(cfg, now, moves).value, Complete(0, 0, 0);
    NoMore(cfg, now, moves);
    more := [];
    if s.jobs != [] {
      RunKeeps(cfg, now, moves);
      RunOffset(cfg, now, moves);
      Finish1Goes(cfg, s);
      OneMove(cfg, now, moves, m);
      GoesRun(cfg, now, moves, [m]);
      var rest := FinishAll(cfg, now, moves + [m]);
      AndOn(cfg, now, moves, [m], rest);
      more := [m] + rest;
    }
  }

  // ---------------------------------------------------------------- the link up

  lemma {:induction false} HearGently(s: State, cmds: seq<seq<byte>>, stale: seq<byte>)
    ensures GentlyOn(s.steps, HearAll(s, cmds, stale).steps)
    decreases |cmds| - |s.given|
  {
    if |s.given| < |cmds| {
      var t := Hear1(s, cmds[|s.given|], stale);
      GivenGrows(s, cmds[|s.given|], stale);
      Hear1Gently(s, cmds[|s.given|], stale);
      HearGently(t, cmds, stale);
      hide Hear1;
      GentlyTwice(s.steps, t.steps, HearAll(t, cmds, stale).steps);
    }
  }

  lemma Hear1Gently(s: State, f: seq<byte>, stale: seq<byte>)
    ensures GentlyOn(s.steps, Hear1(s, f, stale).steps)
  {
    hide Commands, CallFor;
    var t := Hear1(s, f, stale);
    assert t.steps[|s.steps|..] == [] || t.steps[|s.steps|..] == [SessionProtocol.Handle];
  }

  const STALE: seq<byte> := [0, 0, 0, 0, 0, 0, 0, 0, 0, 0]

  /** The host reads all the rest. */
  lemma ReadGoes(cfg: Config, s: State)
    requires Inv(cfg, s) && TransmitLink.OffsetOk(s.queue) && s.read < |MoteWire.Wire(s.wired)|
    ensures var next := Do(cfg, s, HostReads(|MoteWire.Wire(s.wired)| - s.read, STALE));
      && next.Some? && Spares(cfg.verbose, s, next.value)
      && next.value.queue == s.queue && next.value.taken == s.taken && next.value.inbox == s.inbox
      && next.value.jobs == s.jobs && next.value.wired == s.wired && next.value.read == |MoteWire.Wire(s.wired)|
  {
    hide Inv, Do, TransmitLink.OffsetOk, MoteWire.Wire, CommandsOn, HearAll, GentlyOn, STALE;
    var n := |MoteWire.Wire(s.wired)| - s.read;
    var r, cmds := s.(read := s.read + n), CommandsOn(MoteWire.Wire(s.wired)[..s.read + n], cfg.verbose);
    StaleLong();
    ReadRest(cfg, s, n, STALE);
    HearKeepsRest(r, cmds, STALE);
    HearGently(r, cmds, STALE);
  }

  lemma StaleLong()
    ensures |STALE| == 10
  {}

  lemma ReadSome(cfg: Config, s: State)
    requires Inv(cfg, s)
    ensures s.read <= |MoteWire.Wire(s.wired)|
  {
    hide MoteWire.Wire, SessionProtocol.Run, UpInv, DownInv, AirInv, CallInv;
  }

  lemma ReadAll(cfg: Config, now: int, moves: seq<Move>) returns (more: seq<Move>)
    requires Run(cfg, now, moves).Some? && Ready(Run(cfg, now, moves).value)
    requires Run(cfg, now, moves).value.jobs == []
    ensures GoesOn(cfg, now, moves, more)
    ensures Drained(Run(cfg, now, moves + more).value)
  {
    hide Run, Do, Inv, Spares, GoesOn, TransmitLink.OffsetOk, MoteWire.EscOpen, MoteWire.Wire;
    var s := Run(cfg, now, moves).value;
    RunKeeps(cfg, now, moves);
    ReadSome(cfg, s);
    NoMore(cfg, now, moves);
    more := [];
    if s.read < |MoteWire.Wire(s.wired)| {
      RunOffset(cfg, now, moves);
      ReadGoes(cfg, s);
      more := [HostReads(|MoteWire.Wire(s.wired)| - s.read, STALE)];
      OneMove(cfg, now, moves, more[0]);
    }
  }

  // ---------------------------------------------------------------- progress

  lemma DrainAll(cfg: Config, now: int, moves: seq<Move>) returns (more: seq<Move>)
    requires Run(cfg, now, moves).Some?
    ensures GoesOn(cfg, now, moves, more)
    ensures Drained(Run(cfg, now, moves + more).value)
  {
    hide Run, Do, Inv, Spares, GoesOn, TransmitLink.OffsetOk, Ready, Drained;
    var a := WriteAll(cfg, now, moves);
    GoesRun(cfg, now, moves, a);
    var b := AcceptAll(cfg, now, moves + a);
    AndOn(cfg, now, moves, a, b);
    more := a + b;
    GoesRun(cfg, now, moves, more);
    RunOffset(cfg, now, moves + more);
    PutGoes(cfg, Run(cfg, now, moves + more).value);
    OneMove(cfg, now, moves + more, Put(0));
    AndOn(cfg, now, moves, more, [Put(0)]);
    more := more + [Put(0)];
    GoesRun(cfg, now, moves, more);
    var d := FinishAll(cfg, now, moves + more);
    AndOn(cfg, now, moves, more, d);
    more := more + d;
    GoesRun(cfg, now, moves, more);
    var e := ReadAll(cfg, now, moves + more);
    AndOn(cfg, now, moves, more, e);
    more := more + e;
  }

  /** Packet k has been reported to the host. */
  ghost predicate Reported(s: State, k: nat) {
    var w := SessionProtocol.Run(s.steps);
    exists i :: 0 <= i < |w.radio| && i < |Answers(s)| && w.radio[i].pkt == k
  }

  ghost predicate GoneIn(s: State, k: nat) {
    var w := SessionProtocol.Run(s.steps);
    k < |w.place| && SessionProtocol.Gone(w.place[k])
  }

  lemma SparedStay(cfg: Config, now: int, moves: seq<Move>, more: seq<Move>, k: nat)
    requires GoesOn(cfg, now, moves, more) && !SerialInput.EchoesLines(cfg.verbose)
    requires k < |Run(cfg, now, moves).value.packets|
    ensures GoneIn(Run(cfg, now, moves + more).value, k) <==> GoneIn(Run(cfg, now, moves).value, k)
  {
    hide Run, SessionProtocol.Run, SessionProtocol.Gone, SessionProtocol.Gentle;
    var s, t := Run(cfg, now, moves).value, Run(cfg, now, moves + more).value;
    assert t.steps == s.steps + t.steps[|s.steps|..];
    SessionProtocol.StepsSpare(s.steps, t.steps[|s.steps|..]);
  }

  /** Progress: from whatever state a run has reached, both nodes can go on, without sending anything else
      and without the program ending, until everything is quiet; and unless lines are echoed, every packet that
      has not been rejected, and whose report has not been lost, by then has been reported. */
  lemma CanFinish(cfg: Config, now: int, moves: seq<Move>) returns (more: seq<Move>)
    requires Run(cfg, now, moves).Some?
    ensures Run(cfg, now, moves + more).Some?
    ensures var s, t := Run(cfg, now, moves).value, Run(cfg, now, moves + more).value;
      && Drained(t) && t.packets == s.packets && t.registered == s.registered
      && (!SerialInput.EchoesLines(cfg.verbose) ==>
            forall k | 0 <= k < |s.packets| :: Reported(t, k) <==> !GoneIn(s, k))
  {
    hide Run, Drained, GentlyOn, GoneIn, Reported;
    more := DrainAll(cfg, now, moves);
    var s, t := Run(cfg, now, moves).value, Run(cfg, now, moves + more).value;
    if !SerialInput.EchoesLines(cfg.verbose) {
      forall k | 0 <= k < |s.packets|
        ensures Reported(t, k) <==> !GoneIn(s, k)
      {
        SparedStay(cfg, now, moves, more, k);
        AnsweredOrGone(cfg, now, moves + more, k);
      }
    }
  }

  lemma AnsweredOrGone(cfg: Config, now: int, moves: seq<Move>, k: nat)
    requires Run(cfg, now, moves).Some?
    requires Drained(Run(cfg, now, moves).value) && k < |Run(cfg, now, moves).value.packets|
    ensures Reported(Run(cfg, now, moves).value, k) <==> !GoneIn(Run(cfg, now, moves).value, k)
  {
    hide Run, Drained, SessionProtocol.Run, SessionProtocol.Gone, Answers;
    AllAnswered(cfg, now, moves, k);
  }
}
