/** What every run of the two nodes comes to: which callback each report reaches, what else the mote's output
    can make the host call, and what has happened once everything is quiet. */
module TwoNodeTheorems {
  import opened SlipCodec
  import opened CommandLetters
  import opened Options
  import opened SessionRings
  import opened SessionLinks
  import opened TwoNodes
  import SessionProtocol
  import TransmitLink
  import SerialInput
  import ReceiverTheorems
  import MoteWire
  import SharedWire
  import BridgeRdc
  import MoteRadio
  import EndToEnd

  /** The calls that the mote's own reports led to. */
  function Answers(s: State): seq<BridgeRdc.SentCall> { OwnCalls(s.calls, Seen(s)) }

  function AllCalls(calls: seq<HostCall>): seq<BridgeRdc.SentCall> {
    if calls == [] then [] else AllCalls(calls[..|calls| - 1]) + [calls[|calls| - 1].call]
  }

  // ---------------------------------------------------------------- whose callback

  /** A registration other than number k, or an unused slot. */
  ghost predicate AnotherOrNone(c: BridgeRdc.TxCallback, registered: seq<BridgeRdc.TxCallback>, k: nat) {
    c == BridgeRdc.Unset || exists m :: 0 <= m < |registered| && m != k && c == registered[m]
  }

  lemma MatchedCall(steps: seq<SessionProtocol.Step>, registered: seq<BridgeRdc.TxCallback>,
                    calls: seq<BridgeRdc.SentCall>, i: nat)
    requires var w := SessionProtocol.Run(steps); |registered| == w.sent && CallsOk(w.invoked, registered, calls)
    requires i < |calls|
    ensures var w := SessionProtocol.Run(steps);
      && i < |w.radio| && i < |w.invoked|
      && calls[i].status == w.radio[i].status && calls[i].tx == w.radio[i].tx
      && (w.invoked[i].registered <= w.radio[i].pkt + SLOTS ==>
            w.radio[i].pkt < |registered| && calls[i].callback == registered[w.radio[i].pkt])
      && (w.invoked[i].registered > w.radio[i].pkt + SLOTS ==>
            AnotherOrNone(calls[i].callback, registered, w.radio[i].pkt))
  {
    hide SessionProtocol.Run;
    var w := SessionProtocol.Run(steps);
    SessionProtocol.ReportsInOrder(steps);
    assert w.radio[i] == SessionProtocol.InvokedOutcomes(w.invoked)[i];
    SessionProtocol.SessionMatching(steps, w.invoked[i]);
  }

  lemma AnswersOk(cfg: Config, now: int, moves: seq<Move>)
    requires Run(cfg, now, moves).Some?
    ensures var s := Run(cfg, now, moves).value;
      var w := SessionProtocol.Run(s.steps);
      && |s.registered| == |s.packets| == w.sent && CallsOk(w.invoked, s.registered, Answers(s))
  {
    hide Run, SessionProtocol.Run, UpInv, AirInv, CallsOk, OwnCalls, Calling, Seen;
    RunKeeps(cfg, now, moves);
  }

  /** In every run, whatever else the line carries: the calls that the mote's reports lead to are about the
      radio's completions, in their order, each with its own status and count. Each invokes the callback that
      was registered for its packet if and only if by then the packet 16 sends later had not been registered;
      otherwise it invokes that of another packet, or none. */
  lemma {:induction false} AnswersMatch(cfg: Config, now: int, moves: seq<Move>, i: nat)
    requires Run(cfg, now, moves).Some?
    requires i < |Answers(Run(cfg, now, moves).value)|
    ensures var s := Run(cfg, now, moves).value;
      var w, a := SessionProtocol.Run(s.steps), Answers(s)[i];
      && i < |w.radio| && i < |w.invoked| == |Answers(s)|
      && a.status == w.radio[i].status && a.tx == w.radio[i].tx
      && (w.invoked[i].registered <= w.radio[i].pkt + SLOTS ==>
            w.radio[i].pkt < |s.registered| && a.callback == s.registered[w.radio[i].pkt])
      && (w.invoked[i].registered > w.radio[i].pkt + SLOTS ==>
            AnotherOrNone(a.callback, s.registered, w.radio[i].pkt))
  {
    hide Run, SessionProtocol.Run, Answers;
    AnswersOk(cfg, now, moves);
    MatchedCall(Run(cfg, now, moves).value.steps, Run(cfg, now, moves).value.registered,
                Answers(Run(cfg, now, moves).value), i);
  }

  // ---------------------------------------------------------------- calls that no report led to

  lemma {:induction false} OwnAmongAll(calls: seq<HostCall>, seen: seq<MoteWire.Tagged>)
    ensures |OwnCalls(calls, seen)| <= |calls| == |AllCalls(calls)|
    ensures (forall c | c in calls :: c.cause < |seen| && seen[c.cause].own) ==>
      OwnCalls(calls, seen) == AllCalls(calls)
    ensures |OwnCalls(calls, seen)| == |calls| ==> forall c | c in calls :: c.cause < |seen| && seen[c.cause].own
  {
    if calls != [] {
      var init, c := calls[..|calls| - 1], calls[|calls| - 1];
      OwnAmongAll(init, seen);
      assert calls == init + [c] && c in calls && forall x | x in init :: x in calls;
      assert OwnCalls(init, seen) + [] == OwnCalls(init, seen);
    }
  }

  /** The host makes no calls but the answers exactly when no command it was given was taken for a
      report with an id of the ring without being one of the mote's. */
  lemma {:induction false} OnlyAnswers(cfg: Config, now: int, moves: seq<Move>)
    requires Run(cfg, now, moves).Some?
    ensures var s := Run(cfg, now, moves).value;
      && |Seen(s)| == |s.given|
      && (AllCalls(s.calls) == Answers(s) <==> forall i | 0 <= i < |s.given| && IsCall(s.given[i]) :: Seen(s)[i].own)
  {
    RunKeeps(cfg, now, moves);
    hide Run;
    var s := Run(cfg, now, moves).value;
    StrayCalls(s, SessionProtocol.Run(s.steps), Heardable(cfg, s));
  }

  lemma StrayCalls(s: State, w: SessionProtocol.World, cmds: seq<seq<byte>>)
    requires UpInv(s, w, cmds) && CallInv(s, w)
    ensures |Seen(s)| == |s.given|
    ensures AllCalls(s.calls) == Answers(s) <==> forall i | 0 <= i < |s.given| && IsCall(s.given[i]) :: Seen(s)[i].own
  {
    hide Commands, CallsOk, IsCall, OwnCalls, AllCalls, Calling, MoteWire.Own, MoteWire.Frames, ReportFrames;
    OwnAmongAll(s.calls, Seen(s));
    CausesGiven(s);
    CallingExact(s.given);
    hide Causes, Seen;
    if forall i | 0 <= i < |s.given| && IsCall(s.given[i]) :: Seen(s)[i].own {
      assert forall c | c in s.calls :: c.cause < |Seen(s)| && Seen(s)[c.cause].own;
    }
    if AllCalls(s.calls) == Answers(s) {
      forall i | 0 <= i < |s.given| && IsCall(s.given[i]) ensures Seen(s)[i].own {
        CauseOf(s, i);
      }
    }
  }

  lemma CauseOf(s: State, i: nat)
    requires Causes(s.calls) == Calling(s.given) && i < |s.given| && IsCall(s.given[i])
    ensures exists c :: c in s.calls && c.cause == i
  {
    CallingExact(s.given);
    assert i in Causes(s.calls);
    var j :| 0 <= j < |s.calls| && Causes(s.calls)[j] == i;
    assert s.calls[j] in s.calls && s.calls[j].cause == i;
  }

  /** When the host has read everything it has been given all commands that the mote's output leads to. */
  lemma AllGiven(cfg: Config, s: State)
    requires Inv(cfg, s) && s.read == |MoteWire.Wire(s.wired)|
    ensures |s.given| == |Commands(s)| && Seen(s) == Commands(s)
    ensures forall i | 0 <= i < |s.given| :: s.given[i].f == Commands(s)[i].f
    ensures SessionProtocol.Run(s.steps).up == []
  {
    hide SessionProtocol.Run, MoteWire.Arrived, Heard, DownInv, AirInv, CallInv, MoteWire.Wire, CommandsOn,
      MoteWire.Own, MoteWire.Frames;
    SomeHeard(s.wired, s.own, s.read, cfg.verbose);
    CountTagged(Commands(s));
    forall i | 0 <= i < |s.given| ensures s.given[i].f == Commands(s)[i].f {
      TaggedAt(Commands(s), i);
    }
    assert Commands(s)[..|s.given|] == Commands(s);
    NothingUp(SessionProtocol.Run(s.steps));
  }

  lemma NothingUp(w: SessionProtocol.World)
    ensures |ReportFrames(w)| == |w.invoked| ==> w.up == []
  {}

  /** The packets that are no reports of the mote. */
  function Others(calls: seq<MoteWire.Call>, own: seq<bool>): seq<seq<byte>> {
    if calls == [] then []
    else
      var n := |calls| - 1;
      Others(calls[..n], own) + if calls[n].Send? && !MoteWire.Mark(own, n) then [calls[n].p] else []
  }

  /** The frames that are none. */
  function Strange(ts: seq<MoteWire.Tagged>): seq<seq<byte>> {
    if ts == [] then []
    else Strange(ts[..|ts| - 1]) + if ts[|ts| - 1].own then [] else [ts[|ts| - 1].f]
  }

  lemma {:induction false} StrangeConcat(a: seq<MoteWire.Tagged>, b: seq<MoteWire.Tagged>)
    ensures Strange(a + b) == Strange(a) + Strange(b)
  {
    if b == [] {
      assert a + b == a;
    } else {
      var n := |b| - 1;
      assert (a + b)[..|a + b| - 1] == a + b[..n];
      StrangeConcat(a, b[..n]);
    }
  }

  lemma {:induction false} StrangeExact(ts: seq<MoteWire.Tagged>)
    ensures forall t | t in ts && !t.own :: t.f in Strange(ts)
    ensures forall f | f in Strange(ts) :: exists t :: t in ts && !t.own && t.f == f
  {
    if ts != [] {
      var init, t := ts[..|ts| - 1], ts[|ts| - 1];
      StrangeExact(init);
      assert ts == init + [t] && t in ts;
      forall f | f in Strange(ts) ensures exists x :: x in ts && !x.own && x.f == f {
        if f in Strange(init) {
          var x :| x in init && !x.own && x.f == f;
          assert x in ts;
        }
      }
    }
  }

  lemma DecodedPlain(calls: seq<MoteWire.Call>)
    requires MoteWire.PlainText(calls)
    ensures MoteWire.Decoded(calls) == MoteWire.View(MoteWire.Arrive(calls))
  {
    MoteWire.InterleavingSafety(calls);
  }

  lemma SendCompleted(init: seq<MoteWire.Call>, p: seq<byte>, mine: bool)
    requires MoteWire.PlainText(init)
    ensures MoteWire.Completed(MoteWire.Decoded(init), MoteWire.LineOpen(init), MoteWire.Send(p), mine)
         == MoteWire.Foreign(Deliver(SharedWire.Closing(init, MoteWire.Send(p))))
          + if p != [] then [MoteWire.Tagged(p, mine)] else []
  {
    hide MoteWire.Decoded, MoteWire.Arrive, MoteWire.PlainText, MoteWire.Foreign, MoteWire.Bytes;
    DecodedPlain(init);
  }

  lemma PutCompleted(init: seq<MoteWire.Call>, c: int)
    requires MoteWire.PlainText(init) && Low8(c) != END && Low8(c) != ESC
    ensures MoteWire.Completed(MoteWire.Decoded(init), MoteWire.LineOpen(init), MoteWire.Put(c), false)
         == MoteWire.Foreign(Deliver(SharedWire.Closing(init, MoteWire.Put(c))))
  {
    hide MoteWire.Decoded, MoteWire.Arrive, MoteWire.PlainText, MoteWire.Foreign, MoteWire.Bytes, Decode,
      MoteWire.PutBytes, MoteWire.LineOpen, SharedWire.Closing;
    var d, a, open := MoteWire.Decoded(init), MoteWire.Arrive(init), MoteWire.LineOpen(init);
    DecodedPlain(init);
    PutFrames(init, c);
    NewText(d, open, c, a, SharedWire.Closing(init, MoteWire.Put(c)));
  }

  lemma PutFrames(init: seq<MoteWire.Call>, c: int)
    requires MoteWire.PlainText(init) && Low8(c) != END && Low8(c) != ESC
    ensures var a, closing := MoteWire.Arrive(init), SharedWire.Closing(init, MoteWire.Put(c));
      Decode(MoteWire.View(a), MoteWire.PutBytes(MoteWire.LineOpen(init), c)).frames
      == MoteWire.Bytes(a.pieces + if closing == [] then [] else [MoteWire.Text(closing)])
  {
    hide Decode, MoteWire.PutBytes, MoteWire.Bytes, MoteWire.LineOpen, SharedWire.Closing;
    var a, call := MoteWire.Arrive(init), MoteWire.Put(c);
    MoteWire.PutView(a, MoteWire.LineOpen(init), c);
    SharedWire.ArriveSnoc(init, call);
    SharedWire.PiecesGrow(init, call);
    hide MoteWire.Arrive, MoteWire.Flush;
    var t := if SharedWire.Closing(init, call) == [] then [] else [MoteWire.Text(SharedWire.Closing(init, call))];
    assert a.pieces + t + [] == a.pieces + t;
  }

  lemma NewText(d: Decoder, open: bool, c: int, a: MoteWire.Arrival, closing: seq<byte>)
    requires d == MoteWire.View(a)
    requires Decode(d, MoteWire.PutBytes(open, c)).frames
          == MoteWire.Bytes(a.pieces + if closing == [] then [] else [MoteWire.Text(closing)])
    ensures Decode(d.(frames := []), MoteWire.PutBytes(open, c)).frames == Deliver(closing)
  {
    hide Decode, MoteWire.PutBytes, MoteWire.Bytes;
    MoteWire.DecodeOffset(d, MoteWire.PutBytes(open, c));
    MoteWire.PiecesSnoc(a.pieces, MoteWire.Text(closing));
    var more := Decode(d.(frames := []), MoteWire.PutBytes(open, c)).frames;
    assert a.pieces + [] == a.pieces;
    assert d.frames + more == MoteWire.Bytes(a.pieces) + Deliver(closing);
    assert (d.frames + more)[|d.frames|..] == more;
    assert (d.frames + Deliver(closing))[|d.frames|..] == Deliver(closing);
  }

  lemma QuietText(f: seq<byte>, verbose: int)
    requires !SerialInput.EchoesLines(verbose) && !SharedWire.BadText(f, b => b == BANG)
    ensures Heard(MoteWire.Foreign(Deliver(f)), verbose) == []
  {
    SerialInput.LeftIsTail(f, verbose);
    if f != [] {
      var one := [MoteWire.Tagged(f, false)];
      assert [f][..0] == [] && MoteWire.Foreign([]) == [] && [] + one == one && one[..0] == [];
      assert MoteWire.Foreign([f]) == one;
    }
  }

  lemma OnePacket(p: seq<byte>, mine: bool, verbose: int)
    requires !SerialInput.EchoesLines(verbose)
    ensures Strange(Heard(if p == [] then [] else [MoteWire.Tagged(p, mine)], verbose))
         == if mine then [] else ReceiverTheorems.OnlyCommands(Deliver(SerialInput.Tail(p)))
  {
    SerialInput.LeftIsTail(p, verbose);
    if p != [] {
      var t, kept := MoteWire.Tagged(p, mine), SerialInput.Tail(p);
      assert [t][..0] == [];
      assert Heard([t], verbose) == [] + if kept != [] && kept[0] == BANG then [MoteWire.Tagged(kept, mine)] else [];
      if kept != [] && kept[0] == BANG {
        assert Heard([t], verbose) == [MoteWire.Tagged(kept, mine)];
        assert [MoteWire.Tagged(kept, mine)][..0] == [];
      }
    } else {
      assert SerialInput.Tail(p) == [];
    }
  }

  lemma OnlyCommandsConcat(a: seq<seq<byte>>, f: seq<byte>)
    ensures ReceiverTheorems.OnlyCommands(a + Deliver(f))
         == ReceiverTheorems.OnlyCommands(a) + ReceiverTheorems.OnlyCommands(Deliver(f))
  {
    DeliveredCommand(a, f);
    DeliveredCommand([], f);
    assert [] + Deliver(f) == Deliver(f);
  }

  lemma OthersSnoc(init: seq<MoteWire.Call>, own: seq<bool>, call: MoteWire.Call, mine: bool)
    requires |own| == |init|
    ensures Others(init + [call], own + [mine]) == Others(init, own) + if call.Send? && !mine then [call.p] else []
  {
    assert (init + [call])[..|init|] == init;
    OthersMarks(init, own, [mine]);
  }

  lemma {:induction false} OthersMarks(calls: seq<MoteWire.Call>, own: seq<bool>, more: seq<bool>)
    requires |calls| <= |own|
    ensures Others(calls, own + more) == Others(calls, own)
  {
    if calls != [] {
      OthersMarks(calls[..|calls| - 1], own, more);
    }
  }

  lemma StrangeSend(init: seq<MoteWire.Call>, own: seq<bool>, p: seq<byte>, mine: bool, verbose: int)
    requires !SerialInput.EchoesLines(verbose) && |own| == |init| && MoteWire.PlainText(init)
    requires !SharedWire.BadText(SharedWire.Closing(init, MoteWire.Send(p)), b => b == BANG)
    requires Strange(Heard(MoteWire.Arrived(init, own), verbose))
          == ReceiverTheorems.OnlyCommands(SerialInput.Tails(Others(init, own)))
    ensures Strange(Heard(MoteWire.Arrived(init + [MoteWire.Send(p)], own + [mine]), verbose))
         == ReceiverTheorems.OnlyCommands(SerialInput.Tails(Others(init + [MoteWire.Send(p)], own + [mine])))
  {
    hide *;
    var call := MoteWire.Send(p);
    var closing := SharedWire.Closing(init, call);
    var text, packet := MoteWire.Foreign(Deliver(closing)), if p == [] then [] else [MoteWire.Tagged(p, mine)];
    var before := MoteWire.Arrived(init, own);
    SendCompleted(init, p, mine);
    QuietText(closing, verbose);
    MoteWire.ArrivedSnoc(init, own, call, mine);
    assert before + (text + packet) == before + text + packet;
    HeardConcat(before + text, packet, verbose);
    HeardConcat(before, text, verbose);
    assert Heard(before, verbose) + [] == Heard(before, verbose);
    StrangeConcat(Heard(before, verbose), Heard(packet, verbose));
    OthersSnoc(init, own, call, mine);
    OnePacket(p, mine, verbose);
    var others := Others(init, own);
    if mine {
      assert others + [] == others;
      assert Strange(Heard(before, verbose)) + [] == Strange(Heard(before, verbose));
    } else {
      TailsSnoc(others, p);
      OnlyCommandsConcat(SerialInput.Tails(others), SerialInput.Tail(p));
    }
  }

  lemma StrangePut(init: seq<MoteWire.Call>, own: seq<bool>, c: int, mine: bool, verbose: int)
    requires !SerialInput.EchoesLines(verbose) && |own| == |init|
    requires MoteWire.PlainText(init) && Low8(c) != END && Low8(c) != ESC
    requires !SharedWire.BadText(SharedWire.Closing(init, MoteWire.Put(c)), b => b == BANG)
    requires Strange(Heard(MoteWire.Arrived(init, own), verbose))
          == ReceiverTheorems.OnlyCommands(SerialInput.Tails(Others(init, own)))
    ensures Strange(Heard(MoteWire.Arrived(init + [MoteWire.Put(c)], own + [mine]), verbose))
         == ReceiverTheorems.OnlyCommands(SerialInput.Tails(Others(init + [MoteWire.Put(c)], own + [mine])))
  {
    PutIgnoresMark(init, c, mine);
    hide *;
    var call := MoteWire.Put(c);
    var closing := SharedWire.Closing(init, call);
    var text, before := MoteWire.Foreign(Deliver(closing)), MoteWire.Arrived(init, own);
    PutCompleted(init, c);
    QuietText(closing, verbose);
    MoteWire.ArrivedSnoc(init, own, call, mine);
    HeardConcat(before, text, verbose);
    assert Heard(before, verbose) + [] == Heard(before, verbose);
    OthersSnoc(init, own, call, mine);
    assert Others(init, own) + [] == Others(init, own);
  }

  lemma PutIgnoresMark(init: seq<MoteWire.Call>, c: int, mine: bool)
    ensures MoteWire.Completed(MoteWire.Decoded(init), MoteWire.LineOpen(init), MoteWire.Put(c), mine)
         == MoteWire.Completed(MoteWire.Decoded(init), MoteWire.LineOpen(init), MoteWire.Put(c), false)
  {}

  /** If no debug text poses as a command, the commands that the host is given besides the mote's reports
      are those among the other packets. */
  lemma {:induction false} StrangeHeard(calls: seq<MoteWire.Call>, own: seq<bool>, verbose: int)
    requires !SerialInput.EchoesLines(verbose)
    requires |own| == |calls| && MoteWire.PlainText(calls) && !SharedWire.ForgesCommand(calls)
    ensures Strange(Heard(MoteWire.Arrived(calls, own), verbose))
         == ReceiverTheorems.OnlyCommands(SerialInput.Tails(Others(calls, own)))
  {
    if calls != [] {
      var n := |calls| - 1;
      var init, call, ownInit, mine := calls[..n], calls[n], own[..n], own[n];
      assert init + [call] == calls && ownInit + [mine] == own;
      assert forall x | x in init :: x in calls;
      assert call in calls;
      SharedWire.ForgesSnoc(init, call);
      StrangeHeard(init, ownInit, verbose);
      hide Strange, Heard, MoteWire.Arrived, ReceiverTheorems.OnlyCommands, SerialInput.Tails, Others,
        SharedWire.Closing, SharedWire.BadText, SharedWire.Heads;
      match call
      case Send(p) => StrangeSend(init, ownInit, p, mine, verbose);
      case Put(c) => StrangePut(init, ownInit, c, mine, verbose);
    }
  }

  /** The reports that the host hears are exactly those of the mote if and only if no other packet, as its
      buffer keeps it, begins like one. Nothing on the mote keeps a radio frame from doing so. */
  lemma {:induction false} ReportsHeard(calls: seq<MoteWire.Call>, own: seq<bool>, reports: seq<seq<byte>>,
                                        verbose: int)
    requires |own| == |calls| && MoteWire.PlainText(calls) && !SharedWire.ForgesCommand(calls)
    requires !SerialInput.EchoesLines(verbose)
    requires MoteWire.Own(Heard(MoteWire.Arrived(calls, own), verbose)) == reports
    requires forall f | f in reports :: Starts(f, CHAR_R)
    ensures Starting(CommandsOn(MoteWire.Wire(calls), verbose), CHAR_R) == reports
      <==> forall f | f in SerialInput.Tails(Others(calls, own)) :: !Starts(f, CHAR_R)
  {
    hide MoteWire.Arrived, Heard, MoteWire.Wire, SerialInput.Receive, SerialInput.Tails, Others,
      SharedWire.ForgesCommand, MoteWire.PlainText, ReceiverTheorems.CommandsIn;
    var ts, others := Heard(MoteWire.Arrived(calls, own), verbose), SerialInput.Tails(Others(calls, own));
    AllHeard(calls, own, verbose);
    StrangeHeard(calls, own, verbose);
    StartingSplit(ts);
    StartingCommands(others, CHAR_R);
    NoneStarting(others);
    ReportsStart(reports);
  }

  lemma {:induction false} StartingSplit(ts: seq<MoteWire.Tagged>)
    ensures |Starting(MoteWire.Frames(ts), CHAR_R)|
         == |Starting(MoteWire.Own(ts), CHAR_R)| + |Starting(Strange(ts), CHAR_R)|
    ensures Starting(Strange(ts), CHAR_R) == [] ==>
      Starting(MoteWire.Frames(ts), CHAR_R) == Starting(MoteWire.Own(ts), CHAR_R)
  {
    if ts != [] {
      var init, t := ts[..|ts| - 1], ts[|ts| - 1];
      StartingSplit(init);
      StartingSnoc(MoteWire.Frames(init), t.f, CHAR_R);
      if t.own {
        StartingSnoc(MoteWire.Own(init), t.f, CHAR_R);
        assert Strange(init) + [] == Strange(init);
      } else {
        StartingSnoc(Strange(init), t.f, CHAR_R);
        assert MoteWire.Own(init) + [] == MoteWire.Own(init);
      }
    }
  }

  lemma {:induction false} NoneStarting(fs: seq<seq<byte>>)
    ensures Starting(fs, CHAR_R) == [] <==> forall f | f in fs :: !Starts(f, CHAR_R)
  {
    if fs != [] {
      var init, f := fs[..|fs| - 1], fs[|fs| - 1];
      NoneStarting(init);
      assert fs == init + [f] && f in fs;
      hide Starts;
    }
  }

  lemma {:induction false} ReportsStart(fs: seq<seq<byte>>)
    requires forall f | f in fs :: Starts(f, CHAR_R)
    ensures Starting(fs, CHAR_R) == fs
  {
    if fs != [] {
      var init, f := fs[..|fs| - 1], fs[|fs| - 1];
      assert fs == init + [f] && f in fs && forall x | x in init :: x in fs;
      hide Starts;
      ReportsStart(init);
    }
  }

  /** It is an `!R` command with an id of the ring. */
  predicate Poses(f: seq<byte>) { |f| >= 3 && f[0] == BANG && f[1] == CHAR_R && f[2] as nat < SLOTS }

  lemma PosesExactly(g: Given)
    requires |g.f| >= 3 && |g.stale| >= 2
    ensures IsCall(g) <==> Poses(g.f)
  {
    assert Data(g)[..3] == g.f[..3];
    assert Data(g)[0] == g.f[0] && Data(g)[1] == g.f[1] && Data(g)[2] == g.f[2];
  }

  ghost predicate StaleOk(given: seq<Given>) { forall g | g in given :: |g.stale| >= 10 }

  lemma {:induction false} HearAllStale(s: State, cmds: seq<seq<byte>>, stale: seq<byte>)
    requires StaleOk(s.given) && |stale| >= 10
    ensures StaleOk(HearAll(s, cmds, stale).given)
    decreases |cmds| - |s.given|
  {
    hide CallFor, Heard, MoteWire.Arrived;
    if |s.given| < |cmds| {
      HearAllStale(Hear1(s, cmds[|s.given|], stale), cmds, stale);
    }
  }

  lemma DoStale(cfg: Config, s: State, m: Move)
    requires TransmitLink.OffsetOk(s.queue) && StaleOk(s.given) && Do(cfg, s, m).Some?
    ensures StaleOk(Do(cfg, s, m).value.given)
  {
    hide StaleOk, HearAll, TransmitLink.Apply, TransmitLink.Fits, CommandsOn, MoteWire.Wire, MoteWire.EscOpen, Starts;
    if m.HostReads? && 1 <= m.n && s.read + m.n <= |MoteWire.Wire(s.wired)| && |m.stale| >= 10 {
      HearAllStale(s.(read := s.read + m.n), CommandsOn(MoteWire.Wire(s.wired)[..s.read + m.n], cfg.verbose), m.stale);
    }
  }

  lemma {:induction false} RunStale(cfg: Config, now: int, moves: seq<Move>)
    requires Run(cfg, now, moves).Some?
    ensures StaleOk(Run(cfg, now, moves).value.given)
  {
    hide Do, StaleOk;
    if moves == [] {
      assert StaleOk([]) by { NothingStale(); }
    } else {
      RunStale(cfg, now, moves[..|moves| - 1]);
      DoStale(cfg, Run(cfg, now, moves[..|moves| - 1]).value, moves[|moves| - 1]);
    }
  }

  lemma NothingStale()
    ensures StaleOk([])
  {}

  lemma PosesOrOwn(given: seq<Given>, ts: seq<MoteWire.Tagged>, others: seq<seq<byte>>)
    requires |given| == |ts| && StaleOk(given) && forall i | 0 <= i < |ts| :: given[i].f == ts[i].f
    requires Strange(ts) == ReceiverTheorems.OnlyCommands(others)
    requires forall f | f in others && f != [] && f[0] == BANG :: |f| >= 3
    ensures (forall i | 0 <= i < |given| && IsCall(given[i]) :: ts[i].own) <==> forall f | f in others :: !Poses(f)
  {
    StrangeExact(ts);
    OnlyCommandsExact(others);
    hide Strange, ReceiverTheorems.OnlyCommands, IsCall, Poses;
    forall i | 0 <= i < |given| && !ts[i].own
      ensures (IsCall(given[i]) <==> Poses(ts[i].f)) && ts[i].f in others
    {
      assert given[i] in given && ts[i] in ts;
      PosesExactly(given[i]);
    }
    if f :| f in others && Poses(f) {
      PosesCommand(f);
      var t :| t in ts && !t.own && t.f == f;
      var i :| 0 <= i < |ts| && ts[i] == t;
      assert IsCall(given[i]);
    }
  }

  /** In terms of the packets, for runs whose text never poses as a command and in which no other command has
      less than three bytes: once the host has read everything, it has made no calls but the answers if
      and only if no packet that is no report of the mote, as the buffer keeps it, is an `!R` command with an
      id of the ring. */
  lemma {:induction false} OnlyAnswersUnlessForged(cfg: Config, now: int, moves: seq<Move>)
    requires !SerialInput.EchoesLines(cfg.verbose) && Run(cfg, now, moves).Some?
    requires var s := Run(cfg, now, moves).value;
      && s.read == |MoteWire.Wire(s.wired)| && MoteWire.PlainText(s.wired) && !SharedWire.ForgesCommand(s.wired)
      && forall f | f in SerialInput.Tails(Others(s.wired, s.own)) && f != [] && f[0] == BANG :: |f| >= 3
    ensures var s := Run(cfg, now, moves).value;
      AllCalls(s.calls) == Answers(s) <==> forall f | f in SerialInput.Tails(Others(s.wired, s.own)) :: !Poses(f)
  {
    hide Run, IsCall, Seen, Answers, AllCalls, Heard, MoteWire.Arrived, MoteWire.Wire, Others, SerialInput.Tails, Inv,
      SharedWire.ForgesCommand, MoteWire.PlainText, Poses, StaleOk, Strange, ReceiverTheorems.OnlyCommands;
    OnlyAnswers(cfg, now, moves);
    RunKeeps(cfg, now, moves);
    RunStale(cfg, now, moves);
    var s := Run(cfg, now, moves).value;
    AllGiven(cfg, s);
    OwnCount(cfg, s);
    StrangeHeard(s.wired, s.own, cfg.verbose);
    PosesOrOwn(s.given, Commands(s), SerialInput.Tails(Others(s.wired, s.own)));
  }

  lemma OwnCount(cfg: Config, s: State)
    requires Inv(cfg, s)
    ensures |s.own| == |s.wired| && s.verbose == cfg.verbose
  {
    hide SessionProtocol.Run, MoteWire.Arrived, Heard, DownInv, AirInv, CallInv, CommandsOn, MoteWire.Own,
      MoteWire.Frames;
  }

  lemma PosesCommand(f: seq<byte>)
    requires Poses(f)
    ensures f != [] && f[0] == BANG
  {}

  lemma {:induction false} OnlyCommandsExact(fs: seq<seq<byte>>)
    ensures forall f :: f in ReceiverTheorems.OnlyCommands(fs) <==> f in fs && f != [] && f[0] == BANG
  {
    if fs != [] {
      var init, f := fs[..|fs| - 1], fs[|fs| - 1];
      OnlyCommandsExact(init);
      assert fs == init + [f];
    }
  }

  // ---------------------------------------------------------------- a radio frame that poses as a report

  /** A packet that begins like a command and that the receiver keeps whole, passed on while no text is
      pending, is given to the host's handler as one, whatever state the two nodes are in. */
  lemma ForwardedCommand(cfg: Config, s: State, p: seq<byte>, stale: seq<byte>)
    requires Inv(cfg, s) && s.read == |MoteWire.Wire(s.wired)| && |stale| >= 10
    requires MoteWire.Decoded(s.wired).acc == [] && !MoteWire.Decoded(s.wired).esc
    requires p != [] && p[0] == BANG && SerialInput.Left(p, cfg.verbose) == p
    ensures var t := DoOther(s, MoteWire.Send(p));
      DoRead(cfg, t, |MoteEncode(p)|, stale) ==
        t.(read := s.read + |MoteEncode(p)|, given := s.given + [Given(p, stale)],
           calls := s.calls + CallFor(Given(p, stale), |s.given|, s.registered))
  {
    hide SessionProtocol.Run, Inv, MoteWire.Wire, CallFor, MoteEncode, CommandsOn, DoRead, HearAll, IsCall, Hear1,
      MoteWire.Decoded, Heard, MoteWire.Arrived;
    var t := DoOther(s, MoteWire.Send(p));
    var r := t.(read := s.read + |MoteEncode(p)|);
    var cmds := CommandsOn(MoteWire.Wire(t.wired), cfg.verbose);
    NewCommand(cfg, s, p);
    EncodedSize(p);
    ReadToEnd(cfg, t, |MoteEncode(p)|, stale);
    HeardOnce(r, cmds, stale);
    ForeignCommand(r, p, stale);
  }

  lemma EncodedSize(p: seq<byte>)
    ensures |MoteEncode(p)| >= 2
  {
    hide Escape;
  }

  lemma ReadToEnd(cfg: Config, t: State, n: nat, stale: seq<byte>)
    requires 1 <= n && t.read + n == |MoteWire.Wire(t.wired)| && |stale| >= 10
    ensures DoRead(cfg, t, n, stale)
         == HearAll(t.(read := t.read + n), CommandsOn(MoteWire.Wire(t.wired), cfg.verbose), stale)
  {
    hide HearAll, MoteWire.Wire, CommandsOn;
    assert MoteWire.Wire(t.wired)[..t.read + n] == MoteWire.Wire(t.wired);
  }

  lemma ForeignCommand(r: State, p: seq<byte>, stale: seq<byte>)
    requires |r.given| < |Commands(r)| && !Commands(r)[|r.given|].own
    ensures Hear1(r, p, stale) ==
      r.(given := r.given + [Given(p, stale)], calls := r.calls + CallFor(Given(p, stale), |r.given|, r.registered))
  {
    hide Commands, CallFor;
    assert r.steps + [] == r.steps;
  }

  /** It is the one command that is new. */
  lemma NewCommand(cfg: Config, s: State, p: seq<byte>)
    requires Inv(cfg, s) && s.read == |MoteWire.Wire(s.wired)|
    requires MoteWire.Decoded(s.wired).acc == [] && !MoteWire.Decoded(s.wired).esc
    requires p != [] && p[0] == BANG && SerialInput.Left(p, cfg.verbose) == p
    ensures var t := DoOther(s, MoteWire.Send(p));
      var cmds := CommandsOn(MoteWire.Wire(t.wired), cfg.verbose);
      && s.read + |MoteEncode(p)| == |MoteWire.Wire(t.wired)|
      && |cmds| == |s.given| + 1 && cmds[|s.given|] == p
      && |s.given| < |Commands(t)| && !Commands(t)[|s.given|].own
  {
    AllGiven(cfg, s);
    OwnCount(cfg, s);
    hide *;
    NewHeard(cfg, s.wired, s.own, p);
    NewState(s, MoteWire.Send(p));
  }

  lemma NewState(s: State, call: MoteWire.Call)
    ensures var t := DoOther(s, call); t.wired == s.wired + [call] && t.own == s.own + [false]
    ensures Commands(s) == Heard(MoteWire.Arrived(s.wired, s.own), s.verbose)
    ensures var t := DoOther(s, call); Commands(t) == Heard(MoteWire.Arrived(t.wired, t.own), s.verbose)
  {}

  lemma NewHeard(cfg: Config, calls: seq<MoteWire.Call>, own: seq<bool>, p: seq<byte>)
    requires |own| == |calls|
    requires MoteWire.Decoded(calls).acc == [] && !MoteWire.Decoded(calls).esc
    requires p != [] && p[0] == BANG && SerialInput.Left(p, cfg.verbose) == p
    ensures var all, n := calls + [MoteWire.Send(p)], |Heard(MoteWire.Arrived(calls, own), cfg.verbose)|;
      var cmds := CommandsOn(MoteWire.Wire(all), cfg.verbose);
      var ts := Heard(MoteWire.Arrived(all, own + [false]), cfg.verbose);
      && |MoteWire.Wire(calls)| + |MoteEncode(p)| == |MoteWire.Wire(all)|
      && |cmds| == n + 1 == |ts| && cmds[n] == p && !ts[n].own
  {
    MoteWire.WireSnoc(calls, MoteWire.Send(p));
    hide MoteWire.Wire, MoteWire.Arrived, Heard, SerialInput.Receive, MoteEncode, MoteWire.Frames,
      ReceiverTheorems.CommandsIn, MoteWire.Decoded;
    var all := calls + [MoteWire.Send(p)];
    ForwardedHeard(calls, own, p, cfg.verbose);
    AllHeard(all, own + [false], cfg.verbose);
    var ts := Heard(MoteWire.Arrived(all, own + [false]), cfg.verbose);
    TaggedAt(ts, |ts| - 1);
  }

  lemma HeardOnce(s: State, cmds: seq<seq<byte>>, stale: seq<byte>)
    requires |cmds| == |s.given| + 1
    ensures HearAll(s, cmds, stale) == Hear1(s, cmds[|s.given|], stale)
  {
    GivenGrows(s, cmds[|s.given|], stale);
    hide Hear1;
  }

  lemma ForwardedHeard(calls: seq<MoteWire.Call>, own: seq<bool>, p: seq<byte>, verbose: int)
    requires |own| == |calls| && MoteWire.Decoded(calls).acc == [] && !MoteWire.Decoded(calls).esc
    requires p != [] && p[0] == BANG && SerialInput.Left(p, verbose) == p
    ensures Heard(MoteWire.Arrived(calls + [MoteWire.Send(p)], own + [false]), verbose)
         == Heard(MoteWire.Arrived(calls, own), verbose) + [MoteWire.Tagged(p, false)]
  {
    hide *;
    CompletedAlone(MoteWire.Decoded(calls), MoteWire.LineOpen(calls), p);
    MoteWire.ArrivedSnoc(calls, own, MoteWire.Send(p), false);
    HeardAsSent(p, false, verbose);
    HeardConcat(MoteWire.Arrived(calls, own), [MoteWire.Tagged(p, false)], verbose);
  }

  lemma CompletedAlone(d: Decoder, open: bool, p: seq<byte>)
    requires d.acc == [] && !d.esc && p != []
    ensures MoteWire.Completed(d, open, MoteWire.Send(p), false) == [MoteWire.Tagged(p, false)]
  {
    assert MoteWire.Foreign([]) + [MoteWire.Tagged(p, false)] == [MoteWire.Tagged(p, false)];
  }

  /** A radio frame "!R", id, status, count, received and passed on by the mote, makes the host call the
      callback in that slot, although the mote has reported nothing: no step of the protocol is made. */
  lemma ForgedReport(cfg: Config, s: State, sid: byte, status: byte, tx: byte, stale: seq<byte>)
    requires Inv(cfg, s) && s.read == |MoteWire.Wire(s.wired)| && |stale| >= 10 && sid < 16
    requires MoteWire.Decoded(s.wired).acc == [] && !MoteWire.Decoded(s.wired).esc
    requires !(SerialInput.EchoesLines(cfg.verbose)
               && ReceiverTheorems.LooksLikeLine(MoteRadio.ReportFrame(sid, status, tx)))
    ensures var p := [33, 82, sid, status, tx];
      var t := DoRead(cfg, DoOther(s, MoteWire.Send(p)), |MoteEncode(p)|, stale);
      && t.steps == s.steps
      && t.calls == s.calls + [HostCall(|s.given|, BridgeRdc.SentCall(Found(s.registered, sid as nat), status, tx))]
  {
    var p := [33, 82, sid, status, tx];
    hide Inv, MoteWire.Wire, MoteWire.Decoded, DoRead, DoOther, CallFor, SerialInput.Left,
      ReceiverTheorems.LooksLikeLine;
    EndToEnd.ReportRemains(sid, status, tx, cfg.verbose);
    ForwardedCommand(cfg, s, p, stale);
    ReportCalls(Given(p, stale), |s.given|, s.registered, sid, status, tx);
    OtherSteps(s, MoteWire.Send(p));
  }

  lemma OtherSteps(s: State, call: MoteWire.Call)
    ensures DoOther(s, call).steps == s.steps && DoOther(s, call).calls == s.calls
  {}

  lemma LoneMark(verbose: int)
    ensures SerialInput.Left([33], verbose) == [33]
  {
    var p: seq<byte> := [33];
    assert p[..0] == [] && [] + p == p;
  }

  /** After a frame of the single byte "!" it is the rest of the buffer that decides. */
  lemma LoneMarkReports(cfg: Config, s: State, stale: seq<byte>)
    requires Inv(cfg, s) && s.read == |MoteWire.Wire(s.wired)| && |stale| >= 10
    requires MoteWire.Decoded(s.wired).acc == [] && !MoteWire.Decoded(s.wired).esc
    ensures var t := DoRead(cfg, DoOther(s, MoteWire.Send([33])), |MoteEncode([33])|, stale);
      && t.steps == s.steps
      && (t.calls != s.calls <==> stale[0] == CHAR_R && stale[1] < 16)
  {
    LoneMark(cfg.verbose);
    hide Inv, MoteWire.Wire, MoteWire.Decoded, DoRead, DoOther, SerialInput.Left;
    var g := Given([33], stale);
    ForwardedCommand(cfg, s, [33], stale);
    assert Data(g)[0] == 33 && Data(g)[1] == stale[0] && Data(g)[2] == stale[1];
    OtherSteps(s, MoteWire.Send([33]));
    if !IsCall(g) {
      assert s.calls + [] == s.calls;
    } else {
      assert |s.calls + CallFor(g, |s.given|, s.registered)| == |s.calls| + 1;
    }
  }

  // ---------------------------------------------------------------- the link down

  /** The link down is a FIFO: whatever else was queued, the `!S` commands that the mote has decoded carry the
      first packets sent, in order, and all of them once the transmit queue is empty. */
  lemma {:induction false} LinkDownIsFifo(cfg: Config, now: int, moves: seq<Move>)
    requires Run(cfg, now, moves).Some?
    ensures var s := Run(cfg, now, moves).value;
      var fs := Starting(s.inbox.frames, CHAR_S);
      && |fs| <= |s.packets| && (forall k | 0 <= k < |fs| :: fs[k] == FrameOf(s.packets, k))
      && (s.queue.frames == [] ==> |fs| == |s.packets|)
  {
    RunKeeps(cfg, now, moves);
    hide Run, UpInv, AirInv, CallInv, SessionProtocol.Run, TransmitLink.Consistent, Decode, Starting, FrameOf;
    var s := Run(cfg, now, moves).value;
    InboxQueued(s.queue, s.inbox);
    StartingPrefix(s.inbox.frames, s.queue.packets, CHAR_S);
  }

  /** What the radio gets for the k-th `!S` command that the mote looks at is the payload of the k-th packet,
      cut to the packet buffer, if the attribute parser takes exactly its attributes. */
  lemma RadioGetsPayload(cfg: Config, s: State, attsLen: int)
    requires Inv(cfg, s) && s.taken < |s.inbox.frames| && Starts(s.inbox.frames[s.taken], CHAR_S)
    requires 0 <= attsLen && attsLen + 3 <= |s.inbox.frames[s.taken]|
    ensures var k := SessionProtocol.Taken(SessionProtocol.Run(s.steps));
      && 0 <= k < |s.packets|
      && (attsLen == |s.packets[k].atts| ==>
            && |DoReceive(cfg, s, attsLen).jobs| == |s.jobs| + 1
            && DoReceive(cfg, s, attsLen).jobs[|s.jobs|].payload
               == MoteRadio.Cut(s.packets[k].payload, cfg.packetbufSize))
  {
    hide SessionProtocol.Run, UpInv, CallInv, TransmitLink.Consistent, DownOk, Decode, FrameOf, MoteRadio.Cut, Note,
      Starts, SessionProtocol.Taken, SessionProtocol.Inv, JobsOk;
    var k := SessionProtocol.Taken(SessionProtocol.Run(s.steps));
    PacketsLong(s.packets, k, s.queue.packets, s.taken);
    InboxQueued(s.queue, s.inbox);
    DownNext(s.packets, k, s.queue.packets, s.taken);
    FrameHas(s.packets, k);
    PayloadFound(s.packets, k, cfg.packetbufSize);
    SessionProtocol.RunKeeps(s.steps);
    RingPosition(SessionProtocol.Run(s.steps));
  }

  lemma RingPosition(w: SessionProtocol.World)
    requires SessionProtocol.Inv(w)
    ensures w.mote.pos < |w.mote.slots|
  {}

  /** The mote finds the id and the payload where the host put them. */
  lemma PayloadFound(packets: seq<Sent>, k: nat, size: nat)
    requires k < |packets|
    ensures var f, x := FrameOf(packets, k), packets[k];
      && f[2] == (k % SLOTS) as byte && |f| >= 3 + |x.atts|
      && MoteRadio.Cut(f[3 + |x.atts|..], size) == MoteRadio.Cut(x.payload, size)
  {
    var f, x := FrameOf(packets, k), packets[k];
    EndToEnd.SessionFrameParsed((k % SLOTS) as byte, x.atts, x.payload, size);
    hide MoteRadio.Cut;
    assert f[3 + |x.atts|..] == f[3 + |x.atts|..|f|];
  }

  // ---------------------------------------------------------------- when everything is quiet

  /** All queued bytes are written, all frames looked at, the radio is done and all bytes are read. */
  predicate Drained(s: State) {
    && s.queue.frames == [] && s.taken == |s.inbox.frames|
    && s.jobs == [] && s.read == |MoteWire.Wire(s.wired)|
  }

  lemma DrainedIsQuiet(cfg: Config, s: State)
    requires Inv(cfg, s) && Drained(s)
    ensures SessionProtocol.Quiet(SessionProtocol.Run(s.steps))
    ensures |Answers(s)| == |SessionProtocol.Run(s.steps).invoked|
    ensures |s.packets| == |s.registered| == SessionProtocol.Run(s.steps).sent
  {
    AllGiven(cfg, s);
    hide UpInv, SessionProtocol.Run, TransmitLink.Consistent, DownOk, Decode, MoteWire.Wire, OwnCalls, Calling,
      Causes, Seen;
    var w := SessionProtocol.Run(s.steps);
    PacketsLong(s.packets, SessionProtocol.Taken(w), s.queue.packets, s.taken);
    InboxQueued(s.queue, s.inbox);
    DownEmpty(s.packets, SessionProtocol.Taken(w), s.queue.packets);
  }

  /** Then every packet that the mote did not reject and whose report was not lost has been reported and
      answered for once, and no other one; the answer may be another packet's callback, see AnswersMatch. */
  lemma {:induction false} AllAnswered(cfg: Config, now: int, moves: seq<Move>, k: nat)
    requires Run(cfg, now, moves).Some?
    requires Drained(Run(cfg, now, moves).value) && k < |Run(cfg, now, moves).value.packets|
    ensures var s := Run(cfg, now, moves).value;
      var w := SessionProtocol.Run(s.steps);
      && k < |w.place| && |Answers(s)| == |w.radio|
      && ((exists i :: 0 <= i < |w.radio| && w.radio[i].pkt == k) <==> !SessionProtocol.Gone(w.place[k]))
      && (forall i, j :: 0 <= i < j < |w.radio| ==> w.radio[i].pkt != w.radio[j].pkt)
  {
    hide Run, Inv, Drained, SessionProtocol.Run, Answers, SessionProtocol.Quiet;
    RunKeeps(cfg, now, moves);
    var s := Run(cfg, now, moves).value;
    DrainedIsQuiet(cfg, s);
    ReportedEach(s.steps, k);
  }

  lemma ReportedEach(steps: seq<SessionProtocol.Step>, k: nat)
    requires SessionProtocol.Quiet(SessionProtocol.Run(steps)) && k < SessionProtocol.Run(steps).sent
    ensures var w := SessionProtocol.Run(steps);
      && k < |w.place| && |w.invoked| == |w.radio|
      && ((exists i :: 0 <= i < |w.radio| && w.radio[i].pkt == k) <==> !SessionProtocol.Gone(w.place[k]))
      && (forall i, j :: 0 <= i < j < |w.radio| ==> w.radio[i].pkt != w.radio[j].pkt)
  {
    hide SessionProtocol.Run;
    var w := SessionProtocol.Run(steps);
    SessionProtocol.AllButRejectedReported(steps, k);
    SessionProtocol.ReportsInOrder(steps);
    assert SessionProtocol.UpOutcomes(w.up) == [];
    assert w.radio == SessionProtocol.InvokedOutcomes(w.invoked);
    forall i | 0 <= i < |w.radio| ensures w.radio[i].pkt == w.invoked[i].pkt {}
    forall i, j | 0 <= i < j < |w.radio|
      ensures w.radio[i].pkt != w.radio[j].pkt
    {
      SessionProtocol.ReportedOnce(steps, i, j);
    }
  }

  // ---------------------------------------------------------------- with the sending window

  /** If a packet is sent only after the one 16 sends earlier was rejected or its report handled or lost, every
      report of the mote invokes exactly the callback registered for its own packet. */
  lemma {:induction false} WindowedAnswers(cfg: Config, now: int, moves: seq<Move>, i: nat)
    requires Run(cfg, now, moves).Some?
    requires SessionProtocol.Windowed(Run(cfg, now, moves).value.steps)
    requires i < |Answers(Run(cfg, now, moves).value)|
    ensures var s := Run(cfg, now, moves).value;
      var w := SessionProtocol.Run(s.steps);
      && i < |w.radio| && w.radio[i].pkt < |s.registered|
      && Answers(s)[i] == BridgeRdc.SentCall(s.registered[w.radio[i].pkt], w.radio[i].status, w.radio[i].tx)
  {
    hide Run, SessionProtocol.Run, Answers, SessionProtocol.Windowed;
    AnswersOk(cfg, now, moves);
    AnswersMatch(cfg, now, moves, i);
    var s := Run(cfg, now, moves).value;
    var w := SessionProtocol.Run(s.steps);
    SessionProtocol.ReportsInOrder(s.steps);
    assert w.radio[i] == SessionProtocol.InvokedOutcomes(w.invoked)[i];
    SessionProtocol.WindowedMatching(s.steps, w.invoked[i]);
    SessionProtocol.SessionMatching(s.steps, w.invoked[i]);
  }

  /** And once everything is quiet, the callback of every packet that the mote did not reject and whose report
      was not lost has been invoked with the outcome of that packet exactly once, and no other one's. */
  lemma {:induction false} WindowedOnceEach(cfg: Config, now: int, moves: seq<Move>, k: nat)
    requires Run(cfg, now, moves).Some?
    requires SessionProtocol.Windowed(Run(cfg, now, moves).value.steps)
    requires Drained(Run(cfg, now, moves).value) && k < |Run(cfg, now, moves).value.packets|
    ensures var s := Run(cfg, now, moves).value;
      var w := SessionProtocol.Run(s.steps);
      && k < |w.place| && |Answers(s)| == |w.radio|
      && ((exists i :: AnsweredBy(s, w, k, i)) <==> !SessionProtocol.Gone(w.place[k]))
      && (forall i, j :: AnsweredBy(s, w, k, i) && AnsweredBy(s, w, k, j) ==> i == j)
  {
    hide Run, Drained, SessionProtocol.Run, Answers, SessionProtocol.Windowed;
    AllAnswered(cfg, now, moves, k);
    var s := Run(cfg, now, moves).value;
    var w := SessionProtocol.Run(s.steps);
    forall i | 0 <= i < |w.radio| && w.radio[i].pkt == k
      ensures AnsweredBy(s, w, k, i)
    {
      WindowedAnswers(cfg, now, moves, i);
    }
  }

  /** The i-th completion was packet k's, and the i-th answer invoked that packet's callback with it. */
  ghost predicate AnsweredBy(s: State, w: SessionProtocol.World, k: nat, i: int) {
    && 0 <= i < |w.radio| && i < |Answers(s)| && k < |s.registered|
    && w.radio[i].pkt == k
    && Answers(s)[i] == BridgeRdc.SentCall(s.registered[k], w.radio[i].status, w.radio[i].tx)
  }

  // ---------------------------------------------------------------- what the moves alone decide

  predicate Admits(cfg: Config, m: Move) { m.Send? && Accepted(cfg, m.framed, m.atts, m.payload) }

  /** The packets that the moves send; the rest is refused. */
  function SentBy(cfg: Config, moves: seq<Move>): seq<Sent> {
    if moves == [] then []
    else
      var m := moves[|moves| - 1];
      SentBy(cfg, moves[..|moves| - 1]) + if Admits(cfg, m) then [Sent(m.atts.value, m.payload)] else []
  }

  function RegisteredBy(cfg: Config, moves: seq<Move>): seq<BridgeRdc.TxCallback> {
    if moves == [] then []
    else
      var m := moves[|moves| - 1];
      RegisteredBy(cfg, moves[..|moves| - 1])
      + if Admits(cfg, m) then [BridgeRdc.TxCallback(m.cback, m.ptr, m.attrs)] else []
  }

  lemma DoSends(cfg: Config, s: State, m: Move)
    requires TransmitLink.OffsetOk(s.queue) && Do(cfg, s, m).Some?
    ensures var t := Do(cfg, s, m).value;
      && t.packets == s.packets + (if Admits(cfg, m) then [Sent(m.atts.value, m.payload)] else [])
      && t.registered == s.registered
           + if Admits(cfg, m) then [BridgeRdc.TxCallback(m.cback, m.ptr, m.attrs)] else []
  {
    hide TransmitLink.Apply, TransmitLink.Fits, HearAll, FrameOf, MoteWire.Wire, CommandsOn, MoteWire.EscOpen, Starts,
      Forwarded, Decode, Accepted, DoRead, DoReceive, DoComplete, Note, MoteRadio.Cut;
    assert s.packets + [] == s.packets && s.registered + [] == s.registered;
    match m
    case Send(cback, ptr, attrs, framed, atts, payload) =>
    case Flush(result, checked, lag) =>
    case Receive(attsLen, _) => MoteSends(cfg, s, attsLen, 0, 0, 0);
    case Complete(which, status, tx) => MoteSends(cfg, s, 0, which, status, tx);
    case Forward(p) =>
    case Put(c) =>
    case HostReads(n, stale) => ReadSends(cfg, s, n, stale);
    case Stdin(line, _) =>
  }

  lemma MoteSends(cfg: Config, s: State, attsLen: int, which: nat, status: int, tx: int)
    ensures DoReceive(cfg, s, attsLen).packets == s.packets && DoReceive(cfg, s, attsLen).registered == s.registered
    ensures var t := DoComplete(s, which, status, tx); t.packets == s.packets && t.registered == s.registered
  {
    hide MoteWire.EscOpen, Starts, Note, MoteRadio.Cut;
  }

  lemma ReadSends(cfg: Config, s: State, n: nat, stale: seq<byte>)
    ensures var t := DoRead(cfg, s, n, stale); t.packets == s.packets && t.registered == s.registered
  {
    hide HearAll, MoteWire.Wire, CommandsOn;
    if 1 <= n && s.read + n <= |MoteWire.Wire(s.wired)| {
      HearKeepsRest(s.(read := s.read + n), CommandsOn(MoteWire.Wire(s.wired)[..s.read + n], cfg.verbose), stale);
    }
  }

  /** As long as the program runs, these have been sent and registered, in this order. */
  lemma {:induction false} RunSends(cfg: Config, now: int, moves: seq<Move>)
    requires Run(cfg, now, moves).Some?
    ensures Run(cfg, now, moves).value.packets == SentBy(cfg, moves)
    ensures Run(cfg, now, moves).value.registered == RegisteredBy(cfg, moves)
  {
    if moves != [] {
      hide Do, Admits;
      var init, m := moves[..|moves| - 1], moves[|moves| - 1];
      RunSends(cfg, now, init);
      DoSends(cfg, Run(cfg, now, init).value, m);
    }
  }

  /** The move ends the program. */
  predicate Ends(cfg: Config, s: State, m: Move) {
    match m
    case Send(_, _, _, framed, atts, payload) =>
      Accepted(cfg, framed, atts, payload)
      && !TransmitLink.Fits(s.queue, FrameOf(s.packets + [Sent(atts.value, payload)], |s.packets|))
    case Flush(result, checked, _) =>
      result.Failed? && s.queue.frames != [] && (cfg.sendDelay == 0 || TransmitLink.Expired(s.timer, checked))
    case Stdin(line, stale) => |stale| >= 10 && Forwarded(line) && !TransmitLink.Fits(s.queue, line)
    case _ => false
  }

  lemma EndsSnoc(cfg: Config, now: int, moves: seq<Move>)
    requires moves != []
    ensures var init := moves[..|moves| - 1];
      EndsSomewhere(cfg, now, moves) <==> EndsSomewhere(cfg, now, init) || EndsAt(cfg, now, moves, |moves| - 1)
  {
    hide EndsAt;
    var n := |moves| - 1;
    forall i | 0 <= i < n ensures EndsAt(cfg, now, moves, i) <==> EndsAt(cfg, now, moves[..n], i) {
      EndsBefore(cfg, now, moves, n, i);
    }
  }

  lemma EndsBefore(cfg: Config, now: int, moves: seq<Move>, n: nat, i: nat)
    requires i < n <= |moves|
    ensures EndsAt(cfg, now, moves, i) <==> EndsAt(cfg, now, moves[..n], i)
  {
    hide Run, Ends;
    assert moves[..n][..i] == moves[..i] && moves[..n][i] == moves[i];
  }

  ghost predicate EndsSomewhere(cfg: Config, now: int, moves: seq<Move>) {
    exists i :: 0 <= i < |moves| && EndsAt(cfg, now, moves, i)
  }

  /** The program ends exactly when the transmit buffer overflows or a write that is due fails. */
  lemma {:induction false} RunEnds(cfg: Config, now: int, moves: seq<Move>)
    ensures Run(cfg, now, moves).None? <==> exists i :: 0 <= i < |moves| && EndsAt(cfg, now, moves, i)
  {
    assert (exists i :: 0 <= i < |moves| && EndsAt(cfg, now, moves, i)) <==> EndsSomewhere(cfg, now, moves);
    if moves == [] {
      NothingEnds(cfg, now);
    } else {
      hide *;
      RunEnds(cfg, now, moves[..|moves| - 1]);
      SomewhereIs(cfg, now, moves[..|moves| - 1]);
      LastEnds(cfg, now, moves);
      EndsSnoc(cfg, now, moves);
    }
  }

  lemma SomewhereIs(cfg: Config, now: int, moves: seq<Move>)
    ensures EndsSomewhere(cfg, now, moves) <==> exists i :: 0 <= i < |moves| && EndsAt(cfg, now, moves, i)
  {
    hide EndsAt;
  }

  lemma NothingEnds(cfg: Config, now: int)
    ensures Run(cfg, now, []).Some?
  {}

  ghost predicate EndsAt(cfg: Config, now: int, moves: seq<Move>, i: nat)
    requires i < |moves|
  {
    Run(cfg, now, moves[..i]).Some? && Ends(cfg, Run(cfg, now, moves[..i]).value, moves[i])
  }

  lemma LastEnds(cfg: Config, now: int, moves: seq<Move>)
    requires moves != []
    ensures Run(cfg, now, moves).None? <==>
      Run(cfg, now, moves[..|moves| - 1]).None? || EndsAt(cfg, now, moves, |moves| - 1)
  {
    hide Do, Ends;
    var s := Run(cfg, now, moves[..|moves| - 1]);
    if s.Some? {
      DoEnds(cfg, s.value, moves[|moves| - 1]);
    }
  }

  lemma FlushEnds(cfg: Config, s: State, result: TransmitLink.WriteResult, checked: int, lag: nat)
    requires TransmitLink.OffsetOk(s.queue)
    ensures DoFlush(cfg, s, result, checked, lag).None? <==> Ends(cfg, s, Flush(result, checked, lag))
  {
    hide Decode, TransmitLink.Drain, TransmitLink.Record;
    var l := TransmitLink.Link(s.queue, s.timer, checked, [], false);
    assert TransmitLink.MayWrite(l, cfg.sendDelay, l.clock + 0) <==>
      s.queue.frames != [] && (cfg.sendDelay == 0 || TransmitLink.Expired(s.timer, checked));
  }

  lemma DoEnds(cfg: Config, s: State, m: Move)
    requires TransmitLink.OffsetOk(s.queue)
    ensures Do(cfg, s, m).None? <==> Ends(cfg, s, m)
  {
    hide TransmitLink.Fits, FrameOf, DoRead, DoReceive, DoComplete, DoFlush, Accepted, Forwarded;
    if m.Flush? {
      FlushEnds(cfg, s, m.result, m.checked, m.lag);
    }
  }
}
