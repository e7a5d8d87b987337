/** The frames of the session protocol across the serial link: `!S` down to the mote and `!R` back. */
module EndToEnd {
  import opened SlipCodec
  import CommandLetters
  import SerialInput
  import ReceiverTheorems
  import BridgeRdc
  import MoteRadio

  // ---------------------------------------------------------------- host to mote

  /** The mote finds in a decoded `!S` frame the session id and the payload that the host put there,
      provided its attribute parser consumes exactly the attribute block; the payload is cut to the
      mote's packet buffer, and only then. */
  lemma SessionFrameParsed(sid: byte, atts: seq<byte>, payload: seq<byte>, packetbufSize: nat)
    ensures var f := BridgeRdc.SessionFrame(sid, atts, payload);
      && |f| == 3 + |atts| + |payload|
      && f[0] == 33 && f[1] == 83 && f[2] == sid
      && f[3..][..|atts|] == atts
      && MoteRadio.Cut(f[3 + |atts|..|f|], packetbufSize) == MoteRadio.Cut(payload, packetbufSize)
      && (MoteRadio.Cut(payload, packetbufSize) == payload <==> |payload| <= packetbufSize)
  {
    var f := BridgeRdc.SessionFrame(sid, atts, payload);
    assert f[3 + |atts|..|f|] == payload;
  }

  // ---------------------------------------------------------------- mote to host

  /** A report contains something that looks like a line of text exactly in these cases. */
  lemma ReportLine(sid: byte, status: byte, tx: byte)
    ensures ReceiverTheorems.LooksLikeLine(MoteRadio.ReportFrame(sid, status, tx)) <==>
      || sid == 10
      || (SerialInput.Printable(sid) && (status == 10 || (SerialInput.Printable(status) && tx == 10)))
  {
    var f := MoteRadio.ReportFrame(sid, status, tx);
    assert f[2] == sid && f[3] == status && f[4] == tx;
    if sid == 10 {
      assert SerialInput.Sensible(f[..2 + 1]);
    } else if SerialInput.Printable(sid) && status == 10 {
      assert SerialInput.Sensible(f[..3 + 1]);
    } else if SerialInput.Printable(sid) && SerialInput.Printable(status) && tx == 10 {
      assert SerialInput.Sensible(f[..4 + 1]);
    }
    if ReceiverTheorems.LooksLikeLine(f) {
      var k :| 0 <= k < |f| && f[k] == SerialInput.NL && SerialInput.Sensible(f[..k + 1]);
      assert k > 2 ==> f[..k + 1][2] == sid;
      assert k > 3 ==> f[..k + 1][3] == status;
    }
  }

  lemma SensibleSnoc(q: seq<byte>, c: byte)
    ensures SerialInput.Sensible(q + [c]) <==> SerialInput.Sensible(q) && (q == [] || SerialInput.Printable(c))
  {
    assert forall i | 1 <= i < |q| :: (q + [c])[i] == q[i];
    assert (q + [c])[|q|] == c;
  }

  /** One more byte of a packet, when lines are echoed and the buffer is not nearly full. */
  lemma LeftSnoc(q: seq<byte>, c: byte, verbose: int)
    requires SerialInput.EchoesLines(verbose) && |SerialInput.Left(q, verbose)| + 1 < SerialInput.SIZE
    ensures var l := SerialInput.Left(q, verbose);
      var line := c == 10 && SerialInput.Sensible(l) && (l == [] || SerialInput.Printable(c));
      SerialInput.Left(q + [c], verbose) == if line then [] else l + [c]
  {
    assert (q + [c])[..|q|] == q;
    SensibleSnoc(SerialInput.Left(q, verbose), c);
  }

  function AfterSid(sid: byte): seq<byte> { if sid == 10 then [] else [33, 82, sid] }

  function AfterStatus(sid: byte, status: byte): seq<byte> {
    if status == 10 && (sid == 10 || SerialInput.Printable(sid)) then [] else AfterSid(sid) + [status]
  }

  lemma SidStep(sid: byte, verbose: int)
    requires SerialInput.EchoesLines(verbose)
    ensures SerialInput.Left([33, 82] + [sid], verbose) == AfterSid(sid)
    ensures SerialInput.Sensible(AfterSid(sid)) <==> sid == 10 || SerialInput.Printable(sid)
  {
    var bang: seq<byte>, bangR: seq<byte> := [33], [33, 82];
    assert bang == [] + [33] && bangR == bang + [82];
    assert SerialInput.Sensible([]) && SerialInput.Left([], verbose) == [];
    hide SerialInput.Left, SerialInput.Sensible;
    LeftSnoc([], 33, verbose);
    LeftSnoc(bang, 82, verbose);
    SensibleSnoc([], 33);
    SensibleSnoc(bang, 82);
    LeftSnoc(bangR, sid, verbose);
    SensibleSnoc(bangR, sid);
  }

  lemma StatusStep(q: seq<byte>, sid: byte, status: byte, verbose: int)
    requires SerialInput.EchoesLines(verbose) && SerialInput.Left(q, verbose) == AfterSid(sid)
    requires SerialInput.Sensible(AfterSid(sid)) <==> sid == 10 || SerialInput.Printable(sid)
    ensures SerialInput.Left(q + [status], verbose) == AfterStatus(sid, status)
    ensures SerialInput.Sensible(AfterStatus(sid, status)) <==>
      |AfterStatus(sid, status)| <= 1 || (SerialInput.Printable(sid) && SerialInput.Printable(status))
  {
    hide SerialInput.Left;
    LeftSnoc(q, status, verbose);
    SensibleSnoc(AfterSid(sid), status);
  }

  lemma CountStep(q: seq<byte>, sid: byte, status: byte, tx: byte, verbose: int)
    requires SerialInput.EchoesLines(verbose) && SerialInput.Left(q, verbose) == AfterStatus(sid, status)
    requires SerialInput.Sensible(AfterStatus(sid, status)) <==>
      |AfterStatus(sid, status)| <= 1 || (SerialInput.Printable(sid) && SerialInput.Printable(status))
    ensures SerialInput.Left(q + [tx], verbose) ==
      if tx == 10 && (|AfterStatus(sid, status)| <= 1
                      || (SerialInput.Printable(sid) && SerialInput.Printable(status))) then []
      else AfterStatus(sid, status) + [tx]
  {
    hide SerialInput.Left, SerialInput.Sensible;
    LeftSnoc(q, tx, verbose);
  }

  /** What arrives instead of such a report: the bytes behind the last newline. In particular a report
      for session id 10 becomes a frame of two bytes unless its status or its count is 10 as well. */
  lemma ReportRemains(sid: byte, status: byte, tx: byte, verbose: int)
    ensures var f := MoteRadio.ReportFrame(sid, status, tx);
      SerialInput.Left(f, verbose) ==
        if !(SerialInput.EchoesLines(verbose) && ReceiverTheorems.LooksLikeLine(f)) then f
        else if tx == 10 then [] else if status == 10 then [tx] else [status, tx]
  {
    hide SerialInput.Left, SerialInput.Sensible, ReceiverTheorems.LooksLikeLine;
    var f := MoteRadio.ReportFrame(sid, status, tx);
    if SerialInput.EchoesLines(verbose) {
      ReportLine(sid, status, tx);
      var head := [33, 82] + [sid];
      assert f == head + [status] + [tx];
      SidStep(sid, verbose);
      StatusStep(head, sid, status, verbose);
      CountStep(head + [status], sid, status, tx, verbose);
    } else {
      SerialInput.LeftIsTail(f, verbose);
      WholeTail(f);
    }
  }

  lemma WholeTail(f: seq<byte>)
    requires |f| < SerialInput.SIZE
    ensures SerialInput.Tail(f) == f
  {
    assert |f| % SerialInput.SIZE == |f|;
  }

  /** A report anywhere in the stream from the mote, at every verbosity and for a receiver in any state
      outside an escape: it reaches the command handler unchanged, in its place among the other packets,
      unless lines are echoed and ReportLine says that it looks like one; a report for session id 10
      always does. */
  lemma {:induction false} ReportDelivery(r: SerialInput.Receiver, before: seq<seq<byte>>,
                                          sid: byte, status: byte, tx: byte,
                                          after: seq<seq<byte>>, verbose: int)
    requires !r.esc
    ensures var f := MoteRadio.ReportFrame(sid, status, tx);
      SerialInput.Frames(SerialInput.Receive(r, MoteEncodeAll(before + [f] + after), verbose).events)
      == SerialInput.Frames(r.events) + Deliver(r.acc)
       + SerialInput.Lefts(before, verbose) + Deliver(SerialInput.Left(f, verbose)) + SerialInput.Lefts(after, verbose)
    ensures var f := MoteRadio.ReportFrame(sid, status, tx);
      && SerialInput.Dispatch(f) == SerialInput.Command(f)
      && (SerialInput.Left(f, verbose) == f <==>
          !(SerialInput.EchoesLines(verbose) && ReceiverTheorems.LooksLikeLine(f)))
    ensures ReceiverTheorems.LooksLikeLine(MoteRadio.ReportFrame(10, status, tx))
  {
    hide SerialInput.Receive, SerialInput.Left, SerialInput.Lefts, SerialInput.Frames, MoteEncodeAll,
      ReceiverTheorems.LooksLikeLine;
    var f := MoteRadio.ReportFrame(sid, status, tx);
    ReportLine(10, status, tx);
    ReportRemains(sid, status, tx, verbose);
    ReceiverTheorems.StreamFromAny(r, before + [f] + after, verbose);
    ReceiverTheorems.LeftsConcat(before + [f], after, verbose);
    SerialInput.LeftsSnoc(before, f, verbose);
    var x := SerialInput.Frames(r.events) + Deliver(r.acc);
    var y, z := SerialInput.Lefts(before, verbose), Deliver(SerialInput.Left(f, verbose));
    assert x + ((y + z) + SerialInput.Lefts(after, verbose)) == x + y + z + SerialInput.Lefts(after, verbose);
  }
}
