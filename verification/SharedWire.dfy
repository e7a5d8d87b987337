/** The mote's shared wire as the host's receiver sees it. */
module SharedWire {
  import opened SlipCodec
  import opened MoteWire
  import opened CommandLetters
  import SerialInput
  import ReceiverTheorems

  /** At every verbosity the host completes exactly the pieces of Arrive, each reduced to what its
      buffer holds at its end; unless lines are echoed, a piece under 2048 bytes is kept whole. */
  lemma {:induction false} HostSeesPieces(calls: seq<Call>, verbose: int)
    requires PlainText(calls)
    ensures var r := SerialInput.Receive(SerialInput.FRESH, Wire(calls), verbose);
      && SerialInput.Frames(r.events) == SerialInput.Lefts(Bytes(Arrive(calls).pieces), verbose)
      && r.acc == SerialInput.Left(Arrive(calls).line, verbose)
    ensures !SerialInput.EchoesLines(verbose) && ReceiverTheorems.AllSmall(Bytes(Arrive(calls).pieces)) ==>
      SerialInput.Frames(SerialInput.Receive(SerialInput.FRESH, Wire(calls), verbose).events)
      == Bytes(Arrive(calls).pieces)
  {
    hide SerialInput.Receive, SerialInput.Lefts, SerialInput.Left, SerialInput.Frames, Decode, Wire, Arrive, Bytes;
    var pieces := Bytes(Arrive(calls).pieces);
    InterleavingSafety(calls);
    SerialInput.BoundedRefinesDecoder(Wire(calls), verbose);
    ReceiverTheorems.SmallPacketsSurvive(pieces);
    if !SerialInput.EchoesLines(verbose) {
      SerialInput.LeftsAreTails(pieces, verbose);
    }
  }

  // ---------------------------------------------------------------- the debug marker

  /** Every piece of debug text, the unfinished one included, starts with the marker byte. */
  ghost predicate AllMarked(a: Arrival) {
    && (a.line != [] ==> a.line[0] == MARKER)
    && forall x | x in a.pieces && x.Text? :: x.bytes != [] && x.bytes[0] == MARKER
  }

  /** A packet was sent in the middle of a line and the line then went on. */
  ghost predicate SplitsLine(calls: seq<Call>) {
    exists k :: 0 <= k < |calls| - 1 && SplitAt(calls, k)
  }

  ghost predicate SplitAt(calls: seq<Call>, k: nat)
    requires k < |calls| - 1
  {
    calls[k].Send? && LineOpen(calls[..k]) && calls[k + 1].Put? && Low8(calls[k + 1].c) != MARKER
  }

  lemma SplitsSnoc(init: seq<Call>, x: Call)
    ensures SplitsLine(init + [x]) <==>
      SplitsLine(init) || (init != [] && init[|init| - 1].Send? && LineOpen(init) && x.Put? && Low8(x.c) != MARKER)
  {
    var calls := init + [x];
    forall k | 0 <= k < |init|
      ensures calls[..k] == init[..k]
    {}
    if SplitsLine(init) {
      var k :| 0 <= k < |init| - 1 && SplitAt(init, k);
      assert SplitAt(calls, k);
    } else if init != [] && init[|init| - 1].Send? && LineOpen(init) && x.Put? && Low8(x.c) != MARKER {
      assert SplitAt(calls, |init| - 1);
    }
    if SplitsLine(calls) {
      var k :| 0 <= k < |calls| - 1 && SplitAt(calls, k);
      assert k < |init| - 1 ==> SplitAt(init, k);
    }
  }

  lemma {:induction false} LineState(calls: seq<Call>)
    ensures Arrive(calls).line == [] <==> !LineOpen(calls) || calls[|calls| - 1].Send?
  {
    if calls != [] {
      LineState(calls[..|calls| - 1]);
    }
  }

  /** Debug text always arrives marked exactly when no packet ever splits a line. */
  lemma {:induction false} MarkedUnlessSplit(calls: seq<Call>)
    ensures AllMarked(Arrive(calls)) <==> !SplitsLine(calls)
  {
    if calls != [] {
      var init, call := calls[..|calls| - 1], calls[|calls| - 1];
      assert init + [call] == calls;
      MarkedUnlessSplit(init);
      LineState(init);
      SplitsSnoc(init, call);
      ArriveMarks(init, call);
    }
  }

  lemma FlushMarks(a: Arrival)
    ensures AllMarked(Flush(a)) <==> AllMarked(a)
  {
    if a.line != [] {
      var b := Flush(a);
      assert Text(a.line) in b.pieces;
      assert forall x | x in b.pieces :: x in a.pieces || x == Text(a.line);
      assert forall x | x in a.pieces :: x in b.pieces;
    }
  }

  lemma ArriveSnoc(init: seq<Call>, call: Call)
    ensures var a := Arrive(init);
      Arrive(init + [call]) ==
        match call {
          case Send(p) => if p == [] then Flush(a) else Arrival(Flush(a).pieces + [Whole(p)], [])
          case Put(c) =>
            var b := if LineOpen(init) then Arrival(a.pieces, a.line + [Low8(c)])
                     else Arrival(Flush(a).pieces, [MARKER, Low8(c)]);
            if c == NEWLINE then Flush(b) else b
        }
    ensures LineOpen(init + [call]) == if call.Put? then call.c != NEWLINE else LineOpen(init)
  {
    assert (init + [call])[..|init|] == init;
  }

  lemma ArriveMarks(init: seq<Call>, call: Call)
    ensures var a, b := Arrive(init), Arrive(init + [call]);
      AllMarked(b) <==> AllMarked(a) && (call.Put? && LineOpen(init) && a.line == [] ==> Low8(call.c) == MARKER)
  {
    var a := Arrive(init);
    assert (init + [call])[..|init|] == init;
    FlushMarks(a);
    match call
    case Send(p) =>
      if p != [] {
        var b := Arrival(Flush(a).pieces + [Whole(p)], []);
        assert forall x | x in b.pieces && x.Text? :: x in Flush(a).pieces;
        assert forall x | x in Flush(a).pieces :: x in b.pieces;
      }
    case Put(c) =>
      var b := if LineOpen(init) then Arrival(a.pieces, a.line + [Low8(c)])
               else Arrival(Flush(a).pieces, [MARKER, Low8(c)]);
      FlushMarks(b);
  }

  // ---------------------------------------------------------------- what the host takes text for

  /** Bytes put on the wire since the last frame boundary by PutChar. */
  function Column(calls: seq<Call>): nat {
    if calls == [] then 0
    else
      var init := calls[..|calls| - 1];
      match calls[|calls| - 1]
      case Send(_) => 0
      case Put(c) => if c == NEWLINE then 0 else if LineOpen(init) then Column(init) + 1 else 2
  }

  lemma {:induction false} ColumnIsLine(calls: seq<Call>)
    ensures Column(calls) == |Arrive(calls).line|
  {
    if calls != [] {
      ColumnIsLine(calls[..|calls| - 1]);
    }
  }

  /** A character that the host stores into an empty buffer although its line has begun before: the
      first one after a packet inside the line, or one after a multiple of 2048 bytes. */
  ghost predicate Leads(calls: seq<Call>, k: nat)
    requires k < |calls|
  {
    calls[k].Put? && LineOpen(calls[..k]) && Column(calls[..k]) % SerialInput.SIZE == 0
  }

  ghost predicate Unbroken(calls: seq<Call>, k: nat, m: nat)
    requires k <= m <= |calls|
  {
    forall t | k <= t < m :: calls[t].Put? && calls[t].c != NEWLINE
  }

  /** Call m ends the piece of text that holds character k, before the buffer is full again. */
  ghost predicate ClosedAt(calls: seq<Call>, k: nat, m: nat)
    requires k <= m < |calls|
  {
    && Unbroken(calls, k, m)
    && match calls[m] {
         case Send(_) => m - k < SerialInput.SIZE
         case Put(c) => c == NEWLINE && m - k + 1 < SerialInput.SIZE
       }
  }

  ghost predicate HeadAt(calls: seq<Call>, k: nat, m: nat, bad: byte -> bool)
    requires k <= m < |calls|
  {
    Leads(calls, k) && bad(Low8(calls[k].c)) && ClosedAt(calls, k, m)
  }

  /** Some piece of debug text reaches a handler of the host with such a byte at its head. */
  ghost predicate Heads(calls: seq<Call>, bad: byte -> bool) {
    exists k, m :: 0 <= k <= m < |calls| && HeadAt(calls, k, m, bad)
  }

  /** Some piece of debug text reaches a handler of the host without the marker byte at its head. */
  ghost predicate LosesMarker(calls: seq<Call>) { Heads(calls, b => b != MARKER) }

  /** Some piece of debug text reaches the host's command handler. */
  ghost predicate ForgesCommand(calls: seq<Call>) { Heads(calls, b => b == BANG) }

  ghost predicate HeadClosed(calls: seq<Call>, m: nat, bad: byte -> bool)
    requires m < |calls|
  {
    exists k :: 0 <= k <= m && HeadAt(calls, k, m, bad)
  }

  lemma HeadAtSnoc(init: seq<Call>, x: Call, k: nat, m: nat, bad: byte -> bool)
    requires k <= m < |init|
    ensures HeadAt(init + [x], k, m, bad) <==> HeadAt(init, k, m, bad)
  {
    hide Column, LineOpen;
    var calls := init + [x];
    assert calls[..k] == init[..k] && forall t | k <= t <= m :: calls[t] == init[t];
    assert Unbroken(calls, k, m) <==> Unbroken(init, k, m);
  }

  lemma HeadsSnoc(init: seq<Call>, x: Call, bad: byte -> bool)
    ensures Heads(init + [x], bad) <==> Heads(init, bad) || HeadClosed(init + [x], |init|, bad)
  {
    var calls := init + [x];
    forall k, m | 0 <= k <= m < |init|
      ensures HeadAt(calls, k, m, bad) <==> HeadAt(init, k, m, bad)
    {
      HeadAtSnoc(init, x, k, m, bad);
    }
    hide HeadAt;
    if Heads(calls, bad) {
      var k, m :| 0 <= k <= m < |calls| && HeadAt(calls, k, m, bad);
      if m < |init| {
        assert HeadAt(init, k, m, bad);
      }
    }
    if Heads(init, bad) {
      var k, m :| 0 <= k <= m < |init| && HeadAt(init, k, m, bad);
      assert HeadAt(calls, k, m, bad);
    }
  }

  /** While characters are put without a newline the line grows by exactly these. */
  lemma {:induction false} LineGrows(calls: seq<Call>, k: nat, m: nat)
    requires k <= m <= |calls| && LineOpen(calls[..k]) && Unbroken(calls, k, m)
    ensures LineOpen(calls[..m])
    ensures var a, b := Arrive(calls[..k]).line, Arrive(calls[..m]).line;
      && |b| == |a| + m - k
      && (forall t | k <= t < m :: b[|a| + t - k] == Low8(calls[t].c))
    ensures Arrive(calls[..m]).pieces == Arrive(calls[..k]).pieces
    decreases m
  {
    if k < m {
      LineGrows(calls, k, m - 1);
      assert calls[..m] == calls[..m - 1] + [calls[m - 1]];
      ArriveSnoc(calls[..m - 1], calls[m - 1]);
      hide Arrive, LineOpen;
    }
  }

  /** A character that stands at an even multiple of the buffer size in the unfinished line is the
      marker, or one that leads. */
  lemma {:induction false} LineComesFrom(calls: seq<Call>, j: nat)
    requires j < |Arrive(calls).line| && j != 1
    ensures (j == 0 && Arrive(calls).line[0] == MARKER) || CameFrom(calls, j)
  {
    var init, call := calls[..|calls| - 1], calls[|calls| - 1];
    assert init + [call] == calls;
    ArriveSnoc(init, call);
    var l := Arrive(init).line;
    if LineOpen(init) && j < |l| {
      LineComesFrom(init, j);
      if CameFrom(init, j) {
        CameFromSnoc(init, call, j);
      }
    } else if LineOpen(init) {
      assert calls[..|calls| - 1] == init;
    }
  }

  ghost predicate CameFrom(calls: seq<Call>, j: nat)
    requires j < |Arrive(calls).line|
  {
    var k := |calls| - |Arrive(calls).line| + j;
    && 0 <= k < |calls| && Unbroken(calls, k, |calls|) && LineOpen(calls[..k])
    && |Arrive(calls[..k]).line| == j && Low8(calls[k].c) == Arrive(calls).line[j]
  }

  lemma CameFromSnoc(init: seq<Call>, call: Call, j: nat)
    requires j < |Arrive(init).line| && CameFrom(init, j) && LineOpen(init) && call.Put? && call.c != NEWLINE
    ensures Arrive(init + [call]).line == Arrive(init).line + [Low8(call.c)]
    ensures CameFrom(init + [call], j)
  {
    var calls := init + [call];
    ArriveSnoc(init, call);
    var k := |init| - |Arrive(init).line| + j;
    assert calls[..k] == init[..k];
  }

  /** The head of what the host keeps of a text. */
  ghost predicate BadText(bytes: seq<byte>, bad: byte -> bool) {
    var t := SerialInput.Tail(bytes);
    t != [] && bad(t[0])
  }

  /** The text that the last of these calls completes; empty if there is none. */
  function Closing(init: seq<Call>, call: Call): seq<byte> {
    match call
    case Send(_) => Arrive(init).line
    case Put(c) =>
      if c != NEWLINE then []
      else if LineOpen(init) then Arrive(init).line + [Low8(c)]
      else [MARKER, Low8(c)]
  }

  lemma TailStart(t: seq<byte>)
    requires SerialInput.Tail(t) != []
    ensures var q := |t| - |t| % SerialInput.SIZE;
      q % SerialInput.SIZE == 0 && q < |t| < q + SerialInput.SIZE && SerialInput.Tail(t)[0] == t[q]
  {}

  lemma LineHead(init: seq<Call>, call: Call, q: nat, bad: byte -> bool)
    requires !bad(MARKER)
    requires q < |Arrive(init).line| && q % SerialInput.SIZE == 0 && bad(Arrive(init).line[q])
    requires call.Put? ==> call.c == NEWLINE
    requires |Arrive(init).line| - q + (if call.Put? then 1 else 0) < SerialInput.SIZE
    ensures HeadClosed(init + [call], |init|, bad)
  {
    var calls := init + [call];
    LineComesFrom(init, q);
    var k := |init| - |Arrive(init).line| + q;
    assert calls[..k] == init[..k];
    ColumnIsLine(calls[..k]);
    hide Arrive, LineOpen, Column;
    assert HeadAt(calls, k, |init|, bad);
  }

  lemma ClosingHead(init: seq<Call>, call: Call, bad: byte -> bool)
    requires !bad(MARKER)
    requires BadText(Closing(init, call), bad)
    ensures HeadClosed(init + [call], |init|, bad)
  {
    var t := Closing(init, call);
    var q := |t| - |t| % SerialInput.SIZE;
    var l := Arrive(init).line;
    TailStart(t);
    hide Arrive, SerialInput.Tail;
    if q < |l| {
      assert t != [] && (call.Put? ==> LineOpen(init));
      LineHead(init, call, q, bad);
    } else {
      var calls := init + [call];
      assert calls[..|init|] == init;
      ColumnIsLine(init);
      hide Column;
      assert q == |l| && LineOpen(init);
      assert HeadAt(calls, |init|, |init|, bad);
    }
  }

  lemma TailHead(t: seq<byte>, c: nat)
    requires c < |t| < c + SerialInput.SIZE && c % SerialInput.SIZE == 0
    ensures SerialInput.Tail(t) != [] && SerialInput.Tail(t)[0] == t[c]
  {
    assert |t| % SerialInput.SIZE == |t| - c;
  }

  lemma ClosedLine(init: seq<Call>, call: Call, k: nat)
    requires k <= |init| && Leads(init + [call], k) && ClosedAt(init + [call], k, |init|)
    ensures var t, c := Closing(init, call), Column((init + [call])[..k]);
      c < |t| < c + SerialInput.SIZE && t[c] == Low8((init + [call])[k].c)
  {
    var calls := init + [call];
    LineGrows(calls, k, |init|);
    ColumnIsLine(calls[..k]);
    assert calls[..|init|] == init;
    hide Arrive, LineOpen, Column;
    if k < |init| {
      assert calls[k] == init[k];
    }
  }

  lemma HeadIsClosing(init: seq<Call>, call: Call, k: nat, bad: byte -> bool)
    requires k <= |init| && HeadAt(init + [call], k, |init|, bad)
    ensures BadText(Closing(init, call), bad)
  {
    ClosedLine(init, call, k);
    hide Closing, Column, ClosedAt, SerialInput.Tail;
    TailHead(Closing(init, call), Column((init + [call])[..k]));
  }

  ghost predicate SomeBad(pieces: seq<Piece>, bad: byte -> bool) {
    exists x :: x in pieces && x.Text? && BadText(x.bytes, bad)
  }

  lemma SomeBadSnoc(pieces: seq<Piece>, x: Piece, bad: byte -> bool)
    ensures SomeBad(pieces + [x], bad) <==> SomeBad(pieces, bad) || (x.Text? && BadText(x.bytes, bad))
  {
    hide BadText;
    assert x in pieces + [x] && forall y | y in pieces :: y in pieces + [x];
    assert forall y | y in pieces + [x] :: y in pieces || y == x;
  }

  lemma PiecesGrow(init: seq<Call>, call: Call)
    ensures var a, t := Arrive(init), Closing(init, call);
      Arrive(init + [call]).pieces ==
        a.pieces + (if t == [] then [] else [Text(t)])
        + if call.Send? && call.p != [] then [Whole(call.p)] else []
  {
    ArriveSnoc(init, call);
    LineState(init);
  }

  lemma SomeBadGrows(init: seq<Call>, call: Call, bad: byte -> bool)
    ensures SomeBad(Arrive(init + [call]).pieces, bad) <==>
      SomeBad(Arrive(init).pieces, bad) || BadText(Closing(init, call), bad)
  {
    PiecesGrow(init, call);
    hide Arrive, Closing, SomeBad;
    var a, t := Arrive(init), Closing(init, call);
    var mid := a.pieces + if t == [] then [] else [Text(t)];
    assert !BadText([], bad);
    if t == [] {
      assert mid == a.pieces;
    } else {
      SomeBadSnoc(a.pieces, Text(t), bad);
    }
    if call.Send? && call.p != [] {
      SomeBadSnoc(mid, Whole(call.p), bad);
    } else {
      assert mid + [] == mid;
    }
  }

  /** Exactly which bytes other than the marker come to stand at the head of a piece of debug text. */
  lemma {:induction false} HeadsExactly(calls: seq<Call>, bad: byte -> bool)
    requires !bad(MARKER)
    ensures SomeBad(Arrive(calls).pieces, bad) <==> Heads(calls, bad)
  {
    if calls != [] {
      var init, call := calls[..|calls| - 1], calls[|calls| - 1];
      assert init + [call] == calls;
      HeadsExactly(init, bad);
      HeadsSnoc(init, call, bad);
      SomeBadGrows(init, call, bad);
      hide Arrive, SomeBad, Heads, BadText, HeadAt;
      if BadText(Closing(init, call), bad) {
        ClosingHead(init, call, bad);
      }
      if HeadClosed(calls, |init|, bad) {
        var k :| 0 <= k <= |init| && HeadAt(calls, k, |init|, bad);
        HeadIsClosing(init, call, k, bad);
      }
    }
  }

  /** What the host keeps of each piece, without those of which nothing is left. */
  function Kept(pieces: seq<Piece>): seq<Piece> {
    if pieces == [] then []
    else
      var x := pieces[|pieces| - 1];
      var t := SerialInput.Tail(x.bytes);
      Kept(pieces[..|pieces| - 1]) + if t == [] then [] else if x.Text? then [Text(t)] else [Whole(t)]
  }

  lemma {:induction false} KeptAreTails(pieces: seq<Piece>)
    ensures Bytes(Kept(pieces)) == SerialInput.Tails(Bytes(pieces))
    ensures Packets(Kept(pieces)) == SerialInput.Tails(Packets(pieces))
  {
    if pieces != [] {
      var init, x := pieces[..|pieces| - 1], pieces[|pieces| - 1];
      var t := SerialInput.Tail(x.bytes);
      KeptAreTails(init);
      hide SerialInput.Tail;
      if t == [] {
        assert Kept(init) + [] == Kept(init);
        assert SerialInput.Tails(Bytes(init)) + [] == SerialInput.Tails(Bytes(init));
        assert SerialInput.Tails(Packets(init)) + [] == SerialInput.Tails(Packets(init));
      } else {
        PiecesSnoc(Kept(init), if x.Text? then Text(t) else Whole(t));
      }
    }
  }

  ghost predicate KeptBad(pieces: seq<Piece>, bad: byte -> bool) {
    exists x :: x in Kept(pieces) && x.Text? && x.bytes != [] && bad(x.bytes[0])
  }

  lemma {:induction false} KeptBadExactly(pieces: seq<Piece>, bad: byte -> bool)
    ensures KeptBad(pieces, bad) <==> SomeBad(pieces, bad)
    ensures forall x | x in Kept(pieces) :: x.bytes != []
  {
    if pieces != [] {
      var init, x := pieces[..|pieces| - 1], pieces[|pieces| - 1];
      KeptBadExactly(init, bad);
      assert init + [x] == pieces;
      SomeBadSnoc(init, x, bad);
      hide SomeBad;
      KeptBadSnoc(init, x, bad);
    }
  }

  lemma KeptBadSnoc(init: seq<Piece>, x: Piece, bad: byte -> bool)
    requires forall y | y in Kept(init) :: y.bytes != []
    ensures KeptBad(init + [x], bad) <==> KeptBad(init, bad) || (x.Text? && BadText(x.bytes, bad))
    ensures forall y | y in Kept(init + [x]) :: y.bytes != []
  {
    assert (init + [x])[..|init|] == init;
    var t := SerialInput.Tail(x.bytes);
    var k := if x.Text? then Text(t) else Whole(t);
    assert Kept(init + [x]) == Kept(init) + if t == [] then [] else [k];
    hide Kept;
    assert t != [] ==> k in Kept(init + [x]);
    assert forall y | y in Kept(init) :: y in Kept(init + [x]);
    assert forall y | y in Kept(init + [x]) :: y in Kept(init) || (t != [] && y == k);
  }

  /** What the host keeps of the pieces, in terms of its own events; and it takes all debug text among them
      for debug lines exactly when no character other than the marker byte that goes on with a line, after
      a packet or in an emptied buffer, ends up at the head of what is kept. */
  lemma {:induction false} DebugTextStaysDebug(calls: seq<Call>, verbose: int)
    requires PlainText(calls) && !SerialInput.EchoesLines(verbose)
    ensures SerialInput.Frames(SerialInput.Receive(SerialInput.FRESH, Wire(calls), verbose).events)
         == Bytes(Kept(Arrive(calls).pieces))
    ensures forall x | x in Kept(Arrive(calls).pieces) :: x.bytes != []
    ensures (forall x | x in Kept(Arrive(calls).pieces) && x.Text? :: SerialInput.Dispatch(x.bytes).DebugLine?)
      <==> !LosesMarker(calls)
  {
    var pieces := Arrive(calls).pieces;
    hide Kept, Arrive, Heads, SomeBad, SerialInput.Sensible, SerialInput.Receive, Wire, Bytes, SerialInput.Frames;
    HostSeesPieces(calls, verbose);
    SerialInput.LeftsAreTails(Bytes(pieces), verbose);
    KeptAreTails(pieces);
    var bad := b => b != MARKER;
    HeadsExactly(calls, bad);
    KeptBadExactly(pieces, bad);
  }

  // ---------------------------------------------------------------- commands on the shared wire

  lemma {:induction false} KeptCommands(pieces: seq<Piece>)
    ensures ReceiverTheorems.OnlyCommands(Bytes(Kept(pieces))) == ReceiverTheorems.OnlyCommands(Packets(Kept(pieces)))
      <==> !KeptBad(pieces, b => b == BANG)
  {
    CommandsAmong(Kept(pieces));
  }

  ghost predicate TextCommand(pieces: seq<Piece>) {
    exists x :: x in pieces && x.Text? && x.bytes != [] && x.bytes[0] == BANG
  }

  lemma TextCommandSnoc(init: seq<Piece>, x: Piece)
    ensures TextCommand(init + [x]) <==> TextCommand(init) || (x.Text? && x.bytes != [] && x.bytes[0] == BANG)
  {
    assert x in init + [x] && forall y | y in init :: y in init + [x];
    assert forall y | y in init + [x] :: y in init || y == x;
  }

  lemma {:induction false} CommandsAmong(pieces: seq<Piece>)
    ensures var all := ReceiverTheorems.OnlyCommands(Bytes(pieces));
      var own := ReceiverTheorems.OnlyCommands(Packets(pieces));
      && |own| <= |all|
      && (TextCommand(pieces) ==> |own| < |all|)
      && (!TextCommand(pieces) ==> all == own)
  {
    if pieces != [] {
      var init, x := pieces[..|pieces| - 1], pieces[|pieces| - 1];
      assert init + [x] == pieces;
      CommandsAmong(init);
      TextCommandSnoc(init, x);
      PiecesSnoc(init, x);
      hide TextCommand, Bytes, Packets;
      ReceiverTheorems.OnlyCommandsSnoc(Bytes(init), x.bytes);
      ReceiverTheorems.OnlyCommandsSnoc(Packets(init), x.bytes);
    }
  }

  /** Over every interleaving of packets and plain debug text the command handler of the host is given
      exactly the commands among the packets sent, in order, if and only if no debug text is taken
      for a command; a packet of 2048 bytes or more counts as what the buffer holds at its end. */
  lemma {:induction false} CommandsArrive(calls: seq<Call>, verbose: int)
    requires PlainText(calls) && !SerialInput.EchoesLines(verbose)
    ensures ReceiverTheorems.CommandsIn(SerialInput.Receive(SerialInput.FRESH, Wire(calls), verbose).events)
         == ReceiverTheorems.OnlyCommands(SerialInput.Tails(SentPackets(calls)))
      <==> !ForgesCommand(calls)
    ensures !LosesMarker(calls) ==> !ForgesCommand(calls)
    ensures ReceiverTheorems.AllSmall(SentPackets(calls)) ==>
      SerialInput.Tails(SentPackets(calls)) == SentPackets(calls)
  {
    var pieces := Arrive(calls).pieces;
    DebugTextStaysDebug(calls, verbose);
    ReceiverTheorems.CommandsOfFrames(Wire(calls), verbose);
    InterleavingSafety(calls);
    KeptAreTails(pieces);
    var bad := b => b == BANG;
    HeadsExactly(calls, bad);
    KeptBadExactly(pieces, bad);
    KeptCommands(pieces);
    ReceiverTheorems.SmallPacketsSurvive(SentPackets(calls));
    ReceiverTheorems.TailsNonEmpty(SentPackets(calls));
  }

  /** What one more call can forge. */
  lemma ForgesSnoc(init: seq<Call>, call: Call)
    ensures ForgesCommand(init + [call]) <==> ForgesCommand(init) || BadText(Closing(init, call), b => b == BANG)
  {
    var bad := b => b == BANG;
    HeadsExactly(init, bad);
    HeadsExactly(init + [call], bad);
    SomeBadGrows(init, call, bad);
  }

  /** No line is split and none reaches 2048 bytes, the marker included: nothing is lost. */
  lemma ShortUnsplitLinesKeepMarker(calls: seq<Call>)
    requires !SplitsLine(calls)
    requires forall k | 0 <= k <= |calls| :: Column(calls[..k]) < SerialInput.SIZE
    ensures !LosesMarker(calls)
  {
    hide Column, SplitAt;
    if LosesMarker(calls) {
      var k, m :| 0 <= k <= m < |calls| && HeadAt(calls, k, m, b => b != MARKER);
      LostInShortLine(calls, k, m);
      assert false;
    }
  }

  lemma LostInShortLine(calls: seq<Call>, k: nat, m: nat)
    requires k <= m < |calls| && HeadAt(calls, k, m, b => b != MARKER)
    requires Column(calls[..k]) < SerialInput.SIZE
    ensures k > 0 && SplitAt(calls, k - 1)
  {
    assert Column(calls[..k]) == 0;
    ColumnIsLine(calls[..k]);
    LineState(calls[..k]);
    assert calls[..k][k - 1] == calls[k - 1];
    assert calls[..k][..k - 1] == calls[..k - 1];
  }

  /** 2047 characters, which fill the buffer together with the marker byte, and then "!" and a newline. */
  function LongLineCalls(): seq<Call> { seq(2047, _ => Put(97)) + [Put(33), Put(NEWLINE)] }

  /** The other way to lose the marker, without any packet: the end of a long line reaches the host as a
      command. */
  lemma LongLineBecomesCommand(verbose: int)
    requires !SerialInput.EchoesLines(verbose)
    ensures var calls := LongLineCalls();
      && PlainText(calls) && !SplitsLine(calls) && LosesMarker(calls)
      && SerialInput.Frames(SerialInput.Receive(SerialInput.FRESH, Wire(calls), verbose).events) == [[33, 10]]
      && SerialInput.Dispatch([33, 10]) == SerialInput.Command([33, 10])
  {
    hide LongLineCalls, Arrive, Heads, Wire, SplitsLine, SerialInput.Receive, SerialInput.Frames, SerialInput.Tail;
    var calls := LongLineCalls();
    var t := LongLine();
    var pieces := [Text(t)];
    HeadsExactly(calls, b => b != MARKER);
    assert Text(t) in pieces && BadText(t, b => b != MARKER);
    assert pieces[..0] == [] && [t][..0] == [];
    assert Bytes(pieces) == [t];
    HostSeesPieces(calls, verbose);
    SerialInput.LeftsAreTails([t], verbose);
    assert SerialInput.Tails([t]) == [] + [[33, 10]];
  }

  lemma LongLine() returns (t: seq<byte>)
    ensures PlainText(LongLineCalls()) && !SplitsLine(LongLineCalls())
    ensures Arrive(LongLineCalls()).pieces == [Text(t)] && SerialInput.Tail(t) == [33, 10]
  {
    var calls := LongLineCalls();
    assert calls[..1] == [] + [Put(97)];
    ArriveSnoc([], Put(97));
    LineGrows(calls, 1, 2048);
    assert calls == calls[..2048] + [Put(NEWLINE)];
    ArriveSnoc(calls[..2048], Put(NEWLINE));
    hide Arrive, LineOpen;
    var l := Arrive(calls[..2048]).line;
    assert calls[2047] == Put(33);
    assert l[2 + 2047 - 1] == 33;
    t := l + [10];
    assert SerialInput.Tail(t) == t[2048..] == [33, 10];
    assert [] + [Text(t)] == [Text(t)];
  }

  /** A split line can even be taken for a command: "a", a packet, then "!" and a newline. */
  lemma SplitLineBecomesCommand(p: seq<byte>)
    requires 1 <= |p| < SerialInput.SIZE
    ensures var calls := [Put(97), Send(p), Put(33), Put(NEWLINE)];
      && SplitsLine(calls)
      && Arrive(calls).pieces == [Text([13, 97]), Whole(p), Text([33, 10])]
      && SerialInput.Dispatch([33, 10]) == SerialInput.Command([33, 10])
  {
    var calls := [Put(97), Send(p), Put(33), Put(NEWLINE)];
    var one := [Put(97)];
    var two := one + [Send(p)];
    var three := two + [Put(33)];
    assert calls == three + [Put(NEWLINE)] && [] + one == one;
    ArriveSnoc([], Put(97));
    ArriveSnoc(one, Send(p));
    ArriveSnoc(two, Put(33));
    ArriveSnoc(three, Put(NEWLINE));
    hide Arrive, LineOpen, PlainText;
    assert Arrive(one) == Arrival([], [13, 97]);
    assert Arrive(three) == Arrival([Text([13, 97]), Whole(p)], [33]);
    var last: seq<byte> := [33] + [10];
    assert last == [33, 10];
    assert Arrive(calls).pieces == [Text([13, 97]), Whole(p)] + [Text(last)];
    assert calls[..1] == one;
    assert SplitAt(calls, 1);
  }
}
