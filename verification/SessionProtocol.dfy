/** Host and mote together: packets travel down a reliable FIFO link, are refused or handed to the
    radio, complete in any order, and are reported back over another reliable FIFO link. */
module SessionProtocol {
  import opened SlipCodec
  import opened SessionRings
  import opened Options

  /** Where packet number k is. */
  datatype Place = OnLink | Rejected | OnAir | Reporting | Reported | Lost

  // `pkt` and `index` below number packets and accepted packets for the theorems; no step reads them
  // to decide anything.
  datatype Down = Down(sid: byte, pkt: nat)
  datatype Job = Job(slot: nat, pkt: nat, index: nat)
  datatype Up = Up(sid: byte, status: byte, tx: byte, pkt: nat)

  /** One call made by the host's packet_sent: the slot, the registration found in it, the packet the
      report was about, and how many registrations there had been by then. */
  datatype Invocation = Invocation(sid: byte, callback: Option<nat>, pkt: nat, registered: nat, status: byte, tx: byte)

  datatype Outcome = Outcome(pkt: nat, status: byte, tx: byte)

  datatype World = World(
    host: Ring<Option<nat>>, sent: nat, down: seq<Down>,
    mote: Ring<byte>, accepted: nat, air: seq<Job>,
    up: seq<Up>, place: seq<Place>, radio: seq<Outcome>, invoked: seq<Invocation>)

  datatype Step =
    | Send
    | Receive(wellFormed: bool)
    | Complete(which: nat, status: int, tx: int)
    | Lose(which: nat)
    | Handle

  function Init(): World {
    World(Ring(0, seq(SLOTS, _ => None)), 0, [], Ring(0, seq(SLOTS, _ => 0)), 0, [], [], [], [], [])
  }

  ghost predicate Shape(w: World) {
    && |w.host.slots| == SLOTS == |w.mote.slots|
    && w.host.pos == w.sent % SLOTS
    && w.mote.pos == w.accepted % SLOTS
    && |w.place| == w.sent
    && |w.down| <= w.sent
    && (forall j <- w.down :: j.pkt < w.sent)
    && (forall j <- w.air :: j.slot < SLOTS && j.pkt < w.sent)
    && (forall u <- w.up :: u.sid < 16 && u.pkt < w.sent)
    && (forall b <- w.mote.slots :: b < 16)
    && (forall d <- w.down :: d.sid < 16)
  }

  /** send_packet on the host, after the callback was registered and the frame queued. */
  function DoSend(w: World): World
    requires Shape(w)
  {
    w.(host := Register(w.host, Some(w.sent)), sent := w.sent + 1,
       down := w.down + [Down(w.host.pos as byte, w.sent)], place := w.place + [OnLink])
  }

  /** The mote's `!S` branch for the oldest frame on the link. */
  function DoReceive(w: World, wellFormed: bool): World
    requires Shape(w) && w.down != []
  {
    var d := w.down[0];
    var v := w.(mote := Note(w.mote, d.sid, wellFormed), down := w.down[1..]);
    if wellFormed then
      v.(accepted := w.accepted + 1, air := w.air + [Job(w.mote.pos, d.pkt, w.accepted)],
         place := w.place[d.pkt := OnAir])
    else v.(place := w.place[d.pkt := Rejected])
  }

  /** The mote's packet_sent, with the pointer to the slot that was given to the radio. */
  function DoComplete(w: World, which: nat, status: int, tx: int): World
    requires Shape(w) && which < |w.air|
  {
    var j := w.air[which];
    w.(air := w.air[..which] + w.air[which + 1..],
       up := w.up + [Up(w.mote.slots[j.slot], Low8(status), Low8(tx), j.pkt)],
       place := w.place[j.pkt := Reporting],
       radio := w.radio + [Outcome(j.pkt, Low8(status), Low8(tx))])
  }

  /** The same, but the report is spoiled on its way and never arrives as one. */
  function DoLose(w: World, which: nat): World
    requires Shape(w) && which < |w.air|
  {
    w.(air := w.air[..which] + w.air[which + 1..], place := w.place[w.air[which].pkt := Lost])
  }

  /** The host's packet_sent for the oldest report. */
  function DoHandle(w: World): World
    requires Shape(w) && w.up != []
  {
    var u := w.up[0];
    w.(up := w.up[1..], place := w.place[u.pkt := Reported],
       invoked := w.invoked + [Invocation(u.sid, w.host.slots[u.sid], u.pkt, w.sent, u.status, u.tx)])
  }

  /** One step; a step that is not possible changes nothing. */
  function Apply(w: World, s: Step): World
    requires Shape(w)
  {
    match s
    case Send => DoSend(w)
    case Receive(ok) => if w.down == [] then w else DoReceive(w, ok)
    case Complete(i, status, tx) => if i >= |w.air| then w else DoComplete(w, i, status, tx)
    case Lose(i) => if i >= |w.air| then w else DoLose(w, i)
    case Handle => if w.up == [] then w else DoHandle(w)
  }

  lemma ReceiveShape(w: World, wellFormed: bool)
    requires Shape(w) && w.down != []
    ensures Shape(DoReceive(w, wellFormed))
  {
    var v := DoReceive(w, wellFormed);
    assert w.down[0] in w.down;
    assert forall d | d in v.down :: d in w.down;
    assert forall b | b in v.mote.slots :: b in w.mote.slots || b == w.down[0].sid;
  }

  lemma CompleteShape(w: World, which: nat, status: int, tx: int)
    requires Shape(w) && which < |w.air|
    ensures Shape(DoComplete(w, which, status, tx))
  {
    var v := DoComplete(w, which, status, tx);
    assert w.air[which] in w.air;
    assert w.mote.slots[w.air[which].slot] in w.mote.slots;
    assert forall j | j in v.air :: j in w.air;
  }

  lemma LoseShape(w: World, which: nat)
    requires Shape(w) && which < |w.air|
    ensures Shape(DoLose(w, which))
  {
    assert w.air[which] in w.air;
    assert forall j | j in DoLose(w, which).air :: j in w.air;
  }

  lemma SendShape(w: World)
    requires Shape(w)
    ensures Shape(DoSend(w))
  {
    var v := DoSend(w);
    assert forall d | d in v.down :: d in w.down || d == Down(w.host.pos as byte, w.sent);
  }

  lemma HandleShape(w: World)
    requires Shape(w) && w.up != []
    ensures Shape(DoHandle(w))
  {
    assert forall u | u in DoHandle(w).up :: u in w.up;
  }

  lemma ShapeKept(w: World, s: Step)
    requires Shape(w)
    ensures Shape(Apply(w, s))
  {
    hide Shape;
    match s
    case Send => SendShape(w);
    case Receive(ok) => if w.down != [] { ReceiveShape(w, ok); }
    case Complete(i, status, tx) => if i < |w.air| { CompleteShape(w, i, status, tx); }
    case Lose(i) => if i < |w.air| { LoseShape(w, i); }
    case Handle => if w.up != [] { HandleShape(w); }
  }

  function Run(steps: seq<Step>): (w: World)
    ensures Shape(w)
  {
    if steps == [] then Init()
    else
      var w := Run(steps[..|steps| - 1]);
      ShapeKept(w, steps[|steps| - 1]);
      Apply(w, steps[|steps| - 1])
  }

  // ---------------------------------------------------------------- what each part keeps

  /** How many frames the mote has taken off the link. */
  function Taken(w: World): int { w.sent - |w.down| }

  ghost predicate HostOk(w: World) {
    |w.host.slots| == SLOTS &&
    forall i | 0 <= i < SLOTS :: w.host.slots[i] == if i < w.sent then Some(Latest(w.sent, i)) else None
  }

  ghost predicate LinkOk(w: World) {
    forall j | 0 <= j < |w.down| :: w.down[j].pkt == Taken(w) + j && w.down[j].sid as nat == w.down[j].pkt % SLOTS
  }

  /** The id is the one of packet k, or so many packets have arrived since that its slot was reused. */
  ghost predicate IdOk(sid: byte, k: nat, taken: int) {
    k < taken && (sid as nat == k % SLOTS || taken - k > SLOTS)
  }

  ghost predicate JobOk(w: World, j: Job) {
    && j.slot == j.index % SLOTS && j.slot < |w.mote.slots|
    && j.index < w.accepted && w.accepted - j.index <= Taken(w) - j.pkt
    && IdOk(w.mote.slots[j.slot], j.pkt, Taken(w))
  }

  ghost predicate AirOk(w: World) { forall j | j in w.air :: JobOk(w, j) }

  ghost predicate UpOk(w: World) { forall u | u in w.up :: IdOk(u.sid, u.pkt, Taken(w)) }

  /** A report finds the callback of its own packet exactly when no more than 15 packets had been
      registered after that one. */
  ghost predicate Matched(v: Invocation) {
    v.callback == Some(v.pkt) <==> v.registered <= v.pkt + SLOTS
  }

  ghost predicate FromSlot(v: Invocation) {
    v.sid < 16 && v.callback == if v.sid as nat < v.registered then Some(Latest(v.registered, v.sid as nat)) else None
  }

  ghost predicate InvokedOk(w: World) { forall v | v in w.invoked :: Matched(v) && FromSlot(v) }

  ghost predicate Inv(w: World) {
    Shape(w) && HostOk(w) && LinkOk(w) && AirOk(w) && UpOk(w) && InvokedOk(w)
  }

  lemma SendKeeps(w: World)
    requires Inv(w)
    ensures Inv(DoSend(w))
  {
    var v := DoSend(w);
    forall i | 0 <= i < SLOTS
      ensures v.host.slots[i] == if i < v.sent then Some(Latest(v.sent, i)) else None
    {
      if i == w.host.pos {
        LatestIsUnique(v.sent, i, w.sent);
      } else if i < w.sent {
        LatestIsUnique(v.sent, i, Latest(w.sent, i));
      }
    }
    assert Taken(v) == Taken(w);
    forall j | j in v.air ensures JobOk(v, j) { assert JobOk(w, j); }
    ShapeKept(w, Send);
  }

  lemma ReceiveKeepsJob(w: World, wellFormed: bool, j: Job)
    requires Inv(w) && w.down != [] && j in w.air
    ensures JobOk(DoReceive(w, wellFormed), j)
  {
    assert JobOk(w, j);
    if j.slot == w.mote.pos {
      assert w.accepted - j.index >= SLOTS;
    }
  }

  lemma ReceiveKeeps(w: World, wellFormed: bool)
    requires Inv(w) && w.down != []
    ensures Inv(DoReceive(w, wellFormed))
  {
    ShapeKept(w, Receive(wellFormed));
    var v := DoReceive(w, wellFormed);
    var d := w.down[0];
    assert Taken(v) == Taken(w) + 1;
    assert forall k | 0 <= k < |v.down| :: v.down[k] == w.down[k + 1];
    forall j | j in v.air
      ensures JobOk(v, j)
    {
      if j in w.air {
        ReceiveKeepsJob(w, wellFormed, j);
      } else {
        assert j == Job(w.mote.pos, d.pkt, w.accepted);
      }
    }
    forall u | u in v.up ensures IdOk(u.sid, u.pkt, Taken(v)) { assert IdOk(u.sid, u.pkt, Taken(w)); }
  }

  lemma CompleteKeeps(w: World, which: nat, status: int, tx: int)
    requires Inv(w) && which < |w.air|
    ensures Inv(DoComplete(w, which, status, tx))
  {
    ShapeKept(w, Complete(which, status, tx));
    var v := DoComplete(w, which, status, tx);
    var j := w.air[which];
    assert j in w.air && JobOk(w, j);
    forall k | k in v.air ensures JobOk(v, k) { assert k in w.air && JobOk(w, k); }
    forall u | u in v.up
      ensures IdOk(u.sid, u.pkt, Taken(v))
    {
      assert u in w.up || u == Up(w.mote.slots[j.slot], Low8(status), Low8(tx), j.pkt);
    }
  }

  lemma LoseKeeps(w: World, which: nat)
    requires Inv(w) && which < |w.air|
    ensures Inv(DoLose(w, which))
  {
    LoseShape(w, which);
    hide Shape;
    var v := DoLose(w, which);
    forall k | k in v.air ensures JobOk(v, k) { assert k in w.air && JobOk(w, k); }
  }

  lemma HandleMatches(w: World)
    requires Shape(w) && HostOk(w) && UpOk(w) && w.up != []
    ensures var v := DoHandle(w); Matched(v.invoked[|w.invoked|]) && FromSlot(v.invoked[|w.invoked|])
  {
    var u := w.up[0];
    assert u in w.up && IdOk(u.sid, u.pkt, Taken(w));
    if w.sent <= u.pkt + SLOTS {
      LatestIsUnique(w.sent, u.sid as nat, u.pkt);
    }
  }

  lemma HandleKeeps(w: World)
    requires Inv(w) && w.up != []
    ensures Inv(DoHandle(w))
  {
    HandleShape(w);
    HandleMatches(w);
    hide Shape, Matched, FromSlot, IdOk;
    var v := DoHandle(w);
    var made := v.invoked[|w.invoked|];
    assert forall x | x in v.up :: x in w.up;
    assert forall x | x in v.invoked :: x in w.invoked || x == made;
    forall j | j in v.air ensures JobOk(v, j) { assert JobOk(w, j); }
  }

  lemma {:induction false} RunKeeps(steps: seq<Step>)
    ensures Inv(Run(steps))
  {
    if steps != [] {
      var w, s := Run(steps[..|steps| - 1]), steps[|steps| - 1];
      RunKeeps(steps[..|steps| - 1]);
      match s
      case Send => SendKeeps(w);
      case Receive(ok) => if w.down != [] { ReceiveKeeps(w, ok); }
      case Complete(i, status, tx) => if i < |w.air| { CompleteKeeps(w, i, status, tx); }
      case Lose(i) => if i < |w.air| { LoseKeeps(w, i); }
      case Handle => if w.up != [] { HandleKeeps(w); }
    }
  }

  /** In every run, whatever the order of completions and whichever packets the mote rejects: a
      report invokes the callback registered for its packet if and only if, when the host handles
      it, the packet 16 sends later has not been registered yet. */
  lemma SessionMatching(steps: seq<Step>, v: Invocation)
    requires v in Run(steps).invoked
    ensures v.callback == Some(v.pkt) <==> v.registered <= v.pkt + SLOTS
  {
    RunKeeps(steps);
  }

  lemma {:induction false} AfterSends(n: nat)
    ensures var w := Run(seq(n, _ => Send)); w.sent == |w.down| == n && w.air == [] && w.up == [] && w.invoked == []
  {
    if n > 0 {
      AfterSends(n - 1);
      assert seq(n, _ => Send)[..n - 1] == seq(n - 1, _ => Send);
    }
  }

  lemma FirstReport(w: World)
    requires Shape(w) && LinkOk(w) && w.sent == |w.down| == SLOTS + 1
    requires w.air == [] && w.up == [] && w.invoked == []
    ensures var a := Apply(w, Receive(true));
      Shape(a) &&
      var b := Apply(a, Complete(0, 0, 1));
      Shape(b) &&
      var v := Apply(b, Handle);
      |v.invoked| == 1 && v.invoked[0].pkt == 0 && v.invoked[0].registered == SLOTS + 1
  {
    assert w.down[0].pkt == 0;
    ShapeKept(w, Receive(true));
    ShapeKept(Apply(w, Receive(true)), Complete(0, 0, 1));
  }

  /** The condition is not idle: with one packet more than there are slots underway, the report
      about the first one goes to another packet's sender. */
  lemma OverrunMisroutes()
    ensures exists steps, v :: v in Run(steps).invoked && v.callback != Some(v.pkt)
  {
    hide Run, Shape, LinkOk, HostOk, AirOk, UpOk, InvokedOk, Apply;
    var sends: seq<Step> := seq(SLOTS + 1, _ => Send);
    AfterSends(SLOTS + 1);
    RunKeeps(sends);
    FirstReport(Run(sends));
    RunSnoc(sends, Receive(true));
    RunSnoc(sends + [Receive(true)], Complete(0, 0, 1));
    var steps := sends + [Receive(true)] + [Complete(0, 0, 1)];
    RunSnoc(steps, Handle);
    var v := Run(steps + [Handle]).invoked[0];
    SessionMatching(steps + [Handle], v);
    assert v in Run(steps + [Handle]).invoked && v.callback != Some(v.pkt);
  }

  lemma RunSnoc(steps: seq<Step>, s: Step)
    ensures Run(steps + [s]) == Apply(Run(steps), s)
  {
    assert (steps + [s])[..|steps|] == steps;
  }

  // ---------------------------------------------------------------- every packet in one place

  ghost predicate Distinct(pkts: seq<nat>) {
    forall i, j | 0 <= i < j < |pkts| :: pkts[i] != pkts[j]
  }

  function AirPkts(air: seq<Job>): seq<nat> { seq(|air|, i requires 0 <= i < |air| => air[i].pkt) }
  function UpPkts(up: seq<Up>): seq<nat> { seq(|up|, i requires 0 <= i < |up| => up[i].pkt) }
  function InvokedPkts(vs: seq<Invocation>): seq<nat> { seq(|vs|, i requires 0 <= i < |vs| => vs[i].pkt) }

  /** These are the packets in that place, each once. */
  ghost predicate At(w: World, pkts: seq<nat>, p: Place) {
    && Distinct(pkts)
    && (forall k | k in pkts :: k < |w.place| && w.place[k] == p)
    && (forall k | 0 <= k < |w.place| && w.place[k] == p :: k in pkts)
  }

  ghost predicate Placed(w: World) {
    && Shape(w)
    && (forall k | Taken(w) <= k < w.sent :: w.place[k] == OnLink)
    && (forall k | 0 <= k < Taken(w) :: w.place[k] != OnLink)
    && At(w, AirPkts(w.air), OnAir)
    && At(w, UpPkts(w.up), Reporting)
    && At(w, InvokedPkts(w.invoked), Reported)
  }

  lemma MovedIn(w: World, v: World, pkts: seq<nat>, p: Place, k: nat)
    requires At(w, pkts, p) && k < |w.place| && w.place[k] != p
    requires v.place == w.place[k := p]
    ensures At(v, pkts + [k], p)
  {
    assert forall m | m in pkts + [k] :: m in pkts || m == k;
    assert forall m | m in pkts || m == k :: m in pkts + [k];
    assert forall i | 0 <= i < |pkts| :: pkts[i] in pkts;
    assert forall m | 0 <= m < |v.place| && v.place[m] == p :: m == k || w.place[m] == p;
  }

  lemma MovedOut(w: World, v: World, pkts: seq<nat>, p: Place, i: nat, q: Place)
    requires At(w, pkts, p) && i < |pkts| && pkts[i] < |w.place| && q != p
    requires v.place == w.place[pkts[i] := q]
    ensures At(v, pkts[..i] + pkts[i + 1..], p)
  {
    var rest := pkts[..i] + pkts[i + 1..];
    forall m | m in rest
      ensures m < |v.place| && v.place[m] == p
    {
      var j :| 0 <= j < |rest| && rest[j] == m;
      assert m == pkts[if j < i then j else j + 1] && m in pkts;
    }
    forall m | 0 <= m < |v.place| && v.place[m] == p
      ensures m in rest
    {
      assert w.place[m] == p;
      var j :| 0 <= j < |pkts| && pkts[j] == m;
      assert rest[if j < i then j else j - 1] == m;
    }
  }

  lemma Elsewhere(w: World, v: World, pkts: seq<nat>, p: Place, k: nat, q: Place)
    requires At(w, pkts, p) && k < |w.place| && w.place[k] != p && q != p
    requires v.place == w.place[k := q]
    ensures At(v, pkts, p)
  {
    assert forall m | 0 <= m < |v.place| && v.place[m] == p :: w.place[m] == p;
  }

  lemma ReceivePlaced(w: World, wellFormed: bool)
    requires Inv(w) && Placed(w) && w.down != []
    ensures Placed(DoReceive(w, wellFormed))
  {
    ShapeKept(w, Receive(wellFormed));
    var v, k := DoReceive(w, wellFormed), w.down[0].pkt;
    assert k == Taken(w) && w.place[k] == OnLink;
    var q := if wellFormed then OnAir else Rejected;
    Elsewhere(w, v, UpPkts(w.up), Reporting, k, q);
    Elsewhere(w, v, InvokedPkts(w.invoked), Reported, k, q);
    if wellFormed {
      MovedIn(w, v, AirPkts(w.air), OnAir, k);
      assert AirPkts(v.air) == AirPkts(w.air) + [k];
    } else {
      Elsewhere(w, v, AirPkts(w.air), OnAir, k, q);
    }
  }

  lemma CompletePlaced(w: World, which: nat, status: int, tx: int)
    requires Inv(w) && Placed(w) && which < |w.air|
    ensures Placed(DoComplete(w, which, status, tx))
  {
    ShapeKept(w, Complete(which, status, tx));
    var v, k := DoComplete(w, which, status, tx), w.air[which].pkt;
    assert AirPkts(w.air)[which] == k && k in AirPkts(w.air);
    MovedOut(w, v, AirPkts(w.air), OnAir, which, Reporting);
    assert AirPkts(v.air) == AirPkts(w.air)[..which] + AirPkts(w.air)[which + 1..];
    MovedIn(w, v, UpPkts(w.up), Reporting, k);
    assert UpPkts(v.up) == UpPkts(w.up) + [k];
    Elsewhere(w, v, InvokedPkts(w.invoked), Reported, k, Reporting);
  }

  lemma LosePlaced(w: World, which: nat)
    requires Inv(w) && Placed(w) && which < |w.air|
    ensures Placed(DoLose(w, which))
  {
    LoseShape(w, which);
    var v, k := DoLose(w, which), w.air[which].pkt;
    assert AirPkts(w.air)[which] == k && k in AirPkts(w.air);
    MovedOut(w, v, AirPkts(w.air), OnAir, which, Lost);
    assert AirPkts(v.air) == AirPkts(w.air)[..which] + AirPkts(w.air)[which + 1..];
    Elsewhere(w, v, UpPkts(w.up), Reporting, k, Lost);
    Elsewhere(w, v, InvokedPkts(w.invoked), Reported, k, Lost);
  }

  lemma HandlePlaced(w: World)
    requires Inv(w) && Placed(w) && w.up != []
    ensures Placed(DoHandle(w))
  {
    ShapeKept(w, Handle);
    var v, k := DoHandle(w), w.up[0].pkt;
    assert UpPkts(w.up)[0] == k && k in UpPkts(w.up);
    MovedOut(w, v, UpPkts(w.up), Reporting, 0, Reported);
    assert UpPkts(v.up) == UpPkts(w.up)[..0] + UpPkts(w.up)[1..];
    MovedIn(w, v, InvokedPkts(w.invoked), Reported, k);
    assert InvokedPkts(v.invoked) == InvokedPkts(w.invoked) + [k];
    Elsewhere(w, v, AirPkts(w.air), OnAir, k, Reported);
  }

  lemma SendPlaced(w: World)
    requires Inv(w) && Placed(w)
    ensures Placed(DoSend(w))
  {
    ShapeKept(w, Send);
    var v := DoSend(w);
    assert Taken(v) == Taken(w);
    assert forall k | 0 <= k < w.sent :: v.place[k] == w.place[k];
    forall p, pkts | At(w, pkts, p) && p != OnLink
      ensures At(v, pkts, p)
    {
      assert forall m | 0 <= m < |v.place| && v.place[m] == p :: w.place[m] == p;
    }
  }

  lemma {:induction false} RunPlaced(steps: seq<Step>)
    ensures Placed(Run(steps))
  {
    if steps != [] {
      var w, s := Run(steps[..|steps| - 1]), steps[|steps| - 1];
      RunPlaced(steps[..|steps| - 1]);
      RunKeeps(steps[..|steps| - 1]);
      hide Inv, Placed;
      match s
      case Send => SendPlaced(w);
      case Receive(ok) => if w.down != [] { ReceivePlaced(w, ok); }
      case Complete(i, status, tx) => if i < |w.air| { CompletePlaced(w, i, status, tx); }
      case Lose(i) => if i < |w.air| { LosePlaced(w, i); }
      case Handle => if w.up != [] { HandlePlaced(w); }
    }
  }

  /** In every run no packet is reported to its sender twice, and none that was rejected, was lost, is still
      on the link or still on the air is reported at all. */
  lemma ReportedOnce(steps: seq<Step>, i: nat, j: nat)
    requires i < j < |Run(steps).invoked|
    ensures Run(steps).invoked[i].pkt != Run(steps).invoked[j].pkt
    ensures Run(steps).invoked[i].pkt < |Run(steps).place|
    ensures Run(steps).place[Run(steps).invoked[i].pkt] == Reported
  {
    RunPlaced(steps);
    var w := Run(steps);
    assert InvokedPkts(w.invoked)[i] == w.invoked[i].pkt && InvokedPkts(w.invoked)[i] in InvokedPkts(w.invoked);
    assert InvokedPkts(w.invoked)[j] == w.invoked[j].pkt;
  }

  ghost predicate Quiet(w: World) { w.down == [] && w.air == [] && w.up == [] }

  /** Rejected by the mote, or its report was lost. */
  predicate Gone(p: Place) { p == Rejected || p == Lost }

  /** Once nothing is underway any more, the packets that were reported are exactly those that the
      mote did not reject and whose reports were not lost. */
  lemma AllButRejectedReported(steps: seq<Step>, k: nat)
    requires Quiet(Run(steps)) && k < Run(steps).sent
    ensures k < |Run(steps).place|
    ensures (exists i :: 0 <= i < |Run(steps).invoked| && Run(steps).invoked[i].pkt == k)
      <==> !Gone(Run(steps).place[k])
  {
    hide Run;
    RunPlaced(steps);
    var w := Run(steps);
    var pkts := InvokedPkts(w.invoked);
    assert k !in AirPkts(w.air) && k !in UpPkts(w.up);
    assert k in pkts <==> w.place[k] == Reported;
    if k in pkts {
      var i :| 0 <= i < |pkts| && pkts[i] == k;
      assert w.invoked[i].pkt == k;
    }
    if i :| 0 <= i < |w.invoked| && w.invoked[i].pkt == k {
      assert pkts[i] == k;
    }
  }

  // ---------------------------------------------------------------- reports carry their outcome

  function InvokedOutcomes(vs: seq<Invocation>): seq<Outcome> {
    seq(|vs|, i requires 0 <= i < |vs| => Outcome(vs[i].pkt, vs[i].status, vs[i].tx))
  }
  function UpOutcomes(up: seq<Up>): seq<Outcome> {
    seq(|up|, i requires 0 <= i < |up| => Outcome(up[i].pkt, up[i].status, up[i].tx))
  }

  ghost predicate OutcomesKept(w: World) {
    InvokedOutcomes(w.invoked) + UpOutcomes(w.up) == w.radio
  }

  lemma CompleteOutcomes(w: World, which: nat, status: int, tx: int)
    requires Shape(w) && OutcomesKept(w) && which < |w.air|
    ensures OutcomesKept(DoComplete(w, which, status, tx))
  {
    var v := DoComplete(w, which, status, tx);
    var last := v.radio[|v.radio| - 1];
    assert UpOutcomes(v.up) == UpOutcomes(w.up) + [last];
    assert w.radio + [last] == InvokedOutcomes(w.invoked) + (UpOutcomes(w.up) + [last]);
  }

  lemma HandleOutcomes(w: World)
    requires Shape(w) && OutcomesKept(w) && w.up != []
    ensures OutcomesKept(DoHandle(w))
  {
    var v := DoHandle(w);
    var first := UpOutcomes(w.up)[0];
    assert InvokedOutcomes(v.invoked) == InvokedOutcomes(w.invoked) + [first];
    assert UpOutcomes(w.up) == [first] + UpOutcomes(v.up);
  }

  /** In every run the host learns of completions, those with lost reports excepted, in the order in which the
      radio finished, each with the low bytes of its own status and transmission count. */
  lemma {:induction false} ReportsInOrder(steps: seq<Step>)
    ensures InvokedOutcomes(Run(steps).invoked) + UpOutcomes(Run(steps).up) == Run(steps).radio
  {
    hide InvokedOutcomes, UpOutcomes;
    if steps == [] {
      NoOutcomes();
    } else {
      var w := Run(steps[..|steps| - 1]);
      ReportsInOrder(steps[..|steps| - 1]);
      assert OutcomesKept(w);
      match steps[|steps| - 1]
      case Send =>
      case Receive(_) =>
      case Complete(i, status, tx) => if i < |w.air| { CompleteOutcomes(w, i, status, tx); }
      case Lose(_) =>
      case Handle => if w.up != [] { HandleOutcomes(w); }
    }
  }

  lemma NoOutcomes()
    ensures OutcomesKept(Init())
  {}

  // ---------------------------------------------------------------- going on without losses

  /** A step that neither rejects a packet nor loses a report, nor sends another packet. */
  predicate Gentle(s: Step) { s == Receive(true) || s.Complete? || s == Handle }

  /** The same packets are gone. */
  ghost predicate SameGone(w: World, v: World) {
    |v.place| == |w.place| && forall k | 0 <= k < |w.place| :: Gone(v.place[k]) <==> Gone(w.place[k])
  }

  lemma StepSpares(w: World, s: Step)
    requires Inv(w) && Placed(w) && Gentle(s)
    ensures SameGone(w, Apply(w, s))
  {
    hide HostOk, AirOk, UpOk, InvokedOk;
    match s
    case Receive(_) => if w.down != [] { assert w.down[0].pkt == Taken(w) + 0; }
    case Complete(i, _, _) =>
      if i < |w.air| { assert AirPkts(w.air)[i] == w.air[i].pkt && AirPkts(w.air)[i] in AirPkts(w.air); }
    case Handle => if w.up != [] { assert UpPkts(w.up)[0] == w.up[0].pkt && UpPkts(w.up)[0] in UpPkts(w.up); }
  }

  /** Gentle steps make no packet go. */
  lemma {:induction false} StepsSpare(steps: seq<Step>, more: seq<Step>)
    requires forall s | s in more :: Gentle(s)
    ensures SameGone(Run(steps), Run(steps + more))
  {
    hide *;
    if more == [] {
      assert steps + more == steps;
      NoneGone(Run(steps));
    } else {
      var init, s := more[..|more| - 1], more[|more| - 1];
      assert s in more && forall x | x in init :: x in more;
      StepsSpare(steps, init);
      RunKeeps(steps + init);
      RunPlaced(steps + init);
      RunSnoc(steps + init, s);
      StepSpares(Run(steps + init), s);
      assert steps + init + [s] == steps + more;
      SameTwice(Run(steps), Run(steps + init), Run(steps + more));
    }
  }

  lemma NoneGone(w: World)
    ensures SameGone(w, w)
  {}

  lemma SameTwice(w: World, v: World, u: World)
    requires SameGone(w, v) && SameGone(v, u)
    ensures SameGone(w, u)
  {}

  // ---------------------------------------------------------------- the sending window

  /** Its slot on the host is free: nothing will be reported for it any more. */
  predicate Settled(p: Place) { p == Reported || Gone(p) }

  /** The packet 16 sends earlier has been reported to its sender or rejected, or its report was lost. */
  ghost predicate WindowOpen(w: World)
    requires Shape(w)
  {
    w.sent >= SLOTS ==> Settled(w.place[w.sent - SLOTS])
  }

  /** A run in which packets are only sent with the window open. */
  ghost predicate Windowed(steps: seq<Step>) {
    steps == [] ||
    (Windowed(steps[..|steps| - 1]) &&
     (steps[|steps| - 1] == Send ==> WindowOpen(Run(steps[..|steps| - 1]))))
  }

  ghost predicate WindowKept(w: World) {
    (forall k | 0 <= k && k + SLOTS < w.sent :: k < |w.place| && Settled(w.place[k])) &&
    forall v | v in w.invoked :: v.callback == Some(v.pkt)
  }

  /** A packet's progress leaves the window as it is. */
  lemma ProgressKeepsWindow(w: World, v: World, k: nat, p: Place)
    requires WindowKept(w) && k < |w.place| && !Settled(w.place[k])
    requires v.place == w.place[k := p] && v.sent == w.sent && v.invoked == w.invoked
    ensures WindowKept(v)
  {}

  lemma SendKeepsWindow(w: World)
    requires Shape(w) && WindowKept(w) && WindowOpen(w)
    ensures WindowKept(DoSend(w))
  {
    var v := DoSend(w);
    assert forall k | 0 <= k < w.sent :: v.place[k] == w.place[k];
  }

  lemma HandleKeepsWindow(w: World)
    requires Inv(w) && Placed(w) && WindowKept(w) && w.up != []
    ensures WindowKept(DoHandle(w))
  {
    var v, k := DoHandle(w), w.up[0].pkt;
    HandleKeeps(w);
    assert UpPkts(w.up)[0] == k && k in UpPkts(w.up);
    var made := v.invoked[|v.invoked| - 1];
    assert made in v.invoked && Matched(made);
    hide Placed, HostOk, LinkOk, AirOk, UpOk, At;
    assert forall x | x in v.invoked :: x in w.invoked || x == made;
  }

  lemma StepKeepsWindow(w: World, s: Step)
    requires Inv(w) && Placed(w) && WindowKept(w)
    requires s == Send ==> WindowOpen(w)
    ensures WindowKept(Apply(w, s))
  {
    hide WindowKept, HostOk, AirOk, UpOk, InvokedOk;
    match s
    case Send => SendKeepsWindow(w);
    case Receive(ok) =>
      if w.down != [] {
        assert w.down[0].pkt == Taken(w) + 0;
        ProgressKeepsWindow(w, DoReceive(w, ok), w.down[0].pkt, if ok then OnAir else Rejected);
      }
    case Complete(i, status, tx) =>
      if i < |w.air| {
        assert AirPkts(w.air)[i] == w.air[i].pkt && AirPkts(w.air)[i] in AirPkts(w.air);
        ProgressKeepsWindow(w, DoComplete(w, i, status, tx), w.air[i].pkt, Reporting);
      }
    case Lose(i) =>
      if i < |w.air| {
        assert AirPkts(w.air)[i] == w.air[i].pkt && AirPkts(w.air)[i] in AirPkts(w.air);
        ProgressKeepsWindow(w, DoLose(w, i), w.air[i].pkt, Lost);
      }
    case Handle => if w.up != [] { HandleKeepsWindow(w); }
  }

  lemma {:induction false} WindowedKeeps(steps: seq<Step>)
    requires Windowed(steps)
    ensures WindowKept(Run(steps))
  {
    if steps != [] {
      WindowedKeeps(steps[..|steps| - 1]);
      RunKeeps(steps[..|steps| - 1]);
      RunPlaced(steps[..|steps| - 1]);
      StepKeepsWindow(Run(steps[..|steps| - 1]), steps[|steps| - 1]);
    }
  }

  /** If a packet is sent only after the one 16 sends earlier was reported or is gone, every report
      invokes exactly the callback registered for its packet. */
  lemma WindowedMatching(steps: seq<Step>, v: Invocation)
    requires Windowed(steps) && v in Run(steps).invoked
    ensures v.callback == Some(v.pkt)
  {
    WindowedKeeps(steps);
  }

  /** In such a run no two reports invoke the same callback, and that of a rejected packet is never
      invoked, nor that of one whose report was lost; once nothing is underway, all others have been. */
  lemma WindowedExactlyOnce(steps: seq<Step>, k: nat)
    requires Windowed(steps) && k < Run(steps).sent
    ensures k < |Run(steps).place|
    ensures forall i, j :: 0 <= i < j < |Run(steps).invoked| ==>
      Run(steps).invoked[i].callback != Run(steps).invoked[j].callback
    ensures InvokedFor(Run(steps), k) ==> Run(steps).place[k] == Reported
    ensures Quiet(Run(steps)) ==> (InvokedFor(Run(steps), k) <==> !Gone(Run(steps).place[k]))
  {
    hide Run, Windowed;
    RunPlaced(steps);
    var w := Run(steps);
    forall i | 0 <= i < |w.invoked|
      ensures w.invoked[i].callback == Some(w.invoked[i].pkt)
    {
      WindowedMatching(steps, w.invoked[i]);
    }
    forall i, j | 0 <= i < j < |w.invoked|
      ensures w.invoked[i].pkt != w.invoked[j].pkt
    {
      ReportedOnce(steps, i, j);
    }
    if i :| 0 <= i < |w.invoked| && w.invoked[i].callback == Some(k) {
      assert InvokedPkts(w.invoked)[i] == k && k in InvokedPkts(w.invoked);
    }
    if Quiet(w) {
      AllButRejectedReported(steps, k);
    }
  }

  ghost predicate InvokedFor(w: World, k: nat) {
    exists i :: 0 <= i < |w.invoked| && w.invoked[i].callback == Some(k)
  }
}
