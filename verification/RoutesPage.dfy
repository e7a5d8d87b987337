/** The status page: text is gathered in a buffer of 128 characters and sent piece by piece. */
module RoutesPage {
  import opened Ipv6Text

  /** sizeof(buf). */
  const SIZE: nat := 128

  function Top(): string {
    "<html>" + "<head>" + "<title>" + "ContikiRPL</title>" + "</head>" + "<body>" + "\n"
  }

  function Bottom(): string { "</body></html>\n" }

  // The fixed pieces of the page, with what the buffer discipline needs to know of them.
  function NeighborsHead(): (s: string) ensures |s| == 14 && '\0' !in s { "Neighbors<pre>" }
  function RoutesHead(): (s: string) ensures |s| == 17 && '\0' !in s { "</pre>Routes<pre>" }
  function SensorsHead(): (s: string) ensures |s| == 18 && '\0' !in s { "</pre>Sensors<pre>" }
  function EndPre(): (s: string) ensures |s| == 6 && '\0' !in s { "</pre>" }
  function Via(): (s: string) ensures |s| == 6 && '\0' !in s { " (via " }

  /** uip_ipaddr_t: sixteen bytes. */
  predicate IsBytes(u8: seq<nat>) { |u8| == 16 && forall i | 0 <= i < 16 :: u8[i] < 0x100 }

  function GroupsOf(u8: seq<nat>): (g: seq<nat>)
    requires IsBytes(u8)
    ensures IsAddress(g)
  {
    seq(8, k requires 0 <= k < 8 => u8[2 * k] * 0x100 + u8[2 * k + 1])
  }

  function AddrText(u8: seq<nat>): string
    requires IsBytes(u8)
  {
    Print(GroupsOf(u8))
  }

  /** Different addresses have different texts. */
  lemma AddrTextInjective(a: seq<nat>, b: seq<nat>)
    requires IsBytes(a) && IsBytes(b) && AddrText(a) == AddrText(b)
    ensures a == b
  {
    PrintInjective(GroupsOf(a), GroupsOf(b));
    forall i | 0 <= i < 16
      ensures a[i] == b[i]
    {
      assert GroupsOf(a)[i / 2] == GroupsOf(b)[i / 2];
    }
  }

  // ---------------------------------------------------------------- the printer's loop

  /** The text after the first k groups, and the value of f then: 0 before the first zero group, the
      length so far inside that run, -1 after it. */
  function Partial(g: seq<nat>, k: nat): string
    requires k <= |g|
  {
    var z := FirstZero(g, 0);
    var e := RunEnd(g, z);
    if k <= z then Groups(g[..k])
    else if k <= e then Groups(g[..z]) + "::"
    else Groups(g[..z]) + "::" + Groups(g[e..k])
  }

  function Flag(g: seq<nat>, k: nat): int
    requires k <= |g|
  {
    var z := FirstZero(g, 0);
    if k <= z then 0 else if k <= RunEnd(g, z) then k - z else -1
  }

  /** What the loop body appends for group k. */
  function Piece(g: seq<nat>, k: nat): string
    requires k < |g|
  {
    if g[k] == 0 && Flag(g, k) >= 0 then if Flag(g, k) == 0 then "::" else ""
    else (if Flag(g, k) > 0 || k == 0 then "" else ":") + Hex(g[k])
  }

  lemma PartialBefore(g: seq<nat>, k: nat)
    requires k < FirstZero(g, 0)
    ensures Partial(g, k + 1) == Partial(g, k) + Piece(g, k) && Flag(g, k + 1) == Flag(g, k) == 0
  {
    hide Groups, Hex, FirstZero, RunEnd;
    GroupsSnoc(g[..k], g[k]);
    assert g[..k + 1] == g[..k] + [g[k]];
    GroupsNone();
  }

  lemma PartialInside(g: seq<nat>, k: nat)
    requires FirstZero(g, 0) <= k < RunEnd(g, FirstZero(g, 0))
    ensures Partial(g, k + 1) == Partial(g, k) + Piece(g, k) && Flag(g, k + 1) == Flag(g, k) + 1 > 0
  {
    hide Groups, Hex, FirstZero, RunEnd;
  }

  lemma FlagAfter(g: seq<nat>, k: nat)
    requires FirstZero(g, 0) < |g| && RunEnd(g, FirstZero(g, 0)) <= k < |g|
    ensures Flag(g, k + 1) == -1
    ensures if k == RunEnd(g, FirstZero(g, 0)) then Flag(g, k) > 0 && g[k] != 0 else Flag(g, k) == -1
  {
    hide FirstZero, RunEnd;
    assert g[FirstZero(g, 0)] == 0;
  }

  lemma AfterPartial(g: seq<nat>, k: nat, z: nat, e: nat)
    requires z == FirstZero(g, 0) < |g| && e == RunEnd(g, z) <= k <= |g|
    ensures Partial(g, k) == Groups(g[..z]) + "::" + Groups(g[e..k])
  {
    GroupsNone();
    hide Groups, FirstZero, RunEnd;
    assert g[z] == 0 && z < e;
    if k == e {
      assert g[e..k] == [];
      assert Partial(g, k) == Groups(g[..z]) + "::";
    }
  }

  lemma AfterPiece(g: seq<nat>, k: nat)
    requires FirstZero(g, 0) < |g| && RunEnd(g, FirstZero(g, 0)) <= k < |g|
    ensures Piece(g, k) == if k == RunEnd(g, FirstZero(g, 0)) then Hex(g[k]) else ":" + Hex(g[k])
  {
    FlagAfter(g, k);
    hide Hex, FirstZero, RunEnd, Flag;
    assert g[FirstZero(g, 0)] == 0;
    assert "" + Hex(g[k]) == Hex(g[k]);
  }

  lemma {:induction false} PartialAfter(g: seq<nat>, k: nat)
    requires FirstZero(g, 0) < |g| && RunEnd(g, FirstZero(g, 0)) <= k < |g|
    ensures Partial(g, k + 1) == Partial(g, k) + Piece(g, k)
  {
    var z := FirstZero(g, 0);
    var e := RunEnd(g, z);
    AfterPartial(g, k, z, e);
    AfterPartial(g, k + 1, z, e);
    AfterPiece(g, k);
    hide Partial, Piece, FirstZero, RunEnd, Hex, Groups;
    SliceSnoc(g, e, k);
    Regroup(Groups(g[..z]) + "::", Groups(g[e..k]), Hex(g[k]), Groups(g[e..k + 1]), Piece(g, k), k == e);
  }

  lemma SliceSnoc(g: seq<nat>, e: nat, k: nat)
    requires e <= k < |g|
    ensures Groups(g[e..k + 1]) == if e == k then Hex(g[k]) else Groups(g[e..k]) + ":" + Hex(g[k])
    ensures e == k ==> Groups(g[e..k]) == ""
  {
    assert g[e..k + 1] == g[e..k] + [g[k]];
    GroupsSnoc(g[e..k], g[k]);
    GroupsNone();
    assert k == e <==> g[e..k] == [];
  }

  lemma Regroup(head: string, rest: string, last: string, next: string, piece: string, first: bool)
    requires first ==> rest == "" && next == last && piece == last
    requires !first ==> next == rest + ":" + last && piece == ":" + last
    ensures head + next == head + rest + piece
  {}

  lemma PartialStep(g: seq<nat>, k: nat)
    requires k < |g|
    ensures Partial(g, k + 1) == Partial(g, k) + Piece(g, k)
    ensures Flag(g, k + 1) == if g[k] == 0 && Flag(g, k) >= 0 then Flag(g, k) + 1
                              else if Flag(g, k) > 0 then -1 else Flag(g, k)
  {
    hide Partial, Piece, Flag, FirstZero, RunEnd;
    var z := FirstZero(g, 0);
    if k < z {
      PartialBefore(g, k);
    } else if k < RunEnd(g, z) {
      PartialInside(g, k);
    } else {
      FlagAfter(g, k);
      PartialAfter(g, k);
    }
  }

  lemma GroupsNone()
    ensures Groups([]) == ""
  {}

  lemma {:induction false} PartialPrefix(g: seq<nat>, k: nat)
    requires k <= |g|
    ensures Partial(g, k) <= Print(g)
    decreases |g| - k
  {
    hide Partial, Print, Piece;
    if k == |g| {
      PartialEnds(g);
    } else {
      PartialStep(g, k);
      PartialPrefix(g, k + 1);
    }
  }

  lemma PartialEnds(g: seq<nat>)
    ensures Partial(g, 0) == ""
    ensures Partial(g, |g|) == Print(g)
  {
    GroupsNone();
    assert g[..0] == [] && g[..|g|] == g;
    var z := FirstZero(g, 0);
    var e := RunEnd(g, z);
    assert g[e..|g|] == g[e..];
  }

  // ---------------------------------------------------------------- decimal numbers

  /** "%u" and "%lu". */
  function Decimal(n: nat): string {
    if n < 10 then ["0123456789"[n]] else Decimal(n / 10) + ["0123456789"[n % 10]]
  }

  lemma DecimalSize(n: nat)
    requires n < 1000
    ensures 1 <= |Decimal(n)| <= 3
  {
    assert |Decimal(n / 10 / 10)| == 1;
    assert |Decimal(n / 10)| <= 2;
  }

  lemma {:induction false} DecimalHasNoNul(n: nat)
    ensures '\0' !in Decimal(n)
  {
    if n >= 10 {
      DecimalHasNoNul(n / 10);
    }
  }

  // ---------------------------------------------------------------- the page

  datatype Route = Route(dest: seq<nat>, length: nat, nexthop: seq<nat>, lifetime: nat)

  predicate RouteOk(r: Route) { IsBytes(r.dest) && r.length < 0x100 && IsBytes(r.nexthop) }

  predicate Addresses(ns: seq<seq<nat>>) { forall n | n in ns :: IsBytes(n) }

  predicate RoutesOk(rs: seq<Route>) { forall r | r in rs :: RouteOk(r) }

  predicate SensorsOk(ss: seq<string>) { forall s | s in ss :: |s| < 32 && '\0' !in s }

  function NeighborLines(ns: seq<seq<nat>>): string
    requires Addresses(ns)
  {
    if ns == [] then "" else NeighborLines(ns[..|ns| - 1]) + AddrText(ns[|ns| - 1]) + "\n"
  }

  function Lifetime(t: nat): string { if t < 600 then ") " + Decimal(t) + "s\n" else ")\n" }

  function RouteLine(r: Route): string
    requires RouteOk(r)
  {
    AddrText(r.dest) + ("/" + Decimal(r.length) + Via()) + AddrText(r.nexthop) + Lifetime(r.lifetime)
  }

  function RouteLines(rs: seq<Route>): string
    requires RoutesOk(rs)
  {
    if rs == [] then "" else RouteLines(rs[..|rs| - 1]) + RouteLine(rs[|rs| - 1])
  }

  function SensorLines(ss: seq<string>): string {
    if ss == [] then "" else SensorLines(ss[..|ss| - 1]) + ss[|ss| - 1] + "\n"
  }

  function Tables(ns: seq<seq<nat>>, rs: seq<Route>): string
    requires Addresses(ns) && RoutesOk(rs)
  {
    Top() + (NeighborsHead() + NeighborLines(ns) + RoutesHead()) + RouteLines(rs) + EndPre()
  }

  /** The page without paging: every text once. */
  function Listing(ns: seq<seq<nat>>, rs: seq<Route>, ss: seq<string>): string
    requires Addresses(ns) && RoutesOk(rs)
  {
    Tables(ns, rs) + (if ss == [] then "" else SensorsHead() + SensorLines(ss) + EndPre()) + Bottom()
  }

  /** What is sent: with sensors, the closing tag still in the buffer is sent a second time. */
  function Sent(ns: seq<seq<nat>>, rs: seq<Route>, ss: seq<string>): string
    requires Addresses(ns) && RoutesOk(rs)
  {
    Tables(ns, rs) + (if ss == [] then "" else EndPre() + SensorsHead() + SensorLines(ss) + EndPre()) + Bottom()
  }

  /** The pieces sent amount to the unpaged listing exactly when there are no sensors. */
  lemma PagingIsExact(ns: seq<seq<nat>>, rs: seq<Route>, ss: seq<string>)
    requires Addresses(ns) && RoutesOk(rs)
    ensures Sent(ns, rs, ss) == Listing(ns, rs, ss) <==> ss == []
  {
    assert |Sent(ns, rs, ss)| == |Listing(ns, rs, ss)| + if ss == [] then 0 else |EndPre()|;
  }

  class Page {
    const buf: array<char>
    var blen: nat
    /** Everything given to SEND_STRING. */
    var sent: string

    constructor ()
      ensures buf.Length == SIZE && blen == 0 && sent == "" && fresh(buf)
    {
      buf := new char[SIZE](_ => '\0');
      blen, sent := 0, "";
    }

    ghost predicate Ready()
      reads this, buf
    {
      buf.Length == SIZE && blen < SIZE && '\0' !in buf[..blen]
    }

    ghost function Content(): string
      reads this, buf
      requires Ready()
    {
      buf[..blen]
    }

    /** ADD: snprintf writes what fits and a NUL, and the position moves by the whole text. */
    method Add(t: string)
      requires buf.Length == SIZE && blen < SIZE
      modifies this`blen, buf
      ensures blen == old(blen) + |t|
      ensures blen < SIZE ==> buf[..blen] == old(buf[..blen]) + t && buf[blen] == '\0'
      ensures blen >= SIZE ==> buf[..SIZE - 1] == (old(buf[..blen]) + t)[..SIZE - 1] && buf[SIZE - 1] == '\0'
    {
      var n := if |t| < SIZE - blen then |t| else SIZE - blen - 1;
      forall i | 0 <= i < n {
        buf[blen + i] := t[i];
      }
      buf[blen + n] := '\0';
      blen := blen + |t|;
    }

    /** The body of the loop in ipaddr_add, for group k of value a. */
    method AddGroup(ghost g: seq<nat>, k: nat, a: nat, f: int) returns (f': int)
      requires buf.Length == SIZE && k < |g| && a == g[k] && f == Flag(g, k)
      requires blen + |Piece(g, k)| < SIZE
      modifies this`blen, buf
      ensures blen == old(blen) + |Piece(g, k)|
      ensures buf[..blen] == old(buf[..blen]) + Piece(g, k)
      ensures f' == if g[k] == 0 && f >= 0 then f + 1 else if f > 0 then -1 else f
    {
      hide Hex, Flag;
      f' := f;
      if a == 0 && f >= 0 {
        f' := f + 1;
        if f == 0 && SIZE - blen >= 2 {
          buf[blen] := ':';
          buf[blen + 1] := ':';
          blen := blen + 2;
        }
      } else {
        if f > 0 {
          f' := -1;
        } else if k > 0 && blen < SIZE {
          buf[blen] := ':';
          blen := blen + 1;
        }
        Add(Hex(a));
      }
    }

    /** ipaddr_add, given room for the text. */
    method IpaddrAdd(u8: seq<nat>)
      requires Ready() && IsBytes(u8) && blen + |AddrText(u8)| < SIZE
      modifies this`blen, buf
      ensures Ready() && Content() == old(Content()) + AddrText(u8)
    {
      hide Partial, Print, Flag, Piece;
      ghost var g := GroupsOf(u8);
      ghost var base := buf[..blen];
      PartialEnds(g);
      PrintSize(g);
      var i, f := 0, 0;
      FlagStart(g);
      while i < 16
        invariant 0 <= i <= 16 && i % 2 == 0
        invariant buf.Length == SIZE && blen == |base| + |Partial(g, i / 2)| && blen < SIZE
        invariant buf[..blen] == base + Partial(g, i / 2)
        invariant f == Flag(g, i / 2)
      {
        ghost var k := i / 2;
        PartialStep(g, k);
        PartialPrefix(g, k + 1);
        var a := u8[i] * 0x100 + u8[i + 1];
        f := AddGroup(g, i / 2, a, f);
        i := i + 2;
      }
    }

    /** SEND_STRING of the buffer, a terminated string of blen characters. */
    method SendBuf()
      requires Ready() && buf[blen] == '\0'
      modifies this`sent
      ensures sent == old(sent) + Content()
    {
      assert forall i | 0 <= i < blen :: buf[i] == buf[..blen][i];
      var n := 0;
      while buf[n] != '\0'
        invariant n <= blen
        decreases blen - n
      {
        n := n + 1;
      }
      sent := sent + buf[..n];
    }

    /** generate_routes: the two tables, the sensors and the frame around them. */
    method GenerateRoutes(ns: seq<seq<nat>>, rs: seq<Route>, ss: seq<string>)
      requires buf.Length == SIZE
      requires Addresses(ns) && RoutesOk(rs) && SensorsOk(ss)
      modifies this, buf
      ensures sent == old(sent) + Sent(ns, rs, ss)
    {
      hide Top, Bottom, EndPre, NeighborsHead, RoutesHead, SensorsHead, NeighborLines, RouteLines, SensorLines;
      sent := sent + Top();
      SendNeighbors(ns);
      SendRoutes(rs);
      Add(EndPre());
      assert Content() == EndPre();
      SendBuf();
      Regroup4(old(sent), Top(), NeighborsHead() + NeighborLines(ns) + RoutesHead(), RouteLines(rs), EndPre());
      hide Addresses, RoutesOk;
      ghost var tables := sent;
      assert tables == old(sent) + Tables(ns, rs);
      if |ss| > 0 {
        SendSensors(ss);
      }
      hide Tables;
      ghost var rest := if ss == [] then "" else EndPre() + SensorsHead() + SensorLines(ss) + EndPre();
      assert sent == tables + rest;
      sent := sent + Bottom();
      Regroup4(old(sent), Tables(ns, rs), rest, Bottom(), "");
    }

    /** The neighbour loop: the buffer is sent whenever less than 45 characters would be left. No
        text is ever cut. */
    method SendNeighbors(ns: seq<seq<nat>>)
      requires buf.Length == SIZE && Addresses(ns)
      modifies this, buf
      ensures Ready() && blen == 0
      ensures sent == old(sent) + (NeighborsHead() + NeighborLines(ns) + RoutesHead())
    {
      hide AddrText, EndPre, NeighborsHead, RoutesHead, SensorsHead, Via;
      blen := 0;
      Add(NeighborsHead());
      ghost var head := old(sent) + NeighborsHead();
      for i := 0 to |ns|
        invariant Ready() && blen <= SIZE - 45
        invariant sent + Content() == head + NeighborLines(ns[..i])
      {
        SendNeighbor(ns[i]);
        assert ns[..i + 1][..i] == ns[..i];
      }
      assert ns[..|ns|] == ns;
      ghost var before := sent + Content();
      Add(RoutesHead());
      SendBuf();
      assert sent == before + RoutesHead();
      blen := 0;
      assert sent == old(sent) + (NeighborsHead() + NeighborLines(ns) + RoutesHead());
    }

    method SendNeighbor(n: seq<nat>)
      requires Ready() && blen <= SIZE - 45 && IsBytes(n)
      modifies this, buf
      ensures Ready() && blen <= SIZE - 45
      ensures sent + Content() == old(sent + Content()) + AddrText(n) + "\n"
    {
      PrintSize(GroupsOf(n));
      IpaddrAdd(n);
      Add("\n");
      if blen > SIZE - 45 {
        SendBuf();
        blen := 0;
      }
    }

    /** The route loop: one send per route. */
    method SendRoutes(rs: seq<Route>)
      requires Ready() && blen == 0 && RoutesOk(rs)
      modifies this, buf
      ensures Ready() && blen == 0
      ensures sent == old(sent) + RouteLines(rs)
    {
      hide RouteLine, EndPre, NeighborsHead, RoutesHead, SensorsHead, Via;
      for i := 0 to |rs|
        invariant Ready() && blen == 0
        invariant sent == old(sent) + RouteLines(rs[..i])
      {
        SendRoute(rs[i]);
        assert rs[..i + 1][..i] == rs[..i];
      }
      assert rs[..|rs|] == rs;
    }

    method SendRoute(r: Route)
      requires Ready() && blen == 0 && RouteOk(r)
      modifies this, buf
      ensures Ready() && blen == 0
      ensures sent == old(sent) + RouteLine(r)
    {
      hide Decimal, Lifetime, Print, EndPre, NeighborsHead, RoutesHead, SensorsHead, Via;
      PrintSize(GroupsOf(r.dest));
      PrintSize(GroupsOf(r.nexthop));
      DecimalSize(r.length);
      DecimalHasNoNul(r.length);
      IpaddrAdd(r.dest);
      Add("/" + Decimal(r.length) + Via());
      IpaddrAdd(r.nexthop);
      LifetimeSize(r.lifetime);
      Add(Lifetime(r.lifetime));
      assert Content() == RouteLine(r);
      SendBuf();
      blen := 0;
    }

    /** The sensor part. The buffer still holds what was sent last. */
    method SendSensors(ss: seq<string>)
      requires Ready() && Content() == EndPre() && SensorsOk(ss)
      modifies this, buf
      ensures sent == old(sent) + (EndPre() + SensorsHead() + SensorLines(ss) + EndPre())
    {
      hide EndPre, NeighborsHead, RoutesHead, SensorsHead, Via;
      Add(SensorsHead());
      assert Content() == EndPre() + SensorsHead();
      SendBuf();
      blen := 0;
      SendSensorLines(ss);
      hide SensorLines;
      Add(EndPre());
      assert Content() == EndPre();
      SendBuf();
      Regroup4(old(sent), EndPre() + SensorsHead(), SensorLines(ss), EndPre(), "");
    }

    method SendSensorLines(ss: seq<string>)
      requires Ready() && blen == 0 && SensorsOk(ss)
      modifies this, buf
      ensures Ready() && blen == 0
      ensures sent == old(sent) + SensorLines(ss)
    {
      for i := 0 to |ss|
        invariant Ready() && blen == 0
        invariant sent == old(sent) + SensorLines(ss[..i])
      {
        assert ss[i] in ss;
        assert ss[..i + 1][..i] == ss[..i];
        assert SensorLines(ss[..i + 1]) == SensorLines(ss[..i]) + ss[i] + "\n";
        Add(ss[i] + "\n");
        assert Content() == ss[i] + "\n";
        SendBuf();
        blen := 0;
      }
      assert ss[..|ss|] == ss;
    }
  }

  lemma Regroup4(s: string, a: string, b: string, c: string, d: string)
    ensures s + a + b + c + d == s + (a + b + c + d)
    ensures s + a + b + c == s + (a + b + c)
  {}

  lemma LifetimeSize(t: nat)
    ensures |Lifetime(t)| <= 7 && '\0' !in Lifetime(t)
  {
    DecimalHasNoNul(t);
    if t < 600 {
      DecimalSize(t);
    }
  }

  lemma FlagStart(g: seq<nat>)
    ensures Flag(g, 0) == 0
  {}
}
