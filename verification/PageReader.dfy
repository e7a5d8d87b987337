/** The status page read back: what a client finds in the text that is sent, without knowing how it was put
    together. */
module PageReader {
  import opened Fields
  import opened Ipv6Text
  import opened Options
  import opened RoutesPage

  // ---------------------------------------------------------------- reading

  /** An address in one of the forms of RFC 4291, as its sixteen bytes. */
  function ReadAddress(s: string): Option<seq<nat>> {
    var g := Parse(s);
    if g.None? then None
    else Some(seq(2 * |g.value|, i requires 0 <= i < 2 * |g.value| =>
                if i % 2 == 0 then g.value[i / 2] / 256 else g.value[i / 2] % 256))
  }

  function DecimalValue(s: string): Option<nat> {
    if s == "" then Some(0)
    else
      var v, c := DecimalValue(s[..|s| - 1]), s[|s| - 1];
      if v.None? || !('0' <= c <= '9') then None else Some(10 * v.value + (c as nat - '0' as nat))
  }

  /** A decimal number without superfluous zeros. */
  function ReadNumber(s: string): Option<nat> {
    if s == "" || (s[0] == '0' && s != "0") then None else DecimalValue(s)
  }

  /** What stands before the last character, if that is c. */
  function Before(s: string, c: char): Option<string> {
    if s != "" && s[|s| - 1] == c then Some(s[..|s| - 1]) else None
  }

  /** A route as the page shows it; the lifetime is not always shown. */
  datatype RouteShown = RouteShown(dest: seq<nat>, length: nat, nexthop: seq<nat>, lifetime: Option<nat>)

  /** dest/length (via nexthop) 10s */
  function ReadRoute(line: string): Option<RouteShown> {
    var parts := Split(line, '/');
    if |parts| != 2 then None
    else
      var dest, words := ReadAddress(parts[0]), Split(parts[1], ' ');
      if |words| < 3 || |words| > 4 || words[1] != "(via" then None
      else
        var length, hop := ReadNumber(words[0]), Before(words[2], ')');
        var nexthop := if hop.None? then None else ReadAddress(hop.value);
        if dest.None? || length.None? || nexthop.None? then None
        else if |words| == 3 then Some(RouteShown(dest.value, length.value, nexthop.value, None))
        else
          var time := Before(words[3], 's');
          var seconds := if time.None? then None else ReadNumber(time.value);
          if seconds.None? then None else Some(RouteShown(dest.value, length.value, nexthop.value, seconds))
  }

  /** What stands between the n-th ">" of the page and the next "<". */
  function Section(page: string, n: nat): string {
    var tags := Split(page, '>');
    if n < |tags| then Split(tags[n], '<')[0] else ""
  }

  /** The lines of a section, each ended by a newline. */
  function Lines(section: string): seq<string> {
    var ls := Split(section, '\n');
    if ls[|ls| - 1] == "" then ls[..|ls| - 1] else []
  }

  const TITLES: nat := 6
  const NEIGHBORS: nat := 7
  const ROUTES: nat := 9
  const SENSORS: nat := 13

  // ---------------------------------------------------------------- addresses and numbers

  /** None of the characters that structure the page. */
  predicate Quiet(s: string) { forall c | c in s :: c != '<' && c != '>' && c != '\n' }

  lemma AddressChars(u8: seq<nat>)
    requires IsBytes(u8)
    ensures Quiet(AddrText(u8)) && '/' !in AddrText(u8) && ' ' !in AddrText(u8)
  {
    hide *;
    PrintRules(GroupsOf(u8));
    PlainIsQuiet(Print(GroupsOf(u8)));
    TextIs(u8);
  }

  lemma TextIs(u8: seq<nat>)
    requires IsBytes(u8)
    ensures AddrText(u8) == Print(GroupsOf(u8))
  {}

  lemma PlainIsQuiet(s: string)
    requires PlainDigits(s)
    ensures Quiet(s) && '/' !in s && ' ' !in s
  {}

  /** The text of an address is read as its bytes. */
  lemma AddressReads(u8: seq<nat>)
    requires IsBytes(u8)
    ensures ReadAddress(AddrText(u8)) == Some(u8)
  {
    hide Parse, Print, GroupsOf;
    var g := GroupsOf(u8);
    PrintRoundTrip(g);
    var r := ReadAddress(AddrText(u8)).value;
    forall i | 0 <= i < 16
      ensures r[i] == u8[i]
    {
      GroupBytes(u8, i / 2);
    }
    assert r == u8;
  }

  lemma GroupBytes(u8: seq<nat>, k: nat)
    requires IsBytes(u8) && k < 8
    ensures GroupsOf(u8)[k] / 256 == u8[2 * k] && GroupsOf(u8)[k] % 256 == u8[2 * k + 1]
  {}

  predicate AllDecimal(s: string) { forall c | c in s :: '0' <= c <= '9' }

  lemma {:induction false} DecimalShape(n: nat)
    ensures Decimal(n) != "" && AllDecimal(Decimal(n)) && (Decimal(n)[0] == '0' <==> n == 0)
    ensures DecimalValue(Decimal(n)) == Some(n) && (n == 0 ==> Decimal(n) == "0")
  {
    DigitIs(n % 10);
    if n < 10 {
      var s := Decimal(n);
      assert n % 10 == n && s[..0] == "" && DecimalValue("") == Some(0);
    } else {
      DecimalShape(n / 10);
      assert Decimal(n)[..|Decimal(n)| - 1] == Decimal(n / 10);
    }
  }

  lemma DigitIs(d: nat)
    requires d < 10
    ensures var c := "0123456789"[d]; '0' <= c <= '9' && c as nat - '0' as nat == d
  {}

  lemma NumberReads(n: nat)
    ensures ReadNumber(Decimal(n)) == Some(n) && AllDecimal(Decimal(n))
  {
    DecimalShape(n);
    hide Decimal, DecimalValue;
  }

  // ---------------------------------------------------------------- one route

  function Hop(nexthop: seq<nat>): string
    requires IsBytes(nexthop)
  {
    AddrText(nexthop) + ")"
  }

  function Words(r: Route): seq<string>
    requires RouteOk(r)
  {
    [Decimal(r.length), "(via", Hop(r.nexthop)] + if r.lifetime < 600 then [Decimal(r.lifetime) + "s"] else []
  }

  function Rest(r: Route): string
    requires RouteOk(r)
  {
    Decimal(r.length) + " " + ("(via" + " " + (Hop(r.nexthop) +
      if r.lifetime < 600 then " " + (Decimal(r.lifetime) + "s") else ""))
  }

  /** The line without its newline. */
  function Body(r: Route): string
    requires RouteOk(r)
  {
    AddrText(r.dest) + "/" + Rest(r)
  }

  lemma LineIs(r: Route)
    requires RouteOk(r)
    ensures RouteLine(r) == Body(r) + "\n"
  {
    hide AddrText, Decimal;
    var a, l, b, t := AddrText(r.dest), Decimal(r.length), AddrText(r.nexthop), Decimal(r.lifetime);
    assert Via() == " " + "(via" + " ";
    if r.lifetime < 600 {
      assert ") " + t + "s\n" == ")" + (" " + (t + "s")) + "\n";
    } else {
      assert ")\n" == ")" + "" + "\n";
    }
  }

  lemma QuietConcat(a: string, b: string)
    ensures Quiet(a + b) <==> Quiet(a) && Quiet(b)
  {
    assert forall c | c in a || c in b :: c in a + b;
  }

  lemma HopQuiet(nexthop: seq<nat>)
    requires IsBytes(nexthop)
    ensures Quiet(Hop(nexthop)) && '/' !in Hop(nexthop) && ' ' !in Hop(nexthop)
  {
    AddressChars(nexthop);
    hide AddrText;
  }

  lemma NumberQuiet(n: nat)
    ensures Quiet(Decimal(n)) && '/' !in Decimal(n) && ' ' !in Decimal(n)
    ensures Quiet(Decimal(n) + "s") && '/' !in Decimal(n) + "s" && ' ' !in Decimal(n) + "s"
  {
    NumberReads(n);
    hide Decimal, DecimalValue;
  }

  lemma RestQuiet(r: Route)
    requires RouteOk(r)
    ensures Quiet(Rest(r)) && '/' !in Rest(r)
  {
    NumberQuiet(r.length);
    NumberQuiet(r.lifetime);
    HopQuiet(r.nexthop);
    hide Decimal, Hop;
  }

  lemma BodyQuiet(r: Route)
    requires RouteOk(r)
    ensures Quiet(Body(r))
  {
    hide AddrText, Rest, Quiet;
    AddressChars(r.dest);
    RestQuiet(r);
    assert Quiet("/") by { SlashQuiet(); }
    QuietConcat(AddrText(r.dest), "/");
    QuietConcat(AddrText(r.dest) + "/", Rest(r));
  }

  lemma SlashQuiet()
    ensures Quiet("/")
  {}

  lemma HopSplits(r: Route)
    requires RouteOk(r)
    ensures var t := Decimal(r.lifetime) + "s";
      Split(Hop(r.nexthop) + (if r.lifetime < 600 then " " + t else ""), ' ')
      == [Hop(r.nexthop)] + if r.lifetime < 600 then [t] else []
  {
    NumberQuiet(r.lifetime);
    HopQuiet(r.nexthop);
    hide *;
    var h, t := Hop(r.nexthop), Decimal(r.lifetime) + "s";
    if r.lifetime < 600 {
      SplitHead(h, t, ' ');
      SplitWhole(t, ' ');
      assert h + [' '] + t == h + (" " + t);
    } else {
      SplitWhole(h, ' ');
      assert h + "" == h && [h] + [] == [h];
    }
  }

  lemma RestSplits(r: Route)
    requires RouteOk(r)
    ensures Split(Rest(r), ' ') == Words(r)
  {
    hide Split, Decimal, Hop, Quiet;
    NumberQuiet(r.length);
    HopSplits(r);
    var l, h, t := Decimal(r.length), Hop(r.nexthop), Decimal(r.lifetime) + "s";
    var tail := h + if r.lifetime < 600 then " " + t else "";
    SplitHead(l, "(via" + " " + tail, ' ');
    SplitHead("(via", tail, ' ');
    Cons3(l, "(via", h, if r.lifetime < 600 then [t] else []);
  }

  /** A route line is read as the route, with its lifetime exactly if that is below 600 seconds. */
  lemma RouteReads(r: Route)
    requires RouteOk(r)
    ensures ReadRoute(Body(r))
         == Some(RouteShown(r.dest, r.length, r.nexthop, if r.lifetime < 600 then Some(r.lifetime) else None))
  {
    hide Split, ReadAddress, ReadNumber, AddrText, Decimal, Rest, Quiet;
    AddressChars(r.dest);
    RestQuiet(r);
    SplitHead(AddrText(r.dest), Rest(r), '/');
    SplitWhole(Rest(r), '/');
    RestSplits(r);
    AddressReads(r.dest);
    AddressReads(r.nexthop);
    NumberReads(r.length);
    NumberReads(r.lifetime);
    assert Hop(r.nexthop)[..|Hop(r.nexthop)| - 1] == AddrText(r.nexthop);
    var t := Decimal(r.lifetime) + "s";
    assert t[..|t| - 1] == Decimal(r.lifetime);
  }

  // ---------------------------------------------------------------- lines

  function Ended(ts: seq<string>): string { if ts == [] then "" else Ended(ts[..|ts| - 1]) + ts[|ts| - 1] + "\n" }

  lemma {:induction false} EndedLines(ts: seq<string>)
    requires forall t | t in ts :: Quiet(t)
    ensures Split(Ended(ts), '\n') == ts + [""] && '<' !in Ended(ts) && '>' !in Ended(ts)
  {
    hide Split, Ended, Quiet;
    if ts == [] {
      SplitNothing('\n');
      NothingEnded();
    } else {
      var init, t := ts[..|ts| - 1], ts[|ts| - 1];
      assert ts == init + [t] && t in ts && forall x | x in init :: x in ts;
      EndedLines(init);
      EndedLast(ts);
      NoTags(t);
      SplitAppend(Ended(init), t, '\n');
      SplitSnoc(Ended(init) + t, '\n', '\n');
      assert "" + t == t;
    }
  }

  lemma NothingEnded()
    ensures Ended([]) == ""
  {}

  lemma NoTags(t: string)
    requires Quiet(t)
    ensures '<' !in t && '>' !in t && '\n' !in t
  {}

  lemma EndedLast(ts: seq<string>)
    requires ts != []
    ensures Ended(ts) == Ended(ts[..|ts| - 1]) + ts[|ts| - 1] + "\n"
  {}

  lemma LinesOfEnded(ts: seq<string>)
    requires forall t | t in ts :: Quiet(t)
    ensures Lines(Ended(ts)) == ts
  {
    hide Split, Ended, Quiet;
    EndedLines(ts);
    assert (ts + [""])[..|ts|] == ts;
  }

  function AddressTexts(ns: seq<seq<nat>>): seq<string>
    requires Addresses(ns)
  {
    seq(|ns|, i requires 0 <= i < |ns| => AddrText(ns[i]))
  }

  function Bodies(rs: seq<Route>): seq<string>
    requires RoutesOk(rs)
  {
    seq(|rs|, i requires 0 <= i < |rs| => Body(rs[i]))
  }

  lemma {:induction false} NeighborTexts(ns: seq<seq<nat>>)
    requires Addresses(ns)
    ensures NeighborLines(ns) == Ended(AddressTexts(ns))
  {
    hide AddrText;
    if ns != [] {
      var init, n := ns[..|ns| - 1], ns[|ns| - 1];
      assert n in ns && forall x | x in init :: x in ns;
      NeighborTexts(init);
      assert AddressTexts(ns)[..|ns| - 1] == AddressTexts(init);
    }
  }

  lemma AddressesQuiet(ns: seq<seq<nat>>)
    requires Addresses(ns)
    ensures forall t | t in AddressTexts(ns) :: Quiet(t)
  {
    hide AddrText, Quiet;
    forall i | 0 <= i < |ns|
      ensures Quiet(AddressTexts(ns)[i])
    {
      AddressChars(ns[i]);
    }
  }

  lemma {:induction false} RouteTexts(rs: seq<Route>)
    requires RoutesOk(rs)
    ensures RouteLines(rs) == Ended(Bodies(rs))
  {
    hide Body, RouteLine;
    if rs != [] {
      var init, r := rs[..|rs| - 1], rs[|rs| - 1];
      assert r in rs && forall x | x in init :: x in rs;
      RouteTexts(init);
      LineIs(r);
      assert Bodies(rs)[..|rs| - 1] == Bodies(init);
      assert Ended(Bodies(init)) + (Body(r) + "\n") == Ended(Bodies(init)) + Body(r) + "\n";
    }
  }

  lemma BodiesQuiet(rs: seq<Route>)
    requires RoutesOk(rs)
    ensures forall t | t in Bodies(rs) :: Quiet(t)
  {
    hide Body, Quiet;
    forall i | 0 <= i < |rs|
      ensures Quiet(Bodies(rs)[i])
    {
      assert rs[i] in rs;
      BodyQuiet(rs[i]);
    }
  }

  lemma {:induction false} SensorTexts(ss: seq<string>)
    ensures SensorLines(ss) == Ended(ss)
  {
    if ss != [] {
      SensorTexts(ss[..|ss| - 1]);
    }
  }

  // ---------------------------------------------------------------- the page

  /** One more tag and what follows it. */
  lemma TagSplits(tag: string, rest: string)
    requires '>' !in tag
    ensures Split(tag + ">" + rest, '>') == [tag] + Split(rest, '>')
  {
    SplitHead(tag, rest, '>');
  }

  function Tail(ss: seq<string>): string {
    (if ss == [] then "" else EndPre() + SensorsHead() + SensorLines(ss) + EndPre()) + Bottom()
  }

  function Head(): seq<string> {
    ["<html", "<head", "<title", "ContikiRPL</title", "</head", "<body", "\nNeighbors<pre"]
  }

  function Tags(n: string, r: string): seq<string> { Head() + [n + "</pre", "Routes<pre", r + "</pre"] }

  lemma HeadIs(rest: string)
    ensures Top() + ("Neighbors<pre>" + rest)
         == "<html" + ">" + ("<head" + ">" + ("<title" + ">" + ("ContikiRPL</title" + ">" + ("</head" + ">"
          + ("<body" + ">" + ("\nNeighbors<pre" + ">" + rest))))))
  {
    assert "<html>" == "<html" + ">" && "<head>" == "<head" + ">" && "<title>" == "<title" + ">";
    assert "ContikiRPL</title>" == "ContikiRPL</title" + ">" && "</head>" == "</head" + ">";
    assert "<body>" == "<body" + ">" && "\nNeighbors<pre" + ">" == "\n" + "Neighbors<pre>";
    Nested("<html>", "<head>", "<title>", "ContikiRPL</title>", "</head>", "<body>", "\n", "Neighbors<pre>", rest);
  }

  lemma Nested(a: string, b: string, c: string, d: string, e: string, f: string, g: string, h: string, x: string)
    ensures (a + b + c + d + e + f + g) + (h + x) == a + (b + (c + (d + (e + (f + (g + h + x))))))
  {}

  lemma Cons7(a: string, b: string, c: string, d: string, e: string, f: string, g: string, x: seq<string>)
    ensures [a] + ([b] + ([c] + ([d] + ([e] + ([f] + ([g] + x)))))) == [a, b, c, d, e, f, g] + x
  {}

  lemma NoTagEnd()
    ensures '>' !in "<html" && '>' !in "<head" && '>' !in "<title" && '>' !in "ContikiRPL</title"
    ensures '>' !in "</head" && '>' !in "<body" && '>' !in "\nNeighbors<pre"
    ensures '>' !in "</pre" && '>' !in "Routes<pre" && '>' !in "Sensors<pre"
  {}

  lemma HeadSplits(rest: string)
    ensures Split(Top() + ("Neighbors<pre>" + rest), '>') == Head() + Split(rest, '>')
  {
    hide Split, Top;
    HeadIs(rest);
    NoTagEnd();
    var t6 := "\nNeighbors<pre" + ">" + rest;
    var t5 := "<body" + ">" + t6;
    var t4 := "</head" + ">" + t5;
    var t3 := "ContikiRPL</title" + ">" + t4;
    var t2 := "<title" + ">" + t3;
    TagSplits("\nNeighbors<pre", rest);
    TagSplits("<body", t6);
    TagSplits("</head", t5);
    TagSplits("ContikiRPL</title", t4);
    TagSplits("<title", t3);
    TagSplits("<head", t2);
    TagSplits("<html", "<head" + ">" + t2);
    Cons7("<html", "<head", "<title", "ContikiRPL</title", "</head", "<body", "\nNeighbors<pre", Split(rest, '>'));
  }

  /** A closing tag behind a text. */
  lemma CloseSplits(n: string, rest: string)
    requires '>' !in n
    ensures Split(n + ("</pre>" + rest), '>') == [n + "</pre"] + Split(rest, '>')
  {
    hide Split;
    NoTagEnd();
    assert n + ("</pre>" + rest) == n + "</pre" + ">" + rest;
    SplitHead(n + "</pre", rest, '>');
  }

  lemma RoutesHeadIs(rest: string)
    ensures RoutesHead() + rest == "</pre>" + ("Routes<pre" + ">" + rest)
  {}

  lemma MiddleSplits(n: string, r: string, rest: string)
    requires '>' !in n && '>' !in r
    ensures Split(n + (RoutesHead() + (r + (EndPre() + rest))), '>')
         == [n + "</pre", "Routes<pre", r + "</pre"] + Split(rest, '>')
  {
    hide Split, RoutesHead;
    var t := r + ("</pre>" + rest);
    NoTagEnd();
    RoutesHeadIs(t);
    CloseSplits(r, rest);
    TagSplits("Routes<pre", t);
    CloseSplits(n, "Routes<pre" + ">" + t);
    Cons3(n + "</pre", "Routes<pre", r + "</pre", Split(rest, '>'));
  }

  lemma Cons3(a: string, b: string, c: string, x: seq<string>)
    ensures [a] + ([b] + ([c] + x)) == [a, b, c] + x
  {}

  lemma SentIs(ns: seq<seq<nat>>, rs: seq<Route>, ss: seq<string>)
    requires Addresses(ns) && RoutesOk(rs)
    ensures Sent(ns, rs, ss) == Top() + ("Neighbors<pre>"
      + (NeighborLines(ns) + (RoutesHead() + (RouteLines(rs) + (EndPre() + Tail(ss))))))
  {
    hide Top, Bottom, RoutesHead, EndPre, SensorsHead, SensorLines, NeighborLines, RouteLines, Addresses, RoutesOk;
    var n, r := NeighborLines(ns), RouteLines(rs);
    var x := if ss == [] then "" else EndPre() + SensorsHead() + SensorLines(ss) + EndPre();
    assert NeighborsHead() == "Neighbors<pre>";
    assert Sent(ns, rs, ss) == Tables(ns, rs) + x + Bottom();
    assert Tail(ss) == x + Bottom();
    Associate(Top(), NeighborsHead(), n, RoutesHead(), r, EndPre(), x, Bottom());
  }

  lemma Associate(a: string, b: string, c: string, d: string, e: string, f: string, g: string, h: string)
    ensures a + (b + c + d) + e + f + g + h == a + (b + (c + (d + (e + (f + (g + h))))))
  {}

  /** The tags of the page and what stands between them. */
  lemma PageSplits(ns: seq<seq<nat>>, rs: seq<Route>, ss: seq<string>)
    requires Addresses(ns) && RoutesOk(rs)
    ensures Split(Sent(ns, rs, ss), '>')
         == Tags(Ended(AddressTexts(ns)), Ended(Bodies(rs))) + Split(Tail(ss), '>')
    ensures '<' !in Ended(AddressTexts(ns)) && '<' !in Ended(Bodies(rs))
  {
    hide *;
    NeighborTexts(ns);
    RouteTexts(rs);
    AddressesQuiet(ns);
    BodiesQuiet(rs);
    EndedLines(AddressTexts(ns));
    EndedLines(Bodies(rs));
    SentIs(ns, rs, ss);
    var n, r := NeighborLines(ns), RouteLines(rs);
    var rest := RoutesHead() + (r + (EndPre() + Tail(ss)));
    HeadSplits(n + rest);
    MiddleSplits(n, r, Tail(ss));
    TagsAre(n, r, Split(Tail(ss), '>'));
  }

  lemma TagsAre(n: string, r: string, x: seq<string>)
    ensures Tags(n, r) + x == Head() + ([n + "</pre", "Routes<pre", r + "</pre"] + x)
  {}

  lemma SectionIs(page: string, k: nat, body: string, tag: string)
    requires k < |Split(page, '>')| && Split(page, '>')[k] == body + "<" + tag && '<' !in body
    ensures Section(page, k) == body
  {
    SplitHead(body, tag, '<');
  }

  /** Reading the page that is sent gives back the neighbour table and the route table, entry by entry and in
      order, each under its title, whatever the sensors. */
  lemma PageReads(ns: seq<seq<nat>>, rs: seq<Route>, ss: seq<string>)
    requires Addresses(ns) && RoutesOk(rs)
    ensures var page := Sent(ns, rs, ss);
      var n, r := Lines(Section(page, NEIGHBORS)), Lines(Section(page, ROUTES));
      && Section(page, TITLES) == "\nNeighbors" && Section(page, TITLES + 2) == "Routes"
      && |n| == |ns| && (forall i | 0 <= i < |ns| :: ReadAddress(n[i]) == Some(ns[i]))
      && |r| == |rs|
      && (forall i | 0 <= i < |rs| ::
            var x := rs[i];
            ReadRoute(r[i]) ==
              Some(RouteShown(x.dest, x.length, x.nexthop, if x.lifetime < 600 then Some(x.lifetime) else None)))
  {
    hide Split, Sent, Section, Lines, Ended, AddrText, Body, ReadAddress, ReadRoute, Quiet, Tail;
    var page := Sent(ns, rs, ss);
    var n, r := AddressTexts(ns), Bodies(rs);
    PageSplits(ns, rs, ss);
    assert "\nNeighbors<pre" == "\nNeighbors" + "<" + "pre" && "Routes<pre" == "Routes" + "<" + "pre";
    assert Ended(n) + "</pre" == Ended(n) + "<" + "/pre" && Ended(r) + "</pre" == Ended(r) + "<" + "/pre";
    SectionIs(page, TITLES, "\nNeighbors", "pre");
    SectionIs(page, NEIGHBORS, Ended(n), "/pre");
    SectionIs(page, TITLES + 2, "Routes", "pre");
    SectionIs(page, ROUTES, Ended(r), "/pre");
    AddressesQuiet(ns);
    BodiesQuiet(rs);
    LinesOfEnded(n);
    LinesOfEnded(r);
    forall i | 0 <= i < |ns| ensures ReadAddress(n[i]) == Some(ns[i]) { AddressReads(ns[i]); }
    forall i | 0 <= i < |rs|
      ensures ReadRoute(r[i]) == Some(RouteShown(rs[i].dest, rs[i].length, rs[i].nexthop,
                                                 if rs[i].lifetime < 600 then Some(rs[i].lifetime) else None))
    {
      assert rs[i] in rs;
      RouteReads(rs[i]);
    }
  }

  lemma SensorsHeadIs(rest: string)
    ensures EndPre() + (SensorsHead() + rest) == "</pre" + ">" + ("</pre" + ">" + ("Sensors<pre" + ">" + rest))
  {}

  lemma TailSplits(ss: seq<string>)
    requires ss != [] && '>' !in SensorLines(ss)
    ensures Split(Tail(ss), '>') == ["</pre", "</pre", "Sensors<pre", SensorLines(ss) + "</pre"] + Split(Bottom(), '>')
  {
    hide Split, SensorLines, Bottom, EndPre, SensorsHead;
    var s := SensorLines(ss);
    var t := s + ("</pre>" + Bottom());
    NoTagEnd();
    CloseSplits(s, Bottom());
    TagSplits("Sensors<pre", t);
    TagSplits("</pre", "Sensors<pre" + ">" + t);
    TagSplits("</pre", "</pre" + ">" + ("Sensors<pre" + ">" + t));
    SensorsHeadIs(t);
    TailIs(ss);
    var x := Split(Bottom(), '>');
    assert ["</pre"] + (["</pre"] + (["Sensors<pre"] + ([s + "</pre"] + x)))
        == ["</pre", "</pre", "Sensors<pre", s + "</pre"] + x;
  }

  lemma TailIs(ss: seq<string>)
    requires ss != []
    ensures Tail(ss) == EndPre() + (SensorsHead() + (SensorLines(ss) + ("</pre>" + Bottom())))
  {
    hide SensorLines, Bottom, SensorsHead;
    assert EndPre() == "</pre>";
  }

  /** With sensors whose texts leave the tags and lines alone, their part of the page gives back these. */
  lemma SensorsRead(ns: seq<seq<nat>>, rs: seq<Route>, ss: seq<string>)
    requires Addresses(ns) && RoutesOk(rs) && ss != [] && forall s | s in ss :: Quiet(s)
    ensures Section(Sent(ns, rs, ss), SENSORS - 1) == "Sensors"
    ensures Lines(Section(Sent(ns, rs, ss), SENSORS)) == ss
  {
    hide Split, Sent, Section, Lines, Ended, Quiet, Tail, AddressTexts, Bodies;
    var page := Sent(ns, rs, ss);
    PageSplits(ns, rs, ss);
    SensorTexts(ss);
    EndedLines(ss);
    TailSplits(ss);
    assert "Sensors<pre" == "Sensors" + "<" + "pre" && Ended(ss) + "</pre" == Ended(ss) + "<" + "/pre";
    SectionIs(page, SENSORS - 1, "Sensors", "pre");
    SectionIs(page, SENSORS, Ended(ss), "/pre");
    LinesOfEnded(ss);
  }

  /** The page as one client gets it. */
  method Serve(ns: seq<seq<nat>>, rs: seq<Route>, ss: seq<string>) returns (text: string)
    requires Addresses(ns) && RoutesOk(rs) && SensorsOk(ss)
    ensures text == Sent(ns, rs, ss)
    ensures |Lines(Section(text, NEIGHBORS))| == |ns| && |Lines(Section(text, ROUTES))| == |rs|
    ensures forall i | 0 <= i < |ns| :: ReadAddress(Lines(Section(text, NEIGHBORS))[i]) == Some(ns[i])
    ensures forall i | 0 <= i < |rs| ::
      var x := ReadRoute(Lines(Section(text, ROUTES))[i]);
      && x.Some? && x.value.dest == rs[i].dest && x.value.length == rs[i].length && x.value.nexthop == rs[i].nexthop
      && x.value.lifetime == if rs[i].lifetime < 600 then Some(rs[i].lifetime) else None
  {
    hide Sent, Section, Lines, ReadAddress, ReadRoute, Addresses, RoutesOk, SensorsOk;
    var page := new Page();
    page.GenerateRoutes(ns, rs, ss);
    text := page.sent;
    assert "" + Sent(ns, rs, ss) == Sent(ns, rs, ss);
    PageReads(ns, rs, ss);
  }
}
