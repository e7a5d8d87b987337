/** Addresses as text: the printer of slip-bridge, and a parser for the text forms 1 and 2 of
    section 2.2 of RFC 4291. */
module Ipv6Text {
  import opened Fields
  import opened Options

  /** An address as eight 16-bit groups. */
  predicate IsAddress(g: seq<nat>) { |g| == 8 && AllGroups(g) }

  predicate AllGroups(g: seq<nat>) { forall i | 0 <= i < |g| :: g[i] < 0x10000 }

  // ---------------------------------------------------------------- hexadecimal

  function HexDigit(d: nat): char
    requires d < 16
  {
    "0123456789abcdef"[d]
  }

  /** "%x". */
  function Hex(a: nat): string {
    if a < 16 then [HexDigit(a)] else Hex(a / 16) + [HexDigit(a % 16)]
  }

  function DigitValue(c: char): Option<nat> {
    if '0' <= c <= '9' then Some(c as nat - '0' as nat)
    else if 'a' <= c <= 'f' then Some(c as nat - 'a' as nat + 10)
    else if 'A' <= c <= 'F' then Some(c as nat - 'A' as nat + 10)
    else None
  }

  function HexValue(s: string): Option<nat> {
    if s == "" then Some(0)
    else
      var v, d := HexValue(s[..|s| - 1]), DigitValue(s[|s| - 1]);
      if v.None? || d.None? then None else Some(16 * v.value + d.value)
  }

  /** One group: one to four hexadecimal digits. */
  function ParseGroup(s: string): Option<nat> {
    if 1 <= |s| <= 4 then HexValue(s) else None
  }

  lemma DigitRoundTrip(d: nat)
    requires d < 16
    ensures DigitValue(HexDigit(d)) == Some(d) && HexDigit(d) != ':' && HexDigit(d) != '\0'
  {}

  lemma {:induction false} HexRoundTrip(a: nat)
    ensures HexValue(Hex(a)) == Some(a) && ':' !in Hex(a) && '\0' !in Hex(a)
  {
    if a < 16 {
      DigitRoundTrip(a);
      assert [HexDigit(a)][..0] == "";
    } else {
      HexRoundTrip(a / 16);
      DigitRoundTrip(a % 16);
      assert Hex(a)[..|Hex(a)| - 1] == Hex(a / 16);
    }
  }

  lemma HexSize(a: nat)
    requires a < 0x10000
    ensures 1 <= |Hex(a)| <= 4
  {
    var b, c, d := a / 16, a / 16 / 16, a / 16 / 16 / 16;
    assert b < 0x1000 && c < 0x100 && d < 16;
    assert |Hex(d)| == 1;
    assert |Hex(c)| <= 2;
    assert |Hex(b)| <= 3;
  }

  lemma {:induction false} GroupRoundTrip(a: nat)
    requires a < 0x10000
    ensures ParseGroup(Hex(a)) == Some(a) && Hex(a) != "" && ':' !in Hex(a) && '\0' !in Hex(a)
  {
    HexRoundTrip(a);
    HexSize(a);
  }

  // ---------------------------------------------------------------- printing

  function Hexes(g: seq<nat>): (hs: seq<string>)
    ensures |hs| == |g|
  {
    seq(|g|, i requires 0 <= i < |g| => Hex(g[i]))
  }

  function Groups(g: seq<nat>): string { Join(Hexes(g), ':') }

  /** The first zero group at or after i, or 8. */
  function FirstZero(g: seq<nat>, i: nat): (z: nat)
    requires i <= |g|
    ensures i <= z <= |g|
    ensures forall k | i <= k < z :: g[k] != 0
    ensures z < |g| ==> g[z] == 0
    decreases |g| - i
  {
    if i == |g| || g[i] == 0 then i else FirstZero(g, i + 1)
  }

  /** The end of the run of zero groups that covers i. */
  function RunEnd(g: seq<nat>, i: nat): (e: nat)
    requires i <= |g|
    ensures i <= e <= |g|
    ensures forall k | i <= k < e :: g[k] == 0
    ensures e < |g| ==> g[e] != 0
    decreases |g| - i
  {
    if i == |g| || g[i] != 0 then i else RunEnd(g, i + 1)
  }

  /** The text of an address: the first run of zero groups, of any length, becomes "::". */
  function Print(g: seq<nat>): string {
    var z := FirstZero(g, 0);
    if z == |g| then Groups(g) else Groups(g[..z]) + "::" + Groups(g[RunEnd(g, z)..])
  }

  // ---------------------------------------------------------------- parsing

  predicate DoubleAt(s: string, i: int) { 0 <= i < |s| - 1 && s[i] == ':' && s[i + 1] == ':' }

  /** The first "::" at or after i, or the length of the text. */
  function FindDouble(s: string, i: nat): (k: nat)
    requires i <= |s|
    ensures i <= k <= |s|
    ensures forall j | i <= j < k :: !DoubleAt(s, j)
    ensures k < |s| ==> DoubleAt(s, k)
    decreases |s| - i
  {
    if i == |s| || DoubleAt(s, i) then i else FindDouble(s, i + 1)
  }

  function ParseFields(fs: seq<string>): Option<seq<nat>> {
    if fs == [] then Some([])
    else
      var gs, g := ParseFields(fs[..|fs| - 1]), ParseGroup(fs[|fs| - 1]);
      if gs.None? || g.None? then None else Some(gs.value + [g.value])
  }

  function ParseGroups(s: string): Option<seq<nat>> {
    if s == "" then Some([]) else ParseFields(Split(s, ':'))
  }

  /** Form 1: eight groups. Form 2: one "::" that stands for at least one zero group. */
  function Parse(s: string): Option<seq<nat>> {
    var k := FindDouble(s, 0);
    if k == |s| then
      var gs := ParseGroups(s);
      if gs.Some? && |gs.value| == 8 then gs else None
    else
      var l, r := ParseGroups(s[..k]), ParseGroups(s[k + 2..]);
      if l.Some? && r.Some? && |l.value| + |r.value| <= 7
      then Some(l.value + seq(8 - |l.value| - |r.value|, _ => 0) + r.value)
      else None
  }

  // ---------------------------------------------------------------- round trip

  lemma GroupsSnoc(g: seq<nat>, a: nat)
    ensures Groups(g + [a]) == if g == [] then Hex(a) else Groups(g) + ":" + Hex(a)
  {
    assert Hexes(g + [a]) == Hexes(g) + [Hex(a)];
    if g == [] {
      assert Hexes(g + [a]) == [Hex(a)];
    } else {
      JoinSnoc(Hexes(g), Hex(a), ':');
    }
  }

  /** Joined groups begin and end with a digit and contain no "::". */
  lemma {:induction false} GroupsShape(g: seq<nat>)
    requires AllGroups(g)
    ensures |Groups(g)| <= 5 * |g| && (g != [] ==> |Groups(g)| < 5 * |g|)
    ensures g == [] <==> Groups(g) == ""
    ensures g != [] ==> Groups(g)[0] != ':' && Groups(g)[|Groups(g)| - 1] != ':'
    ensures forall i :: !DoubleAt(Groups(g), i)
    ensures '\0' !in Groups(g)
  {
    if g != [] {
      var init, a := g[..|g| - 1], g[|g| - 1];
      assert g == init + [a];
      GroupsShape(init);
      GroupsSnoc(init, a);
      GroupRoundTrip(a);
      HexSize(a);
      hide Groups, Hex, AllGroups;
      var h := Hex(a);
      assert h[0] in h && h[|h| - 1] in h;
      assert forall i | 0 <= i < |h| :: h[i] in h;
      forall i
        ensures !DoubleAt(Groups(g), i)
      {
        assert !DoubleAt(Groups(init), i);
      }
    }
  }

  lemma {:induction false} FieldsRoundTrip(g: seq<nat>)
    requires AllGroups(g)
    ensures ParseFields(Hexes(g)) == Some(g)
  {
    if g != [] {
      var init, a := g[..|g| - 1], g[|g| - 1];
      assert Hexes(g)[..|g| - 1] == Hexes(init);
      FieldsRoundTrip(init);
      GroupRoundTrip(a);
      assert g == init + [a];
    }
  }

  lemma GroupsRoundTrip(g: seq<nat>)
    requires AllGroups(g)
    ensures ParseGroups(Groups(g)) == Some(g)
  {
    GroupsShape(g);
    if g != [] {
      forall h | h in Hexes(g)
        ensures ':' !in h
      {
        var i :| 0 <= i < |g| && Hexes(g)[i] == h;
        GroupRoundTrip(g[i]);
      }
      SplitOfJoin(Hexes(g), ':');
      FieldsRoundTrip(g);
    }
  }

  lemma DoubleInside(l: string, r: string, i: int)
    requires l == "" || l[|l| - 1] != ':'
    requires r == "" || r[0] != ':'
    requires forall j :: !DoubleAt(l, j)
    requires forall j :: !DoubleAt(r, j)
    ensures DoubleAt(l + "::" + r, i) <==> i == |l|
  {
    var s := l + "::" + r;
    if i < |l| - 1 {
      assert DoubleAt(s, i) ==> DoubleAt(l, i);
    } else if i > |l| + 1 {
      assert DoubleAt(s, i) ==> DoubleAt(r, i - |l| - 2);
    }
  }

  /** "::" occurs in the text of an address once if some group is zero, and otherwise not at all. */
  lemma DoubleColonOnce(g: seq<nat>, i: int)
    requires AllGroups(g)
    ensures DoubleAt(Print(g), i) <==> FirstZero(g, 0) < |g| && i == |Groups(g[..FirstZero(g, 0)])|
  {
    var z := FirstZero(g, 0);
    GroupsShape(g);
    if z < |g| {
      GroupsShape(g[..z]);
      GroupsShape(g[RunEnd(g, z)..]);
      DoubleInside(Groups(g[..z]), Groups(g[RunEnd(g, z)..]), i);
    }
  }

  /** Parsing the printed text gives the address back. */
  lemma PrintRoundTrip(g: seq<nat>)
    requires IsAddress(g)
    ensures Parse(Print(g)) == Some(g)
  {
    hide Groups, ParseGroups, FirstZero, RunEnd, FindDouble;
    var z := FirstZero(g, 0);
    var s := Print(g);
    var k := FindDouble(s, 0);
    DoubleColonOnce(g, k);
    if z == 8 {
      GroupsRoundTrip(g);
    } else {
      DoubleColonOnce(g, |Groups(g[..z])|);
      var e := RunEnd(g, z);
      assert k == |Groups(g[..z])|;
      assert s[..k] == Groups(g[..z]) && s[k + 2..] == Groups(g[e..]);
      GroupsRoundTrip(g[..z]);
      GroupsRoundTrip(g[e..]);
      assert g[..z] + seq(e - z, _ => 0) + g[e..] == g;
    }
  }

  lemma PrintInjective(g: seq<nat>, h: seq<nat>)
    requires IsAddress(g) && IsAddress(h) && Print(g) == Print(h)
    ensures g == h
  {
    PrintRoundTrip(g);
    PrintRoundTrip(h);
  }

  /** The text of an address has at most 39 characters, and none of them is NUL. */
  lemma {:induction false} PrintSize(g: seq<nat>)
    requires IsAddress(g)
    ensures 2 <= |Print(g)| <= 39 && '\0' !in Print(g)
  {
    var z := FirstZero(g, 0);
    GroupsShape(g);
    if z < 8 {
      GroupsShape(g[..z]);
      GroupsShape(g[RunEnd(g, z)..]);
      assert RunEnd(g, z) > z;
    } else {
      assert g == g[..7] + [g[7]];
      GroupsSnoc(g[..7], g[7]);
      HexSize(g[7]);
    }
  }

  // ---------------------------------------------------------------- which text it is

  /** No characters but these. */
  predicate PlainDigits(s: string) { forall c | c in s :: c in "0123456789abcdef:" }

  predicate LowerDigit(c: char) { c in "0123456789abcdef" }

  predicate LowerDigits(s: string) { forall c | c in s :: LowerDigit(c) }

  /** No digits in front of a group that could be left out. */
  predicate Unpadded(f: string) { f == "" || f == "0" || f[0] != '0' }

  predicate NoPadding(s: string) { forall f | f in Split(s, ':') :: Unpadded(f) }

  /** These groups can be read, and none of them is zero. */
  predicate NoZero(s: string) { ParseGroups(s).Some? && 0 !in ParseGroups(s).value }

  predicate NoZeroFirst(s: string) {
    ParseGroups(s).Some? && (ParseGroups(s).value == [] || ParseGroups(s).value[0] != 0)
  }

  /** "::" stands for the whole first run of zero groups; without "::" there is none. */
  predicate FirstRun(s: string) {
    var k := FindDouble(s, 0);
    if k == |s| then NoZero(s) else NoZero(s[..k]) && NoZeroFirst(s[k + 2..])
  }

  lemma {:induction false} HexShape(a: nat)
    ensures Hex(a) != "" && Unpadded(Hex(a)) && (Hex(a)[0] == '0' <==> a == 0)
    ensures LowerDigits(Hex(a))
  {
    if a >= 16 {
      HexShape(a / 16);
      assert HexDigit(a % 16) == "0123456789abcdef"[a % 16];
    }
  }

  lemma {:induction false} GroupsPlain(g: seq<nat>)
    ensures PlainDigits(Groups(g))
  {
    if g == [] {
      assert Groups(g) == "";
    } else {
      var init, a := g[..|g| - 1], g[|g| - 1];
      GroupsPlain(init);
      assert g == init + [a];
      GroupsSnoc(init, a);
      HexShape(a);
      hide Groups, Hex;
    }
  }

  lemma GroupFields(g: seq<nat>)
    requires AllGroups(g)
    ensures NoPadding(Groups(g))
  {
    if g == [] {
      assert Groups(g) == "" && Split("", ':') == [""];
    } else {
      forall h | h in Hexes(g)
        ensures ':' !in h && Unpadded(h)
      {
        var i :| 0 <= i < |g| && Hexes(g)[i] == h;
        GroupRoundTrip(g[i]);
        HexShape(g[i]);
      }
      SplitOfJoin(Hexes(g), ':');
    }
  }

  lemma SplitDouble(l: string, r: string)
    ensures Split(l + "::" + r, ':') == Split(l, ':') + [""] + Split(r, ':')
  {
    SplitConcat(l, ":" + r, ':');
    SplitHead("", r, ':');
    assert "" + [':'] + r == ":" + r;
    assert l + [':'] + (":" + r) == l + "::" + r;
    assert Split(l, ':') + ([""] + Split(r, ':')) == Split(l, ':') + [""] + Split(r, ':');
  }

  /** The printed text has digits in lower case and none too many, and "::" stands for the whole of the first
      run of zero groups. */
  lemma PrintRules(g: seq<nat>)
    requires IsAddress(g)
    ensures PlainDigits(Print(g)) && NoPadding(Print(g)) && FirstRun(Print(g))
  {
    hide Groups, ParseGroups, FirstZero, RunEnd, FindDouble, NoPadding, PlainDigits, Split;
    var z := FirstZero(g, 0);
    var k := FindDouble(Print(g), 0);
    DoubleColonOnce(g, k);
    if z == 8 {
      GroupsRoundTrip(g);
      GroupsPlain(g);
      GroupFields(g);
    } else {
      DoubleColonOnce(g, |Groups(g[..z])|);
      var e := RunEnd(g, z);
      var l, r := Groups(g[..z]), Groups(g[e..]);
      assert k == |l| && Print(g)[..k] == l && Print(g)[k + 2..] == r;
      GroupsRoundTrip(g[..z]);
      GroupsRoundTrip(g[e..]);
      GroupsPlain(g[..z]);
      GroupsPlain(g[e..]);
      GroupFields(g[..z]);
      GroupFields(g[e..]);
      JoinedRules(l, r);
    }
  }

  lemma JoinedRules(l: string, r: string)
    ensures PlainDigits(l + "::" + r) <==> PlainDigits(l) && PlainDigits(r)
    ensures NoPadding(l + "::" + r) <==> NoPadding(l) && NoPadding(r)
  {
    SplitDouble(l, r);
    hide Split;
    var s := l + "::" + r;
    assert forall c | c in l || c in r :: c in s;
    assert forall c | c in s :: c in l || c in r || c == ':';
    var fs := Split(l, ':') + [""] + Split(r, ':');
    assert forall f | f in Split(l, ':') || f in Split(r, ':') :: f in fs;
    assert forall f | f in fs :: f in Split(l, ':') || f in Split(r, ':') || f == "";
  }

  /** Lower-case digits without padding are the digits of their value. */
  lemma {:induction false} HexUnique(s: string, a: nat)
    requires s != "" && Unpadded(s) && HexValue(s) == Some(a) && LowerDigits(s)
    ensures s == Hex(a)
  {
    var init, c := s[..|s| - 1], s[|s| - 1];
    hide *;
    assert s == init + [c] && c in s && forall x | x in init :: x in s;
    InitUnpadded(s);
    ValueSnoc(s);
    LowerValue(c);
    var d := DigitValue(c).value;
    if init == "" {
      OneDigit(d);
    } else {
      var v := HexValue(init).value;
      HexUnique(init, v);
      HexShape(v);
      MoreDigits(v, d);
    }
  }

  lemma InitUnpadded(s: string)
    requires s != "" && Unpadded(s) && LowerDigits(s)
    ensures var init := s[..|s| - 1];
      Unpadded(init) && LowerDigits(init) && LowerDigit(s[|s| - 1]) && (init != "" ==> init[0] != '0')
  {
    hide LowerDigit;
    assert s[|s| - 1] in s && forall x | x in s[..|s| - 1] :: x in s;
  }

  lemma ValueSnoc(s: string)
    requires s != "" && HexValue(s).Some?
    ensures var init, c := s[..|s| - 1], s[|s| - 1];
      && HexValue(init).Some? && DigitValue(c).Some?
      && HexValue(s).value == 16 * HexValue(init).value + DigitValue(c).value
      && (init == "" ==> HexValue(init) == Some(0))
  {}

  lemma OneDigit(d: nat)
    requires d < 16
    ensures Hex(d) == [HexDigit(d)]
  {}

  lemma MoreDigits(v: nat, d: nat)
    requires v != 0 && d < 16
    ensures Hex(16 * v + d) == Hex(v) + [HexDigit(d)]
  {
    assert (16 * v + d) / 16 == v && (16 * v + d) % 16 == d;
  }

  lemma LowerValue(c: char)
    requires LowerDigit(c)
    ensures DigitValue(c).Some? && DigitValue(c).value < 16 && HexDigit(DigitValue(c).value) == c
  {}

  lemma {:induction false} FieldsUnique(fs: seq<string>, g: seq<nat>)
    requires ParseFields(fs) == Some(g) && forall f | f in fs :: PlainDigits(f) && Unpadded(f) && ':' !in f
    ensures fs == Hexes(g) && AllGroups(g)
  {
    if fs != [] {
      var init, f := fs[..|fs| - 1], fs[|fs| - 1];
      assert fs == init + [f] && f in fs && forall x | x in init :: x in fs;
      var h, a := g[..|g| - 1], g[|g| - 1];
      assert ParseFields(init) == Some(h);
      FieldsUnique(init, h);
      DigitsOnly(f);
      HexUnique(f, a);
      FourDigits(f, a);
      assert Hexes(g) == Hexes(h) + [Hex(a)];
    }
  }

  lemma DigitsOnly(f: string)
    requires PlainDigits(f) && ':' !in f
    ensures LowerDigits(f)
  {}

  lemma FourDigits(f: string, a: nat)
    requires ParseGroup(f) == Some(a) && LowerDigits(f)
    ensures a < 0x10000
  {
    assert forall i | 0 <= i < |f| :: f[i] in f;
    forall c | c in f ensures DigitValue(c).Some? && DigitValue(c).value < 16 { LowerValue(c); }
    ValueBound(f);
  }

  lemma {:induction false} ValueBound(f: string)
    requires |f| <= 4 && HexValue(f).Some? && forall c | c in f :: DigitValue(c).Some? && DigitValue(c).value < 16
    ensures HexValue(f).value < if |f| == 0 then 1 else if |f| == 1 then 0x10 else if |f| == 2 then 0x100
                                else if |f| == 3 then 0x1000 else 0x10000
  {
    if f != "" {
      assert f[|f| - 1] in f && forall c | c in f[..|f| - 1] :: c in f;
      ValueBound(f[..|f| - 1]);
    }
  }

  lemma GroupsUnique(s: string, g: seq<nat>)
    requires ParseGroups(s) == Some(g) && PlainDigits(s) && NoPadding(s)
    ensures s == Groups(g) && AllGroups(g)
  {
    if s == "" {
      assert Hexes(g) == [];
    } else {
      FieldsHaveNoSeparator(s, ':');
      FieldChars(s);
      FieldsUnique(Split(s, ':'), g);
      JoinOfSplit(s, ':');
    }
  }

  lemma PlainSnoc(f: string, c: char)
    ensures PlainDigits(f + [c]) <==> PlainDigits(f) && c in "0123456789abcdef:"
  {
    assert c in f + [c] && forall x | x in f :: x in f + [c];
  }

  lemma {:induction false} FieldChars(s: string)
    requires PlainDigits(s)
    ensures forall f | f in Split(s, ':') :: PlainDigits(f)
  {
    if s != "" {
      var t, c := s[..|s| - 1], s[|s| - 1];
      assert s == t + [c] && c in s && forall x | x in t :: x in s;
      FieldChars(t);
      SplitSnoc(t, c, ':');
      hide Split;
      var fs := Split(t, ':');
      assert fs[|fs| - 1] in fs;
      PlainSnoc(fs[|fs| - 1], c);
      hide PlainDigits;
    }
  }

  /** Of all texts that denote an address, the printed one is the only one with these properties. */
  lemma PrintIsTheText(g: seq<nat>, s: string)
    requires IsAddress(g)
    ensures s == Print(g) <==> Parse(s) == Some(g) && PlainDigits(s) && NoPadding(s) && FirstRun(s)
  {
    hide *;
    PrintRoundTrip(g);
    PrintRules(g);
    if Parse(s) == Some(g) && PlainDigits(s) && NoPadding(s) && FirstRun(s) {
      OnlyText(g, s);
    }
  }

  lemma OnlyText(g: seq<nat>, s: string)
    requires IsAddress(g) && Parse(s) == Some(g) && PlainDigits(s) && NoPadding(s) && FirstRun(s)
    ensures s == Print(g)
  {
    hide Groups, ParseGroups, FirstZero, RunEnd, FindDouble, NoPadding, PlainDigits;
    var k := FindDouble(s, 0);
    if k == |s| {
      GroupsUnique(s, g);
      NoZeroGroups(g);
    } else {
      var l, r := s[..k], s[k + 2..];
      assert s == l + "::" + r;
      JoinedRules(l, r);
      var a, b := ParseGroups(l).value, ParseGroups(r).value;
      GroupsUnique(l, a);
      GroupsUnique(r, b);
      ZeroRun(g, a, b);
    }
  }

  lemma NoZeroGroups(g: seq<nat>)
    requires 0 !in g
    ensures FirstZero(g, 0) == |g|
  {}

  lemma ZeroRun(g: seq<nat>, a: seq<nat>, b: seq<nat>)
    requires |g| == 8 && |a| + |b| <= 7 && g == a + seq(8 - |a| - |b|, _ => 0) + b
    requires 0 !in a && (b == [] || b[0] != 0)
    ensures FirstZero(g, 0) == |a| && RunEnd(g, |a|) == 8 - |b| && g[..|a|] == a && g[8 - |b|..] == b
  {
    var z := FirstZero(g, 0);
    assert g[|a|] == 0 && forall i | 0 <= i < |a| :: g[i] == a[i];
    assert z == |a|;
    var e := RunEnd(g, z);
    assert forall i | |a| <= i < 8 - |b| :: g[i] == 0;
    if b != [] { assert g[8 - |b|] == b[0]; }
  }
}
