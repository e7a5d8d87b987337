/** The framing shared by both ends of the serial link: the escaping encoder and the
    unbounded decoder described in RFC 1055, "SLIP DRIVERS". */
module SlipCodec {

  newtype byte = x: int | 0 <= x < 0x100

  const END: byte := 0xC0
  const ESC: byte := 0xDB
  const ESC_END: byte := 0xDC
  const ESC_ESC: byte := 0xDD

  /** Conversion of a C `int` to `uint8_t`. */
  function Low8(c: int): byte { (c % 0x100) as byte }

  // ---------------------------------------------------------------- encoding

  function EscapeByte(b: byte): seq<byte> {
    if b == END then [ESC, ESC_END] else if b == ESC then [ESC, ESC_ESC] else [b]
  }

  function Escape(p: seq<byte>): seq<byte> {
    if p == [] then [] else Escape(p[..|p| - 1]) + EscapeByte(p[|p| - 1])
  }

  /** What the host puts on the wire for one packet: no leading END. */
  function Encode(p: seq<byte>): seq<byte> { Escape(p) + [END] }

  function EncodeAll(ps: seq<seq<byte>>): seq<byte> {
    if ps == [] then [] else EncodeAll(ps[..|ps| - 1]) + Encode(ps[|ps| - 1])
  }

  /** What the mote puts on the wire for one packet. */
  function MoteEncode(p: seq<byte>): seq<byte> { [END] + Encode(p) }

  function MoteEncodeAll(ps: seq<seq<byte>>): seq<byte> {
    if ps == [] then [] else MoteEncodeAll(ps[..|ps| - 1]) + MoteEncode(ps[|ps| - 1])
  }

  lemma EscapeStep(p: seq<byte>, i: nat)
    requires i < |p|
    ensures Escape(p[..i + 1]) == Escape(p[..i]) + EscapeByte(p[i])
  {
    assert p[..i + 1][..i] == p[..i];
  }

  lemma {:induction false} EscapePrefix(p: seq<byte>, i: nat)
    requires i <= |p|
    ensures Escape(p[..i]) <= Escape(p)
    decreases |p| - i
  {
    if i == |p| {
      assert p[..i] == p;
    } else {
      EscapeStep(p, i);
      EscapePrefix(p, i + 1);
    }
  }

  /** The bytes themselves: 192 ends a frame; in a payload 192 becomes 219 220, 219 becomes 219 221, and every
      other byte stays. */
  lemma EncodingBytes(p: seq<byte>, b: byte)
    ensures Escape([]) == []
    ensures Escape(p + [b])
         == Escape(p) + if b == 192 then [219, 220] else if b == 219 then [219, 221] else [b]
    ensures Encode(p) == Escape(p) + [192]
    ensures MoteEncode(p) == [192] + Escape(p) + [192]
  {
    assert (p + [b])[..|p|] == p;
    assert MoteEncode(p) == [192] + (Escape(p) + [192]);
  }

  ghost predicate IsFrame(f: seq<byte>) {
    0 < |f| && f[|f| - 1] == END && END !in f[..|f| - 1]
  }

  lemma {:induction false} EscapeHasNoEnd(p: seq<byte>)
    ensures END !in Escape(p)
  {
    if p != [] {
      EscapeHasNoEnd(p[..|p| - 1]);
    }
  }

  /** An encoding contains END as its last byte and nowhere else. */
  lemma EncodeIsFrame(p: seq<byte>)
    ensures IsFrame(Encode(p))
    ensures |Encode(p)| == 1 <==> p == []
  {
    EscapeHasNoEnd(p);
    assert Encode(p)[..|Encode(p)| - 1] == Escape(p);
    if p != [] {
      assert |EscapeByte(p[|p| - 1])| >= 1;
    }
  }

  lemma {:induction false} EscapeSize(p: seq<byte>)
    ensures |Escape(p)| == |p| + multiset(p)[END] + multiset(p)[ESC]
    ensures multiset(p)[END] + multiset(p)[ESC] <= |p|
  {
    if p != [] {
      hide Escape;
      var q, b := p[..|p| - 1], p[|p| - 1];
      assert p == q + [b];
      EscapeSize(q);
      EncodingBytes(q, b);
      CountsSnoc(q, b);
    }
  }

  lemma CountsSnoc(q: seq<byte>, b: byte)
    ensures multiset(q + [b])[END] == multiset(q)[END] + if b == END then 1 else 0
    ensures multiset(q + [b])[ESC] == multiset(q)[ESC] + if b == ESC then 1 else 0
  {
    assert multiset(q + [b]) == multiset(q) + multiset([b]);
  }

  /** Exact size of a host encoding, and its worst case. */
  lemma EncodeSize(p: seq<byte>)
    ensures |Encode(p)| == |p| + multiset(p)[END] + multiset(p)[ESC] + 1
    ensures |Encode(p)| <= 2 * |p| + 1
  {
    EscapeSize(p);
  }

  // ---------------------------------------------------------------- decoding

  /** State of the RFC 1055 receiver: the packet being collected, whether the last byte was an
      unfinished escape, and the packets completed so far. */
  datatype Decoder = Decoder(acc: seq<byte>, esc: bool, frames: seq<seq<byte>>)

  const IDLE: Decoder := Decoder([], false, [])

  function Unescape(c: byte): byte {
    if c == ESC_END then END else if c == ESC_ESC then ESC else c
  }

  function Decode1(d: Decoder, c: byte): Decoder {
    if d.esc then d.(acc := d.acc + [Unescape(c)], esc := false)
    else if c == END then
      if d.acc == [] then d else Decoder([], false, d.frames + [d.acc])
    else if c == ESC then d.(esc := true)
    else d.(acc := d.acc + [c])
  }

  function Decode(d: Decoder, s: seq<byte>): Decoder {
    if s == [] then d else Decode1(Decode(d, s[..|s| - 1]), s[|s| - 1])
  }

  lemma {:induction false} DecodeConcat(d: Decoder, a: seq<byte>, b: seq<byte>)
    ensures Decode(d, a + b) == Decode(Decode(d, a), b)
  {
    if b == [] {
      assert a + b == a;
    } else {
      assert (a + b)[..|a + b| - 1] == a + b[..|b| - 1];
      DecodeConcat(d, a, b[..|b| - 1]);
    }
  }

  lemma DecodeEscapeByte(d: Decoder, b: byte)
    requires !d.esc
    ensures Decode(d, EscapeByte(b)) == d.(acc := d.acc + [b])
  {
    var s := EscapeByte(b);
    if b == END || b == ESC {
      assert s[..1] == [ESC] && s[..1][..0] == [];
      assert Decode(d, s[..1]) == Decode1(d, ESC);
    } else {
      assert s[..0] == [];
    }
  }

  /** What the decoder makes of each byte, and of each byte behind 219. */
  lemma DecodingBytes(d: Decoder, c: byte)
    requires !d.esc
    ensures Decode(d, [192]) == if d.acc == [] then d else Decoder([], false, d.frames + [d.acc])
    ensures c != 192 && c != 219 ==> Decode(d, [c]) == d.(acc := d.acc + [c])
    ensures Decode(d, [219]) == d.(esc := true)
    ensures Decode(d, [219, c])
         == d.(acc := d.acc + [if c == 220 then 192 else if c == 221 then 219 else c])
  {
    assert [c][..0] == [] && [192 as byte][..0] == [] && [219 as byte][..0] == [];
    assert [219, c][..1] == [219];
  }

  /** Escaping is undone whatever has been collected before. */
  lemma {:induction false} DecodeEscape(d: Decoder, p: seq<byte>)
    requires !d.esc
    ensures Decode(d, Escape(p)) == d.(acc := d.acc + p)
  {
    if p == [] {
      assert d.acc + p == d.acc;
    } else {
      var q, b := p[..|p| - 1], p[|p| - 1];
      DecodeEscape(d, q);
      DecodeConcat(d, Escape(q), EscapeByte(b));
      hide Decode;
      DecodeEscapeByte(Decode(d, Escape(q)), b);
      assert d.acc + p == d.acc + q + [b];
    }
  }

  function Deliver(p: seq<byte>): seq<seq<byte>> { if p == [] then [] else [p] }

  /** A host encoding closes whatever was being collected. Without pending bytes it yields
      exactly the packet; with pending bytes it merges them into it. */
  lemma {:induction false} DecodeEncode(d: Decoder, p: seq<byte>)
    requires !d.esc
    ensures Decode(d, Encode(p)) == Decoder([], false, d.frames + Deliver(d.acc + p))
  {
    DecodeEscape(d, p);
    assert Encode(p)[..|Encode(p)| - 1] == Escape(p);
    assert d.frames + [] == d.frames;
  }

  /** The leading END of the mote's encoding is what keeps pending bytes apart. */
  lemma {:induction false} DecodeMoteEncode(d: Decoder, p: seq<byte>)
    requires !d.esc
    ensures Decode(d, MoteEncode(p)) == Decoder([], false, d.frames + Deliver(d.acc) + Deliver(p))
  {
    DecodeConcat(d, [END], Encode(p));
    assert [END][..0] == [];
    var e := Decode(d, [END]);
    assert e == Decoder([], false, d.frames + Deliver(d.acc)) by {
      assert d.frames + [] == d.frames;
    }
    DecodeEncode(e, p);
    assert [] + p == p;
  }

  function NonEmpty(ps: seq<seq<byte>>): seq<seq<byte>> {
    if ps == [] then [] else NonEmpty(ps[..|ps| - 1]) + Deliver(ps[|ps| - 1])
  }

  lemma {:induction false} NonEmptyIdentity(ps: seq<seq<byte>>)
    requires [] !in ps
    ensures NonEmpty(ps) == ps
  {
    if ps != [] {
      assert ps == ps[..|ps| - 1] + [ps[|ps| - 1]];
      NonEmptyIdentity(ps[..|ps| - 1]);
    }
  }

  /** Round trip for lists of packets, host encoder. */
  lemma {:induction false} HostRoundTrip(ps: seq<seq<byte>>)
    ensures Decode(IDLE, EncodeAll(ps)) == Decoder([], false, NonEmpty(ps))
  {
    if ps != [] {
      var qs, p := ps[..|ps| - 1], ps[|ps| - 1];
      HostRoundTrip(qs);
      DecodeConcat(IDLE, EncodeAll(qs), Encode(p));
      DecodeEncode(Decoder([], false, NonEmpty(qs)), p);
      assert [] + p == p;
    }
  }

  /** Round trip for lists of packets, mote encoder. */
  lemma {:induction false} MoteRoundTrip(ps: seq<seq<byte>>)
    ensures Decode(IDLE, MoteEncodeAll(ps)) == Decoder([], false, NonEmpty(ps))
  {
    if ps != [] {
      var qs, p := ps[..|ps| - 1], ps[|ps| - 1];
      MoteRoundTrip(qs);
      DecodeConcat(IDLE, MoteEncodeAll(qs), MoteEncode(p));
      DecodeMoteEncode(Decoder([], false, NonEmpty(qs)), p);
      assert NonEmpty(qs) + [] == NonEmpty(qs);
    }
  }

  /** Completed packets are never taken back: more input only appends. */
  lemma {:induction false} DecodeGrows(d: Decoder, s: seq<byte>)
    ensures d.frames <= Decode(d, s).frames
  {
    if s != [] {
      DecodeGrows(d, s[..|s| - 1]);
    }
  }

  lemma DecodePrefix(a: seq<byte>, b: seq<byte>)
    requires a <= b
    ensures Decode(IDLE, a).frames <= Decode(IDLE, b).frames
  {
    assert b == a + b[|a|..];
    DecodeConcat(IDLE, a, b[|a|..]);
    DecodeGrows(Decode(IDLE, a), b[|a|..]);
  }
}
