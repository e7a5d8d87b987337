/** The host's receiver: a resumable decoder over a fixed buffer, with a pushed-back ESC between
    calls, a drop rule for oversize packets and a dispatcher by frame kind. */
module SerialInput {
  import opened SlipCodec
  import opened CommandLetters

  /** sizeof(inbuf). */
  const SIZE: nat := 2048

  const NL: byte := 10
  const CR: byte := 13

  /** The calls the receiver makes, in order: one per completed frame, by kind, and the echo of
      received text. The first five carry the complete frame. */
  datatype Event =
    | Command(f: seq<byte>)
    | Request(f: seq<byte>)
    | DebugLine(f: seq<byte>)
    | Text(f: seq<byte>)
    | Packet(f: seq<byte>)
    | Echo(f: seq<byte>)

  predicate Printable(b: byte) { b == 0 || b == CR || b == NL || b == 9 || 0x20 <= b <= 0x7E }

  /** is_sensible_string: all bytes but the first are printable. */
  predicate Sensible(s: seq<byte>) { forall i | 1 <= i < |s| :: Printable(s[i]) }

  function Dispatch(f: seq<byte>): Event
    requires f != []
  {
    if f[0] == BANG then Command(f)
    else if f[0] == QUERY then Request(f)
    else if f[0] == CR then DebugLine(f)
    else if Sensible(f) then Text(f)
    else Packet(f)
  }

  /** The verbosity levels at which received lines are echoed and dropped as they arrive. */
  predicate EchoesLines(verbose: int) { verbose >= 2 && verbose != 4 }

  /** The receiver between two bytes. */
  datatype Receiver = Receiver(acc: seq<byte>, esc: bool, events: seq<Event>)

  const FRESH: Receiver := Receiver([], false, [])

  function Store(r: Receiver, c: byte, verbose: int): Receiver {
    var acc := r.acc + [c];
    if EchoesLines(verbose) && c == NL && Sensible(acc) then Receiver([], false, r.events + [Echo(acc)])
    else
      Receiver(if |acc| >= SIZE then [] else acc, false,
               r.events + if verbose == 4 && Printable(c) then [Echo([c])] else [])
  }

  function Receive1(r: Receiver, c: byte, verbose: int): Receiver {
    if r.esc then Store(r, Unescape(c), verbose)
    else if c == END then
      if r.acc == [] then r else Receiver([], false, r.events + [Dispatch(r.acc)])
    else if c == ESC then r.(esc := true)
    else Store(r, c, verbose)
  }

  /** One byte after another: the reference for every way of reading the stream. */
  function Receive(r: Receiver, s: seq<byte>, verbose: int): Receiver {
    if s == [] then r else Receive1(Receive(r, s[..|s| - 1], verbose), s[|s| - 1], verbose)
  }

  lemma {:induction false} ReceiveConcat(r: Receiver, a: seq<byte>, b: seq<byte>, verbose: int)
    ensures Receive(r, a + b, verbose) == Receive(Receive(r, a, verbose), b, verbose)
  {
    if b == [] {
      assert a + b == a;
    } else {
      assert (a + b)[..|a + b| - 1] == a + b[..|b| - 1];
      ReceiveConcat(r, a, b[..|b| - 1], verbose);
    }
  }

  lemma {:induction false} ReceiveCons(r: Receiver, s: seq<byte>, verbose: int)
    requires s != []
    ensures Receive(r, s, verbose) == Receive(Receive1(r, s[0], verbose), s[1..], verbose)
  {
    assert s == [s[0]] + s[1..];
    assert [s[0]][..0] == [];
    assert Receive(r, [s[0]], verbose) == Receive1(Receive(r, [], verbose), s[0], verbose);
    ReceiveConcat(r, [s[0]], s[1..], verbose);
  }

  // ---------------------------------------------------------------- the code

  class SerialPort {
    const inbuf: array<byte>
    const verbose: int
    const linux: bool
    var inbufptr: nat
    /** What stdio still holds for the next fread, a pushed-back byte included. */
    var input: seq<byte>
    var events: seq<Event>

    ghost predicate Valid()
      reads this
    {
      && inbuf.Length == SIZE
      && inbufptr < SIZE
      && (input == [] || input == [ESC])
    }

    ghost function State(): Receiver
      reads this, inbuf
      requires Valid()
    {
      Receiver(inbuf[..inbufptr], input == [ESC], events)
    }

    constructor (verbose: int, linux: bool)
      ensures Valid() && State() == FRESH && fresh(inbuf)
      ensures this.verbose == verbose && this.linux == linux
    {
      inbuf := new byte[SIZE](_ => 0);
      this.verbose, this.linux := verbose, linux;
      inbufptr, input, events := 0, [], [];
    }

    /** The same with the check against oversize packets, made before the next read, applied. */
    ghost function Settled(): Receiver
      reads this, inbuf
      requires inbufptr <= inbuf.Length == SIZE
    {
      Receiver(if inbufptr >= SIZE then [] else inbuf[..inbufptr], false, events)
    }

    method IsSensibleString(len: nat) returns (sensible: bool)
      requires len <= inbuf.Length
      ensures sensible <==> Sensible(inbuf[..len])
    {
      var i := 1;
      while i < len
        invariant 1 <= i
        invariant forall k | 1 <= k < i && k < len :: Printable(inbuf[k])
      {
        if !(inbuf[i] == 0 || inbuf[i] == CR || inbuf[i] == NL || inbuf[i] == 9) {
          if inbuf[i] < 0x20 || 0x7E < inbuf[i] {
            assert !Printable(inbuf[..len][i]);
            return false;
          }
        }
        i := i + 1;
      }
      return true;
    }

    /** The END branch of serial_input. */
    method EndOfFrame()
      requires inbufptr <= inbuf.Length == SIZE
      modifies this`inbufptr, this`events
      ensures inbufptr == 0
      ensures events == if old(inbufptr) == 0 then old(events) else old(events) + [Dispatch(inbuf[..old(inbufptr)])]
      ensures old(inbufptr) > 0 ==>
        var e := events[|old(events)|];
        var readable := forall i | 1 <= i < old(inbufptr) ::
          inbuf[i] == 0 || inbuf[i] == 9 || inbuf[i] == 10 || inbuf[i] == 13 || 32 <= inbuf[i] <= 126;
        && e.f == inbuf[..old(inbufptr)] && !e.Echo?
        && (e.Command? <==> inbuf[0] == 33) && (e.Request? <==> inbuf[0] == 63) && (e.DebugLine? <==> inbuf[0] == 13)
        && (e.Text? <==> inbuf[0] != 33 && inbuf[0] != 63 && inbuf[0] != 13 && readable)
        && (e.Packet? <==> inbuf[0] != 33 && inbuf[0] != 63 && inbuf[0] != 13 && !readable)
    {
      if inbufptr > 0 {
        var f := inbuf[..inbufptr];
        if inbuf[0] == BANG {
          events := events + [Command(f)];
        } else if inbuf[0] == QUERY {
          events := events + [Request(f)];
        } else if inbuf[0] == CR {
          events := events + [DebugLine(f)];
        } else {
          var sensible := IsSensibleString(inbufptr);
          events := events + [if sensible then Text(f) else Packet(f)];
        }
        inbufptr := 0;
      }
    }

    /** The default branch: one byte, already unescaped, is stored and possibly echoed. */
    method StoreByte(c: byte)
      requires inbufptr < inbuf.Length == SIZE
      modifies this`inbufptr, this`events, inbuf
      ensures inbufptr <= SIZE
      ensures Settled() == Store(Receiver(old(inbuf[..inbufptr]), false, old(events)), c, verbose)
    {
      inbuf[inbufptr] := c;
      inbufptr := inbufptr + 1;
      assert inbuf[..inbufptr] == old(inbuf[..inbufptr]) + [c];
      if verbose == 4 {
        if c == 0 || c == CR || c == NL || c == 9 || (c >= 0x20 && c <= 0x7E) {
          events := events + [Echo([c])];
        }
      } else if verbose >= 2 {
        if c == NL {
          var sensible := IsSensibleString(inbufptr);
          if sensible {
            events := events + [Echo(inbuf[..inbufptr])];
            inbufptr := 0;
          }
        }
      }
    }

    /** serial_input: reads until stdio has nothing left. On Linux the first read skips the size
        check, and finding nothing to read ends the program. An ESC without its second byte is
        pushed back. */
    method SerialInput() returns (ok: bool)
      requires inbufptr < inbuf.Length == SIZE
      modifies this`inbufptr, this`input, this`events, inbuf
      ensures ok <==> !(linux && old(input) == [])
      ensures inbufptr < SIZE
      ensures ok ==> Valid()
      ensures ok ==> State() == Receive(Receiver(old(inbuf[..inbufptr]), false, old(events)), old(input), verbose)
    {
      hide Receive;
      ghost var goal := Receive(Receiver(inbuf[..inbufptr], false, events), input, verbose);
      var first := linux;
      while true
        invariant inbufptr <= SIZE && (first ==> linux && inbufptr < SIZE && input == old(input))
        invariant !first && linux ==> old(input) != []
        invariant Receive(Settled(), input, verbose) == goal
        decreases |input|
      {
        if !first && inbufptr >= SIZE {
          inbufptr := 0;
        }
        if input == [] {
          ReceiveNothing(Settled(), verbose);
          return !first;
        }
        ReceiveCons(Settled(), input, verbose);
        var c := input[0];
        input := input[1..];
        first := false;
        if c == END {
          EndOfFrame();
        } else {
          if c == ESC {
            if input == [] {
              ReceiveNothing(Receive1(Settled(), ESC, verbose), verbose);
              input := [ESC];
              return true;
            }
            ReceiveCons(Receive1(Settled(), ESC, verbose), input, verbose);
            c := Unescape(input[0]);
            input := input[1..];
          }
          StoreByte(c);
        }
      }
    }

    /** `select` reported new bytes: they follow whatever was pushed back. However the stream is
        cut, the state afterwards is the one the reference reaches byte by byte. */
    method HandleReadable(chunk: seq<byte>) returns (ok: bool)
      requires Valid()
      modifies this`inbufptr, this`input, this`events, inbuf
      ensures ok <==> !(linux && old(input) == [] && chunk == [])
      ensures ok ==> Valid() && State() == Receive(old(State()), chunk, verbose)
    {
      ghost var r := Receiver(inbuf[..inbufptr], false, events);
      if input == [ESC] {
        ReceiveCons(r, [ESC] + chunk, verbose);
        assert ([ESC] + chunk)[1..] == chunk;
      } else {
        assert input + chunk == chunk;
      }
      input := input + chunk;
      ok := SerialInput();
    }
  }

  lemma ReceiveNothing(r: Receiver, verbose: int)
    ensures Receive(r, [], verbose) == r
  {}

  // ---------------------------------------------------------------- chunking

  function Concat(chunks: seq<seq<byte>>): seq<byte> {
    if chunks == [] then [] else Concat(chunks[..|chunks| - 1]) + chunks[|chunks| - 1]
  }

  /** One HandleReadable per chunk. */
  function ReceiveChunks(r: Receiver, chunks: seq<seq<byte>>, verbose: int): Receiver {
    if chunks == [] then r
    else Receive(ReceiveChunks(r, chunks[..|chunks| - 1], verbose), chunks[|chunks| - 1], verbose)
  }

  lemma {:induction false} ChunksAreOneStream(r: Receiver, chunks: seq<seq<byte>>, verbose: int)
    ensures ReceiveChunks(r, chunks, verbose) == Receive(r, Concat(chunks), verbose)
  {
    if chunks != [] {
      var n := |chunks| - 1;
      ChunksAreOneStream(r, chunks[..n], verbose);
      ReceiveConcat(r, Concat(chunks[..n]), chunks[n], verbose);
    }
  }

  /** Chunking independence, at every verbosity: two ways of cutting the same stream lead to the
      same calls in the same order and to the same state, also when a cut falls inside an escape. */
  lemma ChunkingIndependence(r: Receiver, chunks1: seq<seq<byte>>, chunks2: seq<seq<byte>>, verbose: int)
    requires Concat(chunks1) == Concat(chunks2)
    ensures ReceiveChunks(r, chunks1, verbose) == ReceiveChunks(r, chunks2, verbose)
  {
    ChunksAreOneStream(r, chunks1, verbose);
    ChunksAreOneStream(r, chunks2, verbose);
  }

  /** A stream that arrives in non-empty pieces, fed to a port: the calls it makes do not depend on how
      the stream was cut. */
  method Feed(chunks: seq<seq<byte>>, verbose: int, linux: bool) returns (port: SerialPort)
    requires [] !in chunks
    ensures port.Valid() && port.State() == Receive(FRESH, Concat(chunks), verbose)
  {
    port := new SerialPort(verbose, linux);
    assert chunks[..0] == [];
    for i := 0 to |chunks|
      invariant fresh(port) && fresh(port.inbuf) && port.verbose == verbose
      invariant port.Valid() && port.State() == ReceiveChunks(FRESH, chunks[..i], verbose)
    {
      assert chunks[..i + 1][..i] == chunks[..i] && chunks[i] in chunks;
      var ok := port.HandleReadable(chunks[i]);
    }
    assert chunks[..|chunks|] == chunks;
    ChunksAreOneStream(FRESH, chunks, verbose);
  }

  // ---------------------------------------------------------------- against the reference decoder

  /** The frames the receiver completed, echoes aside. */
  function Frames(events: seq<Event>): seq<seq<byte>> {
    if events == [] then []
    else Frames(events[..|events| - 1]) + FrameOf(events[|events| - 1])
  }

  function FrameOf(e: Event): seq<seq<byte>> { if e.Echo? then [] else [e.f] }

  lemma FramesSnoc(events: seq<Event>, e: Event)
    ensures Frames(events + [e]) == if e.Echo? then Frames(events) else Frames(events) + [e.f]
  {
    assert (events + [e])[..|events|] == events;
  }

  /** What survives of a packet in a buffer that is emptied each time it is full. */
  function Tail(p: seq<byte>): seq<byte> { p[|p| - |p| % SIZE..] }

  function Tails(ps: seq<seq<byte>>): seq<seq<byte>> {
    if ps == [] then [] else Tails(ps[..|ps| - 1]) + Deliver(Tail(ps[|ps| - 1]))
  }

  lemma TailSnoc(p: seq<byte>, c: byte)
    ensures Tail(p + [c]) == if |Tail(p)| + 1 >= SIZE then [] else Tail(p) + [c]
  {
    var k := |p| % SIZE;
    if k + 1 == SIZE {
      assert (|p| + 1) % SIZE == 0;
    } else {
      assert (|p| + 1) % SIZE == k + 1;
    }
  }

  /** What is in the buffer after the bytes of one packet, starting from an empty one. */
  function Left(p: seq<byte>, verbose: int): seq<byte> {
    if p == [] then [] else Store(Receiver(Left(p[..|p| - 1], verbose), false, []), p[|p| - 1], verbose).acc
  }

  function Lefts(ps: seq<seq<byte>>, verbose: int): seq<seq<byte>> {
    if ps == [] then [] else Lefts(ps[..|ps| - 1], verbose) + Deliver(Left(ps[|ps| - 1], verbose))
  }

  lemma LeftsSnoc(ps: seq<seq<byte>>, p: seq<byte>, verbose: int)
    ensures Lefts(ps + [p], verbose) == Lefts(ps, verbose) + Deliver(Left(p, verbose))
  {
    assert (ps + [p])[..|ps|] == ps;
  }

  /** Unless lines are echoed, that is the part after the last full buffer. */
  lemma {:induction false} LeftIsTail(p: seq<byte>, verbose: int)
    requires !EchoesLines(verbose)
    ensures Left(p, verbose) == Tail(p)
  {
    if p != [] {
      var q, c := p[..|p| - 1], p[|p| - 1];
      assert p == q + [c];
      LeftIsTail(q, verbose);
      TailSnoc(q, c);
    }
  }

  lemma {:induction false} LeftsAreTails(ps: seq<seq<byte>>, verbose: int)
    requires !EchoesLines(verbose)
    ensures Lefts(ps, verbose) == Tails(ps)
  {
    if ps != [] {
      hide Left, Tail;
      LeftsAreTails(ps[..|ps| - 1], verbose);
      LeftIsTail(ps[|ps| - 1], verbose);
    }
  }

  ghost predicate Tracks(r: Receiver, d: Decoder, verbose: int) {
    r.esc == d.esc && r.acc == Left(d.acc, verbose) && Frames(r.events) == Lefts(d.frames, verbose)
  }

  lemma StoreTracks(r: Receiver, d: Decoder, c: byte, verbose: int)
    requires Tracks(r, d, verbose)
    ensures Tracks(Store(r, c, verbose), d.(acc := d.acc + [c], esc := false), verbose)
  {
    hide Sensible;
    assert (d.acc + [c])[..|d.acc|] == d.acc;
    FramesSnoc(r.events, Echo(r.acc + [c]));
    FramesSnoc(r.events, Echo([c]));
    assert r.events + [] == r.events;
  }

  lemma EndTracks(r: Receiver, d: Decoder, verbose: int)
    requires Tracks(r, d, verbose) && !r.esc
    ensures Tracks(Receive1(r, END, verbose), Decode1(d, END), verbose)
  {
    assert Left([], verbose) == [];
    hide Lefts, Left, Frames, Sensible;
    LeftsSnoc(d.frames, d.acc, verbose);
    if r.acc == [] {
      assert Deliver(r.acc) == [];
      assert Lefts(d.frames, verbose) + [] == Lefts(d.frames, verbose);
    } else {
      var e := Dispatch(r.acc);
      assert Deliver(r.acc) == [r.acc] && !e.Echo? && e.f == r.acc;
      FramesSnoc(r.events, e);
    }
  }

  lemma StepTracks(r: Receiver, d: Decoder, c: byte, verbose: int)
    requires Tracks(r, d, verbose)
    ensures Tracks(Receive1(r, c, verbose), Decode1(d, c), verbose)
  {
    hide Left, Lefts, Frames, Store;
    if r.esc {
      StoreTracks(r, d, Unescape(c), verbose);
    } else if c == END {
      EndTracks(r, d, verbose);
    } else if c != ESC {
      StoreTracks(r, d, c, verbose);
    }
  }

  /** On every byte stream and at every verbosity the bounded receiver completes exactly the frames of
      the unbounded decoder, each reduced to what the buffer holds at its end, and leaves out those of
      which nothing is left. */
  lemma {:induction false} BoundedRefinesDecoder(s: seq<byte>, verbose: int)
    ensures Tracks(Receive(FRESH, s, verbose), Decode(IDLE, s), verbose)
  {
    hide Receive1, Decode1;
    if s != [] {
      BoundedRefinesDecoder(s[..|s| - 1], verbose);
      StepTracks(Receive(FRESH, s[..|s| - 1], verbose), Decode(IDLE, s[..|s| - 1]), s[|s| - 1], verbose);
    }
  }
}
