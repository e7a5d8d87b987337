/** The host's transmit buffer: one array, four cursors, filled by the encoder, drained by
    partial writes and compacted in place. */
module SlipQueue {
  import opened SlipCodec
  import opened TransmitLink

  /** The search for the end of the next frame after compaction. It starts at index 1. */
  function ScanFrom(s: seq<byte>, n: nat): nat
    requires 1 <= n
    decreases |s| - n
  {
    if n >= |s| then 0 else if s[n] == END then n + 1 else ScanFrom(s, n + 1)
  }

  lemma {:induction false} ScanHits(s: seq<byte>, n: nat, e: nat)
    requires 1 <= n <= e < |s| && s[e] == END && END !in s[n..e]
    ensures ScanFrom(s, n) == e + 1
    decreases e - n
  {
    if n < e {
      assert s[n] == s[n..e][0];
      assert s[n + 1..e] == s[n..e][1..];
      ScanHits(s, n + 1, e);
    }
  }

  lemma {:induction false} ScanRange(s: seq<byte>, n: nat)
    requires 1 <= n
    ensures ScanFrom(s, n) == 0 || n < ScanFrom(s, n) <= |s|
    decreases |s| - n
  {
    if n < |s| && s[n] != END {
      ScanRange(s, n + 1);
    }
  }

  /** The scan marks the end of the oldest remaining frame exactly when that frame is not a lone
      END, that is, unless an empty payload was queued behind another frame. */
  lemma ScanFindsNextFrame(frames: seq<seq<byte>>)
    requires frames != [] && IsFrame(frames[0])
    ensures ScanFrom(Flatten(frames), 1) == |frames[0]| <==> frames[0] != [END]
  {
    hide Escape, EncodeAll, Flatten;
    FlattenCons(frames);
    var f, s := frames[0], Flatten(frames);
    if f == [END] {
      ScanRange(s, 1);
    } else {
      assert f == f[..|f| - 1] + [END];
      assert s[1..|f| - 1] == f[..|f| - 1][1..];
      ScanHits(s, 1, |f| - 1);
    }
  }

  /** Contents and cursors that describe the queue q exactly. */
  ghost predicate Matches(q: Queue, buf: seq<byte>, begin: nat, packetEnd: nat, count: int, wire: seq<byte>) {
    && Consistent(q)
    && buf == Flatten(q.frames)
    && begin == q.offset
    && packetEnd == (if q.frames == [] then 0 else |q.frames[0]|)
    && count == |q.frames|
    && wire == q.wire
  }

  lemma MatchesPush(q: Queue, buf: seq<byte>, begin: nat, packetEnd: nat, count: int, wire: seq<byte>, p: seq<byte>)
    requires Matches(q, buf, begin, packetEnd, count, wire)
    ensures Matches(Push(q, p), buf + Encode(p), begin,
                    if packetEnd == 0 then |buf + Encode(p)| else packetEnd, count + 1, wire)
    ensures packetEnd == 0 <==> q.frames == []
  {
    hide Escape, EncodeAll;
    PushConserves(q, p);
    PushFrames(q, p);
    FlattenSnoc(q.frames, Encode(p));
    if q.frames != [] {
      FlattenCons(q.frames);
    }
  }

  lemma MatchesFlush(q: Queue, buf: seq<byte>, begin: nat, packetEnd: nat, count: int, wire: seq<byte>, n: nat)
    requires Matches(q, buf, begin, packetEnd, count, wire)
    requires 0 < packetEnd <= |buf| && begin + n <= packetEnd
    ensures Drainable(q, n)
    ensures Consistent(Drain(q, n)) && Drain(q, n).wire == wire + buf[begin..begin + n]
    ensures Completes(q, n) <==> begin + n == packetEnd
    ensures Completes(q, n) ==> buf[packetEnd..] == Flatten(Drain(q, n).frames)
  {
    hide Escape, EncodeAll, Flatten, ScanFrom;
    FlattenCons(q.frames);
    DrainConserves(q, n);
    DrainFrames(q, n);
    assert buf[begin..begin + n] == q.frames[0][begin..begin + n];
  }

  /** Writing n more bytes finishes the oldest frame and the next one is a lone END, the encoding
      of an empty payload. */
  ghost predicate BringsLoneEnd(q: Queue, n: nat)
    requires q.frames != []
  {
    Completes(q, n) && |q.frames| > 1 && q.frames[1] == [END]
  }

  lemma MatchesScan(q: Queue, buf: seq<byte>, count: int)
    requires Consistent(q) && q.offset == 0
    requires buf == Flatten(q.frames) && buf != [] && count == |q.frames|
    ensures q.frames != []
    ensures Matches(q, buf, 0, ScanFrom(buf, 1), count, q.wire) <==> q.frames[0] != [END]
  {
    hide Escape, EncodeAll;
    FrameAtIsFrame(q.packets, q.done);
    assert q.frames[0] == FrameAt(q.packets, q.done + 0);
    ScanFindsNextFrame(q.frames);
  }

  /** The effect of slip_flushbuf on contents and cursors, against the queue. */
  lemma MatchesDrain(q: Queue, buf: seq<byte>, begin: nat, packetEnd: nat, count: int, wire: seq<byte>, n: nat)
    requires Matches(q, buf, begin, packetEnd, count, wire)
    requires 0 < packetEnd <= |buf| && begin + n <= packetEnd
    ensures Drainable(q, n)
    ensures var r, written := Drain(q, n), wire + buf[begin..begin + n];
      && r.wire == written
      && (Completes(q, n) <==> begin + n == packetEnd)
      && (|q.frames| > 1 <==> packetEnd < |buf|)
      && (begin + n < packetEnd ==> Matches(r, buf, begin + n, packetEnd, count, written))
      && (begin + n == packetEnd ==>
            (Matches(r, buf[packetEnd..], 0, ScanFrom(buf[packetEnd..], 1), count - 1, written)
             <==> !BringsLoneEnd(q, n)))
  {
    hide Escape, EncodeAll;
    MatchesFlush(q, buf, begin, packetEnd, count, wire, n);
    FlattenCons(q.frames);
    if |q.frames| > 1 {
      FlattenCons(q.frames[1..]);
      FrameAtIsFrame(q.packets, q.done + 1);
      assert q.frames[1] == FrameAt(q.packets, q.done + 1);
      if Completes(q, n) {
        MatchesScan(Drain(q, n), buf[packetEnd..], count - 1);
      }
    }
  }

  /** With non-empty payloads only, no flush ever brings a lone END to the front. */
  lemma NonEmptyPayloadsStayRepresented(q: Queue, n: nat)
    requires Consistent(q) && q.frames != []
    requires [] !in q.packets
    ensures !BringsLoneEnd(q, n)
  {
    hide Escape, EncodeAll, Flatten;
    if |q.frames| > 1 {
      assert q.frames[1] == FrameAt(q.packets, q.done + 1);
      assert q.packets[q.done] in q.packets;
      EncodeIsFrame(q.packets[q.done]);
    }
  }

  /** What happens to a lone END at the front: alone it is taken for an empty buffer, and before
      another frame the two are taken for one. */
  lemma LoneEndIsMisread(frames: seq<seq<byte>>)
    requires frames != [] && frames[0] == [END]
    ensures |frames| == 1 ==> ScanFrom(Flatten(frames), 1) == 0
    ensures |frames| > 1 && IsFrame(frames[1]) ==> ScanFrom(Flatten(frames), 1) == 1 + |frames[1]|
  {
    FlattenCons(frames);
    if |frames| > 1 && IsFrame(frames[1]) {
      var f, s := frames[1], Flatten(frames);
      FlattenCons(frames[1..]);
      assert s[1..|f|] == f[..|f| - 1];
      ScanHits(s, 1, |f|);
    }
  }

  /** If the i-th payload byte no longer fits, the buffer ends up with the longest part of the
      encoding that does, and the whole encoding does not. */
  lemma OverflowPrefix(base: seq<byte>, p: seq<byte>, i: nat)
    requires i < |p|
    requires |base + Escape(p[..i])| <= CAPACITY < |base + Escape(p[..i])| + |EscapeByte(p[i])|
    ensures |base| + |Encode(p)| > CAPACITY
    ensures var full := base + Escape(p[..i]);
      full + EscapeByte(p[i])[..CAPACITY - |full|] == (base + Encode(p))[..CAPACITY]
  {
    hide Escape, EncodeAll, Flatten;
    EscapeStep(p, i);
    EscapePrefix(p, i + 1);
    var full := base + Escape(p[..i]);
    assert full + EscapeByte(p[i]) <= base + Encode(p);
  }

  lemma AppendedStream(a: seq<byte>, b: seq<byte>, begin: nat, e: seq<byte>)
    requires begin <= |a| && b == a + e
    ensures b[begin..] == a[begin..] + e
  {}

  class SlipBuffer {
    const slipBuf: array<byte>
    const sendDelay: nat
    var slipBegin: nat
    var slipEnd: nat
    var slipPacketEnd: nat
    var slipPacketCount: int
    var slipSent: nat
    var timer: Timer

    /** Bytes handed to `write` so far. */
    ghost var wire: seq<byte>
    /** The queue this buffer is meant to represent. */
    ghost var queue: Queue

    /** Holds at all times, whatever is queued. */
    ghost predicate Bounded()
      reads this, slipBuf
    {
      && slipBuf.Length == CAPACITY
      && slipBegin <= slipPacketEnd <= slipEnd <= CAPACITY
      && (slipPacketEnd > 0 ==> slipBegin < slipPacketEnd)
      && slipSent == |wire| + slipEnd - slipBegin
    }

    /** Every byte that ever went through slip_send: written ones, then pending ones. */
    ghost function Stream(): (s: seq<byte>)
      reads this, slipBuf
      requires Bounded()
      ensures slipSent == |s|
    {
      wire + slipBuf[slipBegin..slipEnd]
    }

    /** The cursors describe `queue` exactly. */
    ghost predicate Represents()
      reads this, slipBuf
      requires Bounded()
    {
      Matches(queue, slipBuf[..slipEnd], slipBegin, slipPacketEnd, slipPacketCount, wire)
    }

    /** slip_init, from the static initial state of the variables. */
    constructor (sendDelay: nat, now: int)
      ensures Bounded() && Represents() && fresh(slipBuf)
      ensures this.sendDelay == sendDelay && queue == BOOT && timer == Timer(now, 0)
      ensures Stream() == [END] && wire == []
    {
      slipBuf := new byte[CAPACITY](_ => 0);
      this.sendDelay := sendDelay;
      slipBegin, slipEnd, slipPacketEnd, slipPacketCount, slipSent := 0, 0, 0, 0, 0;
      timer := Timer(now, 0);
      wire, queue := [], BOOT;
      new;
      var ok := SlipSend(END);
      BootConsistent();
      FlattenSnoc([], [END]);
      assert [] + [[END]] == BOOT.frames;
    }

    /** Stores one byte, or reports the overflow that ends the program. */
    method SlipSend(c: byte) returns (ok: bool)
      requires Bounded()
      modifies this`slipEnd, this`slipSent, this`slipPacketEnd, this`slipPacketCount, slipBuf
      ensures Bounded()
      ensures ok <==> old(slipEnd) < CAPACITY
      ensures !ok ==> slipBuf[..] == old(slipBuf[..]) && slipEnd == old(slipEnd)
      ensures ok ==> slipBuf[..slipEnd] == old(slipBuf[..slipEnd]) + [c]
      ensures c != END || !ok ==> slipPacketCount == old(slipPacketCount) && slipPacketEnd == old(slipPacketEnd)
      ensures c == END && ok ==> slipPacketCount == old(slipPacketCount) + 1
      ensures c == END && ok ==> slipPacketEnd == if old(slipPacketEnd) == 0 then slipEnd else old(slipPacketEnd)
    {
      if slipEnd >= CAPACITY {
        return false;
      }
      slipBuf[slipEnd] := c;
      slipEnd := slipEnd + 1;
      slipSent := slipSent + 1;
      if c == END {
        slipPacketCount := slipPacketCount + 1;
        if slipPacketEnd == 0 {
          slipPacketEnd := slipEnd;
        }
      }
      return true;
    }

    predicate SlipEmpty()
      reads this
    {
      slipPacketEnd == 0
    }

    /** slip_empty tells whether anything is waiting. */
    lemma SlipEmptyIsExact()
      requires Bounded() && Represents()
      ensures SlipEmpty() <==> queue.frames == []
      ensures SlipEmpty() <==> slipEnd == 0
      ensures slipPacketCount == 0 <==> slipEnd == 0
    {
      if queue.frames != [] {
        FlattenCons(queue.frames);
      }
    }

    /** The switch in write_to_serial: one payload byte, escaped if necessary. */
    method SendEscaped(b: byte) returns (ok: bool)
      requires Bounded()
      modifies this`slipEnd, this`slipSent, this`slipPacketEnd, this`slipPacketCount, slipBuf
      ensures Bounded()
      ensures slipPacketCount == old(slipPacketCount) && slipPacketEnd == old(slipPacketEnd)
      ensures ok ==> slipBuf[..slipEnd] == old(slipBuf[..slipEnd]) + EscapeByte(b)
      ensures !ok ==> slipEnd == CAPACITY < old(slipEnd) + |EscapeByte(b)|
      ensures !ok ==> slipBuf[..slipEnd] == old(slipBuf[..slipEnd]) + EscapeByte(b)[..CAPACITY - old(slipEnd)]
    {
      if b == END || b == ESC {
        ok := SlipSend(ESC);
        if ok {
          ok := SlipSend(if b == END then ESC_END else ESC_ESC);
        }
      } else {
        ok := SlipSend(b);
      }
    }

    /** write_to_serial: the encoding is appended, completely exactly when it fits; an overflow
        leaves the part that fitted and ends the program. */
    method WriteToSerial(p: seq<byte>) returns (ok: bool)
      requires Bounded()
      modifies this`slipEnd, this`slipSent, this`slipPacketEnd, this`slipPacketCount, slipBuf
      ensures Bounded()
      ensures ok <==> old(slipEnd) + |Encode(p)| <= 2048
      ensures ok ==> slipBuf[..slipEnd] == old(slipBuf[..slipEnd]) + Encode(p)
      ensures !ok ==> slipEnd == CAPACITY && slipBuf[..slipEnd] == (old(slipBuf[..slipEnd]) + Encode(p))[..CAPACITY]
      ensures ok ==> slipPacketCount == old(slipPacketCount) + 1
      ensures ok ==> slipPacketEnd == if old(slipPacketEnd) == 0 then slipEnd else old(slipPacketEnd)
    {
      ghost var base := slipBuf[..slipEnd];
      for i := 0 to |p|
        invariant Bounded()
        invariant slipBuf[..slipEnd] == base + Escape(p[..i])
        invariant slipPacketEnd == old(slipPacketEnd) && slipPacketCount == old(slipPacketCount)
      {
        EscapeStep(p, i);
        ok := SendEscaped(p[i]);
        if !ok {
          OverflowPrefix(base, p, i);
          return;
        }
      }
      assert p[..|p|] == p;
      ok := SlipSend(END);
      if !ok {
        return;
      }
      assert base + Escape(p) + [END] == base + Encode(p);
    }

    /** write_to_slip: nothing happens while the link is not open; otherwise the payload joins
        the queue if it fits, and the program ends if it does not. */
    method WriteToSlip(slipfd: int, p: seq<byte>) returns (ok: bool)
      requires Bounded()
      modifies this, slipBuf
      ensures Bounded() && wire == old(wire) && timer == old(timer)
      ensures slipfd <= 0 ==> ok && unchanged(this) && slipBuf[..] == old(slipBuf[..])
      ensures slipfd > 0 ==> (ok <==> old(slipEnd) + |Encode(p)| <= CAPACITY)
      ensures slipfd > 0 && ok ==> Stream() == old(Stream()) + Encode(p)
      ensures slipfd > 0 && old(Represents()) ==> (ok <==> Fits(old(queue), p))
      ensures slipfd > 0 && old(Represents()) && ok ==> Represents() && queue == Push(old(queue), p)
      ensures slipfd > 0 && old(Represents()) && ok ==>
        Link(queue, timer, 0, [], false) == Enqueue(Link(old(queue), timer, 0, [], false), p)
    {
      hide Escape, EncodeAll, Flatten, ScanFrom, Encode;
      if slipfd > 0 {
        ghost var before := slipBuf[..slipEnd];
        ok := WriteToSerial(p);
        if ok {
          AppendedStream(before, slipBuf[..slipEnd], slipBegin, Encode(p));
          assert wire + (before[slipBegin..] + Encode(p)) == wire + before[slipBegin..] + Encode(p);
          if old(Represents()) {
            MatchesPush(queue, before, slipBegin, old(slipPacketEnd), old(slipPacketCount), wire, p);
            queue := Push(queue, p);
          }
        }
      } else {
        ok := true;
      }
    }

    /** slip_flushbuf, given what `write` returned. */
    method SlipFlushbuf(result: WriteResult, now: int) returns (ok: bool)
      requires Bounded()
      requires result.Took? ==> result.n <= slipPacketEnd - slipBegin
      modifies this`slipBegin, this`slipEnd, this`slipPacketEnd, this`slipPacketCount, this`timer, this`wire, slipBuf
      ensures Bounded()
      ensures Stream() == old(Stream())
      ensures ok <==> old(SlipEmpty()) || result != Failed
      ensures old(SlipEmpty()) || !result.Took? ==>
        unchanged(this) && slipBuf[..] == old(slipBuf[..])
      ensures !old(SlipEmpty()) && result.Took? ==>
        wire == old(wire) + old(slipBuf[..slipEnd])[old(slipBegin)..old(slipBegin) + result.n]
      ensures !old(SlipEmpty()) && result.Took? && old(slipBegin) + result.n < old(slipPacketEnd) ==>
        && slipBegin == old(slipBegin) + result.n && slipBuf[..slipEnd] == old(slipBuf[..slipEnd])
        && slipPacketEnd == old(slipPacketEnd) && slipPacketCount == old(slipPacketCount) && timer == old(timer)
      ensures !old(SlipEmpty()) && result.Took? && old(slipBegin) + result.n == old(slipPacketEnd) ==>
        && slipBegin == 0 && slipBuf[..slipEnd] == old(slipBuf[slipPacketEnd..slipEnd])
        && slipPacketEnd == ScanFrom(slipBuf[..slipEnd], 1) && slipPacketCount == old(slipPacketCount) - 1
        && timer == (if slipEnd > 0 && sendDelay > 0 then Timer(now, sendDelay) else old(timer))
    {
      if SlipEmpty() {
        return true;
      }
      if result == Failed {
        return false;
      } else if result == Retry {
        return true;
      }
      ghost var taken := slipBuf[..slipEnd][slipBegin..slipBegin + result.n];
      assert Stream() == wire + taken + slipBuf[slipBegin + result.n..slipEnd];
      wire := wire + taken;
      slipBegin := slipBegin + result.n;
      if slipBegin == slipPacketEnd {
        slipPacketCount := slipPacketCount - 1;
        Compact();
        if slipEnd > 0 {
          FindNextFrame();
          if sendDelay > 0 {
            timer := Timer(now, sendDelay);
          }
        }
      }
      ok := true;
    }

    /** handle_fd, write part, after `select` reported the descriptor writable. A buffer that represents
        its queue goes on doing so exactly when the flush did not bring a lone END to the front. */
    method HandleWritable(result: WriteResult, now: int) returns (ok: bool)
      requires Bounded()
      requires result.Took? ==> result.n <= slipPacketEnd - slipBegin
      modifies this, slipBuf
      ensures Bounded() && Stream() == old(Stream())
      ensures ok <==> old(SlipEmpty()) || result != Failed
      ensures old(SlipEmpty()) || !result.Took? ==> unchanged(this) && slipBuf[..] == old(slipBuf[..])
      ensures wire == old(wire) + if old(SlipEmpty()) || !result.Took? then []
                                  else old(slipBuf[..slipEnd])[old(slipBegin)..old(slipBegin) + result.n]
      ensures old(Represents()) ==> (old(SlipEmpty()) <==> old(queue).frames == [])
      ensures old(Represents()) && old(queue).frames != [] && result.Took? ==>
        && Drainable(old(queue), result.n)
        && queue == Drain(old(queue), result.n)
        && wire == queue.wire
        && timer == WriteOut(Link(old(queue), old(timer), 0, [], false), sendDelay, now, result.n).timer
        && (Represents() <==> !BringsLoneEnd(old(queue), result.n))
    {
      hide Escape, Encode, EncodeAll, Flatten, ScanFrom, Matches, Consistent;
      ghost var q := queue;
      ghost var represents := Represents();
      if represents {
        SlipEmptyIsExact();
      }
      ok := SlipFlushbuf(result, now);
      if represents && q.frames != [] && result.Took? {
        MatchesDrain(q, old(slipBuf[..slipEnd]), old(slipBegin), old(slipPacketEnd), old(slipPacketCount), old(wire),
                     result.n);
        queue := Drain(q, result.n);
      }
    }

    /** The bytes behind the finished frame move to the front. The copy runs forward, byte by
        byte; source and target may overlap. */
    method Compact()
      requires slipBuf.Length == CAPACITY
      requires slipBegin == slipPacketEnd <= slipEnd <= CAPACITY
      modifies this`slipBegin, this`slipEnd, this`slipPacketEnd, slipBuf
      ensures slipBegin == slipPacketEnd == 0
      ensures slipEnd == old(slipEnd) - old(slipPacketEnd)
      ensures slipBuf[..slipEnd] == old(slipBuf[slipPacketEnd..slipEnd])
    {
      var m := slipEnd - slipPacketEnd;
      for k := 0 to m
        modifies slipBuf
        invariant forall j | 0 <= j < k :: slipBuf[j] == old(slipBuf[slipPacketEnd + j])
        invariant forall j | k <= j < CAPACITY :: slipBuf[j] == old(slipBuf[j])
      {
        slipBuf[k] := slipBuf[slipPacketEnd + k];
      }
      slipEnd := m;
      slipBegin, slipPacketEnd := 0, 0;
    }

    method FindNextFrame()
      requires slipBuf.Length == CAPACITY && slipEnd <= CAPACITY && slipPacketEnd == 0
      modifies this`slipPacketEnd
      ensures slipPacketEnd == ScanFrom(slipBuf[..slipEnd], 1)
      ensures slipPacketEnd <= slipEnd
    {
      var n := 1;
      while n < slipEnd
        invariant 1 <= n && ScanFrom(slipBuf[..slipEnd], n) == ScanFrom(slipBuf[..slipEnd], 1)
      {
        if slipBuf[n] == END {
          slipPacketEnd := n + 1;
          break;
        }
        n := n + 1;
      }
    }

    /** set_fd: ask `select` for write permission? */
    method SetFd(now: int) returns (want: bool)
      requires Bounded()
      ensures want <==> !SlipEmpty() && (sendDelay == 0 || Expired(timer, now))
      ensures Represents() ==> (want <==> MayWrite(Link(queue, timer, now, [], false), sendDelay, now))
    {
      want := !SlipEmpty() && (sendDelay == 0 || Expired(timer, now));
    }
  }

  // ---------------------------------------------------------------- schedules on the buffer

  /** The step does not bring a lone END to the front of the queue. */
  ghost predicate SmoothAt(l: Link, delay: nat, s: Step)
    requires OffsetOk(l.queue)
  {
    Writes(l, delay, s) ==> !BringsLoneEnd(l.queue, Min(s.result.n, |l.queue.frames[0]| - l.queue.offset))
  }

  /** No step of the schedule does. */
  ghost predicate Smooth(start: int, delay: nat, steps: seq<Step>) {
    steps == [] ||
    (Smooth(start, delay, steps[..|steps| - 1]) &&
     SmoothAt(Run(start, delay, steps[..|steps| - 1]), delay, steps[|steps| - 1]))
  }

  lemma {:induction false} SmoothPrefix(start: int, delay: nat, steps: seq<Step>, i: nat)
    requires i <= |steps| && Smooth(start, delay, steps)
    ensures Smooth(start, delay, steps[..i])
  {
    hide Run, SmoothAt;
    if i == |steps| {
      assert steps[..i] == steps;
    } else {
      SmoothPrefix(start, delay, steps[..|steps| - 1], i);
      assert steps[..|steps| - 1][..i] == steps[..i];
    }
  }

  /** Without empty payloads every schedule is smooth. */
  lemma {:induction false} NonEmptyPayloadsAreSmooth(start: int, delay: nat, steps: seq<Step>)
    requires forall s | s in steps && s.Queued? :: s.p != []
    ensures Smooth(start, delay, steps)
    ensures [] !in Run(start, delay, steps).queue.packets
  {
    if steps != [] {
      hide Escape, EncodeAll, Flatten;
      var init, s := steps[..|steps| - 1], steps[|steps| - 1];
      assert s in steps && forall x | x in init :: x in steps;
      NonEmptyPayloadsAreSmooth(start, delay, init);
      RunConsistent(start, delay, init);
      var l := Run(start, delay, init);
      hide Run, BringsLoneEnd;
      if Writes(l, delay, s) {
        NonEmptyPayloadsStayRepresented(l.queue, Min(s.result.n, |l.queue.frames[0]| - l.queue.offset));
      }
    }
  }

  /** Any schedule, carried out on the buffer. Whatever the payloads, written and pending bytes are the
      encodings of all payloads in order, and so what the receiver decodes is a prefix of them. As long
      as no lone END comes to the front, and so always if no payload is empty, the buffer follows the
      abstract machine step by step, so that all theorems about Run are theorems about it. */
  method Execute(start: int, delay: nat, steps: seq<Step>) returns (b: SlipBuffer, halted: bool)
    ensures b.Bounded()
    ensures !halted ==> b.Stream() == [END] + EncodeAll(Accepted(steps))
    ensures !halted ==> Decode(IDLE, b.wire).frames <= NonEmpty(Accepted(steps))
    ensures Smooth(start, delay, steps) ==> halted == Run(start, delay, steps).halted
    ensures Smooth(start, delay, steps) && !halted ==>
      && b.Represents() && b.queue == Run(start, delay, steps).queue
      && b.timer == Run(start, delay, steps).timer && b.wire == Run(start, delay, steps).queue.wire
  {
    hide Run, Escape, Encode, EncodeAll, Flatten, ScanFrom, Smooth, SmoothAt, Apply, Accepted, Decode, NonEmpty;
    b := new SlipBuffer(delay, start);
    halted := false;
    var clock := start;
    RunStart(start, delay);
    NothingAccepted(steps);
    for i := 0 to |steps|
      invariant fresh(b) && fresh(b.slipBuf) && b.sendDelay == delay
      invariant b.Bounded() && !halted
      invariant b.Stream() == [END] + EncodeAll(Accepted(steps[..i]))
      invariant Smooth(start, delay, steps[..i]) ==>
        b.Represents() && Agrees(b.queue, b.timer, clock, Run(start, delay, steps[..i]))
    {
      var s := steps[i];
      ghost var follows := Smooth(start, delay, steps[..i]);
      RunStep(start, delay, steps, i);
      SmoothStep(start, delay, steps, i);
      AcceptedStep(steps, i);
      ghost var l := if follows then Run(start, delay, steps[..i]) else Start(start);
      halted, clock := Perform(b, clock, s, l, follows);
      if halted {
        if Smooth(start, delay, steps) {
          SmoothPrefix(start, delay, steps, i + 1);
          RunHaltsForGood(start, delay, steps, i + 1);
        }
        return;
      }
    }
    assert steps[..|steps|] == steps;
    StreamDelivers(b.wire, b.Stream(), Accepted(steps));
  }

  lemma StreamDelivers(wire: seq<byte>, stream: seq<byte>, packets: seq<seq<byte>>)
    requires wire <= stream == [END] + EncodeAll(packets)
    ensures Decode(IDLE, wire).frames <= NonEmpty(packets)
  {
    DecodePrefix(wire, stream);
    DecodeConcat(IDLE, [END], EncodeAll(packets));
    assert [END][..0] == [];
    assert Decode(IDLE, [END]) == IDLE;
    HostRoundTrip(packets);
  }

  lemma NothingAccepted(steps: seq<Step>)
    ensures Accepted(steps[..0]) == [] && EncodeAll([]) == []
    ensures forall start: int, delay: nat :: Smooth(start, delay, steps[..0])
  {}

  lemma AcceptedStep(steps: seq<Step>, i: nat)
    requires i < |steps|
    ensures EncodeAll(Accepted(steps[..i + 1]))
         == EncodeAll(Accepted(steps[..i])) + if steps[i].Queued? then Encode(steps[i].p) else []
  {
    assert steps[..i + 1][..i] == steps[..i];
    var ps := Accepted(steps[..i]);
    if steps[i].Queued? {
      assert (ps + [steps[i].p])[..|ps|] == ps;
    } else {
      assert EncodeAll(ps) + [] == EncodeAll(ps);
    }
  }

  lemma SmoothStep(start: int, delay: nat, steps: seq<Step>, i: nat)
    requires i < |steps|
    ensures Smooth(start, delay, steps[..i + 1]) <==>
      Smooth(start, delay, steps[..i]) && SmoothAt(Run(start, delay, steps[..i]), delay, steps[i])
  {
    hide SmoothAt, Run;
    assert steps[..i + 1][..i] == steps[..i];
  }

  ghost predicate Agrees(queue: Queue, timer: Timer, clock: int, l: Link) {
    !l.halted && l.queue == queue && l.timer == timer && l.clock == clock
  }

  /** One step of the schedule on the buffer. */
  method Perform(b: SlipBuffer, clock: int, s: Step, ghost l: Link, ghost follows: bool)
    returns (halted: bool, now: int)
    requires b.Bounded() && OffsetOk(l.queue)
    requires follows ==> b.Represents() && Agrees(b.queue, b.timer, clock, l)
    modifies b, b.slipBuf
    ensures b.Bounded()
    ensures !halted ==> b.Stream() == old(b.Stream()) + if s.Queued? then Encode(s.p) else []
    ensures follows && SmoothAt(l, b.sendDelay, s) ==>
      && halted == Apply(l, b.sendDelay, s).halted
      && (!halted ==> b.Represents() && Agrees(b.queue, b.timer, now, Apply(l, b.sendDelay, s)))
  {
    hide Escape, Encode, EncodeAll, Flatten, ScanFrom;
    match s
    case Queued(p) =>
      now := clock;
      var ok := b.WriteToSlip(1, p);
      halted := !ok;
    case Round(idle, lag, result) =>
      var chunk;
      halted, now, chunk := GoRound(b, clock, idle, lag, result, l, follows);
      assert old(b.Stream()) + [] == old(b.Stream());
  }

  /** One round of the select loop on the buffer; the chunk is what `write` took. */
  method GoRound(b: SlipBuffer, clock: int, idle: nat, lag: nat, result: WriteResult,
                 ghost l: Link, ghost follows: bool)
    returns (halted: bool, now: int, chunk: seq<byte>)
    requires b.Bounded() && OffsetOk(l.queue)
    requires follows ==> b.Represents() && Agrees(b.queue, b.timer, clock, l)
    modifies b, b.slipBuf
    ensures b.Bounded() && b.Stream() == old(b.Stream()) && b.wire == old(b.wire) + chunk
    ensures var s := Round(idle, lag, result);
      follows && SmoothAt(l, b.sendDelay, s) ==>
        && halted == Apply(l, b.sendDelay, s).halted
        && (!halted ==> b.Represents() && Agrees(b.queue, b.timer, now, Apply(l, b.sendDelay, s)))
  {
    hide Escape, Encode, EncodeAll, Flatten, ScanFrom, Consistent, BringsLoneEnd;
    halted, chunk := false, [];
    now := clock + idle + lag;
    assert b.wire + chunk == b.wire;
    var want := b.SetFd(clock + idle);
    if want {
      var taken := match result
        case Took(n) => Took(Min(n, b.slipPacketEnd - b.slipBegin))
        case _ => result;
      if taken.Took? {
        chunk := b.slipBuf[..b.slipEnd][b.slipBegin..b.slipBegin + taken.n];
      }
      var ok := b.HandleWritable(taken, now);
      halted := !ok;
    }
  }

  lemma RunStart(start: int, delay: nat)
    ensures forall steps: seq<Step> :: Run(start, delay, steps[..0]) == Start(start)
  {
    forall steps: seq<Step>
      ensures Run(start, delay, steps[..0]) == Start(start)
    {
      assert steps[..0] == [];
    }
  }

  lemma {:induction false} RunStep(start: int, delay: nat, steps: seq<Step>, i: nat)
    requires i < |steps|
    ensures Run(start, delay, steps[..i + 1]) == Apply(Run(start, delay, steps[..i]), delay, steps[i])
  {
    assert steps[..i + 1][..i] == steps[..i];
  }

  lemma {:induction false} RunHaltsForGood(start: int, delay: nat, steps: seq<Step>, i: nat)
    requires i <= |steps| && Run(start, delay, steps[..i]).halted
    ensures Run(start, delay, steps).halted
    decreases |steps| - i
  {
    if i == |steps| {
      assert steps[..i] == steps;
    } else {
      RunStep(start, delay, steps, i);
      RunHaltsForGood(start, delay, steps, i + 1);
    }
  }
}
