/** The transmit side of the host as an abstract machine: a queue of encoded frames drained by
    partial writes, and the timer that separates frames. Theorems about whole runs live here;
    the class in SlipQueue.dfy refines this machine. */
module TransmitLink {
  import opened SlipCodec

  /** Size of slip_buf. */
  const CAPACITY: nat := 2048

  function Flatten(fs: seq<seq<byte>>): seq<byte> {
    if fs == [] then [] else Flatten(fs[..|fs| - 1]) + fs[|fs| - 1]
  }

  lemma {:induction false} FlattenCons(fs: seq<seq<byte>>)
    requires fs != []
    ensures Flatten(fs) == fs[0] + Flatten(fs[1..])
  {
    if |fs| == 1 {
      assert fs[..0] == [] && fs[1..] == [];
    } else {
      FlattenCons(fs[..|fs| - 1]);
      assert fs[..|fs| - 1][1..] == fs[1..][..|fs[1..]| - 1];
    }
  }

  lemma FlattenSnoc(fs: seq<seq<byte>>, f: seq<byte>)
    ensures Flatten(fs + [f]) == Flatten(fs) + f
  {
    assert (fs + [f])[..|fs|] == fs;
  }

  // ---------------------------------------------------------------- the queue

  /** frames: encoded frames not yet completely written, oldest first; offset: how much of
      frames[0] has been written; done: number of frames completely written; packets: every
      payload accepted so far; wire: every byte written so far. */
  datatype Queue = Queue(
    frames: seq<seq<byte>>, offset: nat, done: nat, packets: seq<seq<byte>>, wire: seq<byte>)

  /** The single END that slip_init queues. */
  const BOOT: Queue := Queue([[END]], 0, 0, [], [])

  predicate Fits(q: Queue, p: seq<byte>) {
    |Flatten(q.frames)| + |Encode(p)| <= CAPACITY
  }

  function Push(q: Queue, p: seq<byte>): Queue {
    q.(frames := q.frames + [Encode(p)], packets := q.packets + [p])
  }

  ghost predicate Drainable(q: Queue, n: nat) {
    q.frames != [] && q.offset + n <= |q.frames[0]|
  }

  predicate Completes(q: Queue, n: nat)
    requires q.frames != []
  {
    q.offset + n == |q.frames[0]|
  }

  /** n more bytes of the oldest frame have been written. */
  function Drain(q: Queue, n: nat): Queue
    requires Drainable(q, n)
  {
    var wire := q.wire + q.frames[0][q.offset..q.offset + n];
    if Completes(q, n) then Queue(q.frames[1..], 0, q.done + 1, q.packets, wire)
    else Queue(q.frames, q.offset + n, q.done, q.packets, wire)
  }

  function FrameAt(packets: seq<seq<byte>>, k: nat): seq<byte>
    requires k <= |packets|
  {
    if k == 0 then [END] else Encode(packets[k - 1])
  }

  /** Everything that was ever queued, as bytes. */
  function Stream(packets: seq<seq<byte>>): seq<byte> { [END] + EncodeAll(packets) }

  function Pending(q: Queue): seq<byte>
    requires q.offset <= |Flatten(q.frames)|
  {
    Flatten(q.frames)[q.offset..]
  }

  ghost predicate HeadOk(q: Queue) {
    if q.frames == [] then q.offset == 0 else q.offset < |q.frames[0]|
  }

  /** The part of it that makes every step possible. */
  predicate OffsetOk(q: Queue) {
    if q.frames == [] then q.offset == 0 else q.offset <= |q.frames[0]|
  }

  ghost predicate FramesOk(q: Queue) {
    && q.done + |q.frames| == |q.packets| + 1
    && forall i | 0 <= i < |q.frames| :: q.frames[i] == FrameAt(q.packets, q.done + i)
  }

  /** Nothing is lost, repeated or reordered: written bytes followed by pending ones are the
      bootstrap END and the encodings of all accepted payloads, in order. */
  ghost predicate Conserves(q: Queue) {
    q.offset <= |Flatten(q.frames)| && q.wire + Pending(q) == Stream(q.packets)
  }

  ghost predicate Consistent(q: Queue) { HeadOk(q) && FramesOk(q) && Conserves(q) }

  lemma BootConsistent()
    ensures Consistent(BOOT)
  {
    FlattenSnoc([], [END]);
    assert [] + [[END]] == [[END]];
  }

  lemma FrameAtIsFrame(packets: seq<seq<byte>>, k: nat)
    requires k <= |packets|
    ensures IsFrame(FrameAt(packets, k))
  {
    if k > 0 {
      EncodeIsFrame(packets[k - 1]);
    }
  }

  lemma PushConserves(q: Queue, p: seq<byte>)
    requires Conserves(q)
    ensures Conserves(Push(q, p))
  {
    hide Escape, Flatten;
    FlattenSnoc(q.frames, Encode(p));
    assert (q.packets + [p])[..|q.packets|] == q.packets;
    assert (Flatten(q.frames) + Encode(p))[q.offset..] == Pending(q) + Encode(p);
    assert q.wire + (Pending(q) + Encode(p)) == (q.wire + Pending(q)) + Encode(p);
  }

  lemma PushFrames(q: Queue, p: seq<byte>)
    requires HeadOk(q) && FramesOk(q)
    ensures HeadOk(Push(q, p)) && FramesOk(Push(q, p))
  {
    hide Escape, EncodeAll, Flatten;
    var e := Encode(p);
    EncodeIsFrame(p);
    forall i | 0 <= i <= |q.frames|
      ensures (q.frames + [e])[i] == FrameAt(q.packets + [p], q.done + i)
    {
      if i < |q.frames| {
        assert q.frames[i] == FrameAt(q.packets, q.done + i);
      }
    }
  }

  lemma DrainConserves(q: Queue, n: nat)
    requires Conserves(q) && Drainable(q, n)
    ensures Conserves(Drain(q, n))
  {
    hide Escape, EncodeAll, Flatten;
    FlattenCons(q.frames);
    var head, rest := q.frames[0], Flatten(q.frames[1..]);
    var o := q.offset;
    assert head == head[..o] + head[o..o + n] + head[o + n..];
    assert (head + rest)[o..] == head[o..o + n] + (head + rest)[o + n..];
    if Completes(q, n) {
      assert (head + rest)[o + n..] == rest == rest[0..];
    }
  }

  lemma DrainFrames(q: Queue, n: nat)
    requires HeadOk(q) && FramesOk(q) && Drainable(q, n)
    ensures HeadOk(Drain(q, n)) && FramesOk(Drain(q, n))
  {
    hide Escape, EncodeAll, Flatten;
    if Completes(q, n) {
      var r := Drain(q, n);
      forall i | 0 <= i < |r.frames|
        ensures r.frames[i] == FrameAt(r.packets, r.done + i)
      {
        assert r.frames[i] == q.frames[i + 1];
      }
      if r.frames != [] {
        FrameAtIsFrame(r.packets, r.done);
        assert r.frames[0] == FrameAt(r.packets, r.done + 0);
      }
    }
  }

  /** End to end: what the receiver decodes from the bytes written so far is a prefix of the
      packets sent, and all of them once the queue is drained. */
  lemma DecodedFromWire(q: Queue)
    requires Consistent(q)
    ensures Decode(IDLE, q.wire).frames <= NonEmpty(q.packets)
    ensures q.frames == [] ==> Decode(IDLE, q.wire) == Decoder([], false, NonEmpty(q.packets))
  {
    var s := Stream(q.packets);
    DecodeConcat(IDLE, [END], EncodeAll(q.packets));
    assert [END][..0] == [];
    assert Decode(IDLE, [END]) == IDLE;
    HostRoundTrip(q.packets);
    assert q.wire <= s;
    DecodePrefix(q.wire, s);
    if q.frames == [] {
      assert Pending(q) == [];
      assert q.wire == s;
    }
  }

  // ---------------------------------------------------------------- time

  /** One successful `write`: when, to which frame (the bootstrap END is frame 0), from which
      offset, and whether it finished that frame while another one waited. */
  datatype Write = Write(time: int, frame: nat, start: nat, bytes: seq<byte>, finishedWithBacklog: bool)

  /** send_delay_timer. */
  datatype Timer = Timer(start: int, interval: int)

  /** halted: the program ended through err(1). */
  datatype Link = Link(queue: Queue, timer: Timer, clock: int, log: seq<Write>, halted: bool)

  predicate Expired(t: Timer, now: int) { now - t.start >= t.interval }

  /** slip_init: the timer is set to expire at once. */
  function Start(now: int): Link { Link(BOOT, Timer(now, 0), now, [], false) }

  /** write_to_serial: the frame is appended, or the buffer overflows and the program ends. */
  function Enqueue(l: Link, p: seq<byte>): Link {
    if Fits(l.queue, p) then l.(queue := Push(l.queue, p)) else l.(halted := true)
  }

  /** set_fd: does the program ask `select` for permission to write? */
  predicate MayWrite(l: Link, delay: nat, now: int) {
    l.queue.frames != [] && (delay == 0 || Expired(l.timer, now))
  }

  function Record(q: Queue, now: int, n: nat): Write
    requires Drainable(q, n)
  {
    Write(now, q.done, q.offset, q.frames[0][q.offset..q.offset + n], Completes(q, n) && |q.frames| > 1)
  }

  /** slip_flushbuf after `write` took n bytes. */
  function WriteOut(l: Link, delay: nat, now: int, n: nat): Link
    requires Drainable(l.queue, n)
  {
    var w := Record(l.queue, now, n);
    Link(Drain(l.queue, n), if w.finishedWithBacklog && delay > 0 then Timer(now, delay) else l.timer,
         now, l.log + [w], l.halted)
  }

  /** What `write` returned: EAGAIN, another error, or the number of bytes taken. */
  datatype WriteResult = Retry | Failed | Took(n: nat)

  /** What can happen: a payload is queued, or the select loop goes round once. A round consults
      set_fd after `idle` ticks and, if that asked for it, calls `write` `lag` ticks later; of the
      bytes offered `write` takes at most the number given. */
  datatype Step = Queued(p: seq<byte>) | Round(idle: nat, lag: nat, result: WriteResult)

  function Min(a: nat, b: nat): nat { if a < b then a else b }

  function Apply(l: Link, delay: nat, s: Step): (m: Link)
    requires OffsetOk(l.queue)
    ensures OffsetOk(m.queue)
  {
    if l.halted then l else
    match s
    case Queued(p) => Enqueue(l, p)
    case Round(idle, lag, result) =>
      var now := l.clock + idle + lag;
      if !MayWrite(l, delay, l.clock + idle) || result.Retry? then l.(clock := now)
      else if result.Failed? then l.(halted := true)
      else WriteOut(l, delay, now, Min(result.n, |l.queue.frames[0]| - l.queue.offset))
  }

  predicate Writes(l: Link, delay: nat, s: Step) {
    !l.halted && s.Round? && s.result.Took? && MayWrite(l, delay, l.clock + s.idle)
  }

  function Run(start: int, delay: nat, steps: seq<Step>): (l: Link)
    ensures OffsetOk(l.queue)
  {
    if steps == [] then Start(start)
    else Apply(Run(start, delay, steps[..|steps| - 1]), delay, steps[|steps| - 1])
  }

  lemma ApplyConsistent(l: Link, delay: nat, s: Step)
    requires Consistent(l.queue)
    ensures Consistent(Apply(l, delay, s).queue)
  {
    hide Escape, EncodeAll, Flatten;
    if s.Queued? {
      PushConserves(l.queue, s.p);
      PushFrames(l.queue, s.p);
    } else if Writes(l, delay, s) {
      var n := Min(s.result.n, |l.queue.frames[0]| - l.queue.offset);
      DrainConserves(l.queue, n);
      DrainFrames(l.queue, n);
    }
  }

  lemma {:induction false} RunConsistent(start: int, delay: nat, steps: seq<Step>)
    ensures Consistent(Run(start, delay, steps).queue)
  {
    if steps == [] {
      BootConsistent();
    } else {
      RunConsistent(start, delay, steps[..|steps| - 1]);
      ApplyConsistent(Run(start, delay, steps[..|steps| - 1]), delay, steps[|steps| - 1]);
    }
  }

  // ---------------------------------------------------------------- what writes contain

  function Replay(log: seq<Write>): seq<byte> {
    if log == [] then [] else Replay(log[..|log| - 1]) + log[|log| - 1].bytes
  }

  ghost predicate WithinFrame(packets: seq<seq<byte>>, w: Write) {
    && w.frame <= |packets|
    && w.start + |w.bytes| <= |FrameAt(packets, w.frame)|
    && w.bytes == FrameAt(packets, w.frame)[w.start..w.start + |w.bytes|]
  }

  lemma WithinFrameMore(packets: seq<seq<byte>>, p: seq<byte>, w: Write)
    requires WithinFrame(packets, w)
    ensures WithinFrame(packets + [p], w)
  {
    assert FrameAt(packets + [p], w.frame) == FrameAt(packets, w.frame);
  }

  lemma RecordWithin(q: Queue, now: int, n: nat)
    requires HeadOk(q) && FramesOk(q) && Drainable(q, n)
    ensures WithinFrame(q.packets, Record(q, now, n))
  {
    assert q.frames[0] == FrameAt(q.packets, q.done + 0);
  }

  ghost predicate AllWithin(packets: seq<seq<byte>>, log: seq<Write>) {
    forall w | w in log :: WithinFrame(packets, w)
  }

  ghost predicate LogOk(l: Link) {
    Replay(l.log) == l.queue.wire && AllWithin(l.queue.packets, l.log)
  }

  lemma WriteOutLogOk(l: Link, delay: nat, now: int, n: nat)
    requires HeadOk(l.queue) && FramesOk(l.queue) && Drainable(l.queue, n) && LogOk(l)
    ensures LogOk(WriteOut(l, delay, now, n))
  {
    hide Escape, EncodeAll, Flatten;
    var w := Record(l.queue, now, n);
    assert (l.log + [w])[..|l.log|] == l.log;
    assert forall v | v in l.log + [w] :: v in l.log || v == w;
    RecordWithin(l.queue, now, n);
  }

  lemma EnqueueLogOk(l: Link, p: seq<byte>)
    requires LogOk(l)
    ensures LogOk(Enqueue(l, p))
  {
    hide Escape, EncodeAll, Flatten;
    forall w | w in l.log
      ensures WithinFrame(l.queue.packets + [p], w)
    {
      WithinFrameMore(l.queue.packets, p, w);
    }
  }

  lemma ApplyLogOk(l: Link, delay: nat, s: Step)
    requires Consistent(l.queue) && LogOk(l)
    ensures LogOk(Apply(l, delay, s))
  {
    hide Escape, Encode, EncodeAll, Flatten, LogOk, FrameAt, Fits;
    var m := Apply(l, delay, s);
    if s.Queued? && !l.halted {
      EnqueueLogOk(l, s.p);
    } else if Writes(l, delay, s) {
      WriteOutLogOk(l, delay, l.clock + s.idle + s.lag, Min(s.result.n, |l.queue.frames[0]| - l.queue.offset));
    } else {
      SameLogOk(l, m);
    }
  }

  lemma SameLogOk(l: Link, m: Link)
    requires LogOk(l) && m.log == l.log && m.queue == l.queue
    ensures LogOk(m)
  {}

  /** Over every run no single write spans two frames, and the writes replay the wire. */
  lemma {:induction false} WritesStayWithinFrames(start: int, delay: nat, steps: seq<Step>)
    ensures LogOk(Run(start, delay, steps))
  {
    if steps != [] {
      WritesStayWithinFrames(start, delay, steps[..|steps| - 1]);
      RunConsistent(start, delay, steps[..|steps| - 1]);
      ApplyLogOk(Run(start, delay, steps[..|steps| - 1]), delay, steps[|steps| - 1]);
    }
  }

  // ---------------------------------------------------------------- pacing

  /** Every write to the frame after w's comes at least `delay` ticks after w. */
  ghost predicate Separated(log: seq<Write>, w: Write, delay: nat) {
    forall v | v in log && v.frame == w.frame + 1 :: v.time >= w.time + delay
  }

  /** w finished its frame with another one queued: the following frame has been kept apart, and
      as long as it is the current one the timer that was started at w is still set. */
  ghost predicate Apart(l: Link, w: Write, delay: nat) {
    && w.frame < l.queue.done
    && (w.frame + 1 == l.queue.done ==> l.timer == Timer(w.time, delay))
    && Separated(l.log, w, delay)
  }

  ghost predicate Paced(l: Link, delay: nat) {
    && (forall v | v in l.log :: v.frame <= l.queue.done)
    && forall w | w in l.log && w.finishedWithBacklog :: Apart(l, w, delay)
  }

  lemma WriteOutPaced(l: Link, delay: nat, checked: int, now: int, n: nat)
    requires delay > 0 && Drainable(l.queue, n) && Paced(l, delay)
    requires checked <= now && MayWrite(l, delay, checked)
    ensures Paced(WriteOut(l, delay, now, n), delay)
  {
    hide Escape, EncodeAll, Flatten;
    var m := WriteOut(l, delay, now, n);
    var u := Record(l.queue, now, n);
    assert forall v | v in m.log :: v in l.log || v == u;
    forall w | w in m.log && w.finishedWithBacklog
      ensures Apart(m, w, delay)
    {
      if w in l.log {
        assert Apart(l, w, delay);
      }
    }
  }

  lemma ApplyPaced(l: Link, delay: nat, s: Step)
    requires delay > 0 && OffsetOk(l.queue) && Paced(l, delay)
    ensures Paced(Apply(l, delay, s), delay)
  {
    hide Escape, EncodeAll, Flatten;
    var m := Apply(l, delay, s);
    if Writes(l, delay, s) {
      WriteOutPaced(l, delay, l.clock + s.idle, l.clock + s.idle + s.lag,
                    Min(s.result.n, |l.queue.frames[0]| - l.queue.offset));
    } else {
      assert m.log == l.log && m.timer == l.timer && m.queue.done == l.queue.done;
      forall w | w in m.log && w.finishedWithBacklog
        ensures Apart(m, w, delay)
      {
        assert Apart(l, w, delay);
      }
    }
  }

  lemma {:induction false} RunPaced(start: int, delay: nat, steps: seq<Step>)
    requires delay > 0
    ensures Paced(Run(start, delay, steps), delay)
  {
    if steps != [] {
      RunPaced(start, delay, steps[..|steps| - 1]);
      ApplyPaced(Run(start, delay, steps[..|steps| - 1]), delay, steps[|steps| - 1]);
    }
  }

  /** Over every run with a send delay: when a frame is finished while another one is queued,
      no byte of that next frame is written before the delay has passed. */
  lemma {:induction false} FrameBoundaryPacing(start: int, delay: nat, steps: seq<Step>)
    requires delay > 0
    ensures var log := Run(start, delay, steps).log;
      forall w, v | w in log && v in log && w.finishedWithBacklog && v.frame == w.frame + 1 ::
        v.time >= w.time + delay
  {
    RunPaced(start, delay, steps);
    hide Run;
    var l := Run(start, delay, steps);
    assert forall w | w in l.log && w.finishedWithBacklog :: Apart(l, w, delay);
  }

  lemma {:induction false} RunConcat(start: int, delay: nat, steps: seq<Step>, more: seq<Step>)
    requires more != []
    ensures Run(start, delay, steps + more)
         == Apply(Run(start, delay, steps + more[..|more| - 1]), delay, more[|more| - 1])
  {
    assert (steps + more)[..|steps + more| - 1] == steps + more[..|more| - 1];
  }

  lemma {:induction false} LogGrows(start: int, delay: nat, steps: seq<Step>, more: seq<Step>)
    ensures Run(start, delay, steps).log <= Run(start, delay, steps + more).log
  {
    if more == [] {
      assert steps + more == steps;
    } else {
      LogGrows(start, delay, steps, more[..|more| - 1]);
      RunConcat(start, delay, steps, more);
      hide Run, Flatten, Encode;
    }
  }

  /** The last step of the schedule finished a frame. */
  ghost predicate JustFinished(start: int, delay: nat, steps: seq<Step>) {
    && steps != []
    && Writes(Run(start, delay, steps[..|steps| - 1]), delay, steps[|steps| - 1])
    && Run(start, delay, steps).queue.done == Run(start, delay, steps[..|steps| - 1]).queue.done + 1
  }

  /** Whatever happens next, no byte of the next frame is written before the delay has passed. */
  ghost predicate GapFollows(start: int, delay: nat, steps: seq<Step>, w: Write) {
    forall more: seq<Step>, v | v in Run(start, delay, steps + more).log && v.frame == w.frame + 1 ::
      v.time >= w.time + delay
  }

  ghost predicate Finished(l: Link) {
    && l.log != [] && !l.halted
    && var w := l.log[|l.log| - 1];
       && l.clock == w.time && l.queue.done == w.frame + 1 && l.queue.offset == 0
       && (!w.finishedWithBacklog ==> l.queue.frames == [] && Expired(l.timer, l.clock))
  }

  lemma FinishedOut(l: Link, delay: nat, checked: int, now: int, n: nat)
    requires !l.halted && Drainable(l.queue, n) && MayWrite(l, delay, checked) && checked <= now && delay > 0
    requires Drain(l.queue, n).done == l.queue.done + 1
    ensures Finished(WriteOut(l, delay, now, n))
  {
    hide Flatten, Encode;
    assert Completes(l.queue, n);
  }

  lemma FinishedStep(l: Link, delay: nat, s: Step)
    requires OffsetOk(l.queue) && Writes(l, delay, s) && delay > 0
    requires Apply(l, delay, s).queue.done == l.queue.done + 1
    ensures Finished(Apply(l, delay, s))
  {
    hide Flatten, Encode, Finished, Drain, Record;
    FinishedOut(l, delay, l.clock + s.idle, l.clock + s.idle + s.lag,
                Min(s.result.n, |l.queue.frames[0]| - l.queue.offset));
  }

  /** Right after the last queued frame is finished a new one goes out at once. */
  lemma NextGoesOut(l: Link, delay: nat)
    requires !l.halted && l.queue.frames == [] && l.queue.offset == 0 && Expired(l.timer, l.clock)
    ensures var a := Apply(l, delay, Queued([0]));
      var b := Apply(a, delay, Round(0, 0, Took(1)));
      && b.log != [] && b.log[|b.log| - 1].frame == l.queue.done && b.log[|b.log| - 1].time == l.clock
  {
    var p: seq<byte> := [0];
    assert p[..0] == [] && Escape(p) == [] + [0];
    assert |Encode(p)| == 2;
    assert (l.queue.frames + [Encode(p)])[0] == Encode(p);
  }

  /** The gap behind a frame is guaranteed exactly when another frame was already queued as it was
      finished: a frame queued a moment later follows it without any delay. */
  lemma GapExactlyWithBacklog(start: int, delay: nat, steps: seq<Step>)
    requires delay > 0 && JustFinished(start, delay, steps)
    ensures Run(start, delay, steps).log != []
    ensures var w := Run(start, delay, steps).log[|Run(start, delay, steps).log| - 1];
      GapFollows(start, delay, steps, w) <==> w.finishedWithBacklog
  {
    FinishedStep(Run(start, delay, steps[..|steps| - 1]), delay, steps[|steps| - 1]);
    hide Run, JustFinished, Apply, Expired, Writes;
    var l := Run(start, delay, steps);
    var w := l.log[|l.log| - 1];
    if w.finishedWithBacklog {
      forall more: seq<Step>, v | v in Run(start, delay, steps + more).log && v.frame == w.frame + 1
        ensures v.time >= w.time + delay
      {
        KeptApart(start, delay, steps, more, w, v);
      }
    } else {
      OneMore(start, delay, steps);
    }
  }

  lemma KeptApart(start: int, delay: nat, steps: seq<Step>, more: seq<Step>, w: Write, v: Write)
    requires delay > 0 && w in Run(start, delay, steps).log && w.finishedWithBacklog
    requires v in Run(start, delay, steps + more).log && v.frame == w.frame + 1
    ensures v.time >= w.time + delay
  {
    hide Run;
    LogGrows(start, delay, steps, more);
    assert w in Run(start, delay, steps + more).log;
    FrameBoundaryPacing(start, delay, steps + more);
  }

  lemma OneMore(start: int, delay: nat, steps: seq<Step>)
    requires var l := Run(start, delay, steps);
      !l.halted && l.queue.frames == [] && l.queue.offset == 0 && Expired(l.timer, l.clock)
    ensures var log := Run(start, delay, steps + [Queued([0]), Round(0, 0, Took(1))]).log;
      var l := Run(start, delay, steps);
      && log != [] && log[|log| - 1] in log
      && log[|log| - 1].frame == l.queue.done && log[|log| - 1].time == l.clock
  {
    hide Run, Apply, Expired;
    NextGoesOut(Run(start, delay, steps), delay);
    var one, two := [Queued([0])], [Queued([0]), Round(0, 0, Took(1))];
    RunConcat(start, delay, steps, one);
    assert steps + one[..0] == steps && two[..1] == one;
    RunConcat(start, delay, steps, two);
  }

  // ---------------------------------------------------------------- progress

  /** Nothing but the delay stands between the queue and the wire. */
  ghost predicate Underway(l: Link, delay: nat) {
    Consistent(l.queue) && !l.halted && l.timer.start <= l.clock && l.timer.interval <= delay
  }

  lemma ApplyUnderway(l: Link, delay: nat, s: Step)
    requires Underway(l, delay) && !Apply(l, delay, s).halted
    ensures Underway(Apply(l, delay, s), delay)
  {
    ApplyConsistent(l, delay, s);
    hide Consistent, Flatten, Encode, Fits, Drain, Record;
  }

  lemma {:induction false} RunUnderway(start: int, delay: nat, steps: seq<Step>)
    ensures !Run(start, delay, steps).halted ==> Underway(Run(start, delay, steps), delay)
  {
    if steps == [] {
      BootConsistent();
    } else if !Run(start, delay, steps).halted {
      RunUnderway(start, delay, steps[..|steps| - 1]);
      hide Underway;
      ApplyUnderway(Run(start, delay, steps[..|steps| - 1]), delay, steps[|steps| - 1]);
    }
  }

  /** A round of the loop that comes after the delay and whose `write`, if there is one, takes a byte. */
  predicate Taking(s: Step, delay: nat) { s.Round? && s.idle >= delay && s.result.Took? && s.result.n >= 1 }

  lemma PendingSize(q: Queue)
    requires Consistent(q)
    ensures |Pending(q)| == 0 <==> q.frames == []
    ensures q.frames != [] ==> q.offset < |q.frames[0]|
  {
    hide Encode, EncodeAll, Flatten;
    if q.frames == [] {
      assert Flatten(q.frames) == [] by { NoFrames(); }
    } else {
      FlattenCons(q.frames);
    }
  }

  lemma NoFrames()
    ensures Flatten([]) == []
  {}

  lemma RoundTakes(l: Link, delay: nat, s: Step)
    requires Underway(l, delay) && Taking(s, delay)
    ensures var m := Apply(l, delay, s);
      && Underway(m, delay) && m.queue.packets == l.queue.packets
      && (l.queue.frames == [] ==> m.queue == l.queue)
      && (l.queue.frames != [] ==> |Pending(m.queue)| < |Pending(l.queue)|)
  {
    ApplyConsistent(l, delay, s);
    PendingSize(l.queue);
    if l.queue.frames != [] {
      var n := Min(s.result.n, |l.queue.frames[0]| - l.queue.offset);
      DrainedSize(l.queue, n);
      hide Consistent, Flatten, Encode, Pending;
    }
  }

  lemma DrainedSize(q: Queue, n: nat)
    requires Consistent(q) && Drainable(q, n) && Consistent(Drain(q, n))
    ensures |Pending(Drain(q, n))| == |Pending(q)| - n
  {
    hide Encode, EncodeAll, Flatten;
    FlattenCons(q.frames);
  }

  /** Progress: from any state of any run, as many such rounds as bytes are waiting empty the queue, and
      the receiver then has every packet accepted. */
  lemma {:induction false} RoundsEmpty(start: int, delay: nat, steps: seq<Step>, more: seq<Step>)
    requires !Run(start, delay, steps).halted && forall s | s in more :: Taking(s, delay)
    ensures Consistent(Run(start, delay, steps).queue) && Consistent(Run(start, delay, steps + more).queue)
    ensures !Run(start, delay, steps + more).halted
    ensures Run(start, delay, steps + more).queue.packets == Run(start, delay, steps).queue.packets
    ensures |Pending(Run(start, delay, steps + more).queue)| + |more| <= |Pending(Run(start, delay, steps).queue)|
      || Run(start, delay, steps + more).queue.frames == []
  {
    RunUnderway(start, delay, steps);
    if more == [] {
      assert steps + more == steps;
    } else {
      var init, s := more[..|more| - 1], more[|more| - 1];
      assert s in more && forall x | x in init :: x in more;
      RoundsEmpty(start, delay, steps, init);
      RunConcat(start, delay, steps, more);
      RunUnderway(start, delay, steps + init);
      hide Run, Consistent, Pending, Apply, Taking;
      RoundTakes(Run(start, delay, steps + init), delay, s);
    }
  }

  lemma EnoughRoundsDeliver(start: int, delay: nat, steps: seq<Step>, more: seq<Step>)
    requires !Run(start, delay, steps).halted && forall s | s in more :: Taking(s, delay)
    requires |Flatten(Run(start, delay, steps).queue.frames)| <= |more|
    ensures var q := Run(start, delay, steps + more).queue;
      && q.frames == [] && q.packets == Run(start, delay, steps).queue.packets
      && Decode(IDLE, q.wire).frames == NonEmpty(q.packets)
  {
    hide Run, Decode, Taking, Flatten, NonEmpty;
    RoundsEmpty(start, delay, steps, more);
    PendingSize(Run(start, delay, steps + more).queue);
    DecodedFromWire(Run(start, delay, steps + more).queue);
  }

  /** Over every run: conservation of bytes, and delivery of whole packets in order. */
  lemma {:induction false} RunDelivers(start: int, delay: nat, steps: seq<Step>)
    ensures var q := Run(start, delay, steps).queue;
      && q.offset <= |Flatten(q.frames)|
      && q.wire + Pending(q) == [END] + EncodeAll(q.packets)
      && Decode(IDLE, q.wire).frames <= NonEmpty(q.packets)
      && (q.frames == [] ==> Decode(IDLE, q.wire).frames == NonEmpty(q.packets))
  {
    RunConsistent(start, delay, steps);
    DecodedFromWire(Run(start, delay, steps).queue);
  }

  function Accepted(steps: seq<Step>): seq<seq<byte>> {
    if steps == [] then []
    else if steps[|steps| - 1].Queued? then Accepted(steps[..|steps| - 1]) + [steps[|steps| - 1].p]
    else Accepted(steps[..|steps| - 1])
  }

  lemma ApplyAccepts(l: Link, delay: nat, s: Step)
    requires OffsetOk(l.queue) && !Apply(l, delay, s).halted
    ensures !l.halted
    ensures Apply(l, delay, s).queue.packets == l.queue.packets + (if s.Queued? then [s.p] else [])
  {
    assert l.queue.packets + [] == l.queue.packets;
  }

  /** The payloads that conservation speaks of are those of the schedule itself, as long as the
      program has not ended. */
  lemma {:induction false} RunAcceptsAll(start: int, delay: nat, steps: seq<Step>)
    ensures !Run(start, delay, steps).halted ==> Run(start, delay, steps).queue.packets == Accepted(steps)
  {
    if steps != [] {
      var l := Run(start, delay, steps[..|steps| - 1]);
      RunAcceptsAll(start, delay, steps[..|steps| - 1]);
      if !Run(start, delay, steps).halted {
        ApplyAccepts(l, delay, steps[|steps| - 1]);
      }
    }
  }
}
