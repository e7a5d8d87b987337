/** The two 16-slot rings that tie a transmission report back to the packet it is about: the
    host's ring of callbacks and the mote's ring of session ids. */
module SessionRings {
  import opened SlipCodec

  /** MAX_CALLBACKS on the host, the length of packet_ids on the mote. */
  const SLOTS: nat := 16

  datatype Ring<T> = Ring(pos: nat, slots: seq<T>)

  function Next(pos: nat): nat { if pos + 1 >= SLOTS then 0 else pos + 1 }

  /** setup_callback: the current slot is taken and the position moves on. */
  function Register<T>(r: Ring<T>, v: T): Ring<T>
    requires r.pos < |r.slots|
  {
    Ring(Next(r.pos), r.slots[r.pos := v])
  }

  /** The mote's `!S` branch: the current slot is overwritten in any case; only a well-formed packet
      moves the position on. */
  function Note(r: Ring<byte>, sid: byte, wellFormed: bool): Ring<byte>
    requires r.pos < |r.slots|
  {
    Ring(if wellFormed then Next(r.pos) else r.pos, r.slots[r.pos := sid])
  }

  /** The last of n registrations, numbered from 0, that went into slot i. */
  function Latest(n: nat, i: nat): (m: nat)
    requires i < SLOTS && i < n
    ensures m < n <= m + SLOTS && m % SLOTS == i
  {
    n - 1 - (n - 1 - i) % SLOTS
  }

  lemma LatestIsUnique(n: nat, i: nat, m: nat)
    requires i < SLOTS && i < n && m < n <= m + SLOTS && m % SLOTS == i
    ensures m == Latest(n, i)
  {}

  /** A ring that has seen exactly these registrations. */
  ghost predicate Holds<T>(r: Ring<T>, unset: T, regs: seq<T>) {
    && |r.slots| == SLOTS
    && r.pos == |regs| % SLOTS
    && forall i | 0 <= i < SLOTS ::
         r.slots[i] == if i < |regs| then regs[Latest(|regs|, i)] else unset
  }

  /** Every slot always holds the latest registration of its residue class. */
  lemma RegisterHolds<T>(r: Ring<T>, unset: T, regs: seq<T>, v: T)
    requires Holds(r, unset, regs)
    ensures Holds(Register(r, v), unset, regs + [v])
  {
    var n := |regs|;
    NextPosition(n);
    hide Latest;
    forall i | 0 <= i < SLOTS
      ensures Register(r, v).slots[i] == if i < n + 1 then (regs + [v])[Latest(n + 1, i)] else unset
    {
      LatestAfter(n, i);
    }
  }

  lemma NextPosition(n: nat)
    ensures Next(n % SLOTS) == (n + 1) % SLOTS
    ensures n % SLOTS < SLOTS && n % SLOTS <= n
  {}

  /** One registration later. */
  lemma LatestAfter(n: nat, i: nat)
    requires i < SLOTS
    ensures i == n % SLOTS ==> i < n + 1 && Latest(n + 1, i) == n
    ensures i != n % SLOTS ==> (i < n + 1 <==> i < n) && (i < n ==> Latest(n + 1, i) == Latest(n, i))
  {
    if i == n % SLOTS {
      LatestIsUnique(n + 1, i, n);
    } else if i < n {
      LatestIsUnique(n + 1, i, Latest(n, i));
    }
  }
}
