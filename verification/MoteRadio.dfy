/** The mote's side of the session protocol: the `!S` command and the radio's completion callback. */
module MoteRadio {
  import opened SlipCodec
  import opened SessionRings
  import opened CommandLetters
  import opened Options

  /** A packet given to the radio together with a pointer to its slot in packet_ids. */
  datatype Transmission = Transmission(slot: nat, payload: seq<byte>)

  /** The payload that the radio gets: at most PACKETBUF_SIZE bytes. */
  function Cut(s: seq<byte>, size: nat): seq<byte> { if |s| > size then s[..size] else s }

  /** The report for one transmission. */
  function ReportFrame(sid: byte, status: byte, tx: byte): seq<byte> { [BANG, CHAR_R, sid, status, tx] }

  class Radio {
    const packetIds: array<byte>
    const packetbufSize: nat
    var packetPos: nat

    ghost predicate Valid()
      reads this, packetIds
    {
      packetIds.Length == SLOTS && packetPos < SLOTS
    }

    ghost function Ids(): Ring<byte>
      reads this, packetIds
    {
      Ring(packetPos, packetIds[..])
    }

    constructor (packetbufSize: nat)
      ensures Valid() && Ids() == Ring(0, seq(SLOTS, _ => 0)) && this.packetbufSize == packetbufSize
      ensures fresh(packetIds)
    {
      packetIds := new byte[SLOTS](_ => 0);
      this.packetbufSize := packetbufSize;
      packetPos := 0;
    }

    /** slip_radio_cmd_handler on a command of `len` bytes; the buffer holds more. `attsLen` is what
        packetutils_deserialize_atts returned: negative for malformed attributes, else how many of the
        bytes given to it they took. */
    method CmdHandler(data: seq<byte>, len: nat, attsLen: int) returns (handled: bool, sent: Option<Transmission>)
      requires Valid() && 3 <= |data| && len <= |data| && (attsLen < 0 || attsLen + 3 <= len)
      modifies this, packetIds
      ensures Valid()
      ensures handled <==> data[0] == 33 && data[1] == 83
      ensures !handled ==> sent.None? && Ids() == old(Ids())
      ensures handled ==> Ids() == Note(old(Ids()), data[2], attsLen >= 0)
      ensures handled ==> packetIds[..] == old(packetIds[..])[old(packetPos) := data[2]]
      ensures handled ==> packetPos == if attsLen >= 0 then (old(packetPos) + 1) % 16 else old(packetPos)
      ensures handled ==> (sent.Some? <==> attsLen >= 0)
      ensures sent.Some? ==> sent.value == Transmission(old(packetPos), Cut(data[3 + attsLen..len], packetbufSize))
      ensures sent.Some? ==> packetIds[sent.value.slot] == data[2]
      ensures sent.Some? ==>
        var end := if len - 3 - attsLen > packetbufSize then 3 + attsLen + packetbufSize else len;
        sent.value.payload == data[3 + attsLen..end]
    {
      if data[0] == BANG && data[1] == CHAR_S {
        packetIds[packetPos] := data[2];
        if attsLen < 0 {
          return true, None;
        }
        var pos := attsLen + 3;
        var n := len - pos;
        if n > packetbufSize {
          n := packetbufSize;
        }
        sent := Some(Transmission(packetPos, data[pos..pos + n]));
        packetPos := packetPos + 1;
        if packetPos >= SLOTS {
          packetPos := 0;
        }
        return true, sent;
      }
      return false, None;
    }

    /** packet_sent: the session id is read from the slot when the radio is done. */
    method PacketSent(slot: nat, status: int, transmissions: int) returns (report: seq<byte>)
      requires Valid() && slot < SLOTS
      ensures report == ReportFrame(packetIds[slot], Low8(status), Low8(transmissions))
      ensures |report| == 5 && report[0] == 33 && report[1] == 82 && report[2] == packetIds[slot]
      ensures report[3] as int == status % 256 && report[4] as int == transmissions % 256
    {
      var buf := new byte[20](_ => 0);
      var pos := 0;
      buf[pos] := BANG;
      pos := pos + 1;
      buf[pos] := CHAR_R;
      pos := pos + 1;
      buf[pos] := packetIds[slot];
      pos := pos + 1;
      buf[pos] := Low8(status);
      pos := pos + 1;
      buf[pos] := Low8(transmissions);
      pos := pos + 1;
      report := buf[..pos];
    }
  }
}
