/** The host's RDC driver: it registers a callback per packet, sends the packet to the mote over
    SLIP and calls the callback back when the mote's report arrives. */
module BridgeRdc {
  import opened SlipCodec
  import opened SessionRings
  import opened CommandLetters
  import opened Options
  import TransmitLink
  import SlipQueue

  /** struct tx_callback; `attrs` stands for the saved packet attributes and addresses. */
  datatype TxCallback = Unset | TxCallback(cback: int, ptr: int, attrs: seq<byte>)

  /** mac_call_sent_callback, and the attributes in force while it runs. */
  datatype SentCall = SentCall(callback: TxCallback, status: byte, tx: byte)

  /** What one send_packet came to: an immediate callback with MAC_TX_ERR_FATAL and one transmission;
      a registration under a session id; or a registration followed by the overflow of the transmit
      buffer, which ends the program. */
  datatype SendResult = FatalCallback(cback: int, ptr: int) | Registered(sid: byte) | Overflow(sid: byte)

  /** The frame that carries a packet to the mote. */
  function SessionFrame(sid: byte, atts: seq<byte>, payload: seq<byte>): seq<byte> {
    [BANG, CHAR_S, sid] + atts + payload
  }

  class Rdc {
    const callbacks: array<TxCallback>
    const slip: SlipQueue.SlipBuffer
    /** sizeof(buf) in send_packet; depends on the packet buffer configuration. */
    const bufSize: nat
    var callbackPos: nat
    /** Every registration since the start, oldest first. */
    ghost var registered: seq<TxCallback>

    ghost predicate Valid()
      reads this, callbacks
    {
      && callbacks.Length == SLOTS
      && bufSize >= 3
      && Holds(Ring(callbackPos, callbacks[..]), Unset, registered)
    }

    ghost predicate LinkValid()
      reads slip, slip.slipBuf
    {
      slip.Bounded() && slip.Represents()
    }

    constructor (slip: SlipQueue.SlipBuffer, bufSize: nat)
      requires bufSize >= 3
      ensures Valid() && registered == [] && this.slip == slip && fresh(callbacks) && this.bufSize == bufSize
    {
      callbacks := new TxCallback[SLOTS](_ => Unset);
      this.slip, this.bufSize := slip, bufSize;
      callbackPos, registered := 0, [];
    }

    method SetupCallback(callback: TxCallback) returns (sid: nat)
      requires Valid()
      modifies this, callbacks
      ensures Valid() && registered == old(registered) + [callback]
      ensures sid == |old(registered)| % 16
    {
      RegisterHolds(Ring(callbackPos, callbacks[..]), Unset, registered, callback);
      sid := callbackPos;
      callbacks[callbackPos] := callback;
      callbackPos := callbackPos + 1;
      if callbackPos >= SLOTS {
        callbackPos := 0;
      }
      registered := registered + [callback];
      assert callbacks[..] == old(callbacks[..])[old(callbackPos) := callback];
    }

    /** send_packet. `framed`: the framer found room for its header; `atts`: the serialised packet
        attributes, or None if serialisation failed; `attrs`: the attributes saved for the callback. */
    method SendPacket(cback: int, ptr: int, attrs: seq<byte>, framed: bool, atts: Option<seq<byte>>,
                      payload: seq<byte>, slipfd: int) returns (result: SendResult)
      requires Valid() && LinkValid()
      requires atts.Some? ==> |atts.value| <= bufSize - 3
      requires slip.slipBuf as object != callbacks && slip as object != this
      modifies this, callbacks, slip, slip.slipBuf
      ensures Valid()
      ensures result.FatalCallback? <==> !framed || atts.None? || |atts.value| + |payload| + 3 > bufSize
      ensures result.FatalCallback? ==>
        result == FatalCallback(cback, ptr) && unchanged(this, callbacks, slip, slip.slipBuf) && LinkValid()
      ensures !result.FatalCallback? ==>
        && registered == old(registered) + [TxCallback(cback, ptr, attrs)]
        && result.sid as nat == |old(registered)| % SLOTS
        && (result.Overflow? <==>
            slipfd > 0 && !TransmitLink.Fits(old(slip.queue), SessionFrame(result.sid, atts.value, payload)))
      ensures result.Registered? ==> LinkValid() && slip.timer == old(slip.timer)
      ensures result.Registered? ==>
        slip.queue == if slipfd > 0
                      then TransmitLink.Push(old(slip.queue), SessionFrame(result.sid, atts.value, payload))
                      else old(slip.queue)
      ensures result.Registered? && slipfd > 0 ==>
        slip.queue.packets == old(slip.queue.packets) + [[33, 83, result.sid] + atts.value + payload]
    {
      hide Escape, Encode, EncodeAll, TransmitLink.Flatten, TransmitLink.Consistent, SlipQueue.Matches, Holds;
      if !framed {
        return FatalCallback(cback, ptr);
      }
      if atts.None? || |atts.value| + |payload| + 3 > bufSize {
        return FatalCallback(cback, ptr);
      }
      var size := |atts.value|;
      var sid := SetupCallback(TxCallback(cback, ptr, attrs));
      var buf := FillBuffer(sid as byte, atts.value, payload);
      var ok := slip.WriteToSlip(slipfd, buf[..|payload| + size + 3]);
      result := if ok then Registered(sid as byte) else Overflow(sid as byte);
    }

    /** The local buffer of send_packet. */
    method FillBuffer(sid: byte, atts: seq<byte>, payload: seq<byte>) returns (buf: array<byte>)
      requires |atts| + |payload| + 3 <= bufSize
      ensures fresh(buf) && buf.Length == bufSize
      ensures buf[..|payload| + |atts| + 3] == SessionFrame(sid, atts, payload)
    {
      var size := |atts|;
      buf := new byte[bufSize](_ => 0);
      forall i | 0 <= i < size {
        buf[3 + i] := atts[i];
      }
      buf[0] := BANG;
      buf[1] := CHAR_S;
      buf[2] := sid;
      forall i | 0 <= i < |payload| {
        buf[3 + size + i] := payload[i];
      }
      assert buf[..3] == [BANG, CHAR_S, sid] && buf[3..3 + size] == atts;
      assert buf[3 + size..3 + size + |payload|] == payload;
      assert buf[..|payload| + size + 3] == buf[..3] + buf[3..3 + size] + buf[3 + size..3 + size + |payload|];
    }

    /** packet_sent: the slot's current callback is invoked; an id beyond the ring is ignored. */
    method PacketSent(sessionid: byte, status: byte, tx: byte) returns (call: Option<SentCall>)
      requires Valid()
      ensures call.None? <==> sessionid >= 16
      ensures call.Some? ==> call.value.status == status && call.value.tx == tx
      ensures call.Some? ==>
        call.value.callback == if sessionid as nat < |registered|
                               then registered[Latest(|registered|, sessionid as nat)] else Unset
    {
      if sessionid as nat < SLOTS {
        assert callbacks[..][sessionid as nat] == callbacks[sessionid as nat];
        call := Some(SentCall(callbacks[sessionid as nat], status, tx));
      } else {
        call := None;
      }
    }
  }
}
