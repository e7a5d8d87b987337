/** The host's command handler: which command does what depends on where it came from. */
module Commands {
  import opened SlipCodec
  import opened CommandLetters

  const CONTEXT_RADIO: byte := 0
  const CONTEXT_STDIO: byte := 1

  /** What the handler does with a command. */
  datatype Action =
    | GlobalRepair
    | SetMac(mac: seq<byte>)
    | ShowChannel(channel: byte)
    | Report(sid: byte, status: byte, tx: byte)
    | SetSensors(data: seq<byte>, len: int)
    | SendMac(text: seq<byte>)
    | Forward(data: seq<byte>)
    | PrintStat
    | Unhandled

  function HexChar(d: byte): byte
    requires d < 16
  {
    if d < 10 then 48 + d else 87 + d
  }

  function HexByte(b: byte): seq<byte> { [HexChar(b / 16), HexChar(b % 16)] }

  function HexBytes(bs: seq<byte>): (r: seq<byte>)
    ensures |r| == 2 * |bs|
  {
    if bs == [] then [] else HexBytes(bs[..|bs| - 1]) + HexByte(bs[|bs| - 1])
  }

  /** Two addresses with the same text are the same address. */
  lemma {:induction false} HexIsInjective(a: seq<byte>, b: seq<byte>)
    requires HexBytes(a) == HexBytes(b)
    ensures a == b
  {
    assert |a| == |b|;
    if a != [] {
      var n := |a| - 1;
      assert HexBytes(a)[..2 * n] == HexBytes(a[..n]);
      assert HexBytes(b)[..2 * n] == HexBytes(b[..n]);
      assert HexBytes(a)[2 * n..] == HexByte(a[n]) && HexBytes(b)[2 * n..] == HexByte(b[n]);
      HexIsInjective(a[..n], b[..n]);
      assert HexByte(a[n])[0] == HexByte(b[n])[0] && HexByte(a[n])[1] == HexByte(b[n])[1];
      assert a == a[..n] + [a[n]] && b == b[..n] + [b[n]];
    }
  }

  /** The digits of byte j, the high one first. */
  lemma {:induction false} HexDigitsAt(bs: seq<byte>, j: nat)
    requires j < |bs|
    ensures HexBytes(bs)[2 * j] as int == "0123456789abcdef"[bs[j] as int / 16] as int
    ensures HexBytes(bs)[2 * j + 1] as int == "0123456789abcdef"[bs[j] as int % 16] as int
  {
    var n := |bs| - 1;
    if j < n {
      HexDigitsAt(bs[..n], j);
      assert HexBytes(bs)[..2 * n] == HexBytes(bs[..n]);
      assert HexBytes(bs)[..2 * n][2 * j] == HexBytes(bs)[2 * j];
      assert HexBytes(bs)[..2 * n][2 * j + 1] == HexBytes(bs)[2 * j + 1];
    } else {
      DigitIs(bs[n] / 16);
      DigitIs(bs[n] % 16);
      HalvesAre(bs[n]);
    }
  }

  lemma DigitIs(d: byte)
    requires d < 16
    ensures HexChar(d) as int == "0123456789abcdef"[d as int] as int
  {}

  lemma HalvesAre(b: byte)
    ensures b / 16 < 16 && (b / 16) as int == b as int / 16 && (b % 16) as int == b as int % 16
  {}

  lemma AllHexDigits(bs: seq<byte>)
    ensures forall j | 0 <= j < |bs| ::
      && HexBytes(bs)[2 * j] as int == "0123456789abcdef"[bs[j] as int / 16] as int
      && HexBytes(bs)[2 * j + 1] as int == "0123456789abcdef"[bs[j] as int % 16] as int
  {
    forall j | 0 <= j < |bs|
      ensures HexBytes(bs)[2 * j] as int == "0123456789abcdef"[bs[j] as int / 16] as int
      ensures HexBytes(bs)[2 * j + 1] as int == "0123456789abcdef"[bs[j] as int % 16] as int
    {
      HexDigitsAt(bs, j);
    }
  }

  lemma NoHex(head: seq<byte>, bs: seq<byte>)
    ensures head + HexBytes(bs[..0]) == head
  {}

  lemma HexStep(head: seq<byte>, bs: seq<byte>, j: nat)
    requires j < |bs|
    ensures head + HexBytes(bs[..j + 1]) == head + HexBytes(bs[..j]) + HexByte(bs[j])
  {
    assert bs[..j + 1][..j] == bs[..j];
  }

  class Handler {
    /** command_context, set by the caller before each command. */
    var commandContext: byte

    constructor ()
      ensures commandContext == CONTEXT_RADIO
    {
      commandContext := CONTEXT_RADIO;
    }

    /** slip_bridge_cmd_handler. `data` is the buffer that holds the command in its first `len` bytes;
        `lladdr` is the address of this node. */
    method CmdHandler(data: seq<byte>, len: nat, lladdr: seq<byte>) returns (action: Action)
      requires 10 <= |data| && len <= |data| && |lladdr| == 8
      ensures action.Report? <==> commandContext == 0 && data[0] == 33 && data[1] == 82
      ensures action.SetMac? <==> commandContext == 0 && data[0] == 33 && data[1] == 77
      ensures action.ShowChannel? <==> commandContext == 0 && data[0] == 33 && data[1] == 67
      ensures action.SetSensors? <==> commandContext == 0 && data[0] == 33 && data[1] == 68
      ensures action.GlobalRepair? <==> commandContext == 1 && data[0] == 33 && data[1] == 71
      ensures action.SendMac? <==> commandContext == 1 && data[0] == 63 && data[1] == 77
      ensures action.Forward? <==> commandContext == 1 && data[0] == 63 && data[1] == 67
      ensures action.PrintStat? <==> data[0] == 63 && data[1] == 83
      ensures action.Report? ==> action == Report(data[2], data[3], data[4])
      ensures action.SetMac? ==> action.mac == data[2..10]
      ensures action.ShowChannel? ==> action.channel == data[2]
      ensures action.SetSensors? ==> action == SetSensors(data[2..], len - 2)
      ensures action.Forward? ==> action.data == data[..len]
      ensures action.SendMac? ==> action.text == [33, 77] + HexBytes(lladdr)
      ensures action.SendMac? ==> forall j | 0 <= j < 8 ::
        && action.text[2 + 2 * j] as int == "0123456789abcdef"[lladdr[j] as int / 16] as int
        && action.text[3 + 2 * j] as int == "0123456789abcdef"[lladdr[j] as int % 16] as int
    {
      if data[0] == BANG {
        if data[1] == CHAR_G && commandContext == CONTEXT_STDIO {
          return GlobalRepair;
        } else if data[1] == CHAR_M && commandContext == CONTEXT_RADIO {
          return SetMac(data[2..10]);
        } else if data[1] == CHAR_C && commandContext == CONTEXT_RADIO {
          return ShowChannel(data[2]);
        } else if data[1] == CHAR_R && commandContext == CONTEXT_RADIO {
          return Report(data[2], data[3], data[4]);
        } else if data[1] == CHAR_D && commandContext == CONTEXT_RADIO {
          return SetSensors(data[2..], len - 2);
        }
      } else if data[0] == QUERY {
        if data[1] == CHAR_M && commandContext == CONTEXT_STDIO {
          var text := MacText(lladdr);
          AllHexDigits(lladdr);
          hide HexBytes;
          return SendMac(text);
        } else if data[1] == CHAR_C && commandContext == CONTEXT_STDIO {
          return Forward(data[..len]);
        } else if data[1] == CHAR_S {
          return PrintStat;
        }
      }
      return Unhandled;
    }

    /** The 18 bytes of the answer to `?M`. */
    method MacText(lladdr: seq<byte>) returns (text: seq<byte>)
      requires |lladdr| == 8
      ensures text == [BANG, CHAR_M] + HexBytes(lladdr)
    {
      hide HexBytes, HexByte;
      var buf := new byte[20](_ => 0);
      buf[0] := BANG;
      buf[1] := CHAR_M;
      ghost var head := [BANG, CHAR_M];
      NoHex(head, lladdr);
      assert buf[..2] == head;
      for j := 0 to 8
        invariant buf[..2 + 2 * j] == head + HexBytes(lladdr[..j])
      {
        HexStep(head, lladdr, j);
        PutHex(buf, j, lladdr[j]);
      }
      assert lladdr[..8] == lladdr;
      text := buf[..18];
    }

    /** The two digits of byte j. */
    method PutHex(buf: array<byte>, j: nat, b: byte)
      requires buf.Length == 20 && j < 8
      modifies buf
      ensures buf[..2 + 2 * (j + 1)] == old(buf[..2 + 2 * j]) + HexByte(b)
    {
      hide HexChar;
      ghost var before := buf[..2 + 2 * j];
      buf[2 + j * 2] := HexChar(b / 16);
      buf[3 + j * 2] := HexChar(b % 16);
      assert buf[..2 + 2 * j] == before;
      assert buf[..2 + 2 * (j + 1)] == before + [buf[2 + j * 2], buf[3 + j * 2]];
    }
  }
}
