// The response units of the target. Every one carries its StatSN in the same place.
module IscsiResponses {
  import opened Basics
  import opened Wrappers
  import opened Bytes
  import opened IscsiPdu

  const GOOD: u8 := 0x00
  const CHECK_CONDITION: u8 := 0x02

  type Word = s: seq<u8> | |s| == 4 witness Zeros(4)
  type Tail = s: seq<u8> | |s| == 20 witness Zeros(20)

  /** The command window a login opens. */
  datatype Window = Window(expCmdSn: u32, maxCmdSn: u32)

  function Response(opcode: u8, flags: u8, tag: u32, first: Word, statSn: u32, tail: Tail, data: seq<u8>): Pdu {
    Pdu(Bhs(opcode, flags, |data| % 0x1_0000_0000, 0, tag, first + ToBe(statSn, 4) + tail), data)
  }

  function StatSn(p: Pdu): nat { FromBe(p.bhs.specific[4..8]) }

  function WindowTail(w: Window): Tail { ToBe(w.expCmdSn, 4) + ToBe(w.maxCmdSn, 4) + Zeros(12) }

  function LoginResponse(
    tag: u32, statusClass: u8, statusDetail: u8, statSn: u32, w: Window, transit: bool, data: seq<u8>): Pdu
  {
    var tail := ToBe(w.expCmdSn, 4) + ToBe(w.maxCmdSn, 4) + [statusClass, statusDetail] + Zeros(10);
    Response(LOGIN_RESP, if transit then 0x87 else 0x04, tag, Zeros(4), statSn, tail, data)
  }

  function TextResponse(tag: u32, statSn: u32, w: Window, data: seq<u8>): Pdu {
    Response(TEXT_RESP, 0x80, tag, Zeros(4), statSn, WindowTail(w), data)
  }

  function ScsiResponse(tag: u32, statSn: u32, w: Window, status: u8): Pdu {
    Response(SCSI_RESP, 0x80, tag, [0, status, 0, 0], statSn, WindowTail(w), [])
  }

  function DataIn(
    tag: u32, statSn: u32, dataSn: u32, bufferOffset: u32, data: seq<u8>, isFinal: bool, status: Option<u8>): Pdu
  {
    var flags := (if isFinal then 0x80 else 0) + (if status.Some? then 0x01 else 0);
    var first := match status case None => Zeros(4) case Some(s) => [0, s, 0, 0];
    Response(
      DATA_IN, flags, tag, first, statSn,
      Zeros(8) + ToBe(dataSn, 4) + ToBe(bufferOffset, 4) + Zeros(4), data)
  }

  function NopIn(tag: u32, statSn: u32, w: Window): Pdu {
    Response(NOP_IN, 0x80, tag, [0xFF, 0xFF, 0xFF, 0xFF], statSn, WindowTail(w), [])
  }

  function LogoutResponse(tag: u32, statSn: u32, w: Window): Pdu {
    Response(LOGOUT_RESP, 0x80, tag, Zeros(4), statSn, WindowTail(w), [])
  }

  /** A response carries the number it was built with, and the initiator can take it off the
      stream exactly when its data fits the 24-bit length field. */
  lemma ResponseCarries(
      opcode: u8, flags: u8, tag: u32, first: Word, statSn: u32, tail: Tail, data: seq<u8>)
    requires opcode < 64
    ensures StatSn(Response(opcode, flags, tag, first, statSn, tail, data)) == statSn
    ensures WellFormed(Response(opcode, flags, tag, first, statSn, tail, data)) <==> |data| < 0x100_0000
  {
    var p := Response(opcode, flags, tag, first, statSn, tail, data);
    assert p.bhs.specific[4..8] == ToBe(statSn, 4);
    RangeValues();
    BeReadsBack(statSn, 4);
  }
}
