// Where everything stands on the iSCSI wire, by literal byte positions (RFC 3720, section 10), and
// where that is not where the standard puts it.
module IscsiWire {
  import opened Basics
  import opened Wrappers
  import opened Bytes
  import opened StdText
  import opened IscsiPdu
  import opened IscsiResponses
  import opened IscsiSession
  import opened IscsiGuarantees

  function Digits(a: nat, b: nat, c: nat, d: nat): nat { 0x100_0000 * a + 0x1_0000 * b + 0x100 * c + d }

  /** Four bytes, most significant first. */
  function Big(s: seq<u8>, at: nat): nat
    requires at + 4 <= |s|
  {
    Digits(s[at], s[at + 1], s[at + 2], s[at + 3])
  }

  lemma FourDigits(n: nat)
    requires n < 0x1_0000_0000
    ensures n == 256 * (256 * (256 * (n / 0x100_0000 % 256) + n / 0x1_0000 % 256) + n / 0x100 % 256) + n % 256
  {
    assert n / 0x1_0000 == n / 0x100 / 0x100 && n / 0x100_0000 == n / 0x1_0000 / 0x100;
  }

  lemma BytesOfFour(n: nat)
    ensures ToBe(n, 4) == [n / 0x100_0000 % 256, n / 0x1_0000 % 256, n / 0x100 % 256, n % 256]
  {
    var m := n / 0x100;
    assert n / 0x1_0000 == m / 0x100 && n / 0x100_0000 == m / 0x100 / 0x100;
    var k := m / 0x100;
    assert ToBe(k / 256, 1) == ToBe(k / 256 / 256, 0) + [k / 256 % 256];
    assert ToBe(k, 2) == ToBe(k / 256, 1) + [k % 256];
    assert ToBe(m, 3) == ToBe(k, 2) + [m % 256];
    assert ToBe(n, 4) == ToBe(m, 3) + [n % 256];
  }

  lemma BigOf(s: seq<u8>, at: nat, n: nat)
    requires at + 4 <= |s| && s[at..at + 4] == ToBe(n, 4) && n < 0x1_0000_0000
    ensures Big(s, at) == n
  {
    hide ToBe;
    BytesOfFour(n);
    FourDigits(n);
    assert s[at] == s[at..at + 4][0] && s[at + 1] == s[at..at + 4][1];
    assert s[at + 2] == s[at..at + 4][2] && s[at + 3] == s[at..at + 4][3];
    Horner(s[at], s[at + 1], s[at + 2], s[at + 3]);
  }

  lemma Horner(a: nat, b: nat, c: nat, d: nat)
    ensures Digits(a, b, c, d) == 256 * (256 * (256 * a + b) + c) + d
  {}

  /** Opcode, flags, the 24-bit data length, the LUN, the initiator task tag, and the 28 bytes that depend
      on the opcode. Bytes 2, 3 and 4 are never set. */
  lemma HeaderOnWire(p: Pdu)
    ensures var s := Wire(p);
            |s| >= 48 && s[0] == p.bhs.opcode && s[1] == p.bhs.flags && s[2] == s[3] == s[4] == 0 &&
            Digits(0, s[5], s[6], s[7]) == p.bhs.dataSegmentLength % 0x100_0000 &&
            (forall i | 0 <= i < 8 :: s[15 - i] == p.bhs.lun / Range(i) % 256) &&
            Big(s, 16) == p.bhs.initiatorTaskTag && s[20..48] == p.bhs.specific &&
            s[48..48 + |p.data|] == p.data
  {
    hide Range, ToBe, Big, Wire;
    var s, n := Wire(p), p.bhs.dataSegmentLength;
    HeaderParts(p);
    BigOf(s, 16, p.bhs.initiatorTaskTag);
    ThreeBytes(n);
    assert s[5] == s[5..8][0] && s[6] == s[5..8][1] && s[7] == s[5..8][2];
    forall i | 0 <= i < 8 ensures s[15 - i] == p.bhs.lun / Range(i) % 256 {
      BeDigit(p.bhs.lun, 8, i);
      assert s[15 - i] == s[8..16][7 - i];
    }
  }

  lemma HeaderParts(p: Pdu)
    ensures var s := Wire(p);
            |s| >= 48 + |p.data| && s[0] == p.bhs.opcode && s[1] == p.bhs.flags && s[2] == s[3] == s[4] == 0 &&
            s[5..8] == ToBe(p.bhs.dataSegmentLength, 3) && s[8..16] == ToBe(p.bhs.lun, 8) &&
            s[16..20] == ToBe(p.bhs.initiatorTaskTag, 4) && s[20..48] == p.bhs.specific &&
            s[48..48 + |p.data|] == p.data
  {
    hide ToBe, Zeros, PadLen;
    var h, s := Header(p.bhs), Wire(p);
    assert h[5..8] == ToBe(p.bhs.dataSegmentLength, 3) && h[8..16] == ToBe(p.bhs.lun, 8);
    assert h[16..20] == ToBe(p.bhs.initiatorTaskTag, 4) && h[20..48] == p.bhs.specific;
    assert s == h + (p.data + Zeros(PadLen(|p.data|)));
    assert s[..48] == h;
    SubSlice(s, 0, 48, 5, 8);
    SubSlice(s, 0, 48, 8, 16);
    SubSlice(s, 0, 48, 16, 20);
    SubSlice(s, 0, 48, 20, 48);
    assert s[..48] == s[0..48];
  }

  lemma ThreeBytes(n: nat)
    ensures var s := ToBe(n, 3); Digits(0, s[0], s[1], s[2]) == n % 0x100_0000
  {
    var a, b, c := n / 256 / 256 % 256, n / 256 % 256, n % 256;
    assert ToBe(n / 256 / 256, 1) == ToBe(n / 256 / 256 / 256, 0) + [a];
    assert ToBe(n / 256, 2) == [a, b];
    assert ToBe(n, 3) == [a, b] + [c];
  }

  /** What every answer but Data-In has in its header: opcode, flags, no LUN, tag, StatSN at 24, ExpCmdSN at 28 and
      MaxCmdSN at 32. */
  predicate Stands(s: seq<u8>, opcode: u8, flags: u8, tag: u32, statSn: u32, w: Window) {
    |s| >= 48 && s[0] == opcode && s[1] == flags && Big(s, 8) == 0 && Big(s, 12) == 0 && Big(s, 16) == tag &&
    Big(s, 24) == statSn && Big(s, 28) == w.expCmdSn && Big(s, 32) == w.maxCmdSn
  }

  lemma ResponseStands(
      opcode: u8, flags: u8, tag: u32, first: Word, statSn: u32, w: Window, last: seq<u8>, data: seq<u8>)
    requires |last| == 12
    ensures var tail: Tail := ToBe(w.expCmdSn, 4) + ToBe(w.maxCmdSn, 4) + last;
            var s := Wire(Response(opcode, flags, tag, first, statSn, tail, data));
            Stands(s, opcode, flags, tag, statSn, w) && s[20..24] == first && s[36..48] == last
  {
    hide ToBe, Big, Header, Zeros, Wire, Response;
    var tail: Tail := ToBe(w.expCmdSn, 4) + ToBe(w.maxCmdSn, 4) + last;
    var p := Response(opcode, flags, tag, first, statSn, tail, data);
    var s := Wire(p);
    Fields(opcode, flags, tag, first, statSn, tail, data);
    TailFields(s[28..48], ToBe(w.expCmdSn, 4), ToBe(w.maxCmdSn, 4), last);
    SubSlice(s, 28, 48, 0, 4);
    SubSlice(s, 28, 48, 4, 8);
    SubSlice(s, 28, 48, 8, 20);
    assert s[28..48][8..20] == s[28..48][8..];
    BigOf(s, 28, w.expCmdSn);
    BigOf(s, 32, w.maxCmdSn);
  }

  /** The parts of any response unit on the wire. */
  lemma Fields(opcode: u8, flags: u8, tag: u32, first: Word, statSn: u32, tail: Tail, data: seq<u8>)
    ensures var s := Wire(Response(opcode, flags, tag, first, statSn, tail, data));
            |s| >= 48 && s[0] == opcode && s[1] == flags && Big(s, 8) == 0 && Big(s, 12) == 0 && Big(s, 16) == tag &&
            s[20..24] == first && Big(s, 24) == statSn && s[28..48] == tail
  {
    hide ToBe, Big, Wire;
    NoLun(Response(opcode, flags, tag, first, statSn, tail, data));
    var p := Response(opcode, flags, tag, first, statSn, tail, data);
    var s := Wire(p);
    HeaderOnWire(p);
    SpecificFields(s, first, ToBe(statSn, 4), tail);
    BigOf(s, 24, statSn);
  }

  lemma NoLun(p: Pdu)
    requires p.bhs.lun == 0
    ensures |Wire(p)| >= 48 && Big(Wire(p), 8) == 0 && Big(Wire(p), 12) == 0
  {
    hide Wire, Range;
    HeaderOnWire(p);
    var s := Wire(p);
    forall j | 8 <= j < 16 ensures s[j] == 0 {
      NoDigit(Range(15 - j));
      assert s[15 - (15 - j)] == 0 / Range(15 - j) % 256;
    }
  }

  lemma NoDigit(r: nat)
    requires r > 0
    ensures 0 / r % 256 == 0
  {}

  lemma SpecificFields(s: seq<u8>, first: seq<u8>, number: seq<u8>, tail: seq<u8>)
    requires |s| >= 48 && |first| == 4 && |number| == 4 && |tail| == 20 && s[20..48] == first + number + tail
    ensures s[20..24] == first && s[24..28] == number && s[28..48] == tail
  {
    var t := s[20..48];
    assert t[..4] == first && t[4..8] == number && t[8..] == tail;
    SubSlice(s, 20, 48, 0, 4);
    SubSlice(s, 20, 48, 4, 8);
    SubSlice(s, 20, 48, 8, 28);
    assert t[8..28] == t[8..];
  }

  lemma SubSlice(s: seq<u8>, lo: nat, hi: nat, a: nat, b: nat)
    requires lo <= hi <= |s| && a <= b <= hi - lo
    ensures s[lo..hi][a..b] == s[lo + a..lo + b]
  {
    forall i | 0 <= i < b - a ensures s[lo..hi][a..b][i] == s[lo + a..lo + b][i] {
      assert s[lo..hi][a + i] == s[lo + a + i];
    }
  }

  lemma TailFields(t: seq<u8>, a: seq<u8>, b: seq<u8>, last: seq<u8>)
    requires |a| == 4 && |b| == 4 && t == a + b + last
    ensures t[..4] == a && t[4..8] == b && t[8..] == last
  {}

  /** The answers by opcode and flags, with what is theirs alone: all ones before the StatSN of a NOP-In,
      and the status class and detail of a login at 36 and 37. */
  lemma AnswersOnWire(tag: u32, statSn: u32, w: Window, statusClass: u8, detail: u8, transit: bool, data: seq<u8>)
    ensures Stands(Wire(TextResponse(tag, statSn, w, data)), 0x24, 0x80, tag, statSn, w)
    ensures Stands(Wire(LogoutResponse(tag, statSn, w)), 0x26, 0x80, tag, statSn, w)
    ensures var s := Wire(NopIn(tag, statSn, w));
            Stands(s, 0x20, 0x80, tag, statSn, w) && s[20..24] == [0xFF, 0xFF, 0xFF, 0xFF]
    ensures var s := Wire(LoginResponse(tag, statusClass, detail, statSn, w, transit, data));
            Stands(s, 0x23, if transit then 0x87 else 0x04, tag, statSn, w) && s[36] == statusClass && s[37] == detail
  {
    hide ToBe, Stands, Wire;
    ResponseStands(TEXT_RESP, 0x80, tag, Zeros(4), statSn, w, Zeros(12), data);
    ResponseStands(LOGOUT_RESP, 0x80, tag, Zeros(4), statSn, w, Zeros(12), []);
    ResponseStands(NOP_IN, 0x80, tag, [0xFF, 0xFF, 0xFF, 0xFF], statSn, w, Zeros(12), []);
    var last := [statusClass, detail] + Zeros(10);
    var flags := if transit then 0x87 else 0x04;
    ResponseStands(LOGIN_RESP, flags, tag, Zeros(4), statSn, w, last, data);
    var tail := ToBe(w.expCmdSn, 4) + ToBe(w.maxCmdSn, 4) + [statusClass, detail] + Zeros(10);
    assert tail == ToBe(w.expCmdSn, 4) + ToBe(w.maxCmdSn, 4) + last;
    var s := Wire(LoginResponse(tag, statusClass, detail, statSn, w, transit, data));
    LongEnough(LoginResponse(tag, statusClass, detail, statSn, w, transit, data));
    assert s[36] == s[36..48][0] && s[37] == s[36..48][1];
  }

  lemma LongEnough(p: Pdu)
    ensures |Wire(p)| >= 48
  {}

  /** Where a SCSI status goes: byte 21 of the response, and of the Data-In that ends a read, whose
      flags say that it carries one. */
  lemma StatusOnWire(tag: u32, statSn: u32, w: Window, status: u8, data: seq<u8>)
    ensures var s := Wire(ScsiResponse(tag, statSn, w, status));
            Stands(s, 0x21, 0x80, tag, statSn, w) && s[20..24] == [0, status, 0, 0]
    ensures var s := Wire(FinalData(tag, statSn, data));
            |s| >= 48 && s[0] == 0x25 && s[1] == 0x81 && Big(s, 8) == 0 && Big(s, 12) == 0 &&
            Big(s, 16) == tag && s[20..24] == [0, 0, 0, 0] &&
            Big(s, 24) == statSn && Big(s, 36) == 0 && Big(s, 40) == 0
  {
    hide ToBe, Big, Stands, Header, Zeros, Wire;
    ResponseStands(SCSI_RESP, 0x80, tag, [0, status, 0, 0], statSn, w, Zeros(12), []);
    var s := Wire(FinalData(tag, statSn, data));
    var tail: Tail := Zeros(8) + ToBe(0, 4) + ToBe(0, 4) + Zeros(4);
    Fields(DATA_IN, 0x81, tag, [0, GOOD, 0, 0], statSn, tail, data);
    assert tail[8..12] == ToBe(0, 4) && tail[12..16] == ToBe(0, 4);
    SubSlice(s, 28, 48, 8, 12);
    SubSlice(s, 28, 48, 12, 16);
    BigOf(s, 36, 0);
    BigOf(s, 40, 0);
  }

  /** The standard has the status of a command in byte 3 (sections 10.4.2 and 10.7.3): there every answer
      says GOOD, whatever became of the command. */
  lemma StandardStatusIsGood(input: seq<u8>, b: LoginBackend, answers: nat -> Answer, writable: nat)
    ensures forall r | r in Responses(Session(input, b, answers, writable).log) :: |Wire(r)| >= 48 && Wire(r)[3] == 0x00
  {
    hide Session, Wire;
    forall r | r in Responses(Session(input, b, answers, writable).log) ensures |Wire(r)| >= 48 && Wire(r)[3] == 0x00 {
      HeaderOnWire(r);
    }
  }

  /** So a command that failed shows its CHECK CONDITION in byte 21 and GOOD in byte 3. */
  lemma FailureLooksGood(p: Pdu, statSn: u32, w: Window)
    ensures var s := Wire(ScsiResponse(p.bhs.initiatorTaskTag, statSn, w, CHECK_CONDITION));
            |s| >= 48 && s[21] == 0x02 && s[3] == 0x00
  {
    hide ToBe, Wire;
    var r := ScsiResponse(p.bhs.initiatorTaskTag, statSn, w, CHECK_CONDITION);
    StatusOnWire(p.bhs.initiatorTaskTag, statSn, w, CHECK_CONDITION, []);
    HeaderOnWire(r);
    assert Wire(r)[21] == Wire(r)[20..24][1];
  }

  /** The units that are answered, by opcode: a command, a text request, a NOP-Out and a logout, and what the
      last three are answered; every other unit is passed over. */
  lemma RequestsExactly(p: Pdu, statSn: u32, w: Window, a: Answer, input: seq<u8>)
    ensures var h, tag := Dispatch(p, statSn, w, a, input), p.bhs.initiatorTaskTag;
            match p.bhs.opcode
            case 0x00 => h == Some(Reply(NopIn(tag, statSn, w), [], [], input))
            case 0x01 => h == Some(ScsiReply(p, statSn, w, a, input))
            case 0x04 => h == Some(Reply(TextResponse(tag, statSn, w, a.targets), [], [], input))
            case 0x06 => h == Some(Reply(LogoutResponse(tag, statSn, w), [], [], input))
            case _ => h == None
  {
    hide ScsiReply;
  }

  // ---- Login

  /** A setting is the value of the first pair under its key, and the fallback if there is none. */
  lemma {:induction false} ParamIsFirst(ps: seq<Param>, key: seq<u8>, fallback: seq<u8>)
    ensures forall i | 0 <= i < |ps| && ps[i].0 == key && forall j | 0 <= j < i :: ps[j].0 != key ::
              ParamOr(ps, key, fallback) == ps[i].1
    ensures (forall i | 0 <= i < |ps| :: ps[i].0 != key) ==> ParamOr(ps, key, fallback) == fallback
  {
    if ps != [] && ps[0].0 != key {
      ParamIsFirst(ps[1..], key, fallback);
      forall i | 0 <= i < |ps| && ps[i].0 == key && forall j | 0 <= j < i :: ps[j].0 != key
        ensures ParamOr(ps, key, fallback) == ps[i].1
      {
        assert ps[1..][i - 1] == ps[i];
        assert forall j | 0 <= j < i - 1 :: ps[1..][j] == ps[j + 1];
      }
    }
  }

  /** The session type and the initiator's name as the login's text gives them. */
  predicate IsDiscovery(p: Pdu) {
    ParamOr(ParseTextParams(p.data), Ascii("SessionType"), Ascii("Normal")) == Ascii("Discovery")
  }

  function NameIn(p: Pdu): Name { ParamOr(ParseTextParams(p.data), Ascii("InitiatorName"), []) }

  /** What the status detail of a refused login says: 0 that the volume is not known, 1 that its access
      list does not name the initiator. */
  lemma VerdictExactly(p: Pdu, b: LoginBackend)
    ensures var v := Verdict(p, b);
            (v.Denied? <==> v == Denied(0) || v == Denied(1)) &&
            (v == Denied(0) <==> !IsDiscovery(p) && b.volume == Ok(None)) &&
            (v == Denied(1) <==>
             !IsDiscovery(p) && b.volume.Ok? && b.volume.value.Some? && b.acl.Ok? && b.acl.value.Some? &&
             b.acl.value.value != [] && Some(NameIn(p)) !in b.acl.value.value) &&
            (v.Unknown? <==>
             !IsDiscovery(p) && (b.volume.Err? || (b.volume.value.Some? && b.acl.Err?)))
  {
    hide ParseTextParams, ParamOr;
  }

  /** StatSN 1, the command window from `n` on, and the status class and detail. */
  predicate IsLoginAnswer(s: seq<u8>, tag: u32, n: nat, v: LoginVerdict) {
    n + 32 < 0x1_0000_0000 && Stands(s, 0x23, if v.Granted? then 0x87 else 0x04, tag, 1, Window(n, n + 32)) &&
    s[36] == (if v.Granted? then 0x00 else 0x02) && s[37] == (if v.Denied? then v.detail else 0x00)
  }

  /** The answer to a login on the wire. The number it takes for ExpCmdSN is bytes 28 to 31 of the
      request, which by section 10.12 are the ExpStatSN; the CmdSN, at 24, is not looked at. */
  lemma LoginOnWire(p: Pdu, rest: seq<u8>, b: LoginBackend, answers: nat -> Answer, writable: nat)
    requires WellFormed(p) && p.bhs.opcode == 0x03 && Big(Wire(p), 28) + 32 < 0x1_0000_0000 && !Verdict(p, b).Unknown?
    ensures var log := Session(Wire(p) + rest, b, answers, writable).log;
            log != [] && log[0].Answered? && log[0].request == p &&
            IsLoginAnswer(Wire(log[0].response), p.bhs.initiatorTaskTag, Big(Wire(p), 28), Verdict(p, b)) &&
            log[0].response.data == if Verdict(p, b).Granted? then EncodedParams(LoginParams()) else []
  {
    hide Session, Wire, Verdict, EncodedParams, LoginParams, LoginResponse, Stands, WellFormed, Big, ExpCmdSn;
    ExpCmdSnAt(p);
    LoginTranscript(p, rest, b, answers, writable);
    var n, tag, v := Big(Wire(p), 28), p.bhs.initiatorTaskTag, Verdict(p, b);
    var w, data := Window(n, n + 32), EncodedParams(LoginParams());
    if v.Granted? {
      AnswersOnWire(tag, 1, w, 0x00, 0x00, true, data);
      LoginData(tag, 0x00, 0x00, w, true, data);
    } else {
      AnswersOnWire(tag, 1, w, 0x02, v.detail, false, []);
      LoginData(tag, 0x02, v.detail, w, false, []);
    }
  }

  /** A login is answered unless the sum for MaxCmdSN overflows, which panics, or the backend fails. */
  lemma LoginUnanswered(p: Pdu, rest: seq<u8>, b: LoginBackend, answers: nat -> Answer, writable: nat)
    requires WellFormed(p) && p.bhs.opcode == 0x03
    ensures var t := Session(Wire(p) + rest, b, answers, writable);
            var overflows := Big(Wire(p), 28) > 0xFFFF_FFDF;
            (t.log == [] <==> overflows || Verdict(p, b).Unknown?) &&
            (t.log == [] ==> t.outcome == if overflows then Panic else BackendFailed)
  {
    hide ReadPdu, Wire, Serve, Verdict, EncodedParams, LoginParams, LoginResponse, WellFormed, ExpCmdSn, Big;
    ExpCmdSnAt(p);
    PduRoundTripExactly(p, rest);
  }

  /** A refused login is the end of the session: nothing more is read or sent. */
  lemma RefusalEnds(p: Pdu, rest: seq<u8>, b: LoginBackend, answers: nat -> Answer, writable: nat)
    requires WellFormed(p) && p.bhs.opcode == 0x03 && Big(Wire(p), 28) + 32 < 0x1_0000_0000 && Verdict(p, b).Denied?
    ensures var t := Session(Wire(p) + rest, b, answers, writable);
            |t.log| == 1 && t.log[0].Answered? &&
            t.outcome == if |Wire(t.log[0].response)| <= writable then Refused else WriteFailed
  {
    hide ReadPdu, Wire, Serve, Verdict, EncodedParams, LoginParams, LoginResponse, WellFormed, ExpCmdSn, Big;
    ExpCmdSnAt(p);
    PduRoundTripExactly(p, rest);
  }

  lemma LoginTranscript(p: Pdu, rest: seq<u8>, b: LoginBackend, answers: nat -> Answer, writable: nat)
    requires WellFormed(p) && p.bhs.opcode == LOGIN_REQ && ExpCmdSn(p) + 32 <= U32_MAX && !Verdict(p, b).Unknown?
    ensures var log := Session(Wire(p) + rest, b, answers, writable).log;
            var w, tag, v := Window(ExpCmdSn(p), ExpCmdSn(p) + 32), p.bhs.initiatorTaskTag, Verdict(p, b);
            log != [] &&
            log[0] ==
            Answered(
              p, [],
              if v.Granted? then LoginResponse(tag, 0x00, 0x00, 1, w, true, EncodedParams(LoginParams()))
              else LoginResponse(tag, 0x02, v.detail, 1, w, false, []))
  {
    hide ReadPdu, Wire, Serve, Verdict, EncodedParams, LoginParams, LoginResponse, WellFormed, ExpCmdSn;
    PduRoundTripExactly(p, rest);
  }

  lemma LoginData(tag: u32, statusClass: u8, detail: u8, w: Window, transit: bool, data: seq<u8>)
    ensures LoginResponse(tag, statusClass, detail, 1, w, transit, data).data == data
  {
    hide ToBe;
  }

  lemma ExpCmdSnAt(p: Pdu)
    ensures |Wire(p)| >= 48 && ExpCmdSn(p) == Big(Wire(p), 28)
  {
    hide FromBe, Big, Header;
    HeaderOnWire(p);
    var s := Wire(p);
    SubSlice(s, 20, 48, 8, 12);
    FourFromBe(s, 28);
  }

  lemma FourFromBe(s: seq<u8>, at: nat)
    requires at + 4 <= |s|
    ensures FromBe(s[at..at + 4]) == Big(s, at)
  {
    var a: nat, b: nat, c: nat, d: nat := s[at], s[at + 1], s[at + 2], s[at + 3];
    assert s[at..at + 4] == [a, b, c, d] && [a, b, c, d][..3] == [a, b, c];
    assert [a, b, c][..2] == [a, b] && [a, b][..1] == [a] && [a][..0] == [];
    assert FromBe([a]) == a && FromBe([a, b]) == 256 * a + b;
    assert FromBe([a, b, c]) == 256 * (256 * a + b) + c;
  }

  /** A pair of byte strings as the initiator reads it. */
  predicate Reads(p: Param, key: string, val: string) {
    |p.0| == |key| && |p.1| == |val| && (forall i | 0 <= i < |key| :: p.0[i] == key[i] as int) &&
    (forall i | 0 <= i < |val| :: p.1[i] == val[i] as int)
  }

  /** What an admitted initiator reads of the offered settings. */
  lemma OffersExactly()
    ensures var ps := ParseTextParams(EncodedParams(LoginParams()));
            |ps| == 12 && TransferOffers(ps) && ConnectionOffers(ps)
  {
    hide TransferParams, ConnectionParams, ParseTextParams, EncodedParams, Encodable;
    hide TransferOffers, ConnectionOffers, ConnectionStarts;
    TransferIs();
    TransferIsEncodable();
    ConnectionIs();
    ConnectionIsEncodable();
    TransferShifts(TransferParams(), ConnectionParams());
    ConnectionShifts(TransferParams(), ConnectionParams());
    forall p | p in LoginParams() ensures Encodable(p) {
      assert p in TransferParams() || p in ConnectionParams();
    }
    TextRoundTripExactly(LoginParams());
  }

  predicate TransferOffers(ps: seq<Param>)
    requires |ps| >= 6
  {
    Reads(ps[0], "HeaderDigest", "None") && Reads(ps[1], "DataDigest", "None") &&
    Reads(ps[2], "MaxRecvDataSegmentLength", "65536") && Reads(ps[3], "MaxBurstLength", "262144") &&
    Reads(ps[4], "FirstBurstLength", "65536") && Reads(ps[5], "DefaultTime2Wait", "2")
  }

  predicate ConnectionOffers(ps: seq<Param>)
    requires |ps| == 12
  {
    Reads(ps[6], "DefaultTime2Retain", "20") && Reads(ps[7], "MaxOutstandingR2T", "1") &&
    Reads(ps[8], "InitialR2T", "Yes") && Reads(ps[9], "ImmediateData", "Yes") &&
    Reads(ps[10], "MaxConnections", "1") && Reads(ps[11], "ErrorRecoveryLevel", "0")
  }

  predicate ConnectionStarts(ps: seq<Param>)
    requires |ps| == 6
  {
    Reads(ps[0], "DefaultTime2Retain", "20") && Reads(ps[1], "MaxOutstandingR2T", "1") &&
    Reads(ps[2], "InitialR2T", "Yes") && Reads(ps[3], "ImmediateData", "Yes") &&
    Reads(ps[4], "MaxConnections", "1") && Reads(ps[5], "ErrorRecoveryLevel", "0")
  }

  lemma TransferIs()
    ensures |TransferParams()| == 6 && TransferOffers(TransferParams())
  {}

  lemma PlainIsEncodable(p: Param, key: string, val: string)
    requires Reads(p, key, val) && forall i | 0 <= i < |key| :: key[i] as int !in {0, 0x3D}
    requires forall i | 0 <= i < |val| :: val[i] as int != 0
    ensures Encodable(p)
  {}

  lemma TransferIsEncodable()
    ensures forall p | p in TransferParams() :: Encodable(p)
  {
    hide TransferParams, Reads, Encodable;
    TransferIs();
    var ps := TransferParams();
    PlainIsEncodable(ps[0], "HeaderDigest", "None");
    PlainIsEncodable(ps[1], "DataDigest", "None");
    PlainIsEncodable(ps[2], "MaxRecvDataSegmentLength", "65536");
    PlainIsEncodable(ps[3], "MaxBurstLength", "262144");
    PlainIsEncodable(ps[4], "FirstBurstLength", "65536");
    PlainIsEncodable(ps[5], "DefaultTime2Wait", "2");
  }

  lemma ConnectionIs()
    ensures |ConnectionParams()| == 6 && ConnectionStarts(ConnectionParams())
  {}

  lemma ConnectionIsEncodable()
    ensures forall p | p in ConnectionParams() :: Encodable(p)
  {
    hide ConnectionParams, Reads, Encodable;
    ConnectionIs();
    var ps := ConnectionParams();
    PlainIsEncodable(ps[0], "DefaultTime2Retain", "20");
    PlainIsEncodable(ps[1], "MaxOutstandingR2T", "1");
    PlainIsEncodable(ps[2], "InitialR2T", "Yes");
    PlainIsEncodable(ps[3], "ImmediateData", "Yes");
    PlainIsEncodable(ps[4], "MaxConnections", "1");
    PlainIsEncodable(ps[5], "ErrorRecoveryLevel", "0");
  }

  lemma TransferShifts(a: seq<Param>, b: seq<Param>)
    requires |a| == 6 && TransferOffers(a)
    ensures TransferOffers(a + b)
  {
    hide Reads;
  }

  lemma ConnectionShifts(a: seq<Param>, b: seq<Param>)
    requires |a| == 6 && |b| == 6 && ConnectionStarts(b)
    ensures ConnectionOffers(a + b)
  {
    hide Reads;
    var c := a + b;
    assert c[6] == b[0] && c[7] == b[1] && c[8] == b[2] && c[9] == b[3] && c[10] == b[4] && c[11] == b[5];
  }

  /** The login promises InitialR2T, that no data is to be sent before an R2T asks for it; but no answer of
      any session ever is one (opcode 0x31). */
  lemma NeverAsksForData(input: seq<u8>, b: LoginBackend, answers: nat -> Answer, writable: nat)
    ensures (Ascii("InitialR2T"), Ascii("Yes")) in LoginParams()
    ensures forall r | r in Responses(Session(input, b, answers, writable).log) ::
              r.bhs.opcode in {0x20, 0x21, 0x23, 0x24, 0x25, 0x26}
  {
    var log := Session(input, b, answers, writable).log;
    assert ConnectionParams()[2] == (Ascii("InitialR2T"), Ascii("Yes"));
    assert LoginParams()[8] == ConnectionParams()[2];
    AnswerKinds(input, b, answers, writable);
  }

  lemma AnswerKinds(input: seq<u8>, b: LoginBackend, answers: nat -> Answer, writable: nat)
    ensures forall r | r in Responses(Session(input, b, answers, writable).log) ::
              r.bhs.opcode in {0x20, 0x21, 0x23, 0x24, 0x25, 0x26}
  {
    hide Session, StatSn, WellFormed, CollectedOk;
    SessionKeeps(input, b, answers, writable);
    KindsOf(Session(input, b, answers, writable).log);
  }

  lemma {:induction false} KindsOf(log: seq<Item>)
    requires forall item | item in log :: ItemOk(item)
    ensures forall r | r in Responses(log) :: r.bhs.opcode in {0x20, 0x21, 0x23, 0x24, 0x25, 0x26}
  {
    hide StatSn, WellFormed, CollectedOk;
    if log != [] {
      assert log[0] in log;
      KindsOf(log[1..]);
    }
  }
}
