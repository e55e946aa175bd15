// What every iSCSI session keeps: numbering, one answer per request, nothing before login.
module IscsiGuarantees {
  import opened Basics
  import opened Wrappers
  import opened Bytes
  import opened IscsiPdu
  import opened IscsiResponses
  import opened IscsiSession
  import Block = BlockSocket

  // ---- One response

  /** The requests that get an answer in the request loop. */
  predicate IsRequest(p: Pdu) {
    p.bhs.opcode == SCSI_CMD || p.bhs.opcode == TEXT_REQ || p.bhs.opcode == NOP_OUT || p.bhs.opcode == LOGOUT_REQ
  }

  /** The response is of the kind its request calls for. A Data-In that answers a command is final
      and carries the command's status. */
  predicate KindMatches(request: Pdu, response: Pdu) {
    match request.bhs.opcode
    case 0x01 => response.bhs.opcode == SCSI_RESP || (response.bhs.opcode == DATA_IN && response.bhs.flags == 0x81)
    case 0x03 => response.bhs.opcode == LOGIN_RESP
    case 0x04 => response.bhs.opcode == TEXT_RESP
    case 0x00 => response.bhs.opcode == NOP_IN
    case 0x06 => response.bhs.opcode == LOGOUT_RESP
    case _ => false
  }

  predicate AnswersRequest(request: Pdu, response: Pdu, statSn: nat) {
    response.bhs.initiatorTaskTag == request.bhs.initiatorTaskTag && KindMatches(request, response) &&
    StatSn(response) == statSn && (WellFormed(response) <==> |response.data| < 0x100_0000)
  }

  lemma FinalDataAnswers(p: Pdu, statSn: u32, data: seq<u8>)
    requires p.bhs.opcode == SCSI_CMD
    ensures AnswersRequest(p, FinalData(p.bhs.initiatorTaskTag, statSn, data), statSn)
  {
    hide StatSn, WellFormed, ToBe;
    ResponseCarries(
      DATA_IN, 0x81, p.bhs.initiatorTaskTag, [0, GOOD, 0, 0], statSn, Zeros(8) + ToBe(0, 4) + ToBe(0, 4) + Zeros(4),
      data);
  }

  lemma StatusAnswers(p: Pdu, statSn: u32, w: Window, status: u8)
    requires p.bhs.opcode == SCSI_CMD
    ensures AnswersRequest(p, ScsiResponse(p.bhs.initiatorTaskTag, statSn, w, status), statSn)
  {
    hide StatSn, WellFormed, ToBe, WindowTail;
    ResponseCarries(SCSI_RESP, 0x80, p.bhs.initiatorTaskTag, [0, status, 0, 0], statSn, WindowTail(w), []);
  }

  lemma ScsiAnswers(p: Pdu, statSn: u32, w: Window, a: Answer, input: seq<u8>)
    requires p.bhs.opcode == SCSI_CMD && ScsiReply(p, statSn, w, a, input).Reply?
    ensures AnswersRequest(p, ScsiReply(p, statSn, w, a, input).response, statSn)
  {
    hide FinalData, ScsiResponse, AnswersRequest, FromBe, ToBe, LastLba, WriteData, TooManyBlocks, Take, Said, Size;
    hide BlockSize;
    var response := ScsiReply(p, statSn, w, a, input).response;
    forall data ensures AnswersRequest(p, FinalData(p.bhs.initiatorTaskTag, statSn, data), statSn) {
      FinalDataAnswers(p, statSn, data);
    }
    StatusAnswers(p, statSn, w, GOOD);
    StatusAnswers(p, statSn, w, CHECK_CONDITION);
  }

  lemma OthersAnswer(p: Pdu, statSn: u32, w: Window, data: seq<u8>)
    ensures p.bhs.opcode == TEXT_REQ ==>
              AnswersRequest(p, TextResponse(p.bhs.initiatorTaskTag, statSn, w, data), statSn)
    ensures p.bhs.opcode == NOP_OUT ==> AnswersRequest(p, NopIn(p.bhs.initiatorTaskTag, statSn, w), statSn)
    ensures p.bhs.opcode == LOGOUT_REQ ==>
              AnswersRequest(p, LogoutResponse(p.bhs.initiatorTaskTag, statSn, w), statSn)
  {
    hide StatSn, WellFormed, ToBe, WindowTail;
    var tag := p.bhs.initiatorTaskTag;
    ResponseCarries(TEXT_RESP, 0x80, tag, Zeros(4), statSn, WindowTail(w), data);
    ResponseCarries(NOP_IN, 0x80, tag, [0xFF, 0xFF, 0xFF, 0xFF], statSn, WindowTail(w), []);
    ResponseCarries(LOGOUT_RESP, 0x80, tag, Zeros(4), statSn, WindowTail(w), []);
  }

  lemma LoginAnswers(p: Pdu, statusClass: u8, detail: u8, w: Window, transit: bool, data: seq<u8>)
    requires p.bhs.opcode == LOGIN_REQ
    ensures var response := LoginResponse(p.bhs.initiatorTaskTag, statusClass, detail, 1, w, transit, data);
            AnswersRequest(p, response, 1) && response.bhs.specific[16] == statusClass && response.data == data
  {
    hide StatSn, WellFormed, ToBe;
    var tail: Tail := ToBe(w.expCmdSn, 4) + ToBe(w.maxCmdSn, 4) + [statusClass, detail] + Zeros(10);
    ResponseCarries(LOGIN_RESP, if transit then 0x87 else 0x04, p.bhs.initiatorTaskTag, Zeros(4), 1, tail, data);
  }

  lemma DispatchAnswers(p: Pdu, statSn: u32, w: Window, a: Answer, input: seq<u8>)
    ensures Dispatch(p, statSn, w, a, input).Some? <==> IsRequest(p)
    ensures var h := Dispatch(p, statSn, w, a, input);
            h.Some? && h.value.Reply? ==> AnswersRequest(p, h.value.response, statSn)
  {
    hide ScsiReply, AnswersRequest, TextResponse, NopIn, LogoutResponse;
    if p.bhs.opcode == SCSI_CMD {
      if ScsiReply(p, statSn, w, a, input).Reply? { ScsiAnswers(p, statSn, w, a, input); }
    } else {
      OthersAnswer(p, statSn, w, a.targets);
    }
  }

  // ---- Units read

  function UnitsOf(item: Item): seq<Pdu> {
    match item
    case Answered(request, collected, _) => [request] + collected
    case Ignored(p) => [p]
  }

  /** All units taken off the stream, in order. */
  function UnitsRead(log: seq<Item>): seq<Pdu> {
    if log == [] then [] else UnitsOf(log[0]) + UnitsRead(log[1..])
  }

  lemma {:induction false} ReadManyAppend(a: nat, b: nat, s: seq<u8>)
    requires ReadMany(a, s).Some?
    ensures ReadMany(a + b, s) ==
            match ReadMany(b, ReadMany(a, s).value.1)
            case None => None
            case Some((ps, rest)) => Some((ReadMany(a, s).value.0 + ps, rest))
  {
    hide ReadPdu;
    if a == 0 {
      var tail := ReadMany(b, s);
      assert tail.Some? ==> [] + tail.value.0 == tail.value.0;
    } else {
      var (p, rest) := ReadPdu(s).value;
      ReadManyAppend(a - 1, b, rest);
      var first, tail := ReadMany(a - 1, rest).value, ReadMany(b, ReadMany(a - 1, rest).value.1);
      assert tail.Some? ==> [p] + (first.0 + tail.value.0) == [p] + first.0 + tail.value.0;
    }
  }

  /** The data of the Data-Out units, in order. */
  function DataOf(ps: seq<Pdu>): seq<u8> {
    if ps == [] then [] else (if ps[0].bhs.opcode == 0x05 then ps[0].data else []) + DataOf(ps[1..])
  }

  /** A collection takes consecutive units, all Data-Outs except perhaps the last, and keeps their
      data in order; without such an odd last unit it has all that was expected. */
  lemma {:induction false} CollectionIs(buf: seq<u8>, expected: nat, input: seq<u8>)
    requires Collect(buf, expected, input).Some?
    ensures var (data, ps, rest) := Collect(buf, expected, input).value;
            ReadMany(|ps|, input) == Some((ps, rest)) && data == buf + DataOf(ps) &&
            (forall i | 0 <= i < |ps| - 1 :: ps[i].bhs.opcode == 0x05) &&
            (|data| < expected ==> ps != [] && ps[|ps| - 1].bhs.opcode != 0x05)
    decreases |input|
  {
    hide ReadPdu;
    if |buf| < expected {
      var (p, rest) := ReadPdu(input).value;
      if p.bhs.opcode == DATA_OUT {
        CollectionIs(buf + p.data, expected, rest);
        var (data, more, end) := Collect(buf + p.data, expected, rest).value;
        var ps := [p] + more;
        assert Collect(buf, expected, input) == Some((data, ps, end));
        assert ps[1..] == more && DataOf(ps) == p.data + DataOf(more);
        assert buf + p.data + DataOf(more) == buf + (p.data + DataOf(more));
        forall i | 0 <= i < |ps| - 1 ensures ps[i].bhs.opcode == DATA_OUT {
          if i > 0 { assert ps[i] == more[i - 1]; }
        }
      } else {
        assert [p][1..] == [] && DataOf([p]) == [] && ReadMany(0, rest) == Some(([], rest));
        assert [p] + [] == [p];
      }
    }
  }

  predicate CollectedOk(request: Pdu, collected: seq<Pdu>) {
    (collected != [] ==> request.bhs.opcode == SCSI_CMD && IsWrite(CdbOf(request)[0])) &&
    forall i | 0 <= i < |collected| - 1 :: collected[i].bhs.opcode == DATA_OUT
  }

  lemma WriteHandledIs(p: Pdu, statSn: u32, w: Window, a: Answer, input: seq<u8>)
    requires WriteHandled(p, statSn, w, a, input).Reply?
    ensures var r, expected := WriteHandled(p, statSn, w, a, input), Blocks(CdbOf(p)) * 512;
            ReadMany(|r.collected|, input) == Some((r.collected, r.rest)) &&
            (forall i | 0 <= i < |r.collected| - 1 :: r.collected[i].bhs.opcode == DATA_OUT) &&
            r.stored == (if |p.data| >= expected then p.data[..expected] else p.data + DataOf(r.collected)) &&
            (|r.stored| < expected ==>
               r.collected != [] && r.collected[|r.collected| - 1].bhs.opcode != DATA_OUT)
  {
    hide Collect, WriteReply, ReadPdu, Said, Blocks;
    if |p.data| < Blocks(CdbOf(p)) * 512 {
      CollectionIs(p.data, Blocks(CdbOf(p)) * 512, input);
    }
  }

  lemma DispatchReads(p: Pdu, statSn: u32, w: Window, a: Answer, input: seq<u8>)
    ensures var h := Dispatch(p, statSn, w, a, input);
            h.Some? && h.value.Reply? ==>
              CollectedOk(p, h.value.collected) &&
              ReadMany(|h.value.collected|, input) == Some((h.value.collected, h.value.rest))
  {
    hide WriteHandled, FinalData, ScsiResponse, TextResponse, NopIn, LogoutResponse, ReadPdu, Said, Size, BlockSize;
    assert ReadMany(0, input) == Some(([], input));
    if p.bhs.opcode == SCSI_CMD && IsWrite(CdbOf(p)[0]) {
      if WriteHandled(p, statSn, w, a, input).Reply? {
        WriteHandledIs(p, statSn, w, a, input);
      }
    }
  }

  // ---- The request loop

  predicate ItemOk(item: Item) {
    match item
    case Answered(request, collected, response) =>
      AnswersRequest(request, response, StatSn(response)) && CollectedOk(request, collected)
    case Ignored(p) => !IsRequest(p)
  }

  predicate NumberedFrom(rs: seq<Pdu>, statSn: nat) { forall k | 0 <= k < |rs| :: StatSn(rs[k]) == statSn + k }

  lemma {:induction false} ServeKeeps(
      input: seq<u8>, statSn: u32, w: Window, answers: nat -> Answer, turn: nat, writable: nat)
    ensures var t := Serve(input, statSn, w, answers, turn, writable);
            NumberedFrom(Responses(t.log), statSn) &&
            forall item | item in t.log :: ItemOk(item) && (item.Answered? ==> IsRequest(item.request))
    decreases |input|
  {
    hide ReadPdu, Dispatch, Wire, AnswersRequest, CollectedOk, StatSn, IsRequest;
    var t := Serve(input, statSn, w, answers, turn, writable);
    if ReadPdu(input).Some? {
      var (p, rest) := ReadPdu(input).value;
      var h := Dispatch(p, statSn, w, answers(turn), rest);
      DispatchAnswers(p, statSn, w, answers(turn), rest);
      if h.None? {
        var later := Serve(rest, statSn, w, answers, turn + 1, writable);
        ServeKeeps(rest, statSn, w, answers, turn + 1, writable);
        ConsKeeps(Ignored(p), later, statSn);
      } else if h.value.Reply? {
        DispatchReads(p, statSn, w, answers(turn), rest);
        NumberIs(p, h.value.response, statSn);
        var item := Answered(p, h.value.collected, h.value.response);
        if t.log == [item] {
          ConsKeeps(item, Transcript([], t.outcome), statSn);
        } else {
          var left := writable - |Wire(h.value.response)|;
          ServeKeeps(h.value.rest, statSn + 1, w, answers, turn + 1, left);
          ConsKeeps(item, Serve(h.value.rest, statSn + 1, w, answers, turn + 1, left), statSn);
        }
      }
    }
  }

  lemma NumberIs(request: Pdu, response: Pdu, statSn: nat)
    requires AnswersRequest(request, response, statSn)
    ensures StatSn(response) == statSn
  {}

  lemma ConsKeeps(item: Item, t: Transcript, statSn: nat)
    requires item.Answered? ==> StatSn(item.response) == statSn
    requires NumberedFrom(Responses(t.log), if item.Answered? then statSn + 1 else statSn)
    ensures NumberedFrom(Responses([item] + t.log), statSn)
  {
    hide StatSn;
    assert ([item] + t.log)[1..] == t.log;
  }

  /** The log leaves no unit of the stream out: it lists the units read in stream order, and a
      session that ends by running dry has read them all. */
  lemma {:induction false} ServeReads(
      input: seq<u8>, statSn: u32, w: Window, answers: nat -> Answer, turn: nat, writable: nat)
    returns (rest: seq<u8>)
    ensures var t := Serve(input, statSn, w, answers, turn, writable);
            ReadMany(|UnitsRead(t.log)|, input) == Some((UnitsRead(t.log), rest)) &&
            (t.outcome == Closed ==> ReadPdu(rest) == None)
    decreases |input|
  {
    hide ReadPdu, Dispatch, Wire;
    var t := Serve(input, statSn, w, answers, turn, writable);
    rest := input;
    if ReadPdu(input).Some? {
      var (p, after) := ReadPdu(input).value;
      OneUnit(input);
      var h := Dispatch(p, statSn, w, answers(turn), after);
      if h.None? {
        var later := Serve(after, statSn, w, answers, turn + 1, writable);
        rest := ServeReads(after, statSn, w, answers, turn + 1, writable);
        UnitsCons(Ignored(p), later.log, input, after, rest);
      } else if h.value.Reply? {
        DispatchReads(p, statSn, w, answers(turn), after);
        var item := Answered(p, h.value.collected, h.value.response);
        ReadManyAppend(1, |h.value.collected|, input);
        if t.log == [item] {
          rest := h.value.rest;
          UnitsCons(item, [], input, h.value.rest, rest);
        } else {
          var left := writable - |Wire(h.value.response)|;
          var later := Serve(h.value.rest, statSn + 1, w, answers, turn + 1, left);
          rest := ServeReads(h.value.rest, statSn + 1, w, answers, turn + 1, left);
          UnitsCons(item, later.log, input, h.value.rest, rest);
        }
      }
    }
  }

  lemma OneUnit(input: seq<u8>)
    requires ReadPdu(input).Some?
    ensures ReadMany(1, input) == Some(([ReadPdu(input).value.0], ReadPdu(input).value.1))
  {
    hide ReadPdu;
    assert ReadMany(0, ReadPdu(input).value.1) == Some(([], ReadPdu(input).value.1));
    assert [ReadPdu(input).value.0] + [] == [ReadPdu(input).value.0];
  }

  lemma UnitsCons(item: Item, log: seq<Item>, input: seq<u8>, mid: seq<u8>, rest: seq<u8>)
    requires ReadMany(|UnitsOf(item)|, input) == Some((UnitsOf(item), mid))
    requires ReadMany(|UnitsRead(log)|, mid) == Some((UnitsRead(log), rest))
    ensures UnitsRead([item] + log) == UnitsOf(item) + UnitsRead(log)
    ensures ReadMany(|UnitsRead([item] + log)|, input) == Some((UnitsRead([item] + log), rest))
  {
    hide ReadMany;
    assert ([item] + log)[1..] == log;
    ReadManyAppend(|UnitsOf(item)|, |UnitsRead(log)|, input);
  }

  // ---- Whole sessions

  /** The k-th response of any session carries StatSN k, counting the login response as the first. */
  lemma SessionNumbers(input: seq<u8>, b: LoginBackend, answers: nat -> Answer, writable: nat)
    ensures NumberedFrom(Responses(Session(input, b, answers, writable).log), 1)
  {
    SessionKeeps(input, b, answers, writable);
  }

  predicate Admitted(p: Pdu, b: LoginBackend) {
    var ps := ParseTextParams(p.data);
    ParamOr(ps, Ascii("SessionType"), Ascii("Normal")) == Ascii("Discovery") ||
    (b.volume.Ok? && b.volume.value.Some? && b.acl.Ok? &&
     (b.acl.value.Some? && b.acl.value.value != [] ==>
        Some(ParamOr(ps, Ascii("InitiatorName"), [])) in b.acl.value.value))
  }

  /** Every response answers the request it is listed with, under that request's task tag and with
      the right kind; the first is the answer to a login request; and nothing else is ever read or
      sent unless that login was admitted and its response says so. */
  lemma SessionKeeps(input: seq<u8>, b: LoginBackend, answers: nat -> Answer, writable: nat)
    ensures var t := Session(input, b, answers, writable);
            NumberedFrom(Responses(t.log), 1) && (forall item | item in t.log :: ItemOk(item)) &&
            (t.log != [] ==> t.log[0].Answered? && t.log[0].request.bhs.opcode == LOGIN_REQ) &&
            (forall k | 0 < k < |t.log| && t.log[k].Answered? :: IsRequest(t.log[k].request)) &&
            (|t.log| > 1 ==>
               Admitted(t.log[0].request, b) && t.log[0].response.bhs.specific[16] == 0x00 &&
               t.log[0].response.bhs.flags == 0x87)
  {
    hide ReadPdu, Serve, Wire, AnswersRequest, StatSn, LoginParams, IsRequest, ExpCmdSn, Verdict, Admitted;
    if ReadPdu(input).Some? {
      var (p, rest) := ReadPdu(input).value;
      if p.bhs.opcode == LOGIN_REQ && ExpCmdSn(p) + 32 <= U32_MAX {
        var w := Window(ExpCmdSn(p), ExpCmdSn(p) + 32);
        var t := Session(input, b, answers, writable);
        match Verdict(p, b) {
          case Unknown =>
          case Denied(detail) =>
            LoginItem(p, 0x02, detail, w, false, []);
          case Granted =>
            GrantedMeansAdmitted(p, b);
            var data := EncodedParams(LoginParams());
            LoginItem(p, 0x00, 0x00, w, true, data);
            var response := LoginResponse(p.bhs.initiatorTaskTag, 0x00, 0x00, 1, w, true, data);
            if |t.log| > 1 {
              var left := writable - |Wire(response)|;
              var later := Serve(rest, 2, w, answers, 0, left);
              ServeKeeps(rest, 2, w, answers, 0, left);
              ConsKeeps(Answered(p, [], response), later, 1);
            }
        }
      }
    }
  }

  lemma GrantedMeansAdmitted(p: Pdu, b: LoginBackend)
    ensures Verdict(p, b).Granted? <==> Admitted(p, b)
  {
    hide ParseTextParams, ParamOr;
  }

  lemma LoginItem(p: Pdu, statusClass: u8, detail: u8, w: Window, transit: bool, data: seq<u8>)
    requires p.bhs.opcode == LOGIN_REQ
    ensures var response := LoginResponse(p.bhs.initiatorTaskTag, statusClass, detail, 1, w, transit, data);
            ItemOk(Answered(p, [], response)) && response.bhs.specific[16] == statusClass &&
            response.bhs.flags == (if transit then 0x87 else 0x04) && StatSn(response) == 1 &&
            NumberedFrom(Responses([Answered(p, [], response)]), 1)
  {
    hide AnswersRequest, ToBe, StatSn;
    var response := LoginResponse(p.bhs.initiatorTaskTag, statusClass, detail, 1, w, transit, data);
    LoginAnswers(p, statusClass, detail, w, transit, data);
    NumberIs(p, response, 1);
    assert Responses([Answered(p, [], response)][1..]) == [];
    assert Responses([Answered(p, [], response)]) == [response];
  }

  // ---- Requests read and requests answered

  function Requests(ps: seq<Pdu>): seq<Pdu> {
    if ps == [] then [] else if IsRequest(ps[0]) then [ps[0]] + Requests(ps[1..]) else Requests(ps[1..])
  }

  function AnsweredIn(log: seq<Item>): seq<Pdu> {
    if log == [] then []
    else if log[0].Answered? then [log[0].request] + AnsweredIn(log[1..])
    else AnsweredIn(log[1..])
  }

  /** Requests taken off the stream while the data of a write was being collected. */
  function Swallowed(log: seq<Item>): nat {
    if log == [] then 0
    else (if log[0].Answered? then |Requests(log[0].collected)| else 0) + Swallowed(log[1..])
  }

  lemma {:induction false} RequestsAppend(a: seq<Pdu>, b: seq<Pdu>)
    ensures Requests(a + b) == Requests(a) + Requests(b)
  {
    hide IsRequest;
    if a == [] {
      assert a + b == b;
    } else {
      RequestsAppend(a[1..], b);
      assert (a + b)[0] == a[0] && (a + b)[1..] == a[1..] + b;
      assert [a[0]] + (Requests(a[1..]) + Requests(b)) == [a[0]] + Requests(a[1..]) + Requests(b);
    }
  }

  /** Requests read are requests answered plus requests swallowed. */
  lemma {:induction false} RequestsBalance(log: seq<Item>)
    requires forall item | item in log :: item.Answered? ==> IsRequest(item.request)
    requires forall item | item in log :: item.Ignored? ==> !IsRequest(item.pdu)
    ensures |Requests(UnitsRead(log))| == |AnsweredIn(log)| + Swallowed(log)
  {
    hide IsRequest;
    if log != [] {
      RequestsBalance(log[1..]);
      RequestsAppend(UnitsOf(log[0]), UnitsRead(log[1..]));
      assert log[0] in log;
      if log[0].Answered? {
        RequestsAppend([log[0].request], log[0].collected);
      }
      RequestAlone(log[0]);
    }
  }

  lemma RequestAlone(item: Item)
    ensures item.Answered? ==> |Requests([item.request])| == if IsRequest(item.request) then 1 else 0
    ensures item.Ignored? ==> |Requests([item.pdu])| == if IsRequest(item.pdu) then 1 else 0
  {}

  /** The k-th response is the answer to the k-th request answered, numbered onwards from the first. */
  lemma {:induction false} ResponsesArePaired(log: seq<Item>, statSn: nat)
    requires forall item | item in log :: ItemOk(item)
    requires NumberedFrom(Responses(log), statSn)
    ensures |Responses(log)| == |AnsweredIn(log)|
    ensures forall k | 0 <= k < |Responses(log)| ::
              AnswersRequest(AnsweredIn(log)[k], Responses(log)[k], statSn + k)
  {
    hide AnswersRequest, CollectedOk, StatSn, IsRequest;
    if log != [] {
      assert log[0] in log;
      var rest, rs := log[1..], Responses(log[1..]);
      if log[0].Answered? {
        forall k | 0 <= k < |rs| ensures StatSn(rs[k]) == statSn + 1 + k {
          assert rs[k] == Responses(log)[k + 1];
        }
        ResponsesArePaired(rest, statSn + 1);
        assert StatSn(Responses(log)[0]) == statSn;
      } else {
        ResponsesArePaired(rest, statSn);
      }
    }
  }

  /** A request that arrives where a write still expects data is swallowed. What is there by then is
      passed on; from a connection in step, unless the block address overflows, neither the write nor
      anything after it in the session is ever answered. */
  lemma NextUnitIsSwallowed(p: Pdu, q: Pdu, statSn: u32, w: Window, a: Answer, rest: seq<u8>)
    requires p.bhs.opcode == SCSI_CMD && IsWrite(CdbOf(p)[0]) && !TooManyBlocks(CdbOf(p))
    requires |p.data| < Blocks(CdbOf(p)) * 512 && WellFormed(q) && q.bhs.opcode != DATA_OUT
    ensures var said := Said(a, Transfer(CdbOf(p), Block.WRITE_BLOCKS, p.data));
            Dispatch(p, statSn, w, a, Wire(q) + rest) ==
            Some(if said.Hangs? then Stuck else Reply(WriteReply(p, statSn, w, said), [q], p.data, rest))
    ensures a.lockFree && a.conn.Some? && Block.InStep(a.conn.value) &&
            !Block.Overflows(Transfer(CdbOf(p), Block.WRITE_BLOCKS, p.data)) ==>
              Dispatch(p, statSn, w, a, Wire(q) + rest) == Some(Stuck)
  {
    hide Wire, ReadPdu, WellFormed, WriteReply, Blocks, Lba, Block.Exchange, Block.Overflows;
    PduRoundTripExactly(q, rest);
    if a.conn.Some? && Block.InStep(a.conn.value) {
      Block.ExchangeExactly(a.conn.value, Transfer(CdbOf(p), Block.WRITE_BLOCKS, p.data));
    }
  }

  predicate IsCapacityQuery(cdb: Cdb) { cdb[0] == 0x25 || (cdb[0] == 0x9E && cdb[1] % 32 == 0x10) }

  predicate CommandPanics(cdb: Cdb, a: Answer) {
    (cdb[0] in {0x88, 0x8A} && TooManyBlocks(cdb)) || (IsCapacityQuery(cdb) && BlockSize(a) == 0)
  }

  /** The commands that bring the session down: READ(16) and WRITE(16) of 2^23 blocks or more, and
      a capacity query whose backend reports a block size of zero. */
  lemma ScsiPanicsExactly(p: Pdu, statSn: u32, w: Window, a: Answer, input: seq<u8>)
    ensures ScsiReply(p, statSn, w, a, input).Panicked? <==> CommandPanics(CdbOf(p), a)
    ensures TooManyBlocks(CdbOf(p)) <==> Blocks(CdbOf(p)) >= 0x80_0000
  {
    hide FromBe, FinalData, ScsiResponse, LastLba, WriteData, WriteReply, ReadReply, Block.Exchange;
    RangeValues();
  }
}
