// Which sessions answer every request: the condition is on what the initiator sends, on the block
// sockets and the backend as they stand when a request is served, and on how much the peer takes,
// never on what the session turned out to do.
module IscsiDelivery {
  import opened Basics
  import opened Wrappers
  import opened Bytes
  import opened IscsiPdu
  import opened IscsiResponses
  import opened IscsiSession
  import opened IscsiGuarantees
  import Block = BlockSocket

  // ---- What an initiator can tell before it sends

  /** Bytes a write announces; no other unit waits for data. */
  function Announced(p: Pdu): nat {
    if p.bhs.opcode == SCSI_CMD && IsWrite(CdbOf(p)[0]) then Blocks(CdbOf(p)) * 512 else 0
  }

  /** How many of the units that follow go into a write that has `have` of its `expected` bytes:
      Data-Outs until it has enough, or up to and with the first unit that is no Data-Out. Nothing
      if the units run out before. */
  function Fill(have: nat, expected: nat, ps: seq<Pdu>): (r: Option<nat>)
    ensures r.Some? ==> r.value <= |ps|
    decreases |ps|
  {
    if have >= expected then Some(0)
    else if ps == [] then None
    else if ps[0].bhs.opcode != 0x05 then Some(1)
    else
      match Fill(have + |ps[0].data|, expected, ps[1..])
      case None => None
      case Some(n) => Some(n + 1)
  }

  /** Bytes of data in the answer to a request. */
  function ReplyLen(p: Pdu, a: Answer): nat {
    var cdb := CdbOf(p);
    if p.bhs.opcode == TEXT_REQ then |a.targets|
    else if p.bhs.opcode != SCSI_CMD then 0
    else
      match cdb[0]
      case 0x12 => Min(|a.inquiry|, FromBe(cdb[3..5]))
      case 0x25 => 8
      case 0x9E => if cdb[1] % 32 == 0x10 then Min(32, FromBe(cdb[10..14])) else 0
      case 0x1A => 4
      case 0x5A => 8
      case 0xA0 => 16
      case 0x28 => ReadLen(cdb, a)
      case 0x88 => ReadLen(cdb, a)
      case 0xA3 => if cdb[1] % 32 == 0x0A then Min(|a.portGroups|, FromBe(cdb[6..10])) else 0
      case _ => 0
  }

  function ReadLen(cdb: Cdb, a: Answer): nat {
    if TooManyBlocks(cdb) then 0
    else
      var said := Said(a, Transfer(cdb, Block.READ_BLOCKS, []));
      if SaidOk(said) then |said.reply.data| else 0
  }

  function ReplySize(p: Pdu, a: Answer): nat { BHS_SIZE + PaddedLen(ReplyLen(p, a)) }

  /** The data a write passes on: its own up to what it announces, or with that of the units after. */
  function Gathered(p: Pdu, taken: seq<Pdu>): seq<u8> {
    if |p.data| >= Announced(p) then p.data[..Announced(p)] else p.data + DataOf(taken)
  }

  /** The block request that serves a command, if one is made for it. */
  function AskedFor(p: Pdu, data: seq<u8>): Option<Block.BlockRequest> {
    var cdb := CdbOf(p);
    if p.bhs.opcode != SCSI_CMD then None
    else if IsCapacityQuery(cdb) then Some(CAPACITY)
    else if TooManyBlocks(cdb) then None
    else if cdb[0] == 0x28 || cdb[0] == 0x88 then Some(Transfer(cdb, Block.READ_BLOCKS, []))
    else if IsWrite(cdb[0]) then Some(Transfer(cdb, Block.WRITE_BLOCKS, data))
    else None
  }

  /** The request waits for a reply of the block service that never comes. */
  predicate WaitsForReply(p: Pdu, a: Answer, data: seq<u8>) {
    var r := AskedFor(p, data);
    r.Some? && Said(a, r.value).Hangs?
  }

  /** From a free lock and a connection in step, only a write hangs, and exactly when the data gathered
      falls short of what it announces, unless its block address overflows. */
  lemma WaitsExactly(p: Pdu, a: Answer, data: seq<u8>)
    requires a.lockFree && a.conn.Some? && Block.InStep(a.conn.value)
    ensures WaitsForReply(p, a, data) <==>
            p.bhs.opcode == SCSI_CMD && IsWrite(CdbOf(p)[0]) && !TooManyBlocks(CdbOf(p)) && |data| < Announced(p) &&
            !Block.Overflows(Transfer(CdbOf(p), Block.WRITE_BLOCKS, data))
  {
    hide Block.Exchange, Block.Overflows, Blocks, Lba;
    if AskedFor(p, data).Some? {
      Block.ExchangeExactly(a.conn.value, AskedFor(p, data).value);
    }
  }

  /** The command does not panic, a reply comes from the block service if one is needed, and the
      answer fits its length field and what the peer still takes. */
  predicate Answerable(p: Pdu, a: Answer, data: seq<u8>, writable: nat) {
    !(p.bhs.opcode == SCSI_CMD && CommandPanics(CdbOf(p), a)) && !WaitsForReply(p, a, data) &&
    ReplyLen(p, a) < 0x100_0000 && ReplySize(p, a) <= writable
  }

  /** The session ends with the answer to this request: a logout, or the last number there is. */
  predicate Last(p: Pdu, statSn: u32) { p.bhs.opcode == LOGOUT_REQ || statSn == U32_MAX }

  /** The units can all be served from StatSN `statSn` on: the units do not run out while a write is
      being filled and none of those it takes is a request, every request is answerable with the data
      gathered for it, and no request follows the end of the session. */
  predicate Orderly(ps: seq<Pdu>, statSn: u32, answers: nat -> Answer, turn: nat, writable: nat)
    decreases |ps|
  {
    ps == [] ||
    var p, rest, a := ps[0], ps[1..], answers(turn);
    if !IsRequest(p) then Orderly(rest, statSn, answers, turn + 1, writable)
    else
      match Fill(|p.data|, Announced(p), rest)
      case None => false
      case Some(n) =>
        Answerable(p, a, Gathered(p, rest[..n]), writable) && Requests(rest[..n]) == [] &&
        if Last(p, statSn) then Requests(rest[n..]) == []
        else Orderly(rest[n..], statSn + 1, answers, turn + 1, writable - ReplySize(p, a))
  }

  // ---- One request

  lemma {:induction false} CollectOnList(buf: seq<u8>, expected: nat, ps: seq<Pdu>)
    requires forall p | p in ps :: WellFormed(p)
    ensures Collect(buf, expected, WireAll(ps)) ==
            match Fill(|buf|, expected, ps)
            case None => None
            case Some(n) => Some((buf + DataOf(ps[..n]), ps[..n], WireAll(ps[n..])))
    decreases |ps|
  {
    hide Wire, ReadPdu, WellFormed, DataOf, WireAll;
    NoUnits();
    if |buf| >= expected {
      assert ps[..0] == [] && ps[0..] == ps && buf + [] == buf;
    } else if ps == [] {
      NothingToRead();
    } else {
      var p, rest := ps[0], ps[1..];
      FirstOnWire(ps);
      PduRoundTripExactly(p, WireAll(rest));
      if p.bhs.opcode == DATA_OUT {
        CollectOnList(buf + p.data, expected, rest);
        var filled := Fill(|buf + p.data|, expected, rest);
        if filled.Some? {
          FrontCons(ps, filled.value);
          assert buf + p.data + DataOf(rest[..filled.value]) == buf + (p.data + DataOf(rest[..filled.value]));
        }
      } else {
        FrontCons(ps, 0);
        assert rest[..0] == [] && rest[0..] == rest && [p] + [] == [p] && buf + ([] + []) == buf;
      }
    }
  }

  lemma NoUnits()
    ensures DataOf([]) == [] && WireAll([]) == []
  {}

  lemma FirstOnWire(ps: seq<Pdu>)
    requires ps != []
    ensures WireAll(ps) == Wire(ps[0]) + WireAll(ps[1..])
  {
    hide Wire;
  }

  lemma FrontCons(ps: seq<Pdu>, n: nat)
    requires n < |ps|
    ensures ps[..n + 1] == [ps[0]] + ps[1..][..n] && ps[n + 1..] == ps[1..][n..]
    ensures DataOf(ps[..n + 1]) == (if ps[0].bhs.opcode == DATA_OUT then ps[0].data else []) + DataOf(ps[1..][..n])
  {
    assert ps[..n + 1][1..] == ps[1..][..n];
  }

  lemma NothingToRead()
    ensures ReadPdu([]) == None
  {}

  /** What one request comes to when the units `rest` follow it. */
  lemma DispatchOnList(p: Pdu, statSn: u32, w: Window, a: Answer, rest: seq<Pdu>)
    requires IsRequest(p) && forall q | q in rest :: WellFormed(q)
    ensures var h := Dispatch(p, statSn, w, a, WireAll(rest));
            h.Some? &&
            if p.bhs.opcode == SCSI_CMD && CommandPanics(CdbOf(p), a) then h.value.Panicked?
            else
              match Fill(|p.data|, Announced(p), rest)
              case None => h.value.StreamEnded?
              case Some(n) =>
                if WaitsForReply(p, a, Gathered(p, rest[..n])) then h.value.Stuck?
                else h.value.Reply? && h.value.collected == rest[..n] && h.value.rest == WireAll(rest[n..])
  {
    hide WellFormed, FinalData, ScsiResponse, TextResponse, NopIn, LogoutResponse, FromBe, Collect, LastLba, Take;
    hide Fill, Said, Size, BlockSize, ReadReply, TooManyBlocks, WriteHandled, Blocks, Lba, Gathered;
    assert rest[..0] == [] && rest[0..] == rest;
    NoFill(|p.data|, rest);
    if p.bhs.opcode == SCSI_CMD {
      ScsiPanicsExactly(p, statSn, w, a, WireAll(rest));
      if IsWrite(CdbOf(p)[0]) {
        WriteOnList(p, statSn, w, a, rest);
      }
    }
  }

  lemma NoFill(have: nat, ps: seq<Pdu>)
    ensures Fill(have, 0, ps) == Some(0)
  {}

  lemma WriteOnList(p: Pdu, statSn: u32, w: Window, a: Answer, rest: seq<Pdu>)
    requires p.bhs.opcode == SCSI_CMD && IsWrite(CdbOf(p)[0]) && forall q | q in rest :: WellFormed(q)
    ensures var h := WriteHandled(p, statSn, w, a, WireAll(rest));
            if TooManyBlocks(CdbOf(p)) then h == Panicked
            else
              match Fill(|p.data|, Announced(p), rest)
              case None => h == StreamEnded
              case Some(n) =>
                var data := Gathered(p, rest[..n]);
                var said := Said(a, Transfer(CdbOf(p), Block.WRITE_BLOCKS, data));
                h == if said.Hangs? then Stuck
                     else Reply(WriteReply(p, statSn, w, said), rest[..n], data, WireAll(rest[n..]))
  {
    hide WellFormed, WriteReply, Collect, Said, Blocks, Lba;
    CollectOnList(p.data, Announced(p), rest);
    assert rest[..0] == [] && rest[0..] == rest;
  }

  lemma ReplyHasLen(p: Pdu, statSn: u32, w: Window, a: Answer, input: seq<u8>)
    ensures var h := Dispatch(p, statSn, w, a, input);
            h.Some? && h.value.Reply? ==> |h.value.response.data| == ReplyLen(p, a)
  {
    hide FromBe, ToBe, WriteData, LastLba, WindowTail, Said, Blocks, Lba, Size, BlockSize;
  }

  lemma WireSize(p: Pdu)
    ensures |Wire(p)| == BHS_SIZE + PaddedLen(|p.data|)
  {
    hide Header;
    PaddedIsPad(|p.data|);
  }

  // ---- The request loop

  /** All responses are sent whole, and the initiator can take each off the stream. */
  predicate Delivered(rs: seq<Pdu>, writable: nat) {
    |WireAll(rs)| <= writable && forall r | r in rs :: |r.data| < 0x100_0000
  }

  lemma DeliveredCons(r: Pdu, rs: seq<Pdu>, writable: nat)
    ensures Delivered([r] + rs, writable) <==>
            |r.data| < 0x100_0000 && |Wire(r)| <= writable && Delivered(rs, writable - |Wire(r)|)
  {
    hide Wire;
    assert ([r] + rs)[1..] == rs;
  }

  lemma DeliveredNone(writable: nat)
    ensures Delivered([], writable)
  {}

  /** Answering one request and then some of those that follow leaves none out just when none was
      swallowed and none of the later ones is left out. */
  lemma NoneLeftOut(p: Pdu, swallowed: seq<Pdu>, due: seq<Pdu>, later: seq<Pdu>)
    requires |later| <= |due|
    ensures [p] + later == [p] + (swallowed + due) <==> swallowed == [] && later == due
  {
    var a, b := [p] + later, [p] + (swallowed + due);
    assert |b| == 1 + |swallowed| + |due|;
    if a == b {
      assert a[1..] == later && b[1..] == swallowed + due;
    }
    assert [] + due == due;
  }

  lemma LogCons(item: Item, log: seq<Item>)
    ensures AnsweredIn([item] + log) == (if item.Answered? then [item.request] else []) + AnsweredIn(log)
    ensures Responses([item] + log) == (if item.Answered? then [item.response] else []) + Responses(log)
  {
    assert ([item] + log)[1..] == log;
  }

  /** The log answers every request of the units, and its answers reach the initiator. */
  predicate AnswersAll(log: seq<Item>, ps: seq<Pdu>, writable: nat) {
    AnsweredIn(log) == Requests(ps) && Delivered(Responses(log), writable)
  }

  /** One answered request on top of what the rest of the loop does. */
  lemma AnswersOneMore(p: Pdu, collected: seq<Pdu>, due: seq<Pdu>, response: Pdu, later: seq<Item>, writable: nat)
    requires IsRequest(p) && |AnsweredIn(later)| <= |Requests(due)|
    ensures var log, ps := [Answered(p, collected, response)] + later, [p] + (collected + due);
            |AnsweredIn(log)| <= |Requests(ps)| &&
            (AnswersAll(log, ps, writable) <==>
             Requests(collected) == [] && |response.data| < 0x100_0000 && |Wire(response)| <= writable &&
             AnswersAll(later, due, writable - |Wire(response)|))
  {
    hide Wire, IsRequest, Delivered;
    var ps := [p] + (collected + due);
    assert ps[1..] == collected + due;
    RequestsAppend(collected, due);
    LogCons(Answered(p, collected, response), later);
    DeliveredCons(response, Responses(later), writable);
    NoneLeftOut(p, Requests(collected), Requests(due), AnsweredIn(later));
  }

  /** The loop answers every request it is sent, and the answers reach the initiator, if and only
      if the units are orderly. */
  lemma {:induction false} ServeAnswers(
      ps: seq<Pdu>, statSn: u32, w: Window, answers: nat -> Answer, turn: nat, writable: nat)
    requires forall p | p in ps :: WellFormed(p)
    ensures var log := Serve(WireAll(ps), statSn, w, answers, turn, writable).log;
            |AnsweredIn(log)| <= |Requests(ps)| &&
            (AnswersAll(log, ps, writable) <==> Orderly(ps, statSn, answers, turn, writable))
    decreases |ps|, 1
  {
    hide Wire, ReadPdu, WellFormed, Dispatch, IsRequest, Delivered, CommandPanics, Fill, Announced, WaitsForReply;
    hide Gathered, ReplyLen;
    if ps == [] {
      NothingToRead();
      DeliveredNone(writable);
    } else {
      var p, rest, a := ps[0], ps[1..], answers(turn);
      PduRoundTripExactly(p, WireAll(rest));
      if IsRequest(p) {
        DispatchOnList(p, statSn, w, a, rest);
        if Dispatch(p, statSn, w, a, WireAll(rest)).value.Reply? {
          ServeAnswersRequest(ps, statSn, w, answers, turn, writable);
        }
      } else {
        DispatchAnswers(p, statSn, w, a, WireAll(rest));
        ServeAnswers(rest, statSn, w, answers, turn + 1, writable);
        LogCons(Ignored(p), Serve(WireAll(rest), statSn, w, answers, turn + 1, writable).log);
      }
    }
  }

  lemma {:induction false} ServeAnswersRequest(
      ps: seq<Pdu>, statSn: u32, w: Window, answers: nat -> Answer, turn: nat, writable: nat)
    requires ps != [] && IsRequest(ps[0]) && forall p | p in ps :: WellFormed(p)
    requires Dispatch(ps[0], statSn, w, answers(turn), WireAll(ps[1..])).value.Reply?
    ensures var log := Serve(WireAll(ps), statSn, w, answers, turn, writable).log;
            |AnsweredIn(log)| <= |Requests(ps)| &&
            (AnswersAll(log, ps, writable) <==> Orderly(ps, statSn, answers, turn, writable))
    decreases |ps|, 0
  {
    hide Wire, WellFormed, Dispatch, IsRequest, CommandPanics, Fill, Announced, Requests, AnsweredIn;
    hide ReplySize, ReplyLen, AnswersAll, Serve, Orderly, WaitsForReply, Gathered;
    var p, rest, a := ps[0], ps[1..], answers(turn);
    DispatchOnList(p, statSn, w, a, rest);
    var response := Dispatch(p, statSn, w, a, WireAll(rest)).value.response;
    var n := Fill(|p.data|, Announced(p), rest).value;
    ReplyHasLen(p, statSn, w, a, WireAll(rest));
    WireSize(response);
    SizeIs(p, a, response);
    ServeRequest(ps, statSn, w, answers, turn, writable);
    OrderlyRequest(ps, statSn, answers, turn, writable, n);
    var later := [];
    if |Wire(response)| <= writable && !Last(p, statSn) {
      var left := writable - |Wire(response)|;
      ServeAnswers(rest[n..], statSn + 1, w, answers, turn + 1, left);
      later := Serve(WireAll(rest[n..]), statSn + 1, w, answers, turn + 1, left).log;
    } else {
      NothingLater(rest[n..]);
    }
    AnswersOneMore(p, rest[..n], rest[n..], response, later, writable);
    assert ps == [p] + (rest[..n] + rest[n..]);
  }

  lemma SizeIs(p: Pdu, a: Answer, r: Pdu)
    requires |r.data| == ReplyLen(p, a) && |Wire(r)| == BHS_SIZE + PaddedLen(|r.data|)
    ensures |Wire(r)| == ReplySize(p, a)
  {
    hide ReplyLen, Wire;
  }

  /** The log of a loop whose first unit is a request that gets a reply. */
  lemma ServeRequest(ps: seq<Pdu>, statSn: u32, w: Window, answers: nat -> Answer, turn: nat, writable: nat)
    requires ps != [] && IsRequest(ps[0]) && forall p | p in ps :: WellFormed(p)
    requires Dispatch(ps[0], statSn, w, answers(turn), WireAll(ps[1..])).value.Reply?
    ensures var h := Dispatch(ps[0], statSn, w, answers(turn), WireAll(ps[1..])).value;
            Serve(WireAll(ps), statSn, w, answers, turn, writable).log ==
            [Answered(ps[0], h.collected, h.response)] +
            if |Wire(h.response)| > writable || Last(ps[0], statSn) then []
            else Serve(h.rest, statSn + 1, w, answers, turn + 1, writable - |Wire(h.response)|).log
  {
    hide Wire, ReadPdu, WellFormed, Dispatch;
    PduRoundTripExactly(ps[0], WireAll(ps[1..]));
    DispatchAnswers(ps[0], statSn, w, answers(turn), WireAll(ps[1..]));
    var h := Dispatch(ps[0], statSn, w, answers(turn), WireAll(ps[1..])).value;
    assert [Answered(ps[0], h.collected, h.response)] + [] == [Answered(ps[0], h.collected, h.response)];
  }

  lemma OrderlyRequest(ps: seq<Pdu>, statSn: u32, answers: nat -> Answer, turn: nat, writable: nat, n: nat)
    requires ps != [] && IsRequest(ps[0]) && Fill(|ps[0].data|, Announced(ps[0]), ps[1..]) == Some(n)
    ensures var p, rest, a := ps[0], ps[1..], answers(turn);
            Orderly(ps, statSn, answers, turn, writable) <==>
            Answerable(p, a, Gathered(p, rest[..n]), writable) && Requests(rest[..n]) == [] &&
            if Last(p, statSn) then Requests(rest[n..]) == []
            else Orderly(rest[n..], statSn + 1, answers, turn + 1, writable - ReplySize(p, a))
  {
    hide IsRequest, Fill, Announced, Requests, CommandPanics, WaitsForReply, ReplyLen, Gathered;
  }

  lemma NothingLater(ps: seq<Pdu>)
    ensures AnsweredIn([]) == []
    ensures forall left: nat :: AnswersAll([], ps, left) <==> Requests(ps) == []
  {
    forall left: nat ensures Delivered([], left) { DeliveredNone(left); }
  }

  // ---- The wire

  lemma {:induction false} ReadManySize(n: nat, s: seq<u8>)
    requires ReadMany(n, s).Some?
    ensures |s| == |WireAll(ReadMany(n, s).value.0)| + |ReadMany(n, s).value.1|
  {
    hide ReadPdu, Wire, WellFormed;
    if n > 0 {
      ReadStaysInStep(s);
      var (p, rest) := ReadPdu(s).value;
      ReadManySize(n - 1, rest);
      assert ([p] + ReadMany(n - 1, rest).value.0)[1..] == ReadMany(n - 1, rest).value.0;
    }
  }

  /** Responses are delivered just when the initiator reads exactly them off what was sent. */
  lemma DeliveredIsRead(rs: seq<Pdu>, writable: nat)
    requires forall r | r in rs :: WellFormed(r) <==> |r.data| < 0x100_0000
    ensures Delivered(rs, writable) <==> ReadMany(|rs|, Take(WireAll(rs), writable)) == Some((rs, []))
  {
    hide ReadMany, WireAll, WellFormed;
    ListRoundTripExactly(rs, []);
    assert WireAll(rs) + [] == WireAll(rs);
    if |WireAll(rs)| <= writable {
      TakeWhole(WireAll(rs), writable);
    } else if ReadMany(|rs|, Take(WireAll(rs), writable)) == Some((rs, [])) {
      ReadManySize(|rs|, Take(WireAll(rs), writable));
    }
  }

  lemma {:induction false} ResponsesFit(log: seq<Item>)
    requires forall item | item in log :: ItemOk(item)
    ensures forall r | r in Responses(log) :: WellFormed(r) <==> |r.data| < 0x100_0000
  {
    hide WellFormed, CollectedOk, KindMatches, StatSn;
    if log != [] {
      assert log[0] in log;
      ResponsesFit(log[1..]);
    }
  }

  // ---- Whole sessions

  function LoginData(verdict: LoginVerdict): seq<u8> {
    if verdict.Granted? then EncodedParams(LoginParams()) else []
  }

  function LoginSize(verdict: LoginVerdict): nat { BHS_SIZE + PaddedLen(|LoginData(verdict)|) }

  lemma {:induction false} EncodedBound(ps: seq<Param>)
    requires forall p | p in ps :: |p.0| + |p.1| <= 62
    ensures |EncodedParams(ps)| <= 64 * |ps|
  {
    if ps != [] {
      EncodedBound(ps[1..]);
    }
  }

  lemma LoginFits(verdict: LoginVerdict)
    ensures |LoginData(verdict)| < 0x100_0000
  {
    hide EncodedParams, Ascii;
    EncodedBound(LoginParams());
  }

  /** A login followed by units that can all be served; nothing may follow a login that is refused. */
  predicate OrderlySession(login: Pdu, ps: seq<Pdu>, b: LoginBackend, answers: nat -> Answer, writable: nat) {
    var verdict := Verdict(login, b);
    login.bhs.opcode == LOGIN_REQ && ExpCmdSn(login) + 32 <= U32_MAX && !verdict.Unknown? &&
    LoginSize(verdict) <= writable &&
    if verdict.Granted? then Orderly(ps, 2, answers, 0, writable - LoginSize(verdict)) else Requests(ps) == []
  }

  lemma LoginCarries(tag: u32, statusClass: u8, detail: u8, w: Window, transit: bool, data: seq<u8>)
    ensures LoginResponse(tag, statusClass, detail, 1, w, transit, data).data == data
  {
    hide ToBe;
  }

  lemma SessionAnswers(login: Pdu, ps: seq<Pdu>, b: LoginBackend, answers: nat -> Answer, writable: nat)
    requires WellFormed(login) && forall p | p in ps :: WellFormed(p)
    ensures var log := Session(Wire(login) + WireAll(ps), b, answers, writable).log;
            AnsweredIn(log) == [login] + Requests(ps) && Delivered(Responses(log), writable) <==>
            OrderlySession(login, ps, b, answers, writable)
  {
    hide Wire, ReadPdu, WellFormed, Serve, Orderly, Requests, Delivered, ExpCmdSn, Verdict, LoginParams;
    hide LoginResponse, PaddedLen;
    PduRoundTripExactly(login, WireAll(ps));
    if login.bhs.opcode == LOGIN_REQ && ExpCmdSn(login) + 32 <= U32_MAX && !Verdict(login, b).Unknown? {
      var verdict := Verdict(login, b);
      var w := Window(ExpCmdSn(login), ExpCmdSn(login) + 32);
      var response :=
        if verdict.Granted? then LoginResponse(login.bhs.initiatorTaskTag, 0, 0, 1, w, true, LoginData(verdict))
        else LoginResponse(login.bhs.initiatorTaskTag, 2, verdict.detail, 1, w, false, []);
      LoginCarries(login.bhs.initiatorTaskTag, 0, 0, w, true, LoginData(verdict));
      if verdict.Denied? {
        LoginCarries(login.bhs.initiatorTaskTag, 2, verdict.detail, w, false, []);
      }
      WireSize(response);
      LoginFits(verdict);
      var later := [];
      if verdict.Granted? && |Wire(response)| <= writable {
        var left := writable - |Wire(response)|;
        ServeAnswers(ps, 2, w, answers, 0, left);
        later := Serve(WireAll(ps), 2, w, answers, 0, left).log;
      } else if |Wire(response)| <= writable {
        DeliveredNone(writable - |Wire(response)|);
      }
      var item := Answered(login, [], response);
      assert Session(Wire(login) + WireAll(ps), b, answers, writable).log == [item] + later by {
        assert [item] + [] == [item];
      }
      LogCons(item, later);
      DeliveredCons(response, Responses(later), writable);
      NoneLeftOut(login, [], Requests(ps), AnsweredIn(later));
      assert [] + Requests(ps) == Requests(ps);
      var log := Session(Wire(login) + WireAll(ps), b, answers, writable).log;
      assert AnsweredIn(log) == [login] + AnsweredIn(later) && Responses(log) == [response] + Responses(later);
      assert AnsweredIn(log) == [login] + Requests(ps) <==> AnsweredIn(later) == Requests(ps);
      assert |Wire(response)| == LoginSize(verdict);
    }
  }

  /** An initiator sends a login and then any units. It reads off the wire exactly one answer to the
      login and to each of its requests, in order, numbered from 1 and under their task tags, if and
      only if what it sent was orderly. */
  lemma EveryRequestAnsweredOnce(login: Pdu, ps: seq<Pdu>, b: LoginBackend, answers: nat -> Answer, writable: nat)
    requires WellFormed(login) && forall p | p in ps :: WellFormed(p)
    ensures var t, asked := Session(Wire(login) + WireAll(ps), b, answers, writable), [login] + Requests(ps);
            var rs := Responses(t.log);
            (AnsweredIn(t.log) == asked && ReadMany(|rs|, Sent(t, writable)) == Some((rs, [])) <==>
             OrderlySession(login, ps, b, answers, writable)) &&
            (AnsweredIn(t.log) == asked ==>
               |rs| == |asked| && forall k | 0 <= k < |asked| :: AnswersRequest(asked[k], rs[k], 1 + k))
  {
    hide Session, Wire, WireAll, WellFormed, OrderlySession, ItemOk, NumberedFrom, ReadMany, AnswersRequest, Delivered;
    var input := Wire(login) + WireAll(ps);
    var t := Session(input, b, answers, writable);
    SessionKeeps(input, b, answers, writable);
    ResponsesFit(t.log);
    ResponsesArePaired(t.log, 1);
    DeliveredIsRead(Responses(t.log), writable);
    SessionAnswers(login, ps, b, answers, writable);
  }

  // ---- Any stream

  /** Every response has the length its request and the backend's answer of that turn call for. */
  predicate RepliesFrom(log: seq<Item>, answers: nat -> Answer, turn: nat) {
    forall k | 0 <= k < |log| && log[k].Answered? ::
      |log[k].response.data| == ReplyLen(log[k].request, answers(turn + k))
  }

  lemma RepliesCons(item: Item, log: seq<Item>, answers: nat -> Answer, turn: nat)
    requires item.Answered? ==> |item.response.data| == ReplyLen(item.request, answers(turn))
    requires RepliesFrom(log, answers, turn + 1)
    ensures RepliesFrom([item] + log, answers, turn)
  {
    hide ReplyLen;
    var all := [item] + log;
    forall k | 0 <= k < |all| && all[k].Answered?
      ensures |all[k].response.data| == ReplyLen(all[k].request, answers(turn + k))
    {
      if k > 0 {
        assert all[k] == log[k - 1] && turn + k == turn + 1 + (k - 1);
      }
    }
  }

  lemma {:induction false} ServeReplies(
      input: seq<u8>, statSn: u32, w: Window, answers: nat -> Answer, turn: nat, writable: nat)
    ensures RepliesFrom(Serve(input, statSn, w, answers, turn, writable).log, answers, turn)
    decreases |input|
  {
    hide ReadPdu, Wire, Dispatch, ReplyLen;
    var log := Serve(input, statSn, w, answers, turn, writable).log;
    if ReadPdu(input).Some? {
      var (p, rest) := ReadPdu(input).value;
      var h := Dispatch(p, statSn, w, answers(turn), rest);
      ReplyHasLen(p, statSn, w, answers(turn), rest);
      if h.None? {
        ServeReplies(rest, statSn, w, answers, turn + 1, writable);
        RepliesCons(Ignored(p), log[1..], answers, turn);
      } else if h.value.Reply? {
        if |log| > 1 {
          ServeReplies(h.value.rest, statSn + 1, w, answers, turn + 1, writable - |Wire(h.value.response)|);
        }
        RepliesCons(log[0], log[1..], answers, turn);
        assert log == [log[0]] + log[1..];
      }
    }
  }

  lemma {:induction false} ResponsesOf(log: seq<Item>)
    ensures forall r | r in Responses(log) ::
              exists k | 0 <= k < |log| :: log[k].Answered? && log[k].response == r
    ensures forall k | 0 <= k < |log| && log[k].Answered? :: log[k].response in Responses(log)
  {
    if log != [] {
      ResponsesOf(log[1..]);
      forall r | r in Responses(log)
        ensures exists k | 0 <= k < |log| :: log[k].Answered? && log[k].response == r
      {
        if !(log[0].Answered? && log[0].response == r) {
          assert r in Responses(log[1..]);
          var k :| 0 <= k < |log[1..]| && log[1..][k].Answered? && log[1..][k].response == r;
          assert log[k + 1].response == r;
        }
      }
      forall k | 0 <= k < |log| && log[k].Answered? ensures log[k].response in Responses(log) {
        if k > 0 {
          assert log[1..][k - 1] == log[k];
        }
      }
    }
  }

  /** Whatever bytes arrive: the initiator can take every response off the stream if and only if the
      peer takes them all and no request served asks for 2^24 bytes or more that the backend has. */
  lemma SentDecodesExactly(input: seq<u8>, b: LoginBackend, answers: nat -> Answer, writable: nat)
    ensures var t := Session(input, b, answers, writable);
            var rs := Responses(t.log);
            ReadMany(|rs|, Sent(t, writable)) == Some((rs, [])) <==>
            |WireAll(rs)| <= writable &&
            forall k | 0 < k < |t.log| && t.log[k].Answered? :: ReplyLen(t.log[k].request, answers(k - 1)) < 0x100_0000
  {
    hide Session, ReadMany, WireAll, AnswersRequest, WellFormed, ReplyLen, IsRequest, Admitted;
    var t := Session(input, b, answers, writable);
    SessionKeeps(input, b, answers, writable);
    ResponsesFit(t.log);
    ResponsesOf(t.log);
    DeliveredIsRead(Responses(t.log), writable);
    SessionReplies(input, b, answers, writable);
    forall k | 0 < k < |t.log| && t.log[k].Answered?
      ensures |t.log[k].response.data| == ReplyLen(t.log[k].request, answers(k - 1))
    {
      assert t.log[k] == t.log[1..][k - 1];
    }
  }

  lemma SessionReplies(input: seq<u8>, b: LoginBackend, answers: nat -> Answer, writable: nat)
    ensures var log := Session(input, b, answers, writable).log;
            log != [] ==>
              (log[0].Answered? ==> |log[0].response.data| < 0x100_0000) && RepliesFrom(log[1..], answers, 0)
  {
    hide ReadPdu, Wire, Serve, Verdict, ExpCmdSn, LoginParams, ReplyLen, LoginResponse, EncodedParams;
    if ReadPdu(input).Some? {
      var (p, rest) := ReadPdu(input).value;
      var w := Window(ExpCmdSn(p), Min(ExpCmdSn(p) + 32, U32_MAX));
      forall detail: u8 ensures LoginResponse(p.bhs.initiatorTaskTag, 2, detail, 1, w, false, []).data == [] {
        LoginCarries(p.bhs.initiatorTaskTag, 2, detail, w, false, []);
      }
      if p.bhs.opcode == LOGIN_REQ && ExpCmdSn(p) + 32 <= U32_MAX && Verdict(p, b).Granted? {
        LoginFits(Granted);
        LoginCarries(p.bhs.initiatorTaskTag, 0, 0, w, true, LoginData(Granted));
        var response := LoginResponse(p.bhs.initiatorTaskTag, 0x00, 0x00, 1, w, true, LoginData(Granted));
        if |Wire(response)| <= writable {
          ServeReplies(rest, 2, w, answers, 0, writable - |Wire(response)|);
        }
      }
    }
  }
}
