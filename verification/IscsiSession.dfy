// One iSCSI session: the login, then the request loop, over the bytes of one connection.
module IscsiSession {
  import opened Basics
  import opened Wrappers
  import opened Bytes
  import opened StdText
  import opened IscsiPdu
  import opened IscsiResponses
  import Block = BlockSocket

  // ---- What the storage backend says

  type Name = seq<u8>

  /** The backend's part in a login: each request may fail outright or be refused. */
  datatype LoginBackend = LoginBackend(
    volume: Result<Option<Name>, ()>, acl: Result<Option<seq<Option<Name>>>, ()>)

  /** The backend's part in one request: whether the lock of the block sockets comes free, the
      connection to the volume's service at that moment if there is one or can be made, what a
      capacity reply says, and the texts of the management service. */
  datatype Answer = Answer(
    lockFree: bool, conn: Option<Block.Conn>, size: u64, blockSize: u64,
    inquiry: seq<u8>, targets: seq<u8>, portGroups: seq<u8>)

  /** What comes of a block request. */
  function Said(a: Answer, r: Block.BlockRequest): Block.Exchanged {
    if !a.lockFree then Block.Hangs
    else
      match a.conn
      case None => Block.Failed
      case Some(c) => Block.Exchange(c, r).0
  }

  predicate SaidOk(said: Block.Exchanged) { said.Answered? && said.reply.status == Block.STATUS_OK }

  const CAPACITY: Block.BlockRequest := Block.BlockRequest(Block.GET_CAPACITY, 0, 0, [])

  /** A capacity query that fails reads as 0 bytes in blocks of 512. */
  function Size(a: Answer): u64 { if SaidOk(Said(a, CAPACITY)) then a.size else 0 }
  function BlockSize(a: Answer): u64 { if SaidOk(Said(a, CAPACITY)) then a.blockSize else 512 }

  // ---- SCSI commands

  type Cdb = s: seq<u8> | |s| == 16 witness Zeros(16)

  function CdbOf(p: Pdu): Cdb { p.bhs.specific[12..28] }

  datatype Handled =
    | Reply(response: Pdu, collected: seq<Pdu>, stored: seq<u8>, rest: seq<u8>)
    | StreamEnded
    | Panicked
    | Stuck

  function LastLba(size: u64, blockSize: u64): nat
    requires blockSize > 0
  {
    var blocks := size / blockSize;
    if blocks == 0 then 0 else blocks - 1
  }

  /** The data gathered, the units taken off the stream for it, and what is left of the stream. */
  type Collection = (seq<u8>, seq<Pdu>, seq<u8>)

  function Prepend(ps: seq<Pdu>, r: Option<Collection>): Option<Collection> {
    match r
    case None => None
    case Some((data, more, rest)) => Some((data, ps + more, rest))
  }

  lemma PrependNone(r: Option<Collection>)
    ensures Prepend([], r) == r
  {
    if r.Some? {
      assert [] + r.value.1 == r.value.1;
    }
  }

  lemma PrependTwice(ps: seq<Pdu>, p: Pdu, r: Option<Collection>)
    ensures Prepend(ps, Prepend([p], r)) == Prepend(ps + [p], r)
  {
    if r.Some? {
      assert ps + ([p] + r.value.1) == ps + [p] + r.value.1;
    }
  }

  /** Units taken off the stream until `expected` bytes are there. The first one that is no
      Data-Out ends the collection and is taken off too. */
  function Collect(buf: seq<u8>, expected: nat, input: seq<u8>): (r: Option<Collection>)
    ensures r.Some? ==> |r.value.2| <= |input|
    decreases |input|
  {
    if |buf| >= expected then Some((buf, [], input))
    else
      match ReadPdu(input)
      case None => None
      case Some((p, rest)) =>
        if p.bhs.opcode != DATA_OUT then Some((buf, [p], rest))
        else Prepend([p], Collect(buf + p.data, expected, rest))
  }

  function WriteData(p: Pdu, expected: nat, input: seq<u8>): (r: Option<Collection>)
    ensures r.Some? ==> |r.value.2| <= |input|
  {
    if |p.data| >= expected then Some((p.data[..expected], [], input)) else Collect(p.data, expected, input)
  }

  function FinalData(tag: u32, statSn: u32, data: seq<u8>): Pdu {
    DataIn(tag, statSn, 0, 0, data, true, Some(GOOD))
  }

  /** Where a command starts, and the blocks it transfers: the ten-byte and the sixteen-byte forms
      lay them out differently. */
  predicate IsTen(cdb: Cdb) { cdb[0] == 0x28 || cdb[0] == 0x2A }

  function Lba(cdb: Cdb): u64 {
    RangeValues();
    if IsTen(cdb) then FromBe(cdb[2..6]) else FromBe(cdb[2..10])
  }

  function Blocks(cdb: Cdb): nat { if IsTen(cdb) then FromBe(cdb[7..9]) else FromBe(cdb[10..14]) }

  /** A multiplication by the block size in 32 bits that overflows panics. */
  predicate TooManyBlocks(cdb: Cdb) { Blocks(cdb) * 512 > U32_MAX }

  function Transfer(cdb: Cdb, cmd: u32, data: seq<u8>): Block.BlockRequest
    requires !TooManyBlocks(cdb)
  {
    Block.BlockRequest(cmd, Lba(cdb), Blocks(cdb) * 512, data)
  }

  function ReadReply(p: Pdu, statSn: u32, w: Window, said: Block.Exchanged): Pdu {
    if SaidOk(said) then FinalData(p.bhs.initiatorTaskTag, statSn, said.reply.data)
    else ScsiResponse(p.bhs.initiatorTaskTag, statSn, w, CHECK_CONDITION)
  }

  function ReadHandled(p: Pdu, statSn: u32, w: Window, a: Answer, input: seq<u8>): (r: Handled)
    ensures r.Reply? ==> |r.rest| <= |input|
  {
    var cdb := CdbOf(p);
    if TooManyBlocks(cdb) then Panicked
    else
      var said := Said(a, Transfer(cdb, Block.READ_BLOCKS, []));
      if said.Hangs? then Stuck else Reply(ReadReply(p, statSn, w, said), [], [], input)
  }

  function WriteReply(p: Pdu, statSn: u32, w: Window, said: Block.Exchanged): Pdu {
    ScsiResponse(p.bhs.initiatorTaskTag, statSn, w, if SaidOk(said) then GOOD else CHECK_CONDITION)
  }

  /** The data is collected first, then passed on under a header that says what was announced. */
  function WriteHandled(p: Pdu, statSn: u32, w: Window, a: Answer, input: seq<u8>): (r: Handled)
    ensures r.Reply? ==> |r.rest| <= |input|
  {
    var cdb := CdbOf(p);
    if TooManyBlocks(cdb) then Panicked
    else
      match WriteData(p, Blocks(cdb) * 512, input)
      case None => StreamEnded
      case Some((data, collected, rest)) =>
        var said := Said(a, Transfer(cdb, Block.WRITE_BLOCKS, data));
        if said.Hangs? then Stuck else Reply(WriteReply(p, statSn, w, said), collected, data, rest)
  }

  predicate IsWrite(op: u8) { op == 0x2A || op == 0x8A }

  function ScsiReply(p: Pdu, statSn: u32, w: Window, a: Answer, input: seq<u8>): (r: Handled)
    ensures r.Reply? ==> |r.rest| <= |input|
  {
    var cdb := CdbOf(p);
    var op := cdb[0];
    var tag := p.bhs.initiatorTaskTag;
    var sa := cdb[1] % 32;
    if op == 0x00 then Reply(ScsiResponse(tag, statSn, w, GOOD), [], [], input)
    else if op == 0x12 then Reply(FinalData(tag, statSn, Take(a.inquiry, FromBe(cdb[3..5]))), [], [], input)
    else if op == 0x25 then
      if Said(a, CAPACITY).Hangs? then Stuck
      else if BlockSize(a) == 0 then Panicked
      else
        var last := Min(LastLba(Size(a), BlockSize(a)), U32_MAX);
        Reply(FinalData(tag, statSn, ToBe(last, 4) + ToBe(BlockSize(a), 4)), [], [], input)
    else if op == 0x9E then
      if sa != 0x10 then Reply(ScsiResponse(tag, statSn, w, CHECK_CONDITION), [], [], input)
      else if Said(a, CAPACITY).Hangs? then Stuck
      else if BlockSize(a) == 0 then Panicked
      else
        var d := ToBe(LastLba(Size(a), BlockSize(a)), 8) + ToBe(BlockSize(a), 4) + Zeros(20);
        Reply(FinalData(tag, statSn, Take(d, FromBe(cdb[10..14]))), [], [], input)
    else if op == 0x1A then Reply(FinalData(tag, statSn, [3, 0, 0, 0]), [], [], input)
    else if op == 0x5A then Reply(FinalData(tag, statSn, [0, 6, 0, 0, 0, 0, 0, 0]), [], [], input)
    else if op == 0xA0 then Reply(FinalData(tag, statSn, ToBe(8, 4) + Zeros(12)), [], [], input)
    else if op == 0x28 || op == 0x88 then ReadHandled(p, statSn, w, a, input)
    else if IsWrite(op) then WriteHandled(p, statSn, w, a, input)
    else if op == 0xA3 then
      if sa == 0x0A then Reply(FinalData(tag, statSn, Take(a.portGroups, FromBe(cdb[6..10]))), [], [], input)
      else Reply(ScsiResponse(tag, statSn, w, CHECK_CONDITION), [], [], input)
    else Reply(ScsiResponse(tag, statSn, w, CHECK_CONDITION), [], [], input)
  }

  // ---- The session

  datatype Outcome =
    | Closed | LoggedOut | NoLogin | Refused | BackendFailed | ReadFailed | WriteFailed | Panic
    | WaitsForever

  datatype Item = Answered(request: Pdu, collected: seq<Pdu>, response: Pdu) | Ignored(pdu: Pdu)

  /** What happened on a connection: the units read and answered, in order, and how it ended. */
  datatype Transcript = Transcript(log: seq<Item>, outcome: Outcome)

  function Cons(item: Item, t: Transcript): Transcript { Transcript([item] + t.log, t.outcome) }

  function Dispatch(p: Pdu, statSn: u32, w: Window, a: Answer, input: seq<u8>): (r: Option<Handled>)
    ensures r.Some? && r.value.Reply? ==> |r.value.rest| <= |input|
  {
    var tag := p.bhs.initiatorTaskTag;
    if p.bhs.opcode == SCSI_CMD then Some(ScsiReply(p, statSn, w, a, input))
    else if p.bhs.opcode == TEXT_REQ then Some(Reply(TextResponse(tag, statSn, w, a.targets), [], [], input))
    else if p.bhs.opcode == NOP_OUT then Some(Reply(NopIn(tag, statSn, w), [], [], input))
    else if p.bhs.opcode == LOGOUT_REQ then Some(Reply(LogoutResponse(tag, statSn, w), [], [], input))
    else None
  }

  /** The request loop from StatSN `statSn` on; `writable` bytes can still be sent. */
  function Serve(
      input: seq<u8>, statSn: u32, w: Window, answers: nat -> Answer, turn: nat, writable: nat): Transcript
    decreases |input|
  {
    match ReadPdu(input)
    case None => Transcript([], Closed)
    case Some((p, rest)) =>
      match Dispatch(p, statSn, w, answers(turn), rest)
      case None => Cons(Ignored(p), Serve(rest, statSn, w, answers, turn + 1, writable))
      case Some(handled) =>
        match handled
        case StreamEnded => Transcript([], ReadFailed)
        case Panicked => Transcript([], Panic)
        case Stuck => Transcript([], WaitsForever)
        case Reply(response, collected, _, after) =>
          var item := Answered(p, collected, response);
          if |Wire(response)| > writable then Transcript([item], WriteFailed)
          else if p.bhs.opcode == LOGOUT_REQ then Transcript([item], LoggedOut)
          else if statSn == U32_MAX then Transcript([item], Panic)
          else Cons(item, Serve(after, statSn + 1, w, answers, turn + 1, writable - |Wire(response)|))
  }

  // ---- Login

  function ParamOr(ps: seq<Param>, key: seq<u8>, fallback: seq<u8>): seq<u8> {
    if ps == [] then fallback else if ps[0].0 == key then ps[0].1 else ParamOr(ps[1..], key, fallback)
  }

  /** What a login comes to: granted, refused with a status detail, or given up on. */
  datatype LoginVerdict = Granted | Denied(detail: u8) | Unknown

  predicate OnAcl(acl: seq<Option<Name>>, name: Name) { Some(name) in acl }

  function Verdict(p: Pdu, b: LoginBackend): LoginVerdict {
    var ps := ParseTextParams(p.data);
    var initiator := ParamOr(ps, Ascii("InitiatorName"), []);
    if ParamOr(ps, Ascii("SessionType"), Ascii("Normal")) == Ascii("Discovery") then Granted
    else
      match b.volume
      case Err(_) => Unknown
      case Ok(None) => Denied(0x00)
      case Ok(Some(_)) =>
        match b.acl
        case Err(_) => Unknown
        case Ok(None) => Granted
        case Ok(Some(acl)) => if acl == [] || OnAcl(acl, initiator) then Granted else Denied(0x01)
  }

  function LoginParams(): seq<Param> { TransferParams() + ConnectionParams() }

  function TransferParams(): seq<Param> {
    [(Ascii("HeaderDigest"), Ascii("None")), (Ascii("DataDigest"), Ascii("None")),
     (Ascii("MaxRecvDataSegmentLength"), Ascii("65536")), (Ascii("MaxBurstLength"), Ascii("262144")),
     (Ascii("FirstBurstLength"), Ascii("65536")), (Ascii("DefaultTime2Wait"), Ascii("2"))]
  }

  function ConnectionParams(): seq<Param> {
    [(Ascii("DefaultTime2Retain"), Ascii("20")), (Ascii("MaxOutstandingR2T"), Ascii("1")),
     (Ascii("InitialR2T"), Ascii("Yes")), (Ascii("ImmediateData"), Ascii("Yes")),
     (Ascii("MaxConnections"), Ascii("1")), (Ascii("ErrorRecoveryLevel"), Ascii("0"))]
  }

  function ExpCmdSn(p: Pdu): u32 {
    RangeValues();
    FromBe(p.bhs.specific[8..12])
  }

  function Session(input: seq<u8>, b: LoginBackend, answers: nat -> Answer, writable: nat): Transcript {
    match ReadPdu(input)
    case None => Transcript([], ReadFailed)
    case Some((p, rest)) =>
      if p.bhs.opcode != LOGIN_REQ then Transcript([], NoLogin)
      else if ExpCmdSn(p) + 32 > U32_MAX then Transcript([], Panic)
      else
        var w := Window(ExpCmdSn(p), ExpCmdSn(p) + 32);
        var tag := p.bhs.initiatorTaskTag;
        match Verdict(p, b)
        case Unknown => Transcript([], BackendFailed)
        case Denied(detail) =>
          var response := LoginResponse(tag, 0x02, detail, 1, w, false, []);
          Transcript([Answered(p, [], response)], if |Wire(response)| > writable then WriteFailed else Refused)
        case Granted =>
          var response := LoginResponse(tag, 0x00, 0x00, 1, w, true, EncodedParams(LoginParams()));
          var item := Answered(p, [], response);
          if |Wire(response)| > writable then Transcript([item], WriteFailed)
          else Cons(item, Serve(rest, 2, w, answers, 0, writable - |Wire(response)|))
  }

  // ---- The connection handler

  function Responses(log: seq<Item>): seq<Pdu> {
    if log == [] then []
    else if log[0].Answered? then [log[0].response] + Responses(log[1..])
    else Responses(log[1..])
  }

  /** The bytes a transcript sends, as far as the peer takes them. */
  function Sent(t: Transcript, writable: nat): seq<u8> { Take(WireAll(Responses(t.log)), writable) }

  /** Writes go on where the sent bytes end: sending one unit and then a transcript's bytes. */
  lemma SentCons(p: Pdu, collected: seq<Pdu>, response: Pdu, t: Transcript, writable: nat)
    requires |Wire(response)| <= writable
    ensures Sent(Cons(Answered(p, collected, response), t), writable) ==
            Wire(response) + Sent(t, writable - |Wire(response)|)
    ensures Cons(Answered(p, collected, response), t).outcome == t.outcome
  {
    hide Wire;
    var log := [Answered(p, collected, response)] + t.log;
    assert log[1..] == t.log;
    assert Responses(log)[1..] == Responses(t.log);
  }

  lemma SentLast(p: Pdu, collected: seq<Pdu>, response: Pdu, outcome: Outcome, writable: nat)
    ensures Sent(Transcript([Answered(p, collected, response)], outcome), writable) == Take(Wire(response), writable)
  {
    hide Wire;
    assert Responses([Answered(p, collected, response)][1..]) == [];
    assert Responses([Answered(p, collected, response)]) == [response];
    assert WireAll([response][1..]) == [];
    assert WireAll([response]) == Wire(response);
  }

  method CollectWriteData(p: Pdu, stream: Stream, expected: nat)
    returns (data: Option<seq<u8>>, ghost collected: seq<Pdu>)
    modifies stream`incoming
    ensures match WriteData(p, expected, old(stream.incoming))
            case None => data == None
            case Some(d) => data == Some(d.0) && collected == d.1 && stream.incoming == d.2
  {
    hide ReadPdu, Prepend;
    collected := [];
    if |p.data| >= expected {
      return Some(p.data[..expected]), [];
    }
    var buf := p.data;
    ghost var whole := Collect(buf, expected, stream.incoming);
    PrependNone(whole);
    while |buf| < expected
      invariant whole == Prepend(collected, Collect(buf, expected, stream.incoming))
      decreases |stream.incoming|
    {
      var unit := ReadFrom(stream);
      if unit.None? {
        assert Prepend(collected, None) == None by { PrependNothing(collected); }
        return None, [];
      }
      PrependTwice(collected, unit.value, Collect(buf + unit.value.data, expected, stream.incoming));
      PrependLast(collected, buf, [unit.value], stream.incoming);
      collected := collected + [unit.value];
      if unit.value.bhs.opcode != DATA_OUT {
        return Some(buf), collected;
      }
      buf := buf + unit.value.data;
    }
    PrependLast(collected, buf, [], stream.incoming);
    return Some(buf), collected;
  }

  lemma PrependNothing(ps: seq<Pdu>)
    ensures Prepend(ps, None) == None
  {}

  lemma PrependLast(ps: seq<Pdu>, data: seq<u8>, more: seq<Pdu>, rest: seq<u8>)
    ensures Prepend(ps, Some((data, more, rest))) == Some((data, ps + more, rest))
    ensures ps + [] == ps
  {}

  /** What the loop does with one unit: send a response, pass over it, or end there. */
  datatype Turn = Send(response: Pdu) | Skip | Stop(outcome: Outcome)

  predicate Takes(t: Turn, collected: seq<Pdu>, rest: seq<u8>, h: Handled) {
    match h
    case Reply(response, c, _, after) => t == Send(response) && collected == c && rest == after
    case StreamEnded => t == Stop(ReadFailed)
    case Panicked => t == Stop(Panic)
    case Stuck => t == Stop(WaitsForever)
  }

  /** The read arms ask for the blocks and wait. */
  method HandleRead(p: Pdu, statSn: u32, w: Window, a: Answer) returns (t: Turn)
    ensures forall input :: Takes(t, [], input, ReadHandled(p, statSn, w, a, input))
  {
    hide FinalData, ScsiResponse, Said, FromBe;
    var cdb := CdbOf(p);
    if TooManyBlocks(cdb) {
      return Stop(Panic);
    }
    var said := Said(a, Transfer(cdb, Block.READ_BLOCKS, []));
    if said.Hangs? {
      return Stop(WaitsForever);
    }
    var tag := p.bhs.initiatorTaskTag;
    if said.Answered? && said.reply.status == Block.STATUS_OK {
      return Send(FinalData(tag, statSn, said.reply.data));
    }
    return Send(ScsiResponse(tag, statSn, w, CHECK_CONDITION));
  }

  /** The write arms collect their data from the stream, pass it on and wait. */
  method HandleWrite(p: Pdu, statSn: u32, w: Window, a: Answer, stream: Stream)
    returns (t: Turn, ghost collected: seq<Pdu>)
    modifies stream`incoming
    ensures Takes(t, collected, stream.incoming, WriteHandled(p, statSn, w, a, old(stream.incoming)))
  {
    hide Collect, Said, FromBe;
    var cdb := CdbOf(p);
    if TooManyBlocks(cdb) {
      return Stop(Panic), [];
    }
    var data;
    data, collected := CollectWriteData(p, stream, Blocks(cdb) * 512);
    if data.None? {
      return Stop(ReadFailed), [];
    }
    var said := Said(a, Transfer(cdb, Block.WRITE_BLOCKS, data.value));
    if said.Hangs? {
      return Stop(WaitsForever), [];
    }
    var status := if said.Answered? && said.reply.status == Block.STATUS_OK then GOOD else CHECK_CONDITION;
    return Send(ScsiResponse(p.bhs.initiatorTaskTag, statSn, w, status)), collected;
  }

  /** One SCSI command up to its response, the end of the stream, a panic, or a wait without end. */
  method HandleScsiCommand(p: Pdu, statSn: u32, w: Window, a: Answer, stream: Stream)
    returns (t: Turn, ghost collected: seq<Pdu>)
    modifies stream`incoming
    ensures Takes(t, collected, stream.incoming, ScsiReply(p, statSn, w, a, old(stream.incoming)))
  {
    hide WriteHandled, ReadHandled, FinalData, ScsiResponse, LastLba, ToBe, FromBe, Take, Said, Size, BlockSize;
    var cdb := CdbOf(p);
    var opcode := cdb[0];
    var tag := p.bhs.initiatorTaskTag;
    collected := [];
    var response;
    match opcode {
      case 0x00 =>
        response := ScsiResponse(tag, statSn, w, GOOD);
      case 0x12 =>
        var allocLen := FromBe(cdb[3..5]);
        response := FinalData(tag, statSn, Take(a.inquiry, allocLen));
      case 0x25 =>
        if Said(a, CAPACITY).Hangs? {
          return Stop(WaitsForever), [];
        }
        var size, block := Size(a), BlockSize(a);
        if block == 0 {
          return Stop(Panic), [];
        }
        var last := LastLba(size, block);
        var lastLba := if last > U32_MAX then U32_MAX else last;
        response := FinalData(tag, statSn, ToBe(lastLba, 4) + ToBe(block, 4));
      case 0x9E =>
        if cdb[1] % 32 == 0x10 {
          if Said(a, CAPACITY).Hangs? {
            return Stop(WaitsForever), [];
          }
          var size, block := Size(a), BlockSize(a);
          if block == 0 {
            return Stop(Panic), [];
          }
          var d := ToBe(LastLba(size, block), 8) + ToBe(block, 4) + Zeros(20);
          var alloc := FromBe(cdb[10..14]);
          response := FinalData(tag, statSn, Take(d, alloc));
        } else {
          response := ScsiResponse(tag, statSn, w, CHECK_CONDITION);
        }
      case 0x1A =>
        response := FinalData(tag, statSn, [3, 0, 0, 0]);
      case 0x5A =>
        response := FinalData(tag, statSn, [0, 6, 0, 0, 0, 0, 0, 0]);
      case 0xA0 =>
        response := FinalData(tag, statSn, ToBe(8, 4) + Zeros(12));
      case 0x28 =>
        t := HandleRead(p, statSn, w, a);
        assert Takes(t, [], stream.incoming, ReadHandled(p, statSn, w, a, stream.incoming));
        return t, [];
      case 0x88 =>
        t := HandleRead(p, statSn, w, a);
        assert Takes(t, [], stream.incoming, ReadHandled(p, statSn, w, a, stream.incoming));
        return t, [];
      case 0x2A =>
        t, collected := HandleWrite(p, statSn, w, a, stream);
        return;
      case 0x8A =>
        t, collected := HandleWrite(p, statSn, w, a, stream);
        return;
      case 0xA3 =>
        if cdb[1] % 32 == 0x0A {
          var alloc := FromBe(cdb[6..10]);
          response := FinalData(tag, statSn, Take(a.portGroups, alloc));
        } else {
          response := ScsiResponse(tag, statSn, w, CHECK_CONDITION);
        }
      case _ =>
        response := ScsiResponse(tag, statSn, w, CHECK_CONDITION);
    }
    return Send(response), [];
  }

  lemma TakeWhole(s: seq<u8>, n: nat)
    requires |s| <= n
    ensures Min(|s|, n) == |s| && Take(s, n) == s
  {}

  lemma SentNothing(outcome: Outcome, writable: nat)
    ensures Sent(Transcript([], outcome), writable) == []
  {}

  lemma SentIgnored(p: Pdu, t: Transcript, writable: nat)
    ensures Sent(Cons(Ignored(p), t), writable) == Sent(t, writable)
    ensures Cons(Ignored(p), t).outcome == t.outcome
  {
    assert ([Ignored(p)] + t.log)[1..] == t.log;
  }

  method HandleUnit(p: Pdu, statSn: u32, w: Window, a: Answer, stream: Stream)
    returns (t: Turn, ghost collected: seq<Pdu>)
    modifies stream`incoming
    ensures match Dispatch(p, statSn, w, a, old(stream.incoming))
            case None => t == Skip && stream.incoming == old(stream.incoming)
            case Some(h) => Takes(t, collected, stream.incoming, h)
  {
    hide ScsiReply, TextResponse, NopIn, LogoutResponse;
    var tag := p.bhs.initiatorTaskTag;
    collected := [];
    if p.bhs.opcode == SCSI_CMD {
      t, collected := HandleScsiCommand(p, statSn, w, a, stream);
    } else if p.bhs.opcode == TEXT_REQ {
      t := Send(TextResponse(tag, statSn, w, a.targets));
    } else if p.bhs.opcode == NOP_OUT {
      t := Send(NopIn(tag, statSn, w));
    } else if p.bhs.opcode == LOGOUT_REQ {
      t := Send(LogoutResponse(tag, statSn, w));
    } else {
      t := Skip;
    }
  }

  method HandleRequests(stream: Stream, w: Window, answers: nat -> Answer) returns (outcome: Outcome)
    modifies stream
    ensures var t := Serve(old(stream.incoming), 2, w, answers, 0, old(stream.writable));
            outcome == t.outcome &&
            stream.outgoing == old(stream.outgoing) + Sent(t, old(stream.writable))
  {
    hide Dispatch, Sent, Wire, Cons, ReadPdu, Min;
    var statSn, turn := 2, 0;
    ghost var whole := Serve(stream.incoming, 2, w, answers, 0, stream.writable);
    ghost var all := stream.outgoing + Sent(whole, stream.writable);
    while true
      invariant statSn <= U32_MAX
      invariant Serve(stream.incoming, statSn, w, answers, turn, stream.writable).outcome == whole.outcome
      invariant stream.outgoing +
                Sent(Serve(stream.incoming, statSn, w, answers, turn, stream.writable), stream.writable) == all
      decreases |stream.incoming|
    {
      ghost var before, base := stream.writable, stream.outgoing;
      var unit := ReadFrom(stream);
      if unit.None? {
        SentNothing(Closed, before);
        return Closed;
      }
      var p := unit.value;
      var t;
      ghost var collected;
      t, collected := HandleUnit(p, statSn, w, answers(turn), stream);
      match t {
        case Stop(o) =>
          SentNothing(o, before);
          return o;
        case Skip =>
          SentIgnored(p, Serve(stream.incoming, statSn, w, answers, turn + 1, before), before);
        case Send(response) =>
          var written := WriteTo(response, stream);
          if !written {
            SentLast(p, collected, response, WriteFailed, before);
            return WriteFailed;
          }
          TakeWhole(Wire(response), before);
          if p.bhs.opcode == LOGOUT_REQ {
            SentLast(p, collected, response, LoggedOut, before);
            return LoggedOut;
          }
          if statSn == U32_MAX {
            SentLast(p, collected, response, Panic, before);
            return Panic;
          }
          ghost var later := Serve(stream.incoming, statSn + 1, w, answers, turn + 1, stream.writable);
          SentCons(p, collected, response, later, before);
          assert base + (Wire(response) + Sent(later, stream.writable)) ==
                 base + Wire(response) + Sent(later, stream.writable);
          statSn := statSn + 1;
      }
      turn := turn + 1;
    }
  }

  /** A whole connection: it ends as the session transcript says, and puts exactly the transcript's
      responses on the wire, cut off where the peer stops taking bytes. */
  method HandleConnection(stream: Stream, b: LoginBackend, answers: nat -> Answer) returns (outcome: Outcome)
    modifies stream
    ensures var t := Session(old(stream.incoming), b, answers, old(stream.writable));
            outcome == t.outcome &&
            stream.outgoing == old(stream.outgoing) + Sent(t, old(stream.writable))
  {
    hide Serve, Sent, Wire, Cons, Verdict, LoginResponse, LoginParams, ExpCmdSn;
    ghost var before, base := stream.writable, stream.outgoing;
    var first := ReadFrom(stream);
    if first.None? {
      SentNothing(ReadFailed, before);
      return ReadFailed;
    }
    var p := first.value;
    if p.bhs.opcode != LOGIN_REQ {
      SentNothing(NoLogin, before);
      return NoLogin;
    }
    var expCmdSn := ExpCmdSn(p);
    if expCmdSn + 32 > U32_MAX {
      SentNothing(Panic, before);
      return Panic;
    }
    var w := Window(expCmdSn, expCmdSn + 32);
    var tag := p.bhs.initiatorTaskTag;
    var verdict := Verdict(p, b);
    if verdict.Unknown? {
      SentNothing(BackendFailed, before);
      return BackendFailed;
    }
    if verdict.Denied? {
      var response := LoginResponse(tag, 0x02, verdict.detail, 1, w, false, []);
      var written := WriteTo(response, stream);
      outcome := if written then Refused else WriteFailed;
      SentLast(p, [], response, outcome, before);
      return;
    }
    var params := EncodeTextParams(LoginParams());
    var response := LoginResponse(tag, 0x00, 0x00, 1, w, true, params);
    var written := WriteTo(response, stream);
    if !written {
      SentLast(p, [], response, WriteFailed, before);
      return WriteFailed;
    }
    TakeWhole(Wire(response), before);
    ghost var later := Serve(stream.incoming, 2, w, answers, 0, stream.writable);
    SentCons(p, [], response, later, before);
    assert base + (Wire(response) + Sent(later, stream.writable)) ==
           base + Wire(response) + Sent(later, stream.writable);
    outcome := HandleRequests(stream, w, answers);
  }
}
