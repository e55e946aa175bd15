// The block sockets between the iSCSI target and the storage service: one connection per volume,
// one lock over all of them, held for the whole of an exchange, and no timeout.
module BlockSocket {
  import opened Basics
  import opened Wrappers
  import opened Bytes

  const BLOCK_MAGIC: u32 := 0x4953_4353
  const READ_BLOCKS: u32 := 1
  const WRITE_BLOCKS: u32 := 2
  const GET_CAPACITY: u32 := 4
  const STATUS_OK: u32 := 0
  const HEADER_SIZE: nat := 32
  const U64_RANGE: nat := 0x1_0000_0000_0000_0000

  /** The most bytes the storage service moves in one request. */
  const MAX_IO_SIZE: nat := 4 * 1024 * 1024

  /** One request to the storage service: `length` is what its header says. */
  datatype BlockRequest = BlockRequest(cmd: u32, lba: u64, length: u32, data: seq<u8>)

  type ReplyData = s: seq<u8> | |s| < 0x1_0000_0000

  datatype BlockReply = BlockReply(status: u32, data: ReplyData)

  function BlockHeader(r: BlockRequest): (s: seq<u8>)
    ensures |s| == HEADER_SIZE
  {
    ToLe(BLOCK_MAGIC, 4) + ToLe(r.cmd, 4) + ToLe(r.lba, 8) + ToLe(r.length, 4) + ToLe(0, 4) + ToLe(0, 8)
  }

  function BlockWire(r: BlockRequest): seq<u8> { BlockHeader(r) + r.data }

  // ---- The storage service

  /** Only a write has a payload, of the length its header gives. */
  function PayloadLen(r: BlockRequest): nat { if r.cmd == WRITE_BLOCKS then r.length else 0 }

  /** The byte offset, or the end of a transfer that is not too long, overflows 64 bits. */
  predicate Overflows(r: BlockRequest) {
    r.cmd in {READ_BLOCKS, WRITE_BLOCKS} &&
    (r.lba * 512 >= U64_RANGE || (r.length <= MAX_IO_SIZE && r.lba * 512 + r.length >= U64_RANGE))
  }

  /** That is, for a read or a write, a block number of 2^55 or more, or an end past the last of the 2^64
      bytes, which goes unnoticed if the transfer is longer than 4 MB. */
  lemma OverflowsExactly(r: BlockRequest)
    ensures Overflows(r) <==>
            r.cmd in {1, 2} &&
            (r.lba >= 0x80_0000_0000_0000 || (r.length <= 0x40_0000 && r.lba * 512 + r.length > 0xFFFF_FFFF_FFFF_FFFF))
  {}

  /** What the service does with unread bytes: wait for more, give the connection up, or take a
      request and leave the rest. */
  datatype Taken = Waits | GivesUp | Took(request: BlockRequest, rest: seq<u8>)

  function HeaderOf(s: seq<u8>): BlockRequest
    requires |s| >= HEADER_SIZE
  {
    RangeValues();
    BlockRequest(FromLe(s[4..8]), FromLe(s[8..16]), FromLe(s[16..20]), [])
  }

  function ServiceTakes(s: seq<u8>): (t: Taken)
    ensures t.Took? ==> |t.rest| < |s|
  {
    if |s| < HEADER_SIZE then Waits
    else
      var r := HeaderOf(s);
      var end := HEADER_SIZE + PayloadLen(r);
      if FromLe(s[..4]) != BLOCK_MAGIC || Overflows(r) then GivesUp
      else if |s| < end then Waits
      else Took(r.(data := s[HEADER_SIZE..end]), s[end..])
  }

  /** How a service answers: the reply to the last of the requests it took on a connection. */
  type Service = seq<BlockRequest> -> BlockReply

  /** One connection: the bytes the service has not taken, the replies nobody has read, the requests
      taken so far, and whether the service has closed it. */
  datatype Conn = Conn(
    service: Service, ahead: seq<u8>, inbox: seq<BlockReply>, served: seq<BlockRequest>, closed: bool)

  function Fresh(service: Service): Conn { Conn(service, [], [], [], false) }

  /** The service takes all it can. */
  function CatchUp(c: Conn): Conn
    decreases |c.ahead|
  {
    if c.closed then c
    else
      match ServiceTakes(c.ahead)
      case Waits => c
      case GivesUp => c.(closed := true)
      case Took(r, rest) =>
        var now := c.served + [r];
        CatchUp(Conn(c.service, rest, c.inbox + [c.service(now)], now, false))
  }

  // ---- One exchange

  datatype Exchanged = Answered(reply: BlockReply) | Failed | Hangs

  /** A request is written and one reply read. It fails on a closed connection, and never comes to
      an end while the service waits for more bytes and has nothing to say. */
  function Exchange(c: Conn, r: BlockRequest): (Exchanged, Conn) {
    if c.closed then (Failed, c)
    else
      var now := CatchUp(c.(ahead := c.ahead + BlockWire(r)));
      if now.inbox != [] then (Answered(now.inbox[0]), now.(inbox := now.inbox[1..]))
      else if now.closed then (Failed, now)
      else (Hangs, now)
  }

  /** Every byte written was taken and every reply was read. */
  predicate InStep(c: Conn) { c.ahead == [] && c.inbox == [] && !c.closed }

  predicate Matched(r: BlockRequest) { |r.data| == PayloadLen(r) }

  lemma HeaderReadsBack(r: BlockRequest, tail: seq<u8>)
    ensures var s := BlockHeader(r) + tail;
            FromLe(s[..4]) == BLOCK_MAGIC && HeaderOf(s) == r.(data := []) && s[HEADER_SIZE..] == tail
  {
    hide ToLe, FromLe;
    RangeValues();
    var s := BlockHeader(r) + tail;
    assert s[..4] == ToLe(BLOCK_MAGIC, 4) && s[4..8] == ToLe(r.cmd, 4);
    assert s[8..16] == ToLe(r.lba, 8) && s[16..20] == ToLe(r.length, 4);
    LeReadsBack(BLOCK_MAGIC, 4);
    LeReadsBack(r.cmd, 4);
    LeReadsBack(r.lba, 8);
    LeReadsBack(r.length, 4);
  }

  /** What the service makes of a request and the bytes after it: it takes as much payload as the
      header says, whatever was meant. */
  lemma RequestTaken(r: BlockRequest, later: seq<u8>)
    ensures var n, body := PayloadLen(r), r.data + later;
            ServiceTakes(BlockWire(r) + later) ==
            if Overflows(r) then GivesUp
            else if |body| < n then Waits
            else Took(r.(data := body[..n]), body[n..])
  {
    hide FromLe, BlockHeader, HeaderOf, Overflows;
    var s, body := BlockWire(r) + later, r.data + later;
    assert s == BlockHeader(r) + body;
    HeaderReadsBack(r, body);
    var n := PayloadLen(r);
    OverflowsByHeader(r);
    if |body| >= n {
      assert s[HEADER_SIZE..HEADER_SIZE + n] == s[HEADER_SIZE..][..n] == body[..n];
      assert s[HEADER_SIZE + n..] == s[HEADER_SIZE..][n..];
    }
  }

  lemma OverflowsByHeader(r: BlockRequest)
    ensures Overflows(r.(data := [])) == Overflows(r)
  {}

  /** The service takes a request as it was sent, and leaves what follows it, if and only if the data
      is as long as the payload its header announces and the offset does not overflow. */
  lemma RequestTakenExactly(r: BlockRequest, later: seq<u8>)
    ensures ServiceTakes(BlockWire(r) + later) == Took(r, later) <==> Matched(r) && !Overflows(r)
  {
    hide ServiceTakes, BlockWire, Overflows;
    RequestTaken(r, later);
    var n, body := PayloadLen(r), r.data + later;
    if |r.data| == n {
      assert body[..n] == r.data && body[n..] == later;
    }
  }

  lemma NothingToTake()
    ensures ServiceTakes([]) == Waits
  {}

  /** Bytes never vanish: the service leaves some, closes, or answers because of them. */
  lemma LeavesTrace(c: Conn)
    requires !c.closed && c.ahead != []
    ensures !InStep(CatchUp(c))
  {
    hide ServiceTakes;
    if ServiceTakes(c.ahead).Took? {
      var t := ServiceTakes(c.ahead);
      InboxGrows(Conn(c.service, t.rest, c.inbox + [c.service(c.served + [t.request])], c.served + [t.request], false));
    }
  }

  lemma {:induction false} InboxGrows(c: Conn)
    ensures c.inbox <= CatchUp(c).inbox
    decreases |c.ahead|
  {
    hide ServiceTakes;
    if !c.closed && ServiceTakes(c.ahead).Took? {
      var t := ServiceTakes(c.ahead);
      InboxGrows(Conn(c.service, t.rest, c.inbox + [c.service(c.served + [t.request])], c.served + [t.request], false));
    }
  }

  /** The request the service takes `r` for: its payload cut at the length of the header. */
  function Cut(r: BlockRequest): BlockRequest
    requires |r.data| >= PayloadLen(r)
  {
    r.(data := r.data[..PayloadLen(r)])
  }

  /** From a connection in step: a request whose offset overflows costs the connection, one with too
      little data never comes to an end, and any other is answered with the service's reply to what it
      was taken for. Of those, exactly the ones whose data matches leave the connection in step. */
  lemma ExchangeExactly(c: Conn, r: BlockRequest)
    requires InStep(c)
    ensures var (result, after) := Exchange(c, r);
            (result ==
             if Overflows(r) then Failed
             else if |r.data| < PayloadLen(r) then Hangs
             else Answered(c.service(c.served + [Cut(r)]))) &&
            (InStep(after) <==> !Overflows(r) && Matched(r)) &&
            (InStep(after) ==> after == c.(served := c.served + [r]))
  {
    hide ServiceTakes, BlockWire, Overflows;
    var wire := BlockWire(r);
    RequestTaken(r, []);
    assert c.ahead + wire == wire && wire + [] == wire && r.data + [] == r.data;
    if !Overflows(r) && |r.data| >= PayloadLen(r) {
      var n, now := PayloadLen(r), c.served + [Cut(r)];
      var next := Conn(c.service, r.data[n..], [c.service(now)], now, false);
      assert c.inbox + [c.service(now)] == [c.service(now)];
      assert CatchUp(c.(ahead := wire)) == CatchUp(next);
      InboxGrows(next);
      NothingToTake();
      if Matched(r) {
        assert r.data[..n] == r.data;
      } else {
        TailLeavesTrace(next);
      }
    } else {
      assert wire != [] by { WireIsLong(r); }
    }
  }

  lemma WireIsLong(r: BlockRequest)
    ensures |BlockWire(r)| >= HEADER_SIZE
  {}

  lemma {:induction false} TailLeavesTrace(c: Conn)
    requires !c.closed && c.ahead != [] && |c.inbox| == 1
    ensures var now := CatchUp(c); now.inbox != [] && !InStep(now.(inbox := now.inbox[1..]))
  {
    hide ServiceTakes;
    InboxGrows(c);
    if ServiceTakes(c.ahead).Took? {
      var t := ServiceTakes(c.ahead);
      var next := Conn(c.service, t.rest, c.inbox + [c.service(c.served + [t.request])], c.served + [t.request], false);
      InboxGrows(next);
    }
  }

  // ---- A write with too much data

  /** The outcomes of a list of requests on one connection. */
  function Outcomes(c: Conn, rs: seq<BlockRequest>): seq<Exchanged>
    decreases |rs|
  {
    if rs == [] then []
    else
      var (result, after) := Exchange(c, rs[0]);
      [result] + Outcomes(after, rs[1..])
  }

  /** Extra data that is no request costs the connection: the write itself is answered, and every
      request after it fails. */
  lemma GarbageTailCloses(c: Conn, r: BlockRequest, next: BlockRequest)
    requires InStep(c) && !Overflows(r) && |r.data| > PayloadLen(r)
    requires ServiceTakes(r.data[PayloadLen(r)..]).GivesUp?
    ensures Outcomes(c, [r, next]) == [Answered(c.service(c.served + [Cut(r)])), Failed]
  {
    hide ServiceTakes, BlockWire, Overflows;
    var after := OvershootCatchesUp(c, r);
    assert Outcomes(after, [next]) == [Failed] by {
      assert [next][1..] == [];
    }
    assert [r, next][1..] == [next];
  }

  lemma OvershootCatchesUp(c: Conn, r: BlockRequest) returns (after: Conn)
    requires InStep(c) && !Overflows(r) && |r.data| >= PayloadLen(r)
    ensures var now := c.served + [Cut(r)];
            var caught := CatchUp(Conn(c.service, r.data[PayloadLen(r)..], [c.service(now)], now, false));
            caught.inbox != [] && caught.inbox[0] == c.service(now) &&
            after == caught.(inbox := caught.inbox[1..]) && Exchange(c, r) == (Answered(c.service(now)), after)
  {
    hide ServiceTakes, BlockWire, Overflows;
    var wire, n, now := BlockWire(r), PayloadLen(r), c.served + [Cut(r)];
    RequestTaken(r, []);
    assert c.ahead + wire == wire && wire + [] == wire && r.data + [] == r.data;
    assert c.inbox + [c.service(now)] == [c.service(now)];
    InboxGrows(Conn(c.service, r.data[n..], [c.service(now)], now, false));
    after := Exchange(c, r).1;
  }

  /** One reply is waiting to be read, the one to the last request taken. */
  predicate Behind(c: Conn) {
    c.ahead == [] && !c.closed && c.served != [] && c.inbox == [c.service(c.served)]
  }

  /** Extra data that has the shape of a request is carried out as one, and leaves its reply unread. */
  lemma RequestTailIsServed(c: Conn, r: BlockRequest, x: BlockRequest)
    requires InStep(c) && !Overflows(r) && !Overflows(x) && Matched(x)
    requires |r.data| >= PayloadLen(r) && r.data[PayloadLen(r)..] == BlockWire(x)
    ensures var (result, after) := Exchange(c, r);
            result == Answered(c.service(c.served + [Cut(r)])) && Behind(after) &&
            after.service == c.service && after.served == c.served + [Cut(r)] + [x]
  {
    hide ServiceTakes, BlockWire, Overflows;
    var after := OvershootCatchesUp(c, r);
    RequestTakenExactly(x, []);
    NothingToTake();
    assert BlockWire(x) + [] == BlockWire(x);
  }

  lemma BehindStaysBehind(c: Conn, r: BlockRequest)
    requires Behind(c) && Matched(r) && !Overflows(r)
    ensures Exchange(c, r) ==
            (Answered(c.service(c.served)), c.(inbox := [c.service(c.served + [r])], served := c.served + [r]))
  {
    hide ServiceTakes, BlockWire, Overflows;
    RequestTakenExactly(r, []);
    NothingToTake();
    assert c.ahead + BlockWire(r) == BlockWire(r) && BlockWire(r) + [] == BlockWire(r);
    var now := c.served + [r];
    var caught := Conn(c.service, [], c.inbox + [c.service(now)], now, false);
    assert CatchUp(caught) == caught;
    assert CatchUp(c.(ahead := BlockWire(r))) == caught;
    assert caught.inbox[1..] == [c.service(now)];
  }

  /** From then on every request, however well formed, is answered with the reply to the one before. */
  lemma {:induction false} RepliesLagForever(c: Conn, rs: seq<BlockRequest>)
    requires Behind(c) && forall r | r in rs :: Matched(r) && !Overflows(r)
    ensures |Outcomes(c, rs)| == |rs|
    ensures forall k | 0 <= k < |rs| :: Outcomes(c, rs)[k] == Answered(c.service(c.served + rs[..k]))
    decreases |rs|
  {
    hide Exchange, Overflows, Matched;
    if rs != [] {
      BehindStaysBehind(c, rs[0]);
      var after := Exchange(c, rs[0]).1;
      RepliesLagForever(after, rs[1..]);
      forall k | 0 <= k < |rs| ensures Outcomes(c, rs)[k] == Answered(c.service(c.served + rs[..k])) {
        if k == 0 {
          assert c.served + rs[..0] == c.served;
        } else {
          assert c.served + rs[..k] == c.served + [rs[0]] + rs[1..][..k - 1];
        }
      }
    }
  }

  // ---- The pool

  /** The connections by volume, and whether some call holds the lock and waits for ever. */
  datatype Pool = Pool(conns: map<string, Conn>, waiting: bool)

  const EMPTY: Pool := Pool(map[], false)

  /** What a caller sees: a reply, an error, or nothing ever. */
  datatype Outcome = Returned(reply: BlockReply) | Errored | Never

  /** One call; `connect` is the service at the other end if a connection can be made. */
  datatype BlockCall = BlockCall(volume: string, request: BlockRequest, connect: Option<Service>)

  function Call(p: Pool, call: BlockCall): (Outcome, Pool) {
    if p.waiting then (Never, p)
    else if call.volume !in p.conns && call.connect.None? then (Errored, p)
    else
      var c := if call.volume in p.conns then p.conns[call.volume] else Fresh(call.connect.value);
      var (result, after) := Exchange(c, call.request);
      match result
      case Answered(reply) => (Returned(reply), Pool(p.conns[call.volume := after], false))
      case Failed => (Errored, Pool(p.conns - {call.volume}, false))
      case Hangs => (Never, Pool(p.conns[call.volume := after], true))
  }

  /** The exchange itself: header, data unless empty, then the reply. */
  method DoBlockRequest(c: Conn, r: BlockRequest) returns (result: Exchanged, after: Conn)
    ensures (result, after) == Exchange(c, r)
  {
    hide ServiceTakes, BlockHeader;
    after := c;
    if c.closed {
      return Failed, c;
    }
    after := after.(ahead := after.ahead + BlockHeader(r));
    if r.data != [] {
      after := after.(ahead := after.ahead + r.data);
    }
    assert after.ahead == c.ahead + BlockWire(r);
    after := CatchUp(after);
    if after.inbox == [] {
      result := if after.closed then Failed else Hangs;
    } else {
      result := Answered(after.inbox[0]);
      after := after.(inbox := after.inbox[1..]);
    }
  }

  class BlockPool {
    var conns: map<string, Conn>
    var waiting: bool

    function State(): Pool
      reads this
    {
      Pool(conns, waiting)
    }

    constructor ()
      ensures State() == EMPTY
    {
      conns, waiting := map[], false;
    }

    method Request(call: BlockCall) returns (o: Outcome)
      modifies this
      ensures (o, State()) == Call(old(State()), call)
    {
      hide CatchUp, BlockWire, Exchange;
      if waiting {
        return Never;
      }
      ghost var before := conns;
      if call.volume !in conns {
        if call.connect.None? {
          return Errored;
        }
        conns := conns[call.volume := Fresh(call.connect.value)];
      }
      var result, after := DoBlockRequest(conns[call.volume], call.request);
      conns := conns[call.volume := after];
      assert conns == before[call.volume := after];
      if result.Hangs? {
        waiting := true;
        return Never;
      }
      if result.Failed? {
        conns := conns - {call.volume};
        assert conns == before - {call.volume};
        return Errored;
      }
      return Returned(result.reply);
    }
  }

  // ---- Runs of calls, in the order in which they take the lock

  function After(calls: seq<BlockCall>): Pool {
    if calls == [] then EMPTY else Call(After(calls[..|calls| - 1]), calls[|calls| - 1]).1
  }

  function OutcomeAt(calls: seq<BlockCall>, k: nat): Outcome
    requires k < |calls|
  {
    Call(After(calls[..k]), calls[k]).0
  }

  /** Nobody waits and every connection is in step. */
  predicate Clean(p: Pool) { !p.waiting && forall v | v in p.conns :: InStep(p.conns[v]) }

  predicate Reaches(p: Pool, call: BlockCall) {
    !p.waiting && (call.volume in p.conns || call.connect.Some?)
  }

  function ConnFor(p: Pool, call: BlockCall): Conn
    requires Reaches(p, call)
  {
    if call.volume in p.conns then p.conns[call.volume] else Fresh(call.connect.value)
  }

  /** The call gets through to a service, with data that does not match its header. */
  predicate Spoils(p: Pool, call: BlockCall) {
    Reaches(p, call) && !Overflows(call.request) && !Matched(call.request)
  }

  lemma CallExactly(p: Pool, call: BlockCall)
    requires Clean(p)
    ensures Clean(Call(p, call).1) <==> !Spoils(p, call)
    ensures Call(p, call).0 ==
            if !Reaches(p, call) || Overflows(call.request) then Errored
            else if |call.request.data| < PayloadLen(call.request) then Never
            else
              var c := ConnFor(p, call);
              Returned(c.service(c.served + [Cut(call.request)]))
  {
    hide Exchange, Overflows, InStep;
    if Reaches(p, call) {
      var c := ConnFor(p, call);
      assert InStep(c) by { FreshInStep(c.service); }
      ExchangeExactly(c, call.request);
      var after := Call(p, call).1;
      assert forall v | v in p.conns && v != call.volume :: v in after.conns && after.conns[v] == p.conns[v];
      if Exchange(c, call.request).0.Answered? {
        assert call.volume in after.conns && after.conns[call.volume] == Exchange(c, call.request).1;
      }
    }
  }

  /** A call touches the connection of its own volume alone, which it keeps unless it errs; and it waits for
      ever only while it holds the lock. */
  lemma CallKeepsOthers(p: Pool, call: BlockCall)
    requires !p.waiting
    ensures var (o, after) := Call(p, call);
            (forall v | v != call.volume ::
               (v in after.conns <==> v in p.conns) && (v in p.conns ==> after.conns[v] == p.conns[v])) &&
            (call.volume in after.conns <==> o != Errored) && (after.waiting <==> o == Never)
  {
    hide Exchange;
  }

  lemma FreshInStep(service: Service)
    ensures InStep(Fresh(service))
  {}

  ghost predicate CleanThroughout(calls: seq<BlockCall>) {
    forall i: nat | i <= |calls| :: Clean(After(calls[..i]))
  }

  ghost predicate SomeCallSpoils(calls: seq<BlockCall>) {
    exists i: nat :: i < |calls| && Spoils(After(calls[..i]), calls[i])
  }

  lemma CleanSoFar(calls: seq<BlockCall>, k: nat)
    requires CleanThroughout(calls) && k <= |calls|
    ensures CleanThroughout(calls[..k]) && Clean(After(calls[..k]))
  {
    hide Clean, After;
    forall i: nat | i <= k ensures Clean(After(calls[..k][..i])) {
      assert calls[..k][..i] == calls[..i];
    }
  }

  lemma CleanOnceMore(calls: seq<BlockCall>)
    requires calls != [] && CleanThroughout(calls[..|calls| - 1]) && Clean(After(calls))
    ensures CleanThroughout(calls)
  {
    hide Clean, After;
    var front := calls[..|calls| - 1];
    forall i: nat | i <= |calls| ensures Clean(After(calls[..i])) {
      if i == |calls| {
        assert calls[..i] == calls;
      } else {
        assert calls[..i] == front[..i];
      }
    }
  }

  lemma ThroughoutSplits(calls: seq<BlockCall>)
    requires calls != []
    ensures CleanThroughout(calls) <==>
            CleanThroughout(calls[..|calls| - 1]) && Clean(After(calls))
  {
    hide CleanThroughout, Clean, After;
    assert calls[..|calls|] == calls;
    if CleanThroughout(calls) {
      CleanSoFar(calls, |calls| - 1);
      CleanSoFar(calls, |calls|);
    } else if CleanThroughout(calls[..|calls| - 1]) && Clean(After(calls)) {
      CleanOnceMore(calls);
    }
  }

  lemma SpoilsSplits(calls: seq<BlockCall>)
    requires calls != []
    ensures var front := calls[..|calls| - 1];
            SomeCallSpoils(calls) <==> SomeCallSpoils(front) || Spoils(After(front), calls[|calls| - 1])
  {
    hide Spoils, After;
    var front := calls[..|calls| - 1];
    if Spoils(After(front), calls[|front|]) {
      assert Spoils(After(calls[..|front|]), calls[|front|]);
    } else if i: nat :| i < |front| && Spoils(After(front[..i]), front[i]) {
      assert calls[..i] == front[..i] && Spoils(After(calls[..i]), calls[i]);
    } else if i: nat :| i < |calls| && Spoils(After(calls[..i]), calls[i]) {
      if i < |front| {
        assert calls[..i] == front[..i] && !Spoils(After(front[..i]), front[i]);
      }
    }
  }

  /** Over any calls of any sessions: nobody ever waits and all connections stay in step throughout if
      and only if no call that gets through has data that does not match its header. */
  lemma {:induction false} CleanExactly(calls: seq<BlockCall>)
    ensures CleanThroughout(calls) <==> !SomeCallSpoils(calls)
  {
    hide Clean, Spoils, Call;
    if calls == [] {
      NothingSpoiled();
      assert calls[..0] == [];
    } else {
      hide SomeCallSpoils;
      var front := calls[..|calls| - 1];
      CleanExactly(front);
      ThroughoutSplits(calls);
      SpoilsSplits(calls);
      if CleanThroughout(front) {
        assert front[..|front|] == front && Clean(After(front[..|front|]));
        CallExactly(After(front), calls[|calls| - 1]);
      }
    }
  }

  lemma NothingSpoiled()
    ensures Clean(EMPTY)
  {}

  /** While all data matches, every call that gets through is answered with the service's reply to its
      very own request. */
  lemma OwnReplies(calls: seq<BlockCall>, k: nat)
    requires !SomeCallSpoils(calls) && k < |calls|
    requires Reaches(After(calls[..k]), calls[k]) && !Overflows(calls[k].request)
    ensures var c := ConnFor(After(calls[..k]), calls[k]);
            OutcomeAt(calls, k) == Returned(c.service(c.served + [calls[k].request]))
  {
    hide Call, After, Overflows;
    CleanExactly(calls);
    assert Clean(After(calls[..k])) && !Spoils(After(calls[..k]), calls[k]);
    CallExactly(After(calls[..k]), calls[k]);
    var r := calls[k].request;
    assert r.data[..|r.data|] == r.data;
  }

  lemma {:induction false} WaitingLasts(calls: seq<BlockCall>, k: nat)
    requires k <= |calls| && After(calls[..k]).waiting
    ensures After(calls).waiting
  {
    hide Exchange;
    if k == |calls| {
      assert calls[..k] == calls;
    } else {
      assert calls[..|calls| - 1][..k] == calls[..k];
      WaitingLasts(calls[..|calls| - 1], k);
    }
  }

  /** One call that never comes to an end stops all later ones, on every volume. */
  lemma OneHangStopsAll(calls: seq<BlockCall>, k: nat, j: nat)
    requires k <= j < |calls| && OutcomeAt(calls, k).Never?
    ensures OutcomeAt(calls, j).Never?
  {
    hide Exchange;
    if k < j {
      assert calls[..k + 1][..k] == calls[..k];
      assert After(calls[..k + 1]).waiting;
      assert calls[..j][..k + 1] == calls[..k + 1];
      WaitingLasts(calls[..j], k + 1);
    }
  }

  /** In particular a write cut short, sent while everything was in step, ends block I/O for every
      session and every volume. */
  lemma ShortWriteStopsAll(calls: seq<BlockCall>, k: nat, j: nat)
    requires k <= j < |calls| && Clean(After(calls[..k])) && Reaches(After(calls[..k]), calls[k])
    requires !Overflows(calls[k].request) && |calls[k].request.data| < PayloadLen(calls[k].request)
    ensures OutcomeAt(calls, j).Never?
  {
    hide Call, After, Overflows;
    CallExactly(After(calls[..k]), calls[k]);
    OneHangStopsAll(calls, k, j);
  }
}
