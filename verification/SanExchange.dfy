// One pooled connection to the SAN daemon as a value: what a call does to it from any state it may
// have been left in, and what whole runs of calls come to.
module SanExchange {
  import opened Basics
  import opened Wrappers
  import opened Bytes
  import opened SanProtocol

  /** A connection with a conforming peer: bytes the peer has not taken, bytes of replies not yet
      read, the requests the peer has served, and whether it has closed. */
  datatype Link = Link(peer: Handler, pending: seq<u8>, inbox: seq<u8>, served: seq<Request>, closed: bool)

  function Fresh(peer: Handler): Link { Link(peer, [], [], [], false) }

  /** Between messages: the peer has taken every byte written and every byte it sent was read. */
  predicate InStep(l: Link) { l.pending == [] && l.inbox == [] && !l.closed }

  // ---- One exchange

  /** How an exchange ends: with a reply, in an error whatever the caller does (the peer has closed, or
      a reply has the wrong magic), in a panic over a body length no buffer can have, or in trouble
      before all bytes got through. */
  datatype Ended = Got(reply: Response) | Broken | TooLong | Trouble

  /** Reading one reply off the bytes there are, of which `readable` get through; and what is left.
      After the last byte of a closed peer comes an error. */
  function ReadReply(proto: Protocol, all: seq<u8>, closed: bool, readable: nat): (Ended, seq<u8>) {
    var have := Min(|all|, readable);
    var short := if closed && |all| <= readable then Broken else Trouble;
    if have < RESPONSE_SIZE then (short, all[have..])
    else
      var h := ParseResponseHeader(all[..RESPONSE_SIZE]);
      var metadataEnd := RESPONSE_SIZE + h.metadataLen;
      var end := metadataEnd + h.bodyLen;
      if h.magic != proto.responseMagic then (Broken, all[RESPONSE_SIZE..])
      else if have < metadataEnd then (short, all[have..])
      else if h.bodyLen >= BODY_LIMIT then (TooLong, all[metadataEnd..])
      else if have < end then (short, all[have..])
      else (Got(Response(h.status, all[RESPONSE_SIZE..metadataEnd], all[metadataEnd..end])), all[end..])
  }

  /** One request written, of which `writable` bytes get through, and one reply read. */
  function Exchange(proto: Protocol, l: Link, r: Request, writable: nat, readable: nat): (Ended, Link) {
    var wire := RequestWire(proto, r);
    if l.closed then (Broken, l)
    else if |wire| > writable then (Trouble, l.(pending := l.pending + wire[..writable]))
    else
      var f := Feed(proto, l.peer, l.pending + wire, l.served);
      var (ended, rest) := ReadReply(proto, l.inbox + f.out, f.closed, readable);
      (ended, Link(l.peer, f.pending, rest, f.served, f.closed))
  }

  lemma ReadWhole(proto: Protocol, s: seq<u8>, closed: bool, readable: nat)
    requires TakeResponse(proto, s).Some?
    ensures var (reply, rest) := TakeResponse(proto, s).value;
            ReadReply(proto, s, closed, readable) ==
            if |s| - |rest| <= readable then (Got(reply), rest) else (Trouble, s[readable..])
  {
    hide ParseResponseHeader;
  }

  /** Enough bytes get through for the request and for the answer to what the peer takes it for. */
  predicate Completes(proto: Protocol, l: Link, r: Request, writable: nat, readable: nat) {
    |RequestWire(proto, r)| <= writable &&
    |ResponseWire(proto, l.peer(l.served + [TakenAs(r)]))| <= readable
  }

  /** From a connection in step an exchange is answered if and only if enough bytes get through, by the
      peer's reply to what it took the request for; and it ends in step if and only if it is answered
      and the key length fits 32 bits, or not a single byte got out. */
  lemma ExchangeExactly(proto: Protocol, l: Link, r: Request, writable: nat, readable: nat)
    requires InStep(l)
    ensures var (ended, after) := Exchange(proto, l, r, writable, readable);
            var completes := Completes(proto, l, r, writable, readable);
            ended == (if completes then Got(l.peer(l.served + [TakenAs(r)])) else Trouble) &&
            (InStep(after) <==> if completes then |r.key| < U32_RANGE else writable == 0) &&
            (InStep(after) ==> after == if completes then l.(served := l.served + [r]) else l)
  {
    hide Feed, TakeResponse, ReadReply, RequestHeader, ResponseHeader, TakenAs;
    var wire := RequestWire(proto, r);
    assert wire != [];
    assert l.pending + wire == wire && l.pending + wire[..Min(|wire|, writable)] == wire[..Min(|wire|, writable)];
    if |wire| <= writable {
      FedExactly(proto, l.peer, r, l.served);
      TakenAsWritten(r);
      var out := Feed(proto, l.peer, wire, l.served).out;
      assert l.inbox + out == out;
      ReadWhole(proto, out, Feed(proto, l.peer, wire, l.served).closed, readable);
    }
  }

  // ---- A slot of the pool

  /** What is in store for one call: the peer at the other end if a connection can be made, how many
      bytes get through each way, and whether trouble is an error or the caller giving up. */
  datatype Weather = Weather(connects: Option<Handler>, writable: nat, readable: nat, abandoned: bool)

  datatype Outcome = Answered(response: Response) | Failed | Abandoned | Panicked

  /** One call on a slot: an error evicts the connection; a caller that gives up, or panics, leaves it
      there as it is. */
  function Call(proto: Protocol, slot: Option<Link>, r: Request, weather: Weather): (Outcome, Option<Link>) {
    if slot.None? && weather.connects.None? then (if weather.abandoned then Abandoned else Failed, None)
    else
      var l := LinkFor(slot, weather);
      var (ended, after) := Exchange(proto, l, r, weather.writable, weather.readable);
      match ended
      case Got(reply) => (Answered(reply), Some(after))
      case Broken => (Failed, None)
      case TooLong => (Panicked, Some(after))
      case Trouble => if weather.abandoned then (Abandoned, Some(after)) else (Failed, None)
  }

  predicate Reaches(slot: Option<Link>, weather: Weather) { slot.Some? || weather.connects.Some? }

  function LinkFor(slot: Option<Link>, weather: Weather): Link
    requires Reaches(slot, weather)
  {
    if slot.Some? then slot.value else Fresh(weather.connects.value)
  }

  /** There is no connection or one in step. */
  predicate Clean(slot: Option<Link>) { slot.Some? ==> InStep(slot.value) }

  predicate CallCompletes(proto: Protocol, slot: Option<Link>, r: Request, weather: Weather) {
    Reaches(slot, weather) &&
    Completes(proto, LinkFor(slot, weather), r, weather.writable, weather.readable)
  }

  /** The call is answered although its key length does not fit, or is given up after a byte got out. */
  predicate Spoils(proto: Protocol, slot: Option<Link>, r: Request, weather: Weather) {
    Reaches(slot, weather) &&
    if CallCompletes(proto, slot, r, weather) then |r.key| >= U32_RANGE
    else weather.abandoned && weather.writable > 0
  }

  /** From any slot: the connection is gone afterwards if and only if the call fails, or there was none and
      none could be made. A caller that is answered, gives up or panics leaves it. */
  lemma EvictsExactly(proto: Protocol, slot: Option<Link>, r: Request, weather: Weather)
    ensures var (o, after) := Call(proto, slot, r, weather);
            (after.None? <==> o.Failed? || (slot.None? && weather.connects.None?)) &&
            (slot.Some? && slot.value.closed ==> o.Failed?)
  {
    hide ReadReply, Feed, RequestWire;
  }

  /** From a clean slot, for every key length: when a call is answered and by what, and that the slot
      is clean afterwards unless this very call spoils it. */
  lemma CallExactly(proto: Protocol, slot: Option<Link>, r: Request, weather: Weather)
    requires Clean(slot)
    ensures var (o, after) := Call(proto, slot, r, weather);
            (if CallCompletes(proto, slot, r, weather) then
               var l := LinkFor(slot, weather);
               o == Answered(l.peer(l.served + [TakenAs(r)])) &&
               (|r.key| < U32_RANGE ==> after == Some(l.(served := l.served + [r])))
             else o == if weather.abandoned then Abandoned else Failed) &&
            (Clean(after) <==> !Spoils(proto, slot, r, weather))
  {
    hide Exchange, Completes, TakenAs;
    if Reaches(slot, weather) {
      ExchangeExactly(proto, LinkFor(slot, weather), r, weather.writable, weather.readable);
    }
  }

  // ---- Runs of calls on one slot

  datatype PoolCall = PoolCall(request: Request, weather: Weather)

  function After(proto: Protocol, calls: seq<PoolCall>): Option<Link> {
    if calls == [] then None
    else
      var last := calls[|calls| - 1];
      Call(proto, After(proto, calls[..|calls| - 1]), last.request, last.weather).1
  }

  function OutcomeAt(proto: Protocol, calls: seq<PoolCall>, k: nat): Outcome
    requires k < |calls|
  {
    Call(proto, After(proto, calls[..k]), calls[k].request, calls[k].weather).0
  }

  predicate SpoilsAt(proto: Protocol, calls: seq<PoolCall>, k: nat)
    requires k < |calls|
  {
    Spoils(proto, After(proto, calls[..k]), calls[k].request, calls[k].weather)
  }

  ghost predicate CleanThroughout(proto: Protocol, calls: seq<PoolCall>) {
    forall i: nat | i <= |calls| :: Clean(After(proto, calls[..i]))
  }

  ghost predicate SomeCallSpoils(proto: Protocol, calls: seq<PoolCall>) {
    exists k: nat :: k < |calls| && SpoilsAt(proto, calls, k)
  }

  lemma CleanSoFar(proto: Protocol, calls: seq<PoolCall>, k: nat)
    requires CleanThroughout(proto, calls) && k <= |calls|
    ensures CleanThroughout(proto, calls[..k]) && Clean(After(proto, calls[..k]))
  {
    hide Clean, After;
    forall i: nat | i <= k ensures Clean(After(proto, calls[..k][..i])) {
      assert calls[..k][..i] == calls[..i];
    }
  }

  lemma CleanOnceMore(proto: Protocol, calls: seq<PoolCall>)
    requires calls != [] && CleanThroughout(proto, calls[..|calls| - 1]) && Clean(After(proto, calls))
    ensures CleanThroughout(proto, calls)
  {
    hide Clean, After;
    var front := calls[..|calls| - 1];
    forall i: nat | i <= |calls| ensures Clean(After(proto, calls[..i])) {
      if i == |calls| {
        assert calls[..i] == calls;
      } else {
        assert calls[..i] == front[..i];
      }
    }
  }

  lemma ThroughoutSplits(proto: Protocol, calls: seq<PoolCall>)
    requires calls != []
    ensures CleanThroughout(proto, calls) <==>
            CleanThroughout(proto, calls[..|calls| - 1]) && Clean(After(proto, calls))
  {
    hide CleanThroughout, Clean, After;
    assert calls[..|calls|] == calls;
    if CleanThroughout(proto, calls) {
      CleanSoFar(proto, calls, |calls| - 1);
      CleanSoFar(proto, calls, |calls|);
    } else if CleanThroughout(proto, calls[..|calls| - 1]) && Clean(After(proto, calls)) {
      CleanOnceMore(proto, calls);
    }
  }

  lemma SpoilsSplits(proto: Protocol, calls: seq<PoolCall>)
    requires calls != []
    ensures SomeCallSpoils(proto, calls) <==>
            SomeCallSpoils(proto, calls[..|calls| - 1]) || SpoilsAt(proto, calls, |calls| - 1)
  {
    hide Spoils, After;
    var front := calls[..|calls| - 1];
    if !SpoilsAt(proto, calls, |front|) {
      if k: nat :| k < |front| && SpoilsAt(proto, front, k) {
        assert calls[..k] == front[..k] && SpoilsAt(proto, calls, k);
      } else if k: nat :| k < |calls| && SpoilsAt(proto, calls, k) {
        assert calls[..k] == front[..k] && !SpoilsAt(proto, front, k);
      }
    }
  }

  /** Over any list of calls the connection is in step between all of them if and only if no call is
      given up midway and none with an oversize key is answered. */
  lemma {:induction false} CleanExactly(proto: Protocol, calls: seq<PoolCall>)
    ensures CleanThroughout(proto, calls) <==> !SomeCallSpoils(proto, calls)
  {
    hide Clean, Spoils, Call;
    if calls == [] {
      assert Clean(After(proto, calls[..0])) by { NothingIsClean(); }
    } else {
      hide SomeCallSpoils;
      var front := calls[..|calls| - 1];
      CleanExactly(proto, front);
      ThroughoutSplits(proto, calls);
      SpoilsSplits(proto, calls);
      if CleanThroughout(proto, front) {
        assert front[..|front|] == front && Clean(After(proto, front[..|front|]));
        CallExactly(proto, After(proto, front), calls[|calls| - 1].request, calls[|calls| - 1].weather);
      }
    }
  }

  lemma NothingIsClean()
    ensures Clean(None)
  {}

  /** As long as no call before it spoiled the connection, an answered call with a key that fits has the
      peer's reply to itself; and it is answered whenever enough bytes get through. */
  lemma AnswersAreOwn(proto: Protocol, calls: seq<PoolCall>, k: nat)
    requires k < |calls| && !SomeCallSpoils(proto, calls[..k]) && |calls[k].request.key| < U32_RANGE
    ensures var call, slot := calls[k], After(proto, calls[..k]);
            (OutcomeAt(proto, calls, k).Answered? <==> CallCompletes(proto, slot, call.request, call.weather)) &&
            (OutcomeAt(proto, calls, k).Answered? ==>
               var l := LinkFor(slot, call.weather);
               OutcomeAt(proto, calls, k) == Answered(l.peer(l.served + [call.request])))
  {
    hide Call, After, TakenAs, CallCompletes;
    var front := calls[..k];
    CleanExactly(proto, front);
    assert front[..k] == front && Clean(After(proto, front[..k]));
    CallExactly(proto, After(proto, front), calls[k].request, calls[k].weather);
    TakenAsWritten(calls[k].request);
    if CallCompletes(proto, After(proto, front), calls[k].request, calls[k].weather) {
      CompletesReaches(proto, After(proto, front), calls[k].request, calls[k].weather);
    }
  }

  lemma CompletesReaches(proto: Protocol, slot: Option<Link>, r: Request, weather: Weather)
    requires CallCompletes(proto, slot, r, weather)
    ensures Reaches(slot, weather)
  {}

  // ---- After a call that was given up midway

  /** The reply to the last request served is waiting to be read. */
  predicate Behind(proto: Protocol, l: Link) {
    !l.closed && l.pending == [] && l.served != [] && l.inbox == ResponseWire(proto, l.peer(l.served))
  }

  /** A caller that gives up after its request is out and before any of the reply is in. */
  lemma GivenUpIsBehind(proto: Protocol, l: Link, r: Request, writable: nat)
    requires InStep(l) && |r.key| < U32_RANGE && |RequestWire(proto, r)| <= writable
    ensures var (ended, after) := Exchange(proto, l, r, writable, 0);
            ended == Trouble && Behind(proto, after) && after.peer == l.peer && after.served == l.served + [r]
  {
    hide Feed, TakeRequest, RequestHeader, ResponseHeader;
    FedOne(proto, l.peer, r, l.served);
    var wire, out := RequestWire(proto, r), ResponseWire(proto, l.peer(l.served + [r]));
    assert l.pending + wire == wire && l.inbox + out == out;
  }

  lemma BehindStaysBehind(proto: Protocol, l: Link, r: Request, writable: nat, readable: nat)
    requires Behind(proto, l) && |r.key| < U32_RANGE
    requires |RequestWire(proto, r)| <= writable && |l.inbox| <= readable
    ensures var (ended, after) := Exchange(proto, l, r, writable, readable);
            ended == Got(l.peer(l.served)) && Behind(proto, after) && after.peer == l.peer &&
            after.served == l.served + [r]
  {
    hide Feed, TakeRequest, TakeResponse, ReadReply, RequestHeader, ResponseHeader;
    FedOne(proto, l.peer, r, l.served);
    var wire, out := RequestWire(proto, r), ResponseWire(proto, l.peer(l.served + [r]));
    assert l.pending + wire == wire;
    ResponseTaken(proto, l.peer(l.served), out);
    ReadWhole(proto, l.inbox + out, false, readable);
  }

  /** The outcomes of a list of calls on one connection. */
  function Outcomes(proto: Protocol, slot: Option<Link>, calls: seq<PoolCall>): seq<Outcome>
    decreases |calls|
  {
    if calls == [] then []
    else
      var (o, after) := Call(proto, slot, calls[0].request, calls[0].weather);
      [o] + Outcomes(proto, after, calls[1..])
  }

  function RequestsOf(calls: seq<PoolCall>): (rs: seq<Request>)
    ensures |rs| == |calls| && forall k | 0 <= k < |calls| :: rs[k] == calls[k].request
  {
    seq(|calls|, k requires 0 <= k < |calls| => calls[k].request)
  }

  /** The calls have keys that fit and weather good enough for their own bytes and any reply. */
  ghost predicate Fair(proto: Protocol, peer: Handler, calls: seq<PoolCall>) {
    forall call | call in calls ::
      |call.request.key| < U32_RANGE && |RequestWire(proto, call.request)| <= call.weather.writable &&
      forall history :: |ResponseWire(proto, peer(history))| <= call.weather.readable
  }

  /** From then on every call, whoever makes it, is answered with the reply to the call before. */
  lemma {:induction false} RepliesLagForever(proto: Protocol, l: Link, calls: seq<PoolCall>)
    requires Behind(proto, l) && Fair(proto, l.peer, calls)
    ensures |Outcomes(proto, Some(l), calls)| == |calls|
    ensures forall k | 0 <= k < |calls| ::
              Outcomes(proto, Some(l), calls)[k] == Answered(l.peer(l.served + RequestsOf(calls[..k])))
    decreases |calls|
  {
    hide Exchange, RequestWire, ResponseWire, Behind;
    if calls != [] {
      var r, weather := calls[0].request, calls[0].weather;
      assert calls[0] in calls;
      InboxIs(proto, l);
      BehindStaysBehind(proto, l, r, weather.writable, weather.readable);
      var after := Exchange(proto, l, r, weather.writable, weather.readable).1;
      assert Fair(proto, l.peer, calls[1..]) by {
        assert forall call | call in calls[1..] :: call in calls;
      }
      RepliesLagForever(proto, after, calls[1..]);
      forall k | 0 <= k < |calls|
        ensures Outcomes(proto, Some(l), calls)[k] == Answered(l.peer(l.served + RequestsOf(calls[..k])))
      {
        if k == 0 {
          assert l.served + RequestsOf(calls[..0]) == l.served;
        } else {
          assert l.served + RequestsOf(calls[..k]) == l.served + [r] + RequestsOf(calls[1..][..k - 1]);
        }
      }
    }
  }

  lemma InboxIs(proto: Protocol, l: Link)
    requires Behind(proto, l)
    ensures l.inbox == ResponseWire(proto, l.peer(l.served))
  {}

  /** The whole run: a caller gives up while it waits, and every call after it gets the reply to the
      one before, the first of them the reply to the request that was given up. */
  lemma GivingUpShiftsReplies(proto: Protocol, l: Link, r: Request, weather: Weather, calls: seq<PoolCall>)
    requires InStep(l) && |r.key| < U32_RANGE && |RequestWire(proto, r)| <= weather.writable
    requires weather.readable == 0 && weather.abandoned && Fair(proto, l.peer, calls)
    ensures var os := Outcomes(proto, Some(l), [PoolCall(r, weather)] + calls);
            |os| == 1 + |calls| && os[0] == Abandoned &&
            forall k | 0 <= k < |calls| ::
              os[1 + k] == Answered(l.peer(l.served + [r] + RequestsOf(calls[..k])))
  {
    hide Exchange, RequestWire, Behind, Fair;
    GivenUpIsBehind(proto, l, r, weather.writable);
    var after := Exchange(proto, l, r, weather.writable, 0).1;
    RepliesLagForever(proto, after, calls);
    assert ([PoolCall(r, weather)] + calls)[1..] == calls;
  }

  /** What a peer takes the bytes of two requests for when the first was cut off inside its key or body:
      a request under the first one's header, with bytes of the second one in it. */
  function Merged(r: Request, sent: seq<u8>): Request
    requires |sent| >= |r.key| + |r.body|
  {
    Request(r.cmd, sent[..|r.key|], sent[|r.key|..|r.key| + |r.body|])
  }

  /** A caller gives up after the header and part of the key and body. The next request, however well
      formed, completes the first: the peer waits, or takes the two for one and answers that. */
  lemma PartialWriteMerges(proto: Protocol, l: Link, r: Request, next: Request, n: nat, writable: nat, readable: nat)
    requires InStep(l) && |r.key| < U32_RANGE && REQUEST_SIZE <= n < |RequestWire(proto, r)|
    requires |RequestWire(proto, next)| <= writable
    ensures var (first, after) := Exchange(proto, l, r, n, 0);
            var (second, end) := Exchange(proto, after, next, writable, readable);
            var sent, len := (r.key + r.body)[..n - REQUEST_SIZE] + RequestWire(proto, next), |r.key| + |r.body|;
            first == Trouble &&
            if |sent| < len then second == Trouble && end.served == l.served
            else
              var reply := l.peer(l.served + [Merged(r, sent)]);
              l.served + [Merged(r, sent)] <= end.served &&
              second == (if |ResponseWire(proto, reply)| <= readable then Got(reply) else Trouble) &&
              (|sent| == len && |ResponseWire(proto, reply)| <= readable ==> InStep(end))
  {
    hide Feed, TakeRequest, TakeResponse, ReadReply, RequestHeader, ResponseHeader, ParseRequestHeader;
    var wire, all := RequestWire(proto, r), RequestWire(proto, r)[..n] + RequestWire(proto, next);
    var sent, len := (r.key + r.body)[..n - REQUEST_SIZE] + RequestWire(proto, next), |r.key| + |r.body|;
    var after := Exchange(proto, l, r, n, 0).1;
    assert l.pending + wire[..n] == wire[..n];
    assert all == RequestHeader(proto, r.cmd, |r.key|, |r.body|) + sent by {
      assert wire == RequestHeader(proto, r.cmd, |r.key|, |r.body|) + (r.key + r.body);
    }
    HeaderTakes(proto, r, sent);
    FeedOnce(proto, l.peer, all, l.served);
    var f := Feed(proto, l.peer, all, l.served);
    assert l.inbox + f.out == f.out;
    if |sent| < len {
      NothingToRead(proto, readable);
    } else {
      var now := l.served + [Merged(r, sent)];
      var later := Feed(proto, l.peer, sent[len..], now);
      ServedGrows(proto, l.peer, sent[len..], now);
      ResponseTaken(proto, l.peer(now), later.out);
      ReadWhole(proto, f.out, f.closed, readable);
      if |sent| == len {
        NothingToTake(proto);
        FeedOnce(proto, l.peer, [], now);
        assert sent[len..] == [];
      }
    }
  }

  lemma HeaderTakes(proto: Protocol, r: Request, sent: seq<u8>)
    requires |r.key| < U32_RANGE
    ensures TakeRequest(proto, RequestHeader(proto, r.cmd, |r.key|, |r.body|) + sent) ==
            if |sent| < |r.key| + |r.body| then Waits else Took(Merged(r, sent), sent[|r.key| + |r.body|..])
  {
    hide RequestHeader, ParseRequestHeader;
    var s, len := RequestHeader(proto, r.cmd, |r.key|, |r.body|) + sent, |r.key| + |r.body|;
    RequestHeaderReadsBack(proto, r.cmd, |r.key|, |r.body|);
    assert s[..REQUEST_SIZE] == RequestHeader(proto, r.cmd, |r.key|, |r.body|) && s[REQUEST_SIZE..] == sent;
    if |sent| >= len {
      Sliced(s, REQUEST_SIZE, sent, 0, |r.key|);
      Sliced(s, REQUEST_SIZE, sent, |r.key|, len);
    }
  }

  lemma FeedOnce(proto: Protocol, peer: Handler, s: seq<u8>, served: seq<Request>)
    ensures TakeRequest(proto, s).Waits? ==> Feed(proto, peer, s, served) == Fed(s, served, [], false)
    ensures var t := TakeRequest(proto, s);
            t.Took? ==>
              var now := served + [t.request];
              var later := Feed(proto, peer, t.rest, now);
              Feed(proto, peer, s, served) == later.(out := ResponseWire(proto, peer(now)) + later.out)
  {
    hide TakeRequest, ResponseWire;
  }

  lemma NothingToRead(proto: Protocol, readable: nat)
    ensures ReadReply(proto, [], false, readable) == (Trouble, [])
  {}

  lemma {:induction false} ServedGrows(proto: Protocol, peer: Handler, s: seq<u8>, served: seq<Request>)
    ensures served <= Feed(proto, peer, s, served).served
    decreases |s|
  {
    hide TakeRequest, ResponseWire;
    var t := TakeRequest(proto, s);
    if t.Took? {
      ServedGrows(proto, peer, t.rest, served + [t.request]);
    }
  }

  /** A caller gives up after the bare header of a request whose body has the size of the next request
      on the wire: the next caller is answered for the other one's request with its own as the body,
      and then the connection happens to be in step again. */
  lemma NextTakenForBody(proto: Protocol, l: Link, r: Request, next: Request, writable: nat, readable: nat)
    requires InStep(l) && r.key == [] && |r.body| == |RequestWire(proto, next)| <= writable
    requires |ResponseWire(proto, l.peer(l.served + [Request(r.cmd, [], RequestWire(proto, next))]))| <= readable
    ensures var (_, after) := Exchange(proto, l, r, REQUEST_SIZE, 0);
            var (second, end) := Exchange(proto, after, next, writable, readable);
            second == Got(l.peer(l.served + [Request(r.cmd, [], RequestWire(proto, next))])) && InStep(end)
  {
    hide Exchange, ResponseWire, RequestHeader;
    var wire := RequestWire(proto, next);
    assert |wire| >= REQUEST_SIZE && |RequestWire(proto, r)| > REQUEST_SIZE;
    PartialWriteMerges(proto, l, r, next, REQUEST_SIZE, writable, readable);
    assert (r.key + r.body)[..0] + wire == wire && wire[..0] == [] && wire[0..|wire|] == wire;
  }

  /** So a caller after one that gave up can even get its own reply: with this request, whose body is its
      own header, given up after the header and sent again, the bytes fall into place, although the
      connection was out of step and stays so. */
  lemma OwnReplyByAccident(proto: Protocol, l: Link, cmd: u32, writable: nat, readable: nat)
    requires InStep(l) && 2 * REQUEST_SIZE <= writable
    ensures var r := Request(cmd, [], RequestHeader(proto, cmd, 0, REQUEST_SIZE));
            var (_, after) := Exchange(proto, l, r, REQUEST_SIZE, 0);
            |ResponseWire(proto, l.peer(l.served + [r]))| <= readable ==>
              !InStep(after) && Exchange(proto, after, r, writable, readable).0 == Got(l.peer(l.served + [r]))
  {
    hide Exchange, ResponseWire, RequestHeader;
    var header := RequestHeader(proto, cmd, 0, REQUEST_SIZE);
    var r := Request(cmd, [], header);
    var wire := RequestWire(proto, r);
    assert wire == header + header;
    PartialWriteMerges(proto, l, r, r, REQUEST_SIZE, writable, readable);
    ExchangeExactly(proto, l, r, REQUEST_SIZE, 0);
    assert (r.key + r.body)[..0] + wire == wire && wire[..0] == [] && wire[0..REQUEST_SIZE] == header;
  }
}
