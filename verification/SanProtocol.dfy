// The framing shared by the SAN management and object sockets: a 28-byte request header followed
// by key and body, and a 24-byte response header followed by metadata and body, little-endian.
module SanProtocol {
  import opened Basics
  import opened Wrappers
  import opened Bytes

  /** The two protocols differ in their magic numbers, and in the status that tells a client it sent
      something else than a request. */
  datatype Protocol = Protocol(requestMagic: u32, responseMagic: u32, refusal: u32)

  const MGMT := Protocol(0x4D47_4D54, 0x4D47_4D52, 4)
  const OBJECT := Protocol(0x4F42_4A53, 0x4F42_4A52, 8)

  const REQUEST_SIZE: nat := 28
  const RESPONSE_SIZE: nat := 24
  const U32_RANGE: nat := 0x1_0000_0000
  const BODY_LIMIT: nat := 0x8000_0000_0000_0000

  /** A buffer in memory, far below 2^64 bytes. */
  type Buffer = s: seq<u8> | |s| < BODY_LIMIT

  /** What a response can carry as metadata. */
  type Metadata = s: seq<u8> | |s| < 0x1_0000_0000

  datatype Request = Request(cmd: u32, key: Buffer, body: Buffer)
  datatype Response = Response(status: u32, metadata: Metadata, body: Buffer)

  function RequestHeader(proto: Protocol, cmd: u32, keyLen: u32, bodyLen: u64): (s: seq<u8>)
    ensures |s| == REQUEST_SIZE
  {
    ToLe(proto.requestMagic, 4) + ToLe(cmd, 4) + ToLe(keyLen, 4) + ToLe(bodyLen, 8) + ToLe(0, 4) + ToLe(0, 4)
  }

  function ResponseHeader(proto: Protocol, status: u32, bodyLen: u64, metadataLen: u32): (s: seq<u8>)
    ensures |s| == RESPONSE_SIZE
  {
    ToLe(proto.responseMagic, 4) + ToLe(status, 4) + ToLe(bodyLen, 8) + ToLe(metadataLen, 4) + ToLe(0, 4)
  }

  /** What the client writes. The key length is cast to 32 bits. */
  function RequestWire(proto: Protocol, r: Request): seq<u8> {
    RequestHeader(proto, r.cmd, |r.key| % U32_RANGE, |r.body|) + r.key + r.body
  }

  function ResponseWire(proto: Protocol, r: Response): seq<u8> {
    ResponseHeader(proto, r.status, |r.body|, |r.metadata|) + r.metadata + r.body
  }

  datatype ResponseFields = ResponseFields(magic: nat, status: u32, bodyLen: u64, metadataLen: u32)

  function ParseResponseHeader(s: seq<u8>): ResponseFields
    requires |s| == RESPONSE_SIZE
  {
    RangeValues();
    ResponseFields(FromLe(s[0..4]), FromLe(s[4..8]), FromLe(s[8..16]), FromLe(s[16..20]))
  }

  datatype RequestFields = RequestFields(magic: nat, cmd: u32, keyLen: u32, bodyLen: u64)

  function ParseRequestHeader(s: seq<u8>): RequestFields
    requires |s| == REQUEST_SIZE
  {
    RangeValues();
    RequestFields(FromLe(s[0..4]), FromLe(s[4..8]), FromLe(s[8..12]), FromLe(s[12..20]))
  }

  lemma RequestHeaderReadsBack(proto: Protocol, cmd: u32, keyLen: u32, bodyLen: u64)
    ensures ParseRequestHeader(RequestHeader(proto, cmd, keyLen, bodyLen)) ==
            RequestFields(proto.requestMagic, cmd, keyLen, bodyLen)
  {
    hide ToLe, FromLe;
    RangeValues();
    var s := RequestHeader(proto, cmd, keyLen, bodyLen);
    assert s[0..4] == ToLe(proto.requestMagic, 4) && s[4..8] == ToLe(cmd, 4);
    assert s[8..12] == ToLe(keyLen, 4) && s[12..20] == ToLe(bodyLen, 8);
    LeReadsBack(proto.requestMagic, 4);
    LeReadsBack(cmd, 4);
    LeReadsBack(keyLen, 4);
    LeReadsBack(bodyLen, 8);
  }

  lemma ResponseHeaderReadsBack(proto: Protocol, status: u32, bodyLen: u64, metadataLen: u32)
    ensures ParseResponseHeader(ResponseHeader(proto, status, bodyLen, metadataLen)) ==
            ResponseFields(proto.responseMagic, status, bodyLen, metadataLen)
  {
    hide ToLe, FromLe;
    RangeValues();
    var s := ResponseHeader(proto, status, bodyLen, metadataLen);
    assert s[0..4] == ToLe(proto.responseMagic, 4) && s[4..8] == ToLe(status, 4);
    assert s[8..16] == ToLe(bodyLen, 8) && s[16..20] == ToLe(metadataLen, 4);
    LeReadsBack(proto.responseMagic, 4);
    LeReadsBack(status, 4);
    LeReadsBack(bodyLen, 8);
    LeReadsBack(metadataLen, 4);
  }

  /** The bytes at `at` are a number in `k` bytes, least significant first. */
  ghost predicate NumberAt(s: seq<u8>, at: nat, k: nat, n: nat) {
    at + k <= |s| && forall i | 0 <= i < k :: s[at + i] == n / Range(i) % 256
  }

  lemma NumberIs(s: seq<u8>, at: nat, k: nat, n: nat)
    requires at + k <= |s| && s[at..at + k] == ToLe(n, k)
    ensures NumberAt(s, at, k, n)
  {
    forall i | 0 <= i < k ensures s[at + i] == n / Range(i) % 256 {
      LeDigit(n, k, i);
      assert s[at + i] == s[at..at + k][i];
    }
  }

  /** A request by byte positions: magic at 0, command at 4, key length at 8, body length at 12, eight
      reserved bytes, then key and body. */
  lemma RequestOnWire(proto: Protocol, r: Request)
    ensures var s := RequestWire(proto, r);
            NumberAt(s, 0, 4, proto.requestMagic) && NumberAt(s, 4, 4, r.cmd) &&
            NumberAt(s, 8, 4, |r.key| % 0x1_0000_0000) && NumberAt(s, 12, 8, |r.body|) &&
            NumberAt(s, 20, 8, 0) && s[28..] == r.key + r.body
  {
    hide ToLe, NumberAt;
    var s := RequestWire(proto, r);
    assert s[0..4] == ToLe(proto.requestMagic, 4) && s[4..8] == ToLe(r.cmd, 4);
    assert s[8..12] == ToLe(|r.key| % U32_RANGE, 4) && s[12..20] == ToLe(|r.body|, 8);
    assert s[20..28] == ToLe(0, 4) + ToLe(0, 4) == ToLe(0, 8) by { ZeroWords(); }
    NumberIs(s, 0, 4, proto.requestMagic);
    NumberIs(s, 4, 4, r.cmd);
    NumberIs(s, 8, 4, |r.key| % U32_RANGE);
    NumberIs(s, 12, 8, |r.body|);
    NumberIs(s, 20, 8, 0);
  }

  lemma ZeroWords()
    ensures ToLe(0, 4) + ToLe(0, 4) == ToLe(0, 8)
  {
    assert ToLe(0, 4) == [0, 0] + ToLe(0, 2) && ToLe(0, 8) == [0, 0] + ToLe(0, 6) && ToLe(0, 6) == [0, 0] + ToLe(0, 4);
    assert ToLe(0, 2) == [0, 0];
  }

  /** A response by byte positions: magic at 0, status at 4, body length at 8, metadata length at 16, four
      reserved bytes, then metadata and body. */
  lemma ResponseOnWire(proto: Protocol, r: Response)
    ensures var s := ResponseWire(proto, r);
            NumberAt(s, 0, 4, proto.responseMagic) && NumberAt(s, 4, 4, r.status) && NumberAt(s, 8, 8, |r.body|) &&
            NumberAt(s, 16, 4, |r.metadata|) && NumberAt(s, 20, 4, 0) && s[24..] == r.metadata + r.body
  {
    hide ToLe, NumberAt;
    var s := ResponseWire(proto, r);
    assert s[0..4] == ToLe(proto.responseMagic, 4) && s[4..8] == ToLe(r.status, 4);
    assert s[8..16] == ToLe(|r.body|, 8) && s[16..20] == ToLe(|r.metadata|, 4) && s[20..24] == ToLe(0, 4);
    NumberIs(s, 0, 4, proto.responseMagic);
    NumberIs(s, 4, 4, r.status);
    NumberIs(s, 8, 8, |r.body|);
    NumberIs(s, 16, 4, |r.metadata|);
    NumberIs(s, 20, 4, 0);
  }

  /** The magic bytes of the two protocols: "TMGM" and "RMGM", "SJBO" and "RJBO". */
  lemma MagicOnWire()
    ensures ToLe(MGMT.requestMagic, 4) == [0x54, 0x4D, 0x47, 0x4D]
    ensures ToLe(MGMT.responseMagic, 4) == [0x52, 0x4D, 0x47, 0x4D]
    ensures ToLe(OBJECT.requestMagic, 4) == [0x53, 0x4A, 0x42, 0x4F]
    ensures ToLe(OBJECT.responseMagic, 4) == [0x52, 0x4A, 0x42, 0x4F]
    ensures ToLe(MGMT.refusal, 4) == [4, 0, 0, 0] && ToLe(OBJECT.refusal, 4) == [8, 0, 0, 0]
  {
    assert ToLe(0x4D47, 2) == [0x47, 0x4D] && ToLe(0x4F42, 2) == [0x42, 0x4F];
    assert ToLe(0x4D_474D, 3) == [0x4D] + ToLe(0x4D47, 2) && ToLe(0x4F_424A, 3) == [0x4A] + ToLe(0x4F42, 2);
    assert ToLe(0, 2) == [0, 0] && ToLe(0, 3) == [0] + ToLe(0, 2);
  }

  /** The first response of a byte stream, with the bytes after it. */
  function TakeResponse(proto: Protocol, s: seq<u8>): Option<(Response, seq<u8>)> {
    if |s| < RESPONSE_SIZE then None
    else
      var h := ParseResponseHeader(s[..RESPONSE_SIZE]);
      var metadataEnd := RESPONSE_SIZE + h.metadataLen;
      var end := metadataEnd + h.bodyLen;
      if h.magic != proto.responseMagic || |s| < end || h.bodyLen >= BODY_LIMIT then None
      else Some((Response(h.status, s[RESPONSE_SIZE..metadataEnd], s[metadataEnd..end]), s[end..]))
  }

  lemma ResponseTaken(proto: Protocol, r: Response, rest: seq<u8>)
    ensures TakeResponse(proto, ResponseWire(proto, r) + rest) == Some((r, rest))
  {
    hide ResponseHeader, ParseResponseHeader;
    var s := ResponseWire(proto, r) + rest;
    ResponseHeaderReadsBack(proto, r.status, |r.body|, |r.metadata|);
    assert s[..RESPONSE_SIZE] == ResponseHeader(proto, r.status, |r.body|, |r.metadata|);
    var metadataEnd := RESPONSE_SIZE + |r.metadata|;
    assert s[RESPONSE_SIZE..metadataEnd] == r.metadata && s[metadataEnd..metadataEnd + |r.body|] == r.body;
    assert s[metadataEnd + |r.body|..] == rest;
  }

  // ---- A conforming peer

  /** How a peer answers: the reply to the last of the requests it has served so far. */
  type Handler = seq<Request> -> Response

  /** What a peer does with unread bytes: wait for more, refuse a header without the request magic,
      or take a request and leave the rest. */
  datatype Taken = Waits | Refuses | Took(request: Request, rest: seq<u8>)

  function TakeRequest(proto: Protocol, s: seq<u8>): (t: Taken)
    ensures t.Took? ==> |t.rest| < |s|
  {
    if |s| < REQUEST_SIZE then Waits
    else
      var h := ParseRequestHeader(s[..REQUEST_SIZE]);
      var keyEnd := REQUEST_SIZE + h.keyLen;
      var end := keyEnd + h.bodyLen;
      if h.magic != proto.requestMagic then Refuses
      else if |s| < end || h.bodyLen >= BODY_LIMIT then Waits
      else Took(Request(h.cmd, s[REQUEST_SIZE..keyEnd], s[keyEnd..end]), s[end..])
  }

  /** What a peer makes of unread bytes: what it leaves, all it has served, what it sends, and whether
      it closes the connection, which it does after a refusal. */
  datatype Fed = Fed(pending: seq<u8>, served: seq<Request>, out: seq<u8>, closed: bool)

  function Refusal(proto: Protocol): Response { Response(proto.refusal, [], []) }

  function Feed(proto: Protocol, peer: Handler, pending: seq<u8>, served: seq<Request>): Fed
    decreases |pending|
  {
    match TakeRequest(proto, pending)
    case Waits => Fed(pending, served, [], false)
    case Refuses => Fed(pending, served, ResponseWire(proto, Refusal(proto)), true)
    case Took(r, rest) =>
      var now := served + [r];
      var later := Feed(proto, peer, rest, now);
      later.(out := ResponseWire(proto, peer(now)) + later.out)
  }

  /** The key bytes the header announces. */
  function KeyField(r: Request): nat { |r.key| % U32_RANGE }

  /** The request a peer takes from what is written for `r`: it cuts key and body where the header
      says, so a longer key spills into the body and the rest is left over. */
  function TakenAs(r: Request): Request {
    var sent, k := r.key + r.body, KeyField(r);
    Request(r.cmd, sent[..k], sent[k..k + |r.body|])
  }

  function LeftOver(r: Request): seq<u8> { (r.key + r.body)[KeyField(r) + |r.body|..] }

  lemma TakenAsWritten(r: Request)
    ensures TakenAs(r) == r <==> |r.key| < U32_RANGE
    ensures LeftOver(r) == [] <==> |r.key| < U32_RANGE
  {
    var sent := r.key + r.body;
    if |r.key| < U32_RANGE {
      assert sent[..|r.key|] == r.key && sent[|r.key|..|r.key| + |r.body|] == r.body;
    }
  }

  lemma RequestTaken(proto: Protocol, r: Request, rest: seq<u8>)
    ensures TakeRequest(proto, RequestWire(proto, r) + rest) == Took(TakenAs(r), LeftOver(r) + rest)
  {
    hide RequestHeader, ParseRequestHeader;
    var s, sent, k := RequestWire(proto, r) + rest, r.key + r.body, KeyField(r);
    RequestHeaderReadsBack(proto, r.cmd, k, |r.body|);
    assert s == RequestHeader(proto, r.cmd, k, |r.body|) + (sent + rest);
    assert s[..REQUEST_SIZE] == RequestHeader(proto, r.cmd, k, |r.body|) && s[REQUEST_SIZE..] == sent + rest;
    assert forall j | 0 <= j <= |sent| :: (sent + rest)[j..] == sent[j..] + rest;
    Sliced(s, REQUEST_SIZE, sent + rest, 0, k);
    Sliced(s, REQUEST_SIZE, sent + rest, k, k + |r.body|);
    assert (sent + rest)[..k] == sent[..k];
    assert (sent + rest)[k..k + |r.body|] == sent[k..k + |r.body|];
  }

  lemma Sliced(s: seq<u8>, at: nat, tail: seq<u8>, j: nat, k: nat)
    requires at <= |s| && s[at..] == tail && j <= k <= |tail|
    ensures s[at + j..at + k] == tail[j..k] && s[at + k..] == tail[k..]
  {
    forall i | j <= i < |tail| ensures s[at + i] == tail[i] {
      assert s[at + i] == s[at..][i];
    }
  }

  /** The peer takes the very request that was written, and leaves what follows it, if and only if
      the key length fits 32 bits. */
  lemma RequestTakenExactly(proto: Protocol, r: Request, rest: seq<u8>)
    ensures TakeRequest(proto, RequestWire(proto, r) + rest) == Took(r, rest) <==> |r.key| < U32_RANGE
  {
    hide TakeRequest, RequestWire, TakenAs, LeftOver;
    RequestTaken(proto, r, rest);
    TakenAsWritten(r);
    assert [] + rest == rest;
  }

  /** A peer at a boundary that is fed one request answers first what it took the request for; it
      has then nothing left and nothing more to say if and only if the key length fits 32 bits. */
  lemma FedExactly(proto: Protocol, peer: Handler, r: Request, served: seq<Request>)
    ensures var f, now := Feed(proto, peer, RequestWire(proto, r), served), served + [TakenAs(r)];
            var first := TakeResponse(proto, f.out);
            first.Some? && first.value.0 == peer(now) &&
            |f.out| == |ResponseWire(proto, peer(now))| + |first.value.1| &&
            (f.pending == [] && first.value.1 == [] && !f.closed <==> |r.key| < U32_RANGE) &&
            (|r.key| < U32_RANGE ==> f.served == now)
  {
    hide TakeRequest, TakeResponse, RequestWire, ResponseWire, TakenAs, LeftOver;
    RequestTaken(proto, r, []);
    TakenAsWritten(r);
    assert RequestWire(proto, r) + [] == RequestWire(proto, r) && LeftOver(r) + [] == LeftOver(r);
    var now := served + [TakenAs(r)];
    var later := Feed(proto, peer, LeftOver(r), now);
    ResponseTaken(proto, peer(now), later.out);
    NothingToTake(proto);
    if LeftOver(r) != [] {
      FedLeavesTrace(proto, peer, LeftOver(r), now);
    }
  }

  /** With a key length that fits, the peer takes the request and sends its reply, and that is all. */
  lemma FedOne(proto: Protocol, peer: Handler, r: Request, served: seq<Request>)
    requires |r.key| < U32_RANGE
    ensures var now := served + [r];
            Feed(proto, peer, RequestWire(proto, r), served) == Fed([], now, ResponseWire(proto, peer(now)), false)
  {
    hide TakeRequest, RequestWire, ResponseWire;
    RequestTakenExactly(proto, r, []);
    assert RequestWire(proto, r) + [] == RequestWire(proto, r);
    NothingToTake(proto);
    var reply := ResponseWire(proto, peer(served + [r]));
    assert reply + [] == reply;
  }

  lemma NothingToTake(proto: Protocol)
    ensures TakeRequest(proto, []) == Waits
  {}

  /** Bytes a peer is left with never vanish: it keeps them or sends something because of them. */
  lemma FedLeavesTrace(proto: Protocol, peer: Handler, pending: seq<u8>, served: seq<Request>)
    requires pending != []
    ensures var f := Feed(proto, peer, pending, served); f.pending != [] || f.out != []
  {
    hide TakeRequest;
  }
}
