// The pool of connections to the SAN daemon: one for management and one per volume for objects,
// opened lazily, evicted after an error, and otherwise kept in whatever state a call leaves them.
module SocketPool {
  import opened Basics
  import opened Wrappers
  import opened Bytes
  import opened SanProtocol
  import opened SanExchange

  /** One socket with a conforming peer at the other end. `writable` and `readable` are the bytes
      that still get through before the transport gives trouble. */
  class Connection {
    const proto: Protocol
    const peer: Handler
    var pending: seq<u8>
    var inbox: seq<u8>
    var served: seq<Request>
    var closed: bool
    var writable: nat
    var readable: nat

    constructor (proto: Protocol, peer: Handler)
      ensures this.proto == proto && State() == Fresh(peer)
    {
      this.proto := proto;
      this.peer := peer;
      pending, inbox, served, closed := [], [], [], false;
      writable, readable := 0, 0;
    }

    function State(): Link
      reads this
    {
      Link(peer, pending, inbox, served, closed)
    }

    method WriteAll(bytes: seq<u8>) returns (ok: bool)
      modifies this`pending, this`writable
      ensures ok <==> |bytes| <= old(writable)
      ensures pending == old(pending) + bytes[..Min(|bytes|, old(writable))]
      ensures writable == old(writable) - Min(|bytes|, old(writable))
    {
      var n := Min(|bytes|, writable);
      ok := n == |bytes|;
      pending := pending + bytes[..n];
      writable := writable - n;
    }

    /** The peer does all it can with what it has been sent. */
    method CatchUp()
      modifies this`pending, this`inbox, this`served, this`closed
      ensures old(closed) ==> State() == old(State())
      ensures !old(closed) ==>
                var f := Feed(proto, peer, old(pending), old(served));
                State() == Link(peer, f.pending, old(inbox) + f.out, f.served, f.closed)
    {
      if !closed {
        var f := Feed(proto, peer, pending, served);
        pending, served, closed := f.pending, f.served, f.closed;
        inbox := inbox + f.out;
      }
    }

    method ReadExact(n: nat) returns (r: Option<seq<u8>>)
      modifies this`inbox, this`readable
      ensures var got := Min(Min(n, |old(inbox)|), old(readable));
              r == (if got == n then Some(old(inbox)[..n]) else None) &&
              inbox == old(inbox)[got..] && readable == old(readable) - got
    {
      var got := Min(Min(n, |inbox|), readable);
      r := if got == n then Some(inbox[..n]) else None;
      inbox := inbox[got..];
      readable := readable - got;
    }

    /** Whether reading stopped at the end of what a closed peer had sent. */
    predicate AtEnd()
      reads this
    {
      closed && inbox == []
    }
  }

  /** The request part of an exchange: header, then key and body unless empty. */
  method WriteRequest(stream: Connection, r: Request) returns (ok: bool)
    modifies stream`pending, stream`writable
    ensures var wire := RequestWire(stream.proto, r);
            var sent := Min(|wire|, old(stream.writable));
            (ok <==> sent == |wire|) && stream.pending == old(stream.pending) + wire[..sent] &&
            stream.writable == old(stream.writable) - sent
  {
    hide RequestHeader;
    var header := RequestHeader(stream.proto, r.cmd, |r.key| % U32_RANGE, |r.body|);
    Prefixes(header, r.key, r.body);
    ok := stream.WriteAll(header);
    if !ok {
      return;
    }
    if r.key != [] {
      ok := stream.WriteAll(r.key);
      if !ok {
        return;
      }
    }
    if r.body != [] {
      ok := stream.WriteAll(r.body);
    }
  }

  /** What is cut off inside a part is what is cut off the whole. */
  lemma Prefixes(header: seq<u8>, key: seq<u8>, body: seq<u8>)
    ensures forall n | 0 <= n <= |header| :: (header + key + body)[..n] == header[..n]
    ensures forall n | 0 <= n <= |key| :: (header + key + body)[..|header| + n] == header + key[..n]
    ensures forall n | 0 <= n <= |body| :: (header + key + body)[..|header| + |key| + n] == header + key + body[..n]
  {}

  lemma Slices(s: seq<u8>, at: nat, n: nat)
    requires at + n <= |s|
    ensures s[at..][..n] == s[at..at + n] && s[at..][n..] == s[at + n..]
  {}

  /** A part of the response of announced length; nothing is read for an empty one. */
  method ReadPart(stream: Connection, n: nat) returns (r: Option<seq<u8>>)
    modifies stream`inbox, stream`readable
    ensures var got := Min(Min(n, |old(stream.inbox)|), old(stream.readable));
            r == (if got == n then Some(old(stream.inbox)[..n]) else None) &&
            stream.inbox == old(stream.inbox)[got..] && stream.readable == old(stream.readable) - got
  {
    if n == 0 {
      return Some([]);
    }
    r := stream.ReadExact(n);
  }

  /** The response part: header, then as many bytes as it announces. */
  method ReadResponse(stream: Connection) returns (ended: Ended)
    modifies stream`inbox, stream`readable
    ensures (ended, stream.inbox) ==
            ReadReply(stream.proto, old(stream.inbox), stream.closed, old(stream.readable))
  {
    hide ParseResponseHeader;
    ghost var all := stream.inbox;
    var header := stream.ReadExact(RESPONSE_SIZE);
    if header.None? {
      return if stream.AtEnd() then Broken else Trouble;
    }
    var fields := ParseResponseHeader(header.value);
    if fields.magic != stream.proto.responseMagic {
      return Broken;
    }
    var metadata := ReadPart(stream, fields.metadataLen);
    if metadata.None? {
      return if stream.AtEnd() then Broken else Trouble;
    }
    Slices(all, RESPONSE_SIZE, fields.metadataLen);
    if fields.bodyLen >= BODY_LIMIT {
      return TooLong;
    }
    var body := ReadPart(stream, fields.bodyLen);
    if body.None? {
      return if stream.AtEnd() then Broken else Trouble;
    }
    Slices(all, RESPONSE_SIZE + fields.metadataLen, fields.bodyLen);
    return Got(Response(fields.status, metadata.value, body.value));
  }

  /** One exchange, on a connection in any state. */
  method DoRequest(stream: Connection, r: Request) returns (ended: Ended)
    modifies stream`pending, stream`inbox, stream`served, stream`closed, stream`writable, stream`readable
    ensures (ended, stream.State()) ==
            Exchange(stream.proto, old(stream.State()), r, old(stream.writable), old(stream.readable))
  {
    hide Feed, ReadReply, RequestWire;
    if stream.closed {
      return Broken;
    }
    var ok := WriteRequest(stream, r);
    if !ok {
      return Trouble;
    }
    ghost var wire := RequestWire(stream.proto, r);
    assert wire[..|wire|] == wire;
    stream.CatchUp();
    ended := ReadResponse(stream);
  }

  class SocketPool {
    var mgmtConn: Connection?
    var objConns: map<string, Connection>

    constructor ()
      ensures Wired() && MgmtSlot() == None && objConns == map[]
    {
      mgmtConn, objConns := null, map[];
    }

    /** Every connection speaks its protocol, and no two entries of the pool are the same connection. */
    ghost predicate Wired()
      reads this`mgmtConn, this`objConns
    {
      (mgmtConn != null ==> mgmtConn.proto == MGMT && mgmtConn !in objConns.Values) &&
      (forall v | v in objConns :: objConns[v].proto == OBJECT) &&
      forall u, v | u in objConns && v in objConns && u != v :: objConns[u] != objConns[v]
    }

    function MgmtSlot(): Option<Link>
      reads this`mgmtConn, mgmtConn
    {
      if mgmtConn == null then None else Some(mgmtConn.State())
    }

    function ObjectSlot(volume: string): Option<Link>
      reads this`objConns, if volume in objConns then {objConns[volume]} else {}
    {
      if volume in objConns then Some(objConns[volume].State()) else None
    }

    /** Whatever state earlier calls left the pool in, a call acts on its connection as `Call` says,
        and no error is kept in the pool. */
    method MgmtRequest(r: Request, weather: Weather) returns (o: Outcome)
      requires Wired()
      modifies this`mgmtConn, mgmtConn
      ensures Wired() && (o, MgmtSlot()) == Call(MGMT, old(MgmtSlot()), r, weather)
    {
      hide Exchange;
      if mgmtConn == null {
        if weather.connects.None? {
          return if weather.abandoned then Abandoned else Failed;
        }
        mgmtConn := new Connection(MGMT, weather.connects.value);
      }
      mgmtConn.writable, mgmtConn.readable := weather.writable, weather.readable;
      var ended := DoRequest(mgmtConn, r);
      match ended {
        case Got(reply) => return Answered(reply);
        case TooLong => return Panicked;
        case Trouble =>
          if weather.abandoned {
            return Abandoned;
          }
        case Broken =>
      }
      mgmtConn := null;
      return Failed;
    }

    /** The same for the object connection of one volume, leaving all other connections alone. */
    method ObjectRequest(volume: string, r: Request, weather: Weather) returns (o: Outcome)
      requires Wired()
      modifies this`objConns, if volume in objConns then {objConns[volume]} else {}
      ensures Wired() && (o, ObjectSlot(volume)) == Call(OBJECT, old(ObjectSlot(volume)), r, weather)
      ensures objConns.Keys + {volume} == old(objConns.Keys) + {volume}
      ensures forall v | v in old(objConns) && v != volume :: objConns[v] == old(objConns[v])
    {
      hide Exchange;
      if volume !in objConns {
        if weather.connects.None? {
          return if weather.abandoned then Abandoned else Failed;
        }
        var stream := new Connection(OBJECT, weather.connects.value);
        objConns := objConns[volume := stream];
      }
      var stream := objConns[volume];
      stream.writable, stream.readable := weather.writable, weather.readable;
      var ended := DoRequest(stream, r);
      match ended {
        case Got(reply) => return Answered(reply);
        case TooLong => return Panicked;
        case Trouble =>
          if weather.abandoned {
            return Abandoned;
          }
        case Broken =>
      }
      objConns := objConns - {volume};
      return Failed;
    }
  }
}
