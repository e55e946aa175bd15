// Guest packets on their way to the host: packed into one buffer with two-byte length prefixes,
// and unpacked again by the network poll.
module PacketBuffer {
  import opened Basics
  import opened Bytes

  type Packet = seq<u8>

  const TX_BUF_SIZE: nat := 65536

  /** A packet with its length prefix; the length is cut to 16 bits. */
  function Framed(p: Packet): seq<u8> { [|p| % 65536 % 256, |p| % 65536 / 256] + p }

  /** The prefix is the low sixteen bits of the length, the low byte first. */
  lemma PrefixBytes(p: Packet)
    ensures |Framed(p)| == 2 + |p| && Framed(p)[2..] == p
    ensures Framed(p)[0] == |p| % 256 && Framed(p)[1] == |p| / 256 % 256
  {
    var n := |p|;
    assert n == 65536 * (n / 65536) + n % 65536;
    assert n / 256 == 256 * (n / 65536) + n % 65536 / 256;
  }

  function Packed(ps: seq<Packet>): seq<u8> {
    if ps == [] then [] else Framed(ps[0]) + Packed(ps[1..])
  }

  lemma {:induction false} PackedAppend(a: seq<Packet>, b: seq<Packet>)
    ensures Packed(a + b) == Packed(a) + Packed(b)
  {
    hide Framed;
    if a == [] {
      assert a + b == b && [] + Packed(b) == Packed(b);
    } else {
      PackedAppend(a[1..], b);
      assert (a + b)[0] == a[0] && (a + b)[1..] == a[1..] + b;
      assert Framed(a[0]) + (Packed(a[1..]) + Packed(b)) == Framed(a[0]) + Packed(a[1..]) + Packed(b);
    }
  }

  lemma PackedLast(ps: seq<Packet>, k: nat)
    requires k < |ps|
    ensures Packed(ps[..k + 1]) == Packed(ps[..k]) + Framed(ps[k])
  {
    hide Framed;
    assert ps[..k + 1] == ps[..k] + [ps[k]];
    PackedAppend(ps[..k], [ps[k]]);
    PackedNothing();
    assert Packed([ps[k]]) == Framed(ps[k]) + Packed([]);
    assert Framed(ps[k]) + [] == Framed(ps[k]);
  }

  /** `n` is the length of the longest prefix of the packets that fits `capacity` bytes. */
  predicate IsLongestFit(ps: seq<Packet>, n: nat, capacity: nat) {
    n <= |ps| && |Packed(ps[..n])| <= capacity &&
    (n < |ps| ==> |Packed(ps[..n + 1])| > capacity)
  }

  /** Copies one packet behind its prefix. */
  method PutPacket(out: array<u8>, offset: nat, pkt: Packet)
    requires offset + 2 + |pkt| <= out.Length
    modifies out
    ensures out[..] == old(out[..])[..offset] + Framed(pkt) + old(out[..])[offset + 2 + |pkt|..]
  {
    var len := |pkt| % 65536;
    out[offset] := len % 256;
    out[offset + 1] := len / 256;
    forall i | 0 <= i < |pkt| {
      out[offset + 2 + i] := pkt[i];
    }
    assert out[offset..offset + 2] == [len % 256, len / 256];
    assert out[offset + 2..offset + 2 + |pkt|] == pkt;
  }

  /** The card's queue of packets the guest has transmitted. */
  class E1000 {
    var txPackets: seq<Packet>

    method TakeTxPackets() returns (packets: seq<Packet>)
      modifies this
      ensures packets == old(txPackets) && txPackets == []
    {
      packets := txPackets;
      txPackets := [];
    }
  }

  /** Empties the card's queue into the buffer. Packets that do not fit are lost. */
  method TakeTx(e1000: E1000, out: array<u8>) returns (count: nat)
    modifies e1000, out
    ensures e1000.txPackets == []
    ensures IsLongestFit(old(e1000.txPackets), count, out.Length)
    ensures var sent := Packed(old(e1000.txPackets)[..count]);
            out[..] == sent + old(out[..])[|sent|..]
  {
    var packets := e1000.TakeTxPackets();
    count := PackInto(packets, out);
  }

  /** Fills the buffer with the longest prefix of the packets that fits and leaves the rest of the
      buffer alone. */
  method PackInto(packets: seq<Packet>, out: array<u8>) returns (count: nat)
    modifies out
    ensures IsLongestFit(packets, count, out.Length)
    ensures out[..] == Packed(packets[..count]) + old(out[..])[|Packed(packets[..count])|..]
  {
    hide Framed, Packed;
    ghost var whole := out[..];
    var offset := 0;
    count := 0;
    assert Packed(packets[..0]) == [] by { PackedNothing(); }
    while count < |packets|
      invariant count <= |packets|
      invariant offset == |Packed(packets[..count])| <= out.Length
      invariant out[..] == Packed(packets[..count]) + whole[offset..]
    {
      var pkt := packets[count];
      PackedLast(packets, count);
      FramedSize(pkt);
      var needed := 2 + |pkt|;
      if offset + needed > out.Length {
        break;
      }
      ghost var before := out[..];
      PutPacket(out, offset, pkt);
      PutExtends(whole, before, Packed(packets[..count]), Framed(pkt));
      offset := offset + needed;
      count := count + 1;
    }
  }

  lemma PutExtends(whole: seq<u8>, before: seq<u8>, done: seq<u8>, frame: seq<u8>)
    requires |done| + |frame| <= |whole| && before == done + whole[|done|..]
    ensures before[..|done|] + frame + before[|done| + |frame|..] == done + frame + whole[|done| + |frame|..]
  {}

  lemma PackedNothing()
    ensures Packed([]) == []
  {}

  lemma FramedSize(p: Packet)
    ensures |Framed(p)| == 2 + |p|
  {}

  /** The length that two prefix bytes spell, low byte first. */
  function PrefixLen(lo: u8, hi: u8): nat {
    var low: nat, high: nat := lo, hi;
    low + 256 * high
  }

  /** The frames the unpacker finds from `offset` on, in at most `n` steps. */
  function Unpacked(buf: seq<u8>, offset: nat, n: nat): seq<Packet>
    decreases n
  {
    if n == 0 || offset + 2 > |buf| then []
    else
      var len := PrefixLen(buf[offset], buf[offset + 1]);
      var end := offset + 2 + len;
      if end > |buf| then [] else [buf[offset + 2..end]] + Unpacked(buf, end, n - 1)
  }

  /** One step of the unpacker: it stops, or finds a frame and goes on behind it. */
  lemma UnpackStep(frames: seq<Packet>, buf: seq<u8>, offset: nat, n: nat)
    ensures offset + 2 > |buf| ==> frames + Unpacked(buf, offset, n) == frames
    ensures offset + 2 <= |buf| && n > 0 ==>
              var end := offset + 2 + PrefixLen(buf[offset], buf[offset + 1]);
              frames + Unpacked(buf, offset, n) ==
              if end > |buf| then frames else frames + [buf[offset + 2..end]] + Unpacked(buf, end, n - 1)
  {}

  method UnpackTx(txBuf: array<u8>, txCount: nat) returns (frames: seq<Packet>)
    ensures frames == Unpacked(txBuf[..], 0, txCount)
  {
    hide Unpacked, PrefixLen;
    ghost var buf := txBuf[..];
    frames := [];
    var offset: nat := 0;
    for k := 0 to txCount
      invariant frames + Unpacked(buf, offset, txCount - k) == Unpacked(buf, 0, txCount)
    {
      UnpackStep(frames, buf, offset, txCount - k);
      if offset + 2 > txBuf.Length {
        return;
      }
      var pktLen := PrefixLen(txBuf[offset], txBuf[offset + 1]);
      offset := offset + 2;
      if offset + pktLen > txBuf.Length {
        return;
      }
      frames := frames + [txBuf[offset..offset + pktLen]];
      offset := offset + pktLen;
    }
    NoMoreSteps(frames, buf, offset);
  }

  lemma NoMoreSteps(frames: seq<Packet>, buf: seq<u8>, offset: nat)
    ensures frames + Unpacked(buf, offset, 0) == frames
  {}

  lemma UnpackOne(pre: seq<u8>, p: Packet, tail: seq<u8>, n: nat)
    requires |p| < 65536
    ensures var buf := pre + Framed(p) + tail;
            Unpacked(buf, |pre|, n + 1) == [p] + Unpacked(buf, |pre| + 2 + |p|, n)
  {
    hide Unpacked;
    var buf := pre + Framed(p) + tail;
    var end := |pre| + 2 + |p|;
    assert buf[|pre|] == |p| % 256 && buf[|pre| + 1] == |p| / 256;
    assert PrefixLen(buf[|pre|], buf[|pre| + 1]) == |p|;
    assert buf[|pre| + 2..end] == p;
    UnpackStep([], buf, |pre|, n + 1);
    assert [] + Unpacked(buf, |pre|, n + 1) == Unpacked(buf, |pre|, n + 1);
    assert [] + [p] == [p];
  }

  lemma Regroup(a: seq<u8>, b: seq<u8>, c: seq<u8>, d: seq<u8>)
    ensures a + (b + c) + d == a + b + (c + d) == a + b + c + d
  {}

  lemma {:induction false} UnpackInverts(pre: seq<u8>, ps: seq<Packet>, junk: seq<u8>)
    requires forall p | p in ps :: |p| < 65536
    ensures Unpacked(pre + Packed(ps) + junk, |pre|, |ps|) == ps
    decreases |ps|
  {
    hide Framed;
    if ps != [] {
      var p, rest := ps[0], ps[1..];
      assert p in ps;
      var next, tail := pre + Framed(p), Packed(rest) + junk;
      Regroup(pre, Framed(p), Packed(rest), junk);
      FramedSize(p);
      UnpackOne(pre, p, tail, |rest|);
      UnpackInverts(next, rest, junk);
      assert ps == [p] + rest;
    }
  }

  lemma {:induction false} UnpackedAreShort(buf: seq<u8>, offset: nat, n: nat)
    ensures forall p | p in Unpacked(buf, offset, n) :: |p| < 65536
    decreases n
  {
    if n > 0 && offset + 2 <= |buf| {
      var len := PrefixLen(buf[offset], buf[offset + 1]);
      var end := offset + 2 + len;
      UnpackedAreShort(buf, end, n - 1);
    }
  }

  /** Unpacking a packed buffer yields the very packets, whatever follows them, if and only if
      every packet is shorter than 2^16 bytes. */
  lemma RoundTripExactly(ps: seq<Packet>, junk: seq<u8>)
    ensures Unpacked(Packed(ps) + junk, 0, |ps|) == ps <==> forall p | p in ps :: |p| < 65536
  {
    hide Packed, Unpacked;
    if forall p | p in ps :: |p| < 65536 {
      UnpackInverts([], ps, junk);
      assert [] + Packed(ps) + junk == Packed(ps) + junk;
    }
    UnpackedAreShort(Packed(ps) + junk, 0, |ps|);
  }

  lemma {:induction false} PacketsFit(ps: seq<Packet>)
    ensures forall p | p in ps :: 2 + |p| <= |Packed(ps)|
  {
    if ps != [] {
      PacketsFit(ps[1..]);
    }
  }

  /** The transmit half of a network poll: with its 65536-byte buffer no length is ever cut and the
      unpacker never stops early, so the frames are exactly the longest fitting prefix of the
      card's queue, in order, and everything behind it is lost. */
  method PollTx(e1000: E1000) returns (frames: seq<Packet>)
    modifies e1000
    ensures frames <= old(e1000.txPackets) && IsLongestFit(old(e1000.txPackets), |frames|, 0x1_0000)
    ensures e1000.txPackets == []
  {
    hide Packed, Unpacked;
    ghost var packets := e1000.txPackets;
    var txBuf := new u8[TX_BUF_SIZE](_ => 0);
    ghost var zeros := txBuf[..];
    var txCount := TakeTx(e1000, txBuf);
    frames := [];
    if txCount > 0 {
      ghost var sent := packets[..txCount];
      PacketsFit(sent);
      RoundTripExactly(sent, zeros[|Packed(sent)|..]);
      frames := UnpackTx(txBuf, txCount);
    }
  }
}
