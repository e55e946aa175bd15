// iSCSI protocol data units on a byte stream (RFC 3720, sections 10.1 and 10.2.1), and the
// key=value text of login and text requests (section 5.1).
module IscsiPdu {
  import opened Basics
  import opened Wrappers
  import opened Bytes
  import opened StdText

  const NOP_OUT: u8 := 0x00
  const SCSI_CMD: u8 := 0x01
  const LOGIN_REQ: u8 := 0x03
  const TEXT_REQ: u8 := 0x04
  const DATA_OUT: u8 := 0x05
  const LOGOUT_REQ: u8 := 0x06
  const NOP_IN: u8 := 0x20
  const SCSI_RESP: u8 := 0x21
  const LOGIN_RESP: u8 := 0x23
  const TEXT_RESP: u8 := 0x24
  const DATA_IN: u8 := 0x25
  const LOGOUT_RESP: u8 := 0x26

  const BHS_SIZE: nat := 48

  type Specific = s: seq<u8> | |s| == 28 witness Zeros(28)

  /** The basic header segment. */
  datatype Bhs = Bhs(
    opcode: u8, flags: u8, dataSegmentLength: u32, lun: u64, initiatorTaskTag: u32, specific: Specific)

  datatype Pdu = Pdu(bhs: Bhs, data: seq<u8>)

  // ---- Wire format

  function Header(b: Bhs): (s: seq<u8>)
    ensures |s| == BHS_SIZE
  {
    [b.opcode, b.flags, 0, 0, 0] + ToBe(b.dataSegmentLength, 3) + ToBe(b.lun, 8) + ToBe(b.initiatorTaskTag, 4) +
    b.specific
  }

  /** The header fields of 48 bytes. The top two bits of the first byte, the two bytes after the
      flags and the additional-header length are not looked at. */
  function FromBytes(s: seq<u8>): Bhs
    requires |s| == BHS_SIZE
  {
    RangeValues();
    assert Range(3) == 256 * Range(2);
    Bhs(s[0] % 64, s[1], FromBe(s[5..8]), FromBe(s[8..16]), FromBe(s[16..20]), s[20..48])
  }

  function PadLen(n: nat): nat { (4 - n % 4) % 4 }

  function PaddedLen(n: nat): nat { (n + 3) / 4 * 4 }

  /** What one unit puts on the wire. */
  function Wire(p: Pdu): seq<u8> {
    Header(p.bhs) + p.data + Zeros(PadLen(|p.data|))
  }

  /** One unit off the front of a byte stream, with what follows it. */
  function ReadPdu(s: seq<u8>): (r: Option<(Pdu, seq<u8>)>)
    ensures r.Some? ==> |r.value.1| < |s|
  {
    if |s| < BHS_SIZE then None
    else
      var bhs := FromBytes(s[..BHS_SIZE]);
      var padded := PaddedLen(bhs.dataSegmentLength);
      if |s| < BHS_SIZE + padded then None
      else Some((Pdu(bhs, s[BHS_SIZE..BHS_SIZE + bhs.dataSegmentLength]), s[BHS_SIZE + padded..]))
  }

  /** A connection: the bytes still to arrive, the bytes sent, and how many more the peer takes
      before writes fail. */
  class Stream {
    var incoming: seq<u8>
    var outgoing: seq<u8>
    var writable: nat

    method ReadExact(n: nat) returns (r: Option<seq<u8>>)
      modifies this`incoming
      ensures n <= |old(incoming)| ==> r == Some(old(incoming)[..n]) && incoming == old(incoming)[n..]
      ensures n > |old(incoming)| ==> r == None && incoming == []
    {
      if n <= |incoming| {
        r := Some(incoming[..n]);
        incoming := incoming[n..];
      } else {
        r := None;
        incoming := [];
      }
    }

    method WriteAll(bytes: seq<u8>) returns (ok: bool)
      modifies this`outgoing, this`writable
      ensures ok <==> |bytes| <= old(writable)
      ensures outgoing == old(outgoing) + bytes[..Min(|bytes|, old(writable))]
      ensures writable == old(writable) - Min(|bytes|, old(writable))
    {
      var n := Min(|bytes|, writable);
      ok := n == |bytes|;
      outgoing := outgoing + bytes[..n];
      writable := writable - n;
    }
  }

  method CopyFromSlice(buf: array<u8>, at: nat, src: seq<u8>)
    requires at + |src| <= buf.Length
    modifies buf
    ensures buf[..] == old(buf[..at]) + src + old(buf[at + |src|..])
  {
    forall i | 0 <= i < |src| {
      buf[at + i] := src[i];
    }
  }

  method ToBytes(b: Bhs) returns (buf: array<u8>)
    ensures fresh(buf) && buf[..] == Header(b)
  {
    hide ToBe, FromBe;
    buf := new u8[BHS_SIZE](_ => 0);
    var len := ToBe(b.dataSegmentLength, 3);
    buf[0] := b.opcode;
    buf[1] := b.flags;
    buf[5], buf[6], buf[7] := len[0], len[1], len[2];
    assert buf[..8] == [b.opcode, b.flags, 0, 0, 0] + len;
    CopyFromSlice(buf, 8, ToBe(b.lun, 8));
    assert buf[..16] == [b.opcode, b.flags, 0, 0, 0] + len + ToBe(b.lun, 8);
    CopyFromSlice(buf, 16, ToBe(b.initiatorTaskTag, 4));
    CopyFromSlice(buf, 20, b.specific);
  }

  method ReadFrom(stream: Stream) returns (r: Option<Pdu>)
    modifies stream`incoming
    ensures r.Some? <==> ReadPdu(old(stream.incoming)).Some?
    ensures r.Some? ==> ReadPdu(old(stream.incoming)) == Some((r.value, stream.incoming))
  {
    var header := stream.ReadExact(BHS_SIZE);
    if header.None? {
      return None;
    }
    var bhs := FromBytes(header.value);
    var dataLen := bhs.dataSegmentLength;
    var paddedLen := PaddedLen(dataLen);
    var data := [];
    if paddedLen > 0 {
      var body := stream.ReadExact(paddedLen);
      if body.None? {
        return None;
      }
      data := body.value;
    }
    ghost var s := old(stream.incoming);
    assert s[BHS_SIZE..][..paddedLen] == s[BHS_SIZE..BHS_SIZE + paddedLen];
    assert data[..dataLen] == s[BHS_SIZE..BHS_SIZE + dataLen];
    assert stream.incoming == s[BHS_SIZE + paddedLen..];
    return Some(Pdu(bhs, data[..dataLen]));
  }

  method WriteTo(p: Pdu, stream: Stream) returns (ok: bool)
    modifies stream`outgoing, stream`writable
    ensures ok <==> |Wire(p)| <= old(stream.writable)
    ensures stream.outgoing == old(stream.outgoing) + Wire(p)[..Min(|Wire(p)|, old(stream.writable))]
    ensures stream.writable == old(stream.writable) - Min(|Wire(p)|, old(stream.writable))
  {
    hide Header;
    var header := ToBytes(p.bhs);
    ok := stream.WriteAll(header[..]);
    if !ok {
      return;
    }
    if p.data != [] {
      ok := stream.WriteAll(p.data);
      if !ok {
        return;
      }
      var pad := (4 - |p.data| % 4) % 4;
      if pad > 0 {
        ok := stream.WriteAll(Zeros(pad));
      }
    }
  }

  // ---- Round trips

  lemma HeaderReadsBack(b: Bhs)
    ensures FromBytes(Header(b)) == b.(opcode := b.opcode % 64, dataSegmentLength := b.dataSegmentLength % 0x100_0000)
  {
    hide ToBe, FromBe;
    RangeValues();
    var s := Header(b);
    assert s[5..8] == ToBe(b.dataSegmentLength, 3);
    assert s[8..16] == ToBe(b.lun, 8);
    assert s[16..20] == ToBe(b.initiatorTaskTag, 4);
    assert s[20..] == b.specific && s[20..48] == s[20..];
    LengthField(b.dataSegmentLength);
    BeReadsBack(b.lun, 8);
    BeReadsBack(b.initiatorTaskTag, 4);
  }

  lemma LengthField(n: nat)
    ensures FromBe(ToBe(n, 3)) == n % 0x100_0000
  {
    var a, b, c := n / 256 / 256 % 256, n / 256 % 256, n % 256;
    assert ToBe(n / 256 / 256, 1) == ToBe(n / 256 / 256 / 256, 0) + [a];
    assert ToBe(n / 256, 2) == [a, b];
    assert FromBe([a]) == 256 * FromBe([a][..0]) + a;
    assert [a, b][..1] == [a] && [a, b, c][..2] == [a, b];
    assert FromBe([a, b]) == 256 * a + b;
  }

  /** A unit that fits the format: a six-bit opcode and a length field that tells the truth. */
  predicate WellFormed(p: Pdu) {
    p.bhs.opcode < 64 && p.bhs.dataSegmentLength == |p.data| < 0x100_0000
  }

  /** Writing one unit and reading it back gives the same unit and leaves the rest of the stream
      untouched if and only if the unit is well formed. */
  lemma PduRoundTripExactly(p: Pdu, rest: seq<u8>)
    ensures ReadPdu(Wire(p) + rest) == Some((p, rest)) <==> WellFormed(p)
  {
    hide Header, FromBytes, PaddedLen, PadLen;
    var s, n := Wire(p) + rest, |p.data|;
    WireParts(p, rest);
    HeaderReadsBack(p.bhs);
    PaddedIsPad(n);
    if WellFormed(p) {
      assert ReadPdu(s) == Some((Pdu(p.bhs, p.data), rest));
    } else if ReadPdu(s) == Some((p, rest)) {
      ReadStaysInStep(s);
    }
  }

  lemma WireParts(p: Pdu, rest: seq<u8>)
    ensures var s, n := Wire(p) + rest, |p.data|;
            |s| >= BHS_SIZE + n + PadLen(n) && s[..BHS_SIZE] == Header(p.bhs) &&
            s[BHS_SIZE..BHS_SIZE + n] == p.data && s[BHS_SIZE + n + PadLen(n)..] == rest
  {
    hide Header, PadLen;
  }

  lemma PaddedIsPad(n: nat)
    ensures PaddedLen(n) == n + PadLen(n)
  {}

  function WireAll(ps: seq<Pdu>): seq<u8> {
    if ps == [] then [] else Wire(ps[0]) + WireAll(ps[1..])
  }

  /** The first `n` units of a stream and what follows them. */
  function ReadMany(n: nat, s: seq<u8>): Option<(seq<Pdu>, seq<u8>)> {
    if n == 0 then Some(([], s))
    else
      match ReadPdu(s)
      case None => None
      case Some((p, rest)) =>
        match ReadMany(n - 1, rest)
        case None => None
        case Some((ps, end)) => Some(([p] + ps, end))
  }

  /** Whatever bytes arrive, a unit read off them is well formed, and it takes exactly as many
      bytes as writing it would. */
  lemma ReadStaysInStep(s: seq<u8>)
    requires ReadPdu(s).Some?
    ensures var (p, rest) := ReadPdu(s).value;
            WellFormed(p) && |s| == |Wire(p)| + |rest| && rest == s[|Wire(p)|..]
  {
    hide Header, PaddedLen, PadLen;
    var n := ReadPdu(s).value.0.bhs.dataSegmentLength;
    assert n < 0x100_0000 by {
      RangeValues();
      assert Range(3) == 256 * Range(2);
    }
    PaddedIsPad(n);
  }

  lemma {:induction false} ListReadsBack(ps: seq<Pdu>, rest: seq<u8>)
    requires forall p | p in ps :: WellFormed(p)
    ensures ReadMany(|ps|, WireAll(ps) + rest) == Some((ps, rest))
  {
    hide Wire, ReadPdu, WellFormed;
    if ps == [] {
      assert WireAll(ps) + rest == rest;
    } else {
      assert WireAll(ps) + rest == Wire(ps[0]) + (WireAll(ps[1..]) + rest);
      PduRoundTripExactly(ps[0], WireAll(ps[1..]) + rest);
      ListReadsBack(ps[1..], rest);
      assert ps == [ps[0]] + ps[1..];
    }
  }

  lemma {:induction false} ReadManyWellFormed(n: nat, s: seq<u8>)
    requires ReadMany(n, s).Some?
    ensures forall p | p in ReadMany(n, s).value.0 :: WellFormed(p)
  {
    hide ReadPdu, WellFormed;
    if n > 0 {
      ReadStaysInStep(s);
      ReadManyWellFormed(n - 1, ReadPdu(s).value.1);
    }
  }

  /** Any list of units reads back unchanged, with the rest of the stream untouched, if and only
      if every unit is well formed. */
  lemma ListRoundTripExactly(ps: seq<Pdu>, rest: seq<u8>)
    ensures ReadMany(|ps|, WireAll(ps) + rest) == Some((ps, rest)) <==> forall p | p in ps :: WellFormed(p)
  {
    hide ReadMany, WireAll, WellFormed;
    if forall p | p in ps :: WellFormed(p) {
      ListReadsBack(ps, rest);
    } else if ReadMany(|ps|, WireAll(ps) + rest).Some? {
      ReadManyWellFormed(|ps|, WireAll(ps) + rest);
    }
  }

  // ---- Text parameters

  type Param = (seq<u8>, seq<u8>)

  const NUL: u8 := 0
  const EQUALS: u8 := 61

  /** The pieces between NUL bytes; there is always one more piece than NULs. */
  function SplitNul(s: seq<u8>): (r: seq<seq<u8>>)
    ensures r != []
    decreases |s|
  {
    match IndexOf(s, NUL)
    case None => [s]
    case Some(i) => [s[..i]] + SplitNul(s[i + 1..])
  }

  /** The pairs of the non-empty pieces that hold an equals sign, split at the first one. */
  function Pairs(pieces: seq<seq<u8>>): seq<Param> {
    if pieces == [] then []
    else
      match SplitOnce(pieces[0], EQUALS)
      case None => Pairs(pieces[1..])
      case Some(pair) => [pair] + Pairs(pieces[1..])
  }

  function ParseTextParams(data: seq<u8>): seq<Param> {
    Pairs(SplitNul(data))
  }

  function EncodedParams(ps: seq<Param>): seq<u8> {
    if ps == [] then [] else ps[0].0 + [EQUALS] + ps[0].1 + [NUL] + EncodedParams(ps[1..])
  }

  lemma {:induction false} EncodedParamsAppend(a: seq<Param>, p: Param)
    ensures EncodedParams(a + [p]) == EncodedParams(a) + (p.0 + [EQUALS] + p.1 + [NUL])
  {
    if a == [] {
      assert [p][1..] == [];
    } else {
      EncodedParamsAppend(a[1..], p);
      assert (a + [p])[0] == a[0] && (a + [p])[1..] == a[1..] + [p];
    }
  }

  method EncodeTextParams(params: seq<Param>) returns (data: seq<u8>)
    ensures data == EncodedParams(params)
  {
    data := [];
    for i := 0 to |params|
      invariant data == EncodedParams(params[..i])
    {
      EncodedParamsAppend(params[..i], params[i]);
      assert params[..i + 1] == params[..i] + [params[i]];
      data := data + (params[i].0 + [EQUALS] + params[i].1 + [NUL]);
    }
    assert params[..|params|] == params;
  }

  predicate Encodable(p: Param) { NUL !in p.0 && NUL !in p.1 && EQUALS !in p.0 }

  lemma {:induction false} EncodedReadsBack(ps: seq<Param>)
    requires forall p | p in ps :: Encodable(p)
    ensures ParseTextParams(EncodedParams(ps)) == ps
  {
    hide IndexOf, SplitOnce;
    if ps == [] {
      NothingEncoded();
    } else {
      assert ps[0] in ps && Encodable(ps[0]);
      var (k, v) := ps[0];
      var piece, rest := k + [EQUALS] + v, EncodedParams(ps[1..]);
      assert EncodedParams(ps) == piece + [NUL] + rest;
      IndexOfFirst(piece, NUL, rest);
      var s := piece + [NUL] + rest;
      assert s[..|piece|] == piece && s[|piece| + 1..] == rest;
      SplitOnceInverts(k, EQUALS, v);
      assert SplitNul(s) == [piece] + SplitNul(rest);
      EncodedReadsBack(ps[1..]);
      assert ps == [ps[0]] + ps[1..];
    }
  }

  lemma NothingEncoded()
    ensures ParseTextParams([]) == []
  {
    assert IndexOf<u8>([], NUL) == None && SplitNul([]) == [[]];
    assert IndexOf<u8>([], EQUALS) == None && SplitOnce<u8>([], EQUALS) == None;
  }

  lemma {:induction false} PiecesHaveNoNul(s: seq<u8>)
    ensures forall piece | piece in SplitNul(s) :: NUL !in piece
    decreases |s|
  {
    if IndexOf(s, NUL).Some? {
      PiecesHaveNoNul(s[IndexOf(s, NUL).value + 1..]);
    }
  }

  lemma {:induction false} PairsAreEncodable(pieces: seq<seq<u8>>)
    requires forall piece | piece in pieces :: NUL !in piece
    ensures forall p | p in Pairs(pieces) :: Encodable(p)
  {
    if pieces != [] {
      PairsAreEncodable(pieces[1..]);
      PairIsEncodable(pieces[0]);
    }
  }

  lemma PairIsEncodable(piece: seq<u8>)
    requires NUL !in piece
    ensures SplitOnce(piece, EQUALS).Some? ==> Encodable(SplitOnce(piece, EQUALS).value)
  {
    if SplitOnce(piece, EQUALS).Some? {
      var (k, v) := SplitOnce(piece, EQUALS).value;
      assert piece == k + [EQUALS] + v;
    }
  }

  /** Parsing undoes encoding, for any list of pairs, if and only if no key or value holds a NUL
      and no key holds an equals sign. Values may hold equals signs. */
  lemma TextRoundTripExactly(ps: seq<Param>)
    ensures ParseTextParams(EncodedParams(ps)) == ps <==> forall p | p in ps :: Encodable(p)
  {
    hide EncodedParams, SplitNul, Pairs;
    if forall p | p in ps :: Encodable(p) {
      EncodedReadsBack(ps);
    }
    PiecesHaveNoNul(EncodedParams(ps));
    PairsAreEncodable(SplitNul(EncodedParams(ps)));
  }
}
