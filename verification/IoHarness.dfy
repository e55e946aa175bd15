// The disk I/O harness: it mirrors every successful write in a ground-truth buffer and compares
// the whole file with it.
module IoHarness {
  import opened Basics
  import opened Wrappers
  import opened Bytes

  const CHUNK_SIZE: nat := 4 * 1024 * 1024
  const READ_BLOCK: nat := 256 * 1024
  /** The most bytes a vector can hold; growing past it panics. */
  const MAX_LEN: nat := 0x7FFF_FFFF_FFFF_FFFF

  // ---- Ground truth

  datatype WriteOp = WriteOp(offset: nat, data: seq<u8>)

  /** The buffer grown with zeros to at least `n` bytes. */
  function Resized(s: seq<u8>, n: nat): (r: seq<u8>)
    ensures |r| == Max(|s|, n)
    ensures forall i | 0 <= i < |r| :: r[i] == if i < |s| then s[i] else 0
  {
    if |s| < n then s + Zeros(n - |s|) else s
  }

  /** The buffer after a write, grown with zeros first if the write reaches past its end. */
  function Applied(s: seq<u8>, w: WriteOp): (r: seq<u8>)
    ensures |r| == Max(|s|, w.offset + |w.data|)
    ensures forall i | 0 <= i < |r| ::
              r[i] == if w.offset <= i < w.offset + |w.data| then w.data[i - w.offset]
                      else if i < |s| then s[i] else 0
  {
    Overwrite(Resized(s, w.offset + |w.data|), w.offset, w.data)
  }

  function AppliedAll(s: seq<u8>, ws: seq<WriteOp>): seq<u8> {
    if ws == [] then s else Applied(AppliedAll(s, ws[..|ws| - 1]), ws[|ws| - 1])
  }

  predicate Covers(w: WriteOp, i: nat) { w.offset <= i < w.offset + |w.data| }

  /** The byte at `i` is that of the last write that covers it, or the initial one, or zero. */
  function LastByte(s: seq<u8>, ws: seq<WriteOp>, i: nat): u8 {
    if ws == [] then (if i < |s| then s[i] else 0)
    else
      var w := ws[|ws| - 1];
      if Covers(w, i) then w.data[i - w.offset] else LastByte(s, ws[..|ws| - 1], i)
  }

  /** How far the file reaches. */
  function Extent(s: seq<u8>, ws: seq<WriteOp>): nat {
    if ws == [] then |s|
    else
      var w := ws[|ws| - 1];
      Max(Extent(s, ws[..|ws| - 1]), w.offset + |w.data|)
  }

  /** After any sequence of writes every byte of the ground truth is the last one written there, the
      initial one where nothing was written, and zero in the gaps. */
  lemma {:induction false} GroundTruthIs(s: seq<u8>, ws: seq<WriteOp>)
    ensures |AppliedAll(s, ws)| == Extent(s, ws)
    ensures forall i | 0 <= i < |AppliedAll(s, ws)| :: AppliedAll(s, ws)[i] == LastByte(s, ws, i)
  {
    if ws != [] {
      var front := ws[..|ws| - 1];
      GroundTruthIs(s, front);
      forall i | |AppliedAll(s, front)| <= i ensures LastByte(s, front, i) == 0 {
        BeyondIsZero(s, front, i);
      }
    }
  }

  lemma {:induction false} BeyondIsZero(s: seq<u8>, ws: seq<WriteOp>, i: nat)
    requires Extent(s, ws) <= i
    ensures LastByte(s, ws, i) == 0
  {
    if ws != [] {
      BeyondIsZero(s, ws[..|ws| - 1], i);
    }
  }

  // ---- Verification

  /** A server's reply to one read request. */
  datatype ReadReply = ReadFailed | Data(bytes: seq<u8>)

  datatype Mismatch = Mismatch(
    offset: nat, expected: u8, actual: u8, chunkIndex: nat, localOffset: nat,
    contextExpected: seq<u8>, contextActual: seq<u8>)

  datatype VerifyError =
    | FlushError
    | ReadError(at: nat)
    | SizeMismatch(at: nat, expectedLen: nat, actualLen: nat)
    | DataMismatch(info: Mismatch)

  datatype WriteError = WriteRefused | CapacityPanic

  /** What a server answers: whether it accepts a flush, and a reply for every read. */
  datatype Server = Server(flushes: bool, onRead: (nat, nat) -> ReadReply)

  /** The first position where two byte strings of one length differ. */
  function FirstDiff(a: seq<u8>, b: seq<u8>): (r: Option<nat>)
    requires |a| == |b|
    ensures r.None? ==> a == b
    ensures r.Some? ==> r.value < |a| && a[r.value] != b[r.value] && a[..r.value] == b[..r.value]
  {
    if a == [] then None
    else if a[0] != b[0] then Some(0)
    else
      match FirstDiff(a[1..], b[1..])
      case None =>
        assert a == [a[0]] + a[1..] && b == [b[0]] + b[1..];
        None
      case Some(i) =>
        assert a[..i + 1] == [a[0]] + a[1..][..i] && b[..i + 1] == [b[0]] + b[1..][..i];
        Some(i + 1)
  }

  lemma {:induction false} FirstDiffIs(a: seq<u8>, b: seq<u8>, i: nat)
    requires |a| == |b| && i < |a| && a[i] != b[i] && a[..i] == b[..i]
    ensures FirstDiff(a, b) == Some(i)
  {
    if i > 0 {
      assert a[0] == a[..i][0] && b[0] == b[..i][0];
      assert a[1..][..i - 1] == a[..i][1..] && b[1..][..i - 1] == b[..i][1..];
      FirstDiffIs(a[1..], b[1..], i - 1);
    }
  }

  function MismatchAt(offset: nat, expected: seq<u8>, actual: seq<u8>, i: nat): Mismatch
    requires |expected| == |actual| && i < |actual|
  {
    var at := offset + i;
    var from := if i >= 32 then i - 32 else 0;
    var to := Min(i + 32, |actual|);
    Mismatch(at, expected[i], actual[i], at / CHUNK_SIZE, at % CHUNK_SIZE, expected[from..to], actual[from..to])
  }

  /** A mismatch names the byte, its place among chunks of 4 MB, and shows of both sides the bytes of the
      block from 32 before it up to, but not including, 32 after it. */
  lemma MismatchIs(offset: nat, expected: seq<u8>, actual: seq<u8>, i: nat)
    requires |expected| == |actual| && i < |actual|
    ensures var m := MismatchAt(offset, expected, actual, i);
            m.offset == offset + i && m.expected == expected[i] && m.actual == actual[i] &&
            m.offset == m.chunkIndex * 0x40_0000 + m.localOffset && m.localOffset < 0x40_0000
    ensures var m, before := MismatchAt(offset, expected, actual, i), Min(i, 32);
            |m.contextExpected| == |m.contextActual| == before + Min(32, |actual| - i) &&
            forall k | 0 <= k < |m.contextActual| ::
              m.contextExpected[k] == expected[i - before + k] && m.contextActual[k] == actual[i - before + k]
  {}

  function BlockLen(truth: seq<u8>, offset: nat): nat
    requires offset <= |truth|
  {
    Min(|truth| - offset, READ_BLOCK)
  }

  function CheckFrom(server: Server, truth: seq<u8>, offset: nat): Result<(), VerifyError>
    requires offset <= |truth|
    decreases |truth| - offset
  {
    if offset == |truth| then Ok(())
    else
      var block := BlockLen(truth, offset);
      match server.onRead(offset, block)
      case ReadFailed => Err(ReadError(offset))
      case Data(actual) =>
        if |actual| != block then Err(SizeMismatch(offset, block, |actual|))
        else
          match FirstDiff(truth[offset..offset + block], actual)
          case Some(i) => Err(DataMismatch(MismatchAt(offset, truth[offset..offset + block], actual, i)))
          case None => CheckFrom(server, truth, offset + block)
  }

  function Verdict(server: Server, truth: seq<u8>): Result<(), VerifyError> {
    if server.flushes then CheckFrom(server, truth, 0) else Err(FlushError)
  }

  method FindMismatch(expected: seq<u8>, actual: seq<u8>) returns (r: Option<nat>)
    requires |expected| == |actual|
    ensures r == FirstDiff(expected, actual)
  {
    for i := 0 to |actual|
      invariant actual[..i] == expected[..i]
    {
      if actual[i] != expected[i] {
        FirstDiffIs(expected, actual, i);
        return Some(i);
      }
    }
    assert actual[..|actual|] == actual && expected[..|actual|] == expected;
    SameHasNoDiff(expected, actual);
    return None;
  }

  // ---- A write on the wire

  const REQUEST_MAGIC: u32 := 0x5341_4E31
  const CMD_WRITE: u32 := 2
  const REQUEST_SIZE: nat := 32

  function RequestHeader(cmd: u32, fileId: u64, offset: u64, size: u32): (s: seq<u8>)
    ensures |s| == REQUEST_SIZE
  {
    ToLe(REQUEST_MAGIC, 4) + ToLe(cmd, 4) + ToLe(fileId, 8) + ToLe(offset, 8) + ToLe(size, 4) + Zeros(4)
  }

  /** What the harness sends for a write. The size field is cut to 32 bits. */
  function WriteWire(fileId: u64, offset: u64, data: seq<u8>): seq<u8> {
    RequestHeader(CMD_WRITE, fileId, offset, |data| % 0x1_0000_0000) + data
  }

  /** The write a disk server takes off the front of the socket, and the bytes it leaves. */
  function TakeWrite(s: seq<u8>): Option<(u64, WriteOp, seq<u8>)> {
    RangeValues();
    if |s| < REQUEST_SIZE || FromLe(s[..4]) != REQUEST_MAGIC || FromLe(s[4..8]) != CMD_WRITE then None
    else
      var end := REQUEST_SIZE + FromLe(s[24..28]);
      if |s| < end then None
      else Some((FromLe(s[8..16]), WriteOp(FromLe(s[16..24]), s[REQUEST_SIZE..end]), s[end..]))
  }

  lemma HeaderReadsBack(fileId: u64, offset: u64, size: u32, tail: seq<u8>)
    ensures var s := RequestHeader(CMD_WRITE, fileId, offset, size) + tail;
            FromLe(s[..4]) == REQUEST_MAGIC && FromLe(s[4..8]) == CMD_WRITE && FromLe(s[8..16]) == fileId &&
            FromLe(s[16..24]) == offset && FromLe(s[24..28]) == size && s[REQUEST_SIZE..] == tail
  {
    hide ToLe, FromLe;
    RangeValues();
    var s := RequestHeader(CMD_WRITE, fileId, offset, size) + tail;
    assert s[..4] == ToLe(REQUEST_MAGIC, 4) && s[4..8] == ToLe(CMD_WRITE, 4);
    assert s[8..16] == ToLe(fileId, 8) && s[16..24] == ToLe(offset, 8) && s[24..28] == ToLe(size, 4);
    LeReadsBack(REQUEST_MAGIC, 4);
    LeReadsBack(CMD_WRITE, 4);
    LeReadsBack(fileId, 8);
    LeReadsBack(offset, 8);
    LeReadsBack(size, 4);
  }

  /** The write by byte positions: magic "1NAS" at 0, command 2 at 4, file at 8, offset at 16, size at 24,
      four zeros, then the data. */
  lemma WriteOnWire(fileId: u64, offset: u64, data: seq<u8>)
    ensures var s := WriteWire(fileId, offset, data);
            |s| == 32 + |data| && s[..8] == [0x31, 0x4E, 0x41, 0x53, 2, 0, 0, 0] &&
            (forall i | 0 <= i < 8 :: s[8 + i] == fileId / Range(i) % 256 && s[16 + i] == offset / Range(i) % 256) &&
            (forall i | 0 <= i < 4 :: s[24 + i] == |data| % 0x1_0000_0000 / Range(i) % 256 && s[28 + i] == 0) &&
            s[32..] == data
  {
    hide ToLe, Range;
    var s, size := WriteWire(fileId, offset, data), |data| % 0x1_0000_0000;
    assert s[..4] == ToLe(REQUEST_MAGIC, 4) && s[4..8] == ToLe(CMD_WRITE, 4);
    assert s[8..16] == ToLe(fileId, 8) && s[16..24] == ToLe(offset, 8) && s[24..28] == ToLe(size, 4);
    assert s[28..32] == Zeros(4);
    MagicBytes();
    forall i | 0 <= i < 8 ensures s[8 + i] == fileId / Range(i) % 256 && s[16 + i] == offset / Range(i) % 256 {
      LeDigit(fileId, 8, i);
      LeDigit(offset, 8, i);
      assert s[8 + i] == s[8..16][i] && s[16 + i] == s[16..24][i];
    }
    forall i | 0 <= i < 4 ensures s[24 + i] == size / Range(i) % 256 && s[28 + i] == 0 {
      LeDigit(size, 4, i);
      assert s[24 + i] == s[24..28][i] && s[28 + i] == s[28..32][i];
    }
  }

  lemma MagicBytes()
    ensures ToLe(REQUEST_MAGIC, 4) == [0x31, 0x4E, 0x41, 0x53] && ToLe(CMD_WRITE, 4) == [2, 0, 0, 0]
  {
    assert ToLe(0x5341, 2) == [0x41, 0x53] && ToLe(0x53_414E, 3) == [0x4E] + ToLe(0x5341, 2);
    assert ToLe(0, 2) == [0, 0] && ToLe(0, 3) == [0] + ToLe(0, 2);
  }

  /** The server takes the write the ground truth mirrors, and leaves what follows it, if and only if
      the data is shorter than 2^32 bytes. */
  lemma WriteTakenExactly(fileId: u64, offset: u64, data: seq<u8>, rest: seq<u8>)
    ensures TakeWrite(WriteWire(fileId, offset, data) + rest) == Some((fileId, WriteOp(offset, data), rest)) <==>
            |data| < 0x1_0000_0000
  {
    hide ToLe, FromLe, RequestHeader;
    var size, body := |data| % 0x1_0000_0000, data + rest;
    var s := WriteWire(fileId, offset, data) + rest;
    assert s == RequestHeader(CMD_WRITE, fileId, offset, size) + body;
    HeaderReadsBack(fileId, offset, size, body);
    assert s[REQUEST_SIZE..REQUEST_SIZE + size] == body[..size] && s[REQUEST_SIZE + size..] == body[size..];
    if |data| < 0x1_0000_0000 {
      assert body[..size] == data && body[size..] == rest;
    }
  }

  class Harness {
    var groundTruth: seq<u8>
    var bytesWritten: nat
    var writeOps: nat
    var bytesRead: nat
    var readOps: nat
    var flushOps: nat

    constructor (fileSize: nat)
      ensures groundTruth == Zeros(fileSize)
      ensures bytesWritten == writeOps == bytesRead == readOps == flushOps == 0
    {
      groundTruth := Zeros(fileSize);
      bytesWritten, writeOps, bytesRead, readOps, flushOps := 0, 0, 0, 0, 0;
    }

    /** A write the server refuses changes nothing. One it accepts is counted and mirrored, unless
        the mirror would outgrow memory. */
    method Write(offset: nat, data: seq<u8>, accepted: bool) returns (r: Result<(), WriteError>)
      modifies this`groundTruth, this`bytesWritten, this`writeOps
      ensures !accepted ==> r == Err(WriteRefused) && unchanged(this)
      ensures accepted ==>
                bytesWritten == old(bytesWritten) + |data| && writeOps == old(writeOps) + 1 &&
                if offset + |data| > MAX_LEN && offset + |data| > |old(groundTruth)|
                then r == Err(CapacityPanic) && groundTruth == old(groundTruth)
                else r == Ok(()) && groundTruth == Applied(old(groundTruth), WriteOp(offset, data))
    {
      if !accepted {
        return Err(WriteRefused);
      }
      bytesWritten := bytesWritten + |data|;
      writeOps := writeOps + 1;
      var end := offset + |data|;
      if end > |groundTruth| {
        if end > MAX_LEN {
          return Err(CapacityPanic);
        }
        groundTruth := Resized(groundTruth, end);
      }
      groundTruth := Overwrite(groundTruth, offset, data);
      return Ok(());
    }

    method Read(server: Server, offset: nat, size: nat) returns (r: ReadReply)
      modifies this`bytesRead, this`readOps
      ensures r == server.onRead(offset, size)
    {
      r := server.onRead(offset, size);
      if r.Data? {
        bytesRead := bytesRead + |r.bytes|;
        readOps := readOps + 1;
      }
    }

    method Flush(server: Server) returns (ok: bool)
      modifies this`flushOps
      ensures ok == server.flushes
    {
      ok := server.flushes;
      if ok {
        flushOps := flushOps + 1;
      }
    }

    /** Flush, then read the file block by block and compare it with the ground truth. */
    method VerifyAll(server: Server) returns (r: Result<(), VerifyError>)
      modifies this`bytesRead, this`readOps, this`flushOps
      ensures r == Verdict(server, groundTruth)
    {
      hide FirstDiff, MismatchAt;
      var flushed := Flush(server);
      if !flushed {
        return Err(FlushError);
      }
      var fileSize := |groundTruth|;
      var offset := 0;
      while offset < fileSize
        invariant offset <= fileSize
        invariant CheckFrom(server, groundTruth, offset) == CheckFrom(server, groundTruth, 0)
      {
        var block := Min(fileSize - offset, READ_BLOCK);
        var reply := Read(server, offset, block);
        if reply.ReadFailed? {
          return Err(ReadError(offset));
        }
        var actual := reply.bytes;
        var expected := groundTruth[offset..offset + block];
        if |actual| != |expected| {
          return Err(SizeMismatch(offset, |expected|, |actual|));
        }
        var i := FindMismatch(expected, actual);
        if i.Some? {
          return Err(DataMismatch(MismatchAt(offset, expected, actual, i.value)));
        }
        offset := offset + block;
      }
      return Ok(());
    }
  }

  lemma SameHasNoDiff(a: seq<u8>, b: seq<u8>)
    requires a == b
    ensures FirstDiff(a, b) == None
  {}

  // ---- What a verdict means

  /** The server answers every read inside its file in full. */
  ghost predicate Serves(server: Server, file: seq<u8>) {
    forall o: nat, n: nat | o + n <= |file| :: server.onRead(o, n) == Data(file[o..o + n])
  }

  lemma {:induction false} CheckMeans(server: Server, truth: seq<u8>, file: seq<u8>, offset: nat)
    requires Serves(server, file) && offset <= |truth| <= |file|
    ensures match CheckFrom(server, truth, offset)
            case Ok(_) => truth[offset..] == file[offset..|truth|]
            case Err(DataMismatch(m)) =>
              offset <= m.offset < |truth| && truth[offset..m.offset] == file[offset..m.offset] &&
              m.expected == truth[m.offset] && m.actual == file[m.offset] && m.expected != m.actual &&
              m.offset == m.chunkIndex * 0x40_0000 + m.localOffset && m.localOffset < 0x40_0000
            case Err(_) => false
    decreases |truth| - offset
  {
    hide FirstDiff, MismatchAt, BlockLen, Serves;
    if offset < |truth| {
      BlockFits(truth, offset);
      var next := offset + BlockLen(truth, offset);
      var expected, actual := truth[offset..next], file[offset..next];
      Served(server, file, offset, next);
      match FirstDiff(expected, actual) {
        case None =>
          CheckMeans(server, truth, file, next);
          BlocksJoin(truth, file, offset, next);
        case Some(i) =>
          MismatchIs(offset, expected, actual, i);
          DiffInBlock(truth, file, offset, next, i);
      }
    }
  }

  lemma Served(server: Server, file: seq<u8>, from: nat, to: nat)
    requires Serves(server, file) && from <= to <= |file|
    ensures server.onRead(from, to - from) == Data(file[from..to])
  {}

  lemma DiffInBlock(truth: seq<u8>, file: seq<u8>, offset: nat, next: nat, i: nat)
    requires offset <= next <= |truth| <= |file| && i < next - offset
    requires truth[offset..next][i] != file[offset..next][i] && truth[offset..next][..i] == file[offset..next][..i]
    ensures truth[offset + i] == truth[offset..next][i] && file[offset + i] == file[offset..next][i]
    ensures truth[offset..offset + i] == file[offset..offset + i]
  {
    assert truth[offset..offset + i] == truth[offset..next][..i];
    assert file[offset..offset + i] == file[offset..next][..i];
  }

  lemma BlockFits(truth: seq<u8>, offset: nat)
    requires offset < |truth|
    ensures 0 < BlockLen(truth, offset) <= |truth| - offset && BlockLen(truth, offset) <= READ_BLOCK
    ensures offset % READ_BLOCK == 0 && offset + BlockLen(truth, offset) < |truth| ==>
              BlockLen(truth, offset) == READ_BLOCK && (offset + READ_BLOCK) % READ_BLOCK == 0
  {}

  lemma BlocksJoin(truth: seq<u8>, file: seq<u8>, offset: nat, next: nat)
    requires offset <= next <= |truth| <= |file| && truth[offset..next] == file[offset..next]
    ensures truth[next..] == file[next..|truth|] ==> truth[offset..] == file[offset..|truth|]
    ensures forall m: nat | next <= m <= |truth| && truth[next..m] == file[next..m] ::
              truth[offset..m] == file[offset..m]
  {
    assert truth[offset..] == truth[offset..next] + truth[next..];
    assert file[offset..|truth|] == file[offset..next] + file[next..|truth|];
    forall m: nat | next <= m <= |truth| && truth[next..m] == file[next..m]
      ensures truth[offset..m] == file[offset..m]
    {
      assert truth[offset..m] == truth[offset..next] + truth[next..m];
      assert file[offset..m] == file[offset..next] + file[next..m];
    }
  }

  /** Against a server that answers full reads, verification succeeds if and only if the flush does
      and the file starts with the ground truth; otherwise it reports the first byte that differs. */
  lemma VerifyExactly(server: Server, truth: seq<u8>, file: seq<u8>)
    requires Serves(server, file) && |truth| <= |file|
    ensures Verdict(server, truth).Ok? <==> server.flushes && file[..|truth|] == truth
    ensures server.flushes && file[..|truth|] != truth ==>
              Verdict(server, truth).Err? && Verdict(server, truth).error.DataMismatch? &&
              var m := Verdict(server, truth).error.info;
              m.offset < |truth| && truth[..m.offset] == file[..m.offset] && truth[m.offset] != file[m.offset] &&
              m.expected == truth[m.offset] && m.actual == file[m.offset] &&
              m.offset == m.chunkIndex * 0x40_0000 + m.localOffset && m.localOffset < 0x40_0000
  {
    hide CheckFrom;
    CheckMeans(server, truth, file, 0);
    assert truth[0..] == truth && file[0..|truth|] == file[..|truth|];
    match CheckFrom(server, truth, 0) {
      case Ok(_) =>
      case Err(DataMismatch(m)) =>
        assert truth[0..m.offset] == truth[..m.offset] && file[0..m.offset] == file[..m.offset];
        assert file[..|truth|][m.offset] == file[m.offset];
      case Err(_) =>
    }
  }

  /** Whatever the server answers, success means that every block of 256 KB it was asked for, and the rest
      at the end, came back equal to the ground truth, and nothing less does. */
  lemma {:induction false} OkExactly(server: Server, truth: seq<u8>, offset: nat)
    requires offset <= |truth| && offset % 0x4_0000 == 0
    ensures CheckFrom(server, truth, offset).Ok? <==>
            forall o: nat | offset <= o < |truth| && o % 0x4_0000 == 0 ::
              server.onRead(o, Min(|truth| - o, 0x4_0000)) == Data(truth[o..Min(|truth|, o + 0x4_0000)])
    decreases |truth| - offset
  {
    hide FirstDiff, MismatchAt;
    if offset < |truth| {
      BlockFits(truth, offset);
      var block := BlockLen(truth, offset);
      var next := offset + block;
      var reply := server.onRead(offset, block);
      forall o: nat | offset < o < |truth| && o % 0x4_0000 == 0 ensures next <= o {
        NextBlock(offset, o);
      }
      if reply.Data? && |reply.bytes| == block {
        if reply.bytes == truth[offset..next] {
          SameHasNoDiff(truth[offset..next], reply.bytes);
        }
        if next < |truth| {
          OkExactly(server, truth, next);
        }
      }
    }
  }

  lemma NextBlock(a: nat, b: nat)
    requires a % 0x4_0000 == 0 && b % 0x4_0000 == 0 && a < b
    ensures a + 0x4_0000 <= b
  {}

  /** The reply for the block at `o` is wrong, and `r` says how. */
  predicate Reports(server: Server, truth: seq<u8>, o: nat, r: Result<(), VerifyError>)
    requires o < |truth|
  {
    var n := Min(|truth| - o, 0x4_0000);
    match server.onRead(o, n)
    case ReadFailed => r == Err(ReadError(o))
    case Data(bytes) =>
      if |bytes| != n then r == Err(SizeMismatch(o, n, |bytes|))
      else forall i | 0 <= i < n && bytes[i] != truth[o + i] && bytes[..i] == truth[o..o + i] ::
             r == Err(DataMismatch(MismatchAt(o, truth[o..o + n], bytes, i)))
  }

  /** And what stops it is the first block that did not come back: the error says where, and what was wrong. */
  lemma {:induction false} FirstBadBlock(server: Server, truth: seq<u8>, offset: nat, o: nat)
    requires offset <= o < |truth| && offset % 0x4_0000 == 0 && o % 0x4_0000 == 0
    requires forall g: nat | offset <= g < o && g % 0x4_0000 == 0 ::
               server.onRead(g, Min(|truth| - g, 0x4_0000)) == Data(truth[g..Min(|truth|, g + 0x4_0000)])
    ensures Reports(server, truth, o, CheckFrom(server, truth, offset))
    decreases o - offset
  {
    hide FirstDiff, MismatchAt, Reports;
    if offset < o {
      NextBlock(offset, o);
      SameHasNoDiff(truth[offset..offset + 0x4_0000], truth[offset..offset + 0x4_0000]);
      FirstBadBlock(server, truth, offset + 0x4_0000, o);
    } else {
      BlockReports(server, truth, o);
    }
  }

  lemma BlockReports(server: Server, truth: seq<u8>, o: nat)
    requires o < |truth|
    ensures Reports(server, truth, o, CheckFrom(server, truth, o))
  {
    hide FirstDiff, MismatchAt;
    var n := Min(|truth| - o, 0x4_0000);
    var reply, expected := server.onRead(o, n), truth[o..o + n];
    if reply.Data? && |reply.bytes| == n {
      forall i | 0 <= i < n && reply.bytes[i] != truth[o + i] && reply.bytes[..i] == truth[o..o + i]
        ensures FirstDiff(expected, reply.bytes) == Some(i)
      {
        assert expected[..i] == truth[o..o + i];
        FirstDiffIs(expected, reply.bytes, i);
      }
    }
  }
}
