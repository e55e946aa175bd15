// What a SCSI command does to the volume behind it: the blocks a read returns, the bytes a write
// passes on over the block socket, and the capacity an initiator is told.
module IscsiStorage {
  import opened Basics
  import opened Wrappers
  import opened Bytes
  import opened IscsiPdu
  import opened IscsiResponses
  import opened IscsiSession
  import opened IscsiGuarantees
  import opened IscsiDelivery
  import Block = BlockSocket

  predicate IsRead(op: u8) { op == 0x28 || op == 0x88 }

  // ---- Reads

  /** A read panics, waits, fails or returns the service's bytes. When it is served in full the
      initiator can take the answer off the stream if and only if it asked for fewer than 32768 blocks;
      the limit of the storage service is below that. */
  lemma ReadFitsExactly(p: Pdu, statSn: u32, w: Window, a: Answer, input: seq<u8>, later: seq<u8>)
    requires p.bhs.opcode == SCSI_CMD && IsRead(CdbOf(p)[0])
    ensures var h, n := ScsiReply(p, statSn, w, a, input), Blocks(CdbOf(p)) * 512;
            (h.Panicked? <==> CdbOf(p)[0] == 0x88 && n > U32_MAX) &&
            (n <= U32_MAX ==>
               var said := Said(a, Transfer(CdbOf(p), Block.READ_BLOCKS, []));
               (h.Stuck? <==> said.Hangs?) &&
               (h.Reply? && !SaidOk(said) ==>
                  h.response.bhs.opcode == SCSI_RESP && h.response.data == [] &&
                  h.response.bhs.specific[1] == CHECK_CONDITION) &&
               (SaidOk(said) ==>
                  h.Reply? && h.response.bhs.opcode == DATA_IN && h.response.data == said.reply.data &&
                  h.response.bhs.specific[1] == GOOD &&
                  var taken := ReadPdu(Wire(h.response) + later) == Some((h.response, later));
                  (|said.reply.data| == n ==> (taken <==> Blocks(CdbOf(p)) < 32768)) &&
                  (|said.reply.data| <= Block.MAX_IO_SIZE ==> taken)))
  {
    hide ToBe, FromBe, WellFormed, WindowTail, ReadPdu, Wire, Block.Exchange, Lba;
    RangeValues();
    if !TooManyBlocks(CdbOf(p)) {
      var said := Said(a, Transfer(CdbOf(p), Block.READ_BLOCKS, []));
      if SaidOk(said) {
        hide AnswersRequest;
        FinalDataAnswers(p, statSn, said.reply.data);
        FinalFits(p, statSn, said.reply.data);
        PduRoundTripExactly(FinalData(p.bhs.initiatorTaskTag, statSn, said.reply.data), later);
      }
    }
  }

  lemma FinalFits(p: Pdu, statSn: u32, data: seq<u8>)
    requires AnswersRequest(p, FinalData(p.bhs.initiatorTaskTag, statSn, data), statSn)
    ensures WellFormed(FinalData(p.bhs.initiatorTaskTag, statSn, data)) <==> |data| < 0x100_0000
  {
    hide WellFormed, ToBe;
  }

  // ---- Writes

  /** The Data-Outs that follow bring a write from `have` to exactly its `expected` bytes. */
  predicate FillsExactly(have: nat, expected: nat, ps: seq<Pdu>)
    decreases |ps|
  {
    have == expected ||
    (have < expected && ps != [] && ps[0].bhs.opcode == 0x05 &&
     FillsExactly(have + |ps[0].data|, expected, ps[1..]))
  }

  lemma {:induction false} FillsIsExact(have: nat, expected: nat, ps: seq<Pdu>)
    requires have <= expected
    ensures FillsExactly(have, expected, ps) <==>
            Fill(have, expected, ps).Some? && have + |DataOf(ps[..Fill(have, expected, ps).value])| == expected
    decreases |ps|
  {
    if have < expected && ps != [] {
      var more := have + |ps[0].data|;
      if ps[0].bhs.opcode != DATA_OUT {
        FrontCons(ps, 0);
        assert DataOf(ps[1..][..0]) == [];
      } else {
        var filled := Fill(more, expected, ps[1..]);
        if filled.Some? { FrontCons(ps, filled.value); }
        if more <= expected {
          FillsIsExact(more, expected, ps[1..]);
        }
      }
    }
  }

  /** The write has exactly the data it announces: enough in the command itself, or its Data-Outs
      end where they should. */
  predicate DataMatches(p: Pdu, rest: seq<Pdu>) {
    |p.data| >= Announced(p) || FillsExactly(|p.data|, Announced(p), rest)
  }

  /** A write passes on exactly the bytes it announces if and only if it carries enough itself or the
      Data-Outs after it end exactly there. It waits as long as the service does not reply, and its
      status says what the reply said. */
  lemma WritePassesOnExactly(p: Pdu, statSn: u32, w: Window, a: Answer, rest: seq<Pdu>, n: nat)
    requires p.bhs.opcode == SCSI_CMD && IsWrite(CdbOf(p)[0]) && forall q | q in rest :: WellFormed(q)
    requires !TooManyBlocks(CdbOf(p)) && Fill(|p.data|, Announced(p), rest) == Some(n)
    ensures var h, data := ScsiReply(p, statSn, w, a, WireAll(rest)), Gathered(p, rest[..n]);
            var said := Said(a, Transfer(CdbOf(p), Block.WRITE_BLOCKS, data));
            (|data| == Announced(p) <==> DataMatches(p, rest)) && data <= p.data + DataOf(rest) &&
            (h.Stuck? <==> said.Hangs?) &&
            (!h.Stuck? ==>
               h.Reply? && h.stored == data &&
               h.response.bhs.specific[1] == if SaidOk(said) then GOOD else CHECK_CONDITION)
  {
    hide WellFormed, Fill, FillsExactly, WriteHandled, WriteReply, Announced, DataOf, WireAll, Said, Blocks, Lba;
    var expected := Announced(p);
    WriteOnList(p, statSn, w, a, rest);
    if |p.data| >= expected {
      EnoughAtOnce(|p.data|, expected, rest);
    } else {
      FillsIsExact(|p.data|, expected, rest);
    }
    DataSplits(rest, n);
    assert p.data + DataOf(rest) == p.data + DataOf(rest[..n]) + DataOf(rest[n..]);
    assert p.data + DataOf(rest[..n]) <= p.data + DataOf(rest);
    WriteStatus(p, statSn, w, Said(a, Transfer(CdbOf(p), Block.WRITE_BLOCKS, Gathered(p, rest[..n]))));
  }

  lemma EnoughAtOnce(have: nat, expected: nat, ps: seq<Pdu>)
    requires have >= expected
    ensures Fill(have, expected, ps) == Some(0)
  {}

  lemma WriteStatus(p: Pdu, statSn: u32, w: Window, said: Block.Exchanged)
    ensures WriteReply(p, statSn, w, said).bhs.specific[1] == if SaidOk(said) then GOOD else CHECK_CONDITION
  {
    hide ToBe;
  }

  lemma {:induction false} DataSplits(ps: seq<Pdu>, n: nat)
    requires n <= |ps|
    ensures DataOf(ps) == DataOf(ps[..n]) + DataOf(ps[n..])
  {
    if n == 0 {
      assert ps[0..] == ps && DataOf(ps[..0]) == [];
    } else {
      FrontCons(ps, n - 1);
      DataSplits(ps[1..], n - 1);
    }
  }

  // ---- The pool behind the sessions

  /** What a session finds when it is its turn to make a block request on a volume: the state of the
      pool that all sessions share. */
  ghost predicate FoundIn(a: Answer, pool: Block.Pool, volume: string, connect: Option<Block.Service>) {
    a.lockFree == !pool.waiting &&
    a.conn ==
    if volume in pool.conns then Some(pool.conns[volume])
    else if connect.Some? then Some(Block.Fresh(connect.value))
    else None
  }

  /** A session's block request is a call on the pool. */
  lemma SaidIsPoolCall(
      a: Answer, pool: Block.Pool, volume: string, connect: Option<Block.Service>, r: Block.BlockRequest)
    requires FoundIn(a, pool, volume, connect)
    ensures Block.Call(pool, Block.BlockCall(volume, r, connect)).0 ==
            match Said(a, r)
            case Answered(reply) => Block.Returned(reply)
            case Failed => Block.Errored
            case Hangs => Block.Never
  {
    hide Block.Exchange;
  }

  /** After any calls of any sessions, one of which hangs: a session on any volume answers no command that
      needs the block service. */
  lemma HangLocksOutAll(
      calls: seq<Block.BlockCall>, k: nat, a: Answer, volume: string, connect: Option<Block.Service>, p: Pdu,
      data: seq<u8>)
    requires k < |calls| && Block.OutcomeAt(calls, k).Never?
    requires FoundIn(a, Block.After(calls), volume, connect)
    ensures WaitsForReply(p, a, data) <==> AskedFor(p, data).Some?
  {
    hide Block.Exchange, AskedFor;
    assert calls[..k + 1][..k] == calls[..k];
    assert Block.After(calls[..k + 1]).waiting;
    Block.WaitingLasts(calls, k + 1);
  }

  // ---- A write on a connection in step

  /** With the lock free and the connection in step, and no overflow of the block address: a write is
      answered if and only if the data gathered reaches what it announces; its status is then that of
      the service's reply to this write cut at that length; and the connection is in step afterwards
      if and only if the data matches. */
  lemma WriteFromStep(p: Pdu, statSn: u32, w: Window, a: Answer, rest: seq<Pdu>, n: nat)
    requires p.bhs.opcode == SCSI_CMD && IsWrite(CdbOf(p)[0]) && forall q | q in rest :: WellFormed(q)
    requires !TooManyBlocks(CdbOf(p)) && Fill(|p.data|, Announced(p), rest) == Some(n)
    requires a.lockFree && a.conn.Some? && Block.InStep(a.conn.value)
    ensures var h, data := ScsiReply(p, statSn, w, a, WireAll(rest)), Gathered(p, rest[..n]);
            var c, r := a.conn.value, Transfer(CdbOf(p), Block.WRITE_BLOCKS, data);
            !Block.Overflows(r) ==>
              (h.Reply? <==> |data| >= Announced(p)) && (!h.Reply? ==> h.Stuck?) &&
              (h.Reply? ==>
                 var reply := c.service(c.served + [r.(data := data[..Announced(p)])]);
                 h.response.bhs.specific[1] == if reply.status == Block.STATUS_OK then GOOD else CHECK_CONDITION) &&
              (Block.InStep(Block.Exchange(c, r).1) <==> DataMatches(p, rest))
  {
    hide WellFormed, Fill, DataMatches, ScsiReply, DataOf, WireAll, Block.Exchange, Block.Overflows;
    hide Blocks, Lba, Gathered;
    WritePassesOnExactly(p, statSn, w, a, rest, n);
    Block.ExchangeExactly(a.conn.value, Transfer(CdbOf(p), Block.WRITE_BLOCKS, Gathered(p, rest[..n])));
  }

  /** A one-block WRITE(10) without data and then a unit that is neither a Data-Out nor a request: the
      units are not orderly, and the session stops there for ever without a single answer. */
  lemma CutWriteIsNeverAnswered(p: Pdu, q: Pdu, w: Window, answers: nat -> Answer, writable: nat)
    requires p.bhs.opcode == SCSI_CMD && CdbOf(p)[0] == 0x2A && Blocks(CdbOf(p)) == 1 && p.data == []
    requires q.bhs.opcode == 0x02 && q.data == [] && WellFormed(p) && WellFormed(q)
    requires answers(0).lockFree && answers(0).conn.Some? && Block.InStep(answers(0).conn.value)
    ensures !Orderly([p, q], 2, answers, 0, writable)
    ensures Serve(WireAll([p, q]), 2, w, answers, 0, writable) == Transcript([], WaitsForever)
  {
    hide WellFormed, Wire, ReadPdu, Block.Exchange, Lba, FromBe, CommandPanics;
    assert [p, q][1..] == [q] && [q][..1] == [q];
    assert Fill(0, 512, [q]) == Some(1) && DataOf([q]) == [];
    TenNeverOverflows(CdbOf(p), []);
    WaitsExactly(p, answers(0), []);
    DispatchOnList(p, 2, w, answers(0), [q]);
    PduRoundTripExactly(p, WireAll([q]));
    assert Gathered(p, [q]) == [];
    TenNeverPanics(p, answers(0));
  }

  lemma TenNeverPanics(p: Pdu, a: Answer)
    requires CdbOf(p)[0] == 0x2A
    ensures !CommandPanics(CdbOf(p), a)
  {}

  lemma TenNeverOverflows(cdb: Cdb, data: seq<u8>)
    requires cdb[0] == 0x2A && !TooManyBlocks(cdb)
    ensures !Block.Overflows(Transfer(cdb, Block.WRITE_BLOCKS, data))
  {
    RangeValues();
  }

  /** A one-block WRITE(10) followed by one Data-Out of two blocks: both are passed on under a header
      that says one, the write is answered, and the connection is out of step. If the second block does
      not look like a request, the next request on the volume fails with the connection; if it holds
      one, that request is carried out and every reply from then on belongs to the request before. */
  lemma OvershootSpoilsNext(p: Pdu, q: Pdu, statSn: u32, w: Window, a: Answer, next: Block.BlockRequest)
    requires p.bhs.opcode == SCSI_CMD && CdbOf(p)[0] == 0x2A && Blocks(CdbOf(p)) == 1 && p.data == []
    requires WellFormed(q) && q.bhs.opcode == DATA_OUT && |q.data| == 1024
    requires a.lockFree && a.conn.Some? && Block.InStep(a.conn.value)
    ensures var h, c := ScsiReply(p, statSn, w, a, WireAll([q])), a.conn.value;
            var r := Transfer(CdbOf(p), Block.WRITE_BLOCKS, q.data);
            h.Reply? && h.stored == q.data && !Block.InStep(Block.Exchange(c, r).1) &&
            (Block.ServiceTakes(q.data[512..]).GivesUp? ==>
               Block.Outcomes(c, [r, next])[1..] == [Block.Failed]) &&
            (forall x | Block.Matched(x) && !Block.Overflows(x) && q.data[512..] == Block.BlockWire(x) ::
               Block.Behind(Block.Exchange(c, r).1) && Block.Exchange(c, r).1.served == c.served + [Block.Cut(r)] + [x])
  {
    hide WellFormed, Collect, FromBe, Block.Exchange, Block.ServiceTakes, Block.BlockWire, Lba, Block.Overflows;
    hide Block.CatchUp;
    var c, r := a.conn.value, Transfer(CdbOf(p), Block.WRITE_BLOCKS, q.data);
    assert [q][1..] == [] && [q][..1] == [q];
    assert Fill(0, 512, [q]) == Some(1);
    assert DataOf([q]) == q.data + DataOf([q][1..]);
    assert Gathered(p, [q]) == q.data;
    TenNeverOverflows(CdbOf(p), q.data);
    assert !FillsExactly(0, 512, [q]);
    WriteFromStep(p, statSn, w, a, [q], 1);
    WritePassesOnExactly(p, statSn, w, a, [q], 1);
    if Block.ServiceTakes(q.data[512..]).GivesUp? {
      Block.GarbageTailCloses(c, r, next);
    }
    forall x | Block.Matched(x) && !Block.Overflows(x) && q.data[512..] == Block.BlockWire(x)
      ensures Block.Behind(Block.Exchange(c, r).1) && Block.Exchange(c, r).1.served == c.served + [Block.Cut(r)] + [x]
    {
      Block.RequestTailIsServed(c, r, x);
    }
  }

  // ---- Capacity

  /** READ CAPACITY(10) tells the number of whole blocks and their size, over every volume, if and
      only if there are between 1 and 2^32 blocks and the block size fits 32 bits. */
  lemma CapacityTenExactly(p: Pdu, statSn: u32, w: Window, a: Answer, input: seq<u8>)
    requires p.bhs.opcode == SCSI_CMD && CdbOf(p)[0] == 0x25 && BlockSize(a) > 0
    ensures var h, size, blockSize := ScsiReply(p, statSn, w, a, input), Size(a), BlockSize(a);
            (h.Stuck? <==> Said(a, CAPACITY).Hangs?) &&
            (!h.Stuck? ==>
               h.Reply? && |h.response.data| == 8 &&
               var last, block := FromBe(h.response.data[..4]), FromBe(h.response.data[4..]);
               last + 1 == size / blockSize && block == blockSize <==>
               1 <= size / blockSize <= 0x1_0000_0000 && blockSize <= U32_MAX)
  {
    hide FinalData, ToBe, FromBe, Said, Size, BlockSize;
    var size, block := Size(a), BlockSize(a);
    var last := Min(LastLba(size, block), U32_MAX);
    var d := ToBe(last, 4) + ToBe(block, 4);
    FinalDataData(p.bhs.initiatorTaskTag, statSn, d);
    assert d[..4] == ToBe(last, 4) && d[4..] == ToBe(block, 4);
    RangeValues();
    BeReadsBack(last, 4);
    if block <= U32_MAX {
      BeReadsBack(block, 4);
    }
  }

  lemma FinalDataData(tag: u32, statSn: u32, data: seq<u8>)
    ensures FinalData(tag, statSn, data).data == data
  {
    hide ToBe;
  }

  /** READ CAPACITY(16) with room for its two fields tells the same, over every volume, if and only
      if there is at least one block and the block size fits 32 bits. */
  lemma CapacitySixteenExactly(p: Pdu, statSn: u32, w: Window, a: Answer, input: seq<u8>)
    requires p.bhs.opcode == SCSI_CMD && CdbOf(p)[0] == 0x9E && CdbOf(p)[1] % 32 == 0x10 && BlockSize(a) > 0
    ensures var h, alloc := ScsiReply(p, statSn, w, a, input), FromBe(CdbOf(p)[10..14]);
            var size, blockSize := Size(a), BlockSize(a);
            (h.Stuck? <==> Said(a, CAPACITY).Hangs?) &&
            (!h.Stuck? ==>
               h.Reply? && |h.response.data| == Min(32, alloc) &&
               (alloc >= 12 ==>
                  var last, block := FromBe(h.response.data[..8]), FromBe(h.response.data[8..12]);
                  last + 1 == size / blockSize && block == blockSize <==>
                  1 <= size / blockSize && blockSize <= U32_MAX))
  {
    hide FinalData, ToBe, FromBe, Said, Size, BlockSize;
    var size, block := Size(a), BlockSize(a);
    var last, alloc := LastLba(size, block), FromBe(CdbOf(p)[10..14]);
    var d := ToBe(last, 8) + ToBe(block, 4) + Zeros(20);
    FinalDataData(p.bhs.initiatorTaskTag, statSn, Take(d, alloc));
    if alloc >= 12 {
      var taken := Take(d, alloc);
      assert taken[..8] == d[..8] == ToBe(last, 8);
      assert taken[8..12] == d[8..12] == ToBe(block, 4);
    }
    RangeValues();
    LastFits(size, block);
    BeReadsBack(last, 8);
    if block <= U32_MAX {
      BeReadsBack(block, 4);
    }
  }

  lemma LastFits(size: u64, blockSize: u64)
    requires blockSize > 0
    ensures LastLba(size, blockSize) < 0x1_0000_0000_0000_0000
  {}

  /** A volume smaller than one block is announced as one block, and so is every volume whose capacity
      query failed. */
  lemma EmptyVolumeClaimsOneBlock(p: Pdu, statSn: u32, w: Window, a: Answer, input: seq<u8>)
    requires p.bhs.opcode == SCSI_CMD && CdbOf(p)[0] == 0x25
    requires (Size(a) < BlockSize(a) <= U32_MAX && !Said(a, CAPACITY).Hangs?) || Said(a, CAPACITY).Failed?
    ensures var h := ScsiReply(p, statSn, w, a, input);
            h.Reply? && |h.response.data| == 8 &&
            FromBe(h.response.data[..4]) == 0 && FromBe(h.response.data[4..]) == BlockSize(a)
  {
    hide FinalData, ToBe, FromBe, Said, Size, BlockSize, LastLba;
    var d := ToBe(0, 4) + ToBe(BlockSize(a), 4);
    FinalDataData(p.bhs.initiatorTaskTag, statSn, d);
    if Said(a, CAPACITY).Failed? { FailedIsEmpty(a); }
    NoBlocks(Size(a), BlockSize(a));
    assert d[..4] == ToBe(0, 4) && d[4..] == ToBe(BlockSize(a), 4);
    RangeValues();
    BeReadsBack(0, 4);
    BeReadsBack(BlockSize(a), 4);
  }

  lemma FailedIsEmpty(a: Answer)
    requires Said(a, CAPACITY).Failed?
    ensures Size(a) == 0 && BlockSize(a) == 512
  {
    hide Said;
  }

  lemma NoBlocks(size: u64, blockSize: u64)
    requires size < blockSize
    ensures LastLba(size, blockSize) == 0
  {}
}
