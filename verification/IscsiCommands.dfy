// Read and write commands from the bytes the initiator builds to the bytes the storage service gets.
module IscsiCommands {
  import opened Basics
  import opened Wrappers
  import opened Bytes
  import opened IscsiPdu
  import opened IscsiResponses
  import opened IscsiSession
  import opened IscsiGuarantees
  import opened IscsiDelivery
  import opened IscsiStorage
  import opened IscsiWire
  import Block = BlockSocket

  /** The command block of a ten-byte transfer: the opcode, the block address in bytes 2 to 5 and the
      number of blocks in bytes 7 and 8, most significant byte first. */
  function TenCdb(opcode: u8, lba: nat, n: nat): seq<u8> {
    [opcode, 0] + Four(lba) + [0, n / 256 % 256, n % 256] + Zeros(7)
  }

  /** And of a sixteen-byte one: the address in bytes 2 to 9, the number in bytes 10 to 13. */
  function SixteenCdb(opcode: u8, lba: nat, n: nat): seq<u8> {
    [opcode, 0] + Four(lba / 0x1_0000_0000) + Four(lba % 0x1_0000_0000) + Four(n) + Zeros(2)
  }

  function Four(n: nat): seq<u8> {
    [n / 0x100_0000 % 256, n / 0x1_0000 % 256, n / 0x100 % 256, n % 256]
  }

  /** A command for `n` blocks from block `lba` on, after the twelve bytes before its command block. */
  predicate IsTransfer(p: Pdu, ten: u8, sixteen: u8, lba: nat, n: nat) {
    p.bhs.opcode == 0x01 &&
    ((lba < 0x1_0000_0000 && n < 0x1_0000 && p.bhs.specific[12..] == TenCdb(ten, lba, n)) ||
     (lba < 0x1_0000_0000_0000_0000 && n < 0x80_0000 && p.bhs.specific[12..] == SixteenCdb(sixteen, lba, n)))
  }

  lemma FromBeFour(n: nat)
    requires n < 0x1_0000_0000
    ensures FromBe(Four(n)) == n
  {
    FourDigits(n);
    FromBeDigits(n / 0x100_0000 % 256, n / 0x1_0000 % 256, n / 0x100 % 256, n % 256);
  }

  lemma FromBeDigits(a: u8, b: u8, c: u8, d: u8)
    ensures FromBe([a, b, c, d]) == 256 * (256 * (256 * (a as nat) + b) + c) + d
  {
    assert [a, b, c, d][..3] == [a, b, c] && [a, b, c][..2] == [a, b] && [a, b][..1] == [a] && [a][..0] == [];
    assert FromBe([a]) == a && FromBe([a, b]) == 256 * FromBe([a]) + b;
    assert FromBe([a, b, c]) == 256 * FromBe([a, b]) + c;
  }

  lemma FromBeTwo(n: nat)
    requires n < 0x1_0000
    ensures FromBe([n / 256 % 256, n % 256]) == n
  {
    var a, b := n / 256 % 256, n % 256;
    assert [a, b][..1] == [a] && [a][..0] == [] && FromBe([a]) == a;
  }

  lemma {:induction false} FromBeJoins(a: seq<u8>, b: seq<u8>)
    ensures FromBe(a + b) == FromBe(a) * Range(|b|) + FromBe(b)
  {
    if b == [] {
      assert a + b == a;
    } else {
      var front, last := b[..|b| - 1], b[|b| - 1];
      FromBeJoins(a, front);
      assert (a + b)[..|a + b| - 1] == a + front && (a + b)[|a + b| - 1] == last;
      Scale(FromBe(a), Range(|front|), FromBe(front));
    }
  }

  lemma Scale(x: nat, r: nat, y: nat)
    ensures 256 * (x * r + y) == x * (256 * r) + 256 * y
  {}

  lemma TransferFields(p: Pdu, ten: u8, sixteen: u8, lba: nat, n: nat)
    requires IsTransfer(p, ten, sixteen, lba, n)
    requires (ten == 0x28 && sixteen == 0x88) || (ten == 0x2A && sixteen == 0x8A)
    ensures var cdb := CdbOf(p);
            cdb[0] in {ten, sixteen} && Lba(cdb) == lba && Blocks(cdb) == n && !TooManyBlocks(cdb)
  {
    hide FromBe, Four;
    var cdb := CdbOf(p);
    assert cdb == p.bhs.specific[12..];
    RangeValues();
    if cdb == TenCdb(ten, lba, n) && lba < 0x1_0000_0000 && n < 0x1_0000 {
      assert cdb[2..6] == Four(lba) by { FourIsFour(lba); }
      assert cdb[7..9] == [n / 256 % 256, n % 256] by { FourIsFour(lba); }
      assert cdb[0] == ten;
      FromBeFour(lba);
      FromBeTwo(n);
    } else {
      var high, low := lba / 0x1_0000_0000, lba % 0x1_0000_0000;
      FourIsFour(high);
      FourIsFour(low);
      FourIsFour(n);
      assert cdb[2..10] == Four(high) + Four(low) && cdb[10..14] == Four(n) && cdb[0] == sixteen;
      FromBeFour(high);
      FromBeFour(low);
      FromBeFour(n);
      FromBeJoins(Four(high), Four(low));
    }
  }

  lemma FourIsFour(n: nat)
    ensures |Four(n)| == 4
  {}

  /** Every read of `n` blocks from block `lba` on asks the service for just those blocks, and returns
      the bytes of its reply. */
  lemma ReadAsksExactly(p: Pdu, lba: nat, n: nat, statSn: u32, w: Window, a: Answer, input: seq<u8>)
    requires IsTransfer(p, 0x28, 0x88, lba, n)
    ensures var h, said := ScsiReply(p, statSn, w, a, input), Said(a, Block.BlockRequest(1, lba, n * 512, []));
            (h.Stuck? <==> said.Hangs?) &&
            (!said.Hangs? ==>
               h.Reply? && h.collected == [] && h.rest == input &&
               if said.Answered? && said.reply.status == 0
               then h.response.bhs.opcode == 0x25 && h.response.bhs.specific[1] == 0x00 &&
                    h.response.data == said.reply.data
               else h.response.bhs.opcode == 0x21 && h.response.bhs.specific[1] == 0x02 && h.response.data == [])
  {
    hide ToBe, FromBe, WindowTail, Block.Exchange, Lba, Blocks, IsTransfer;
    TransferFields(p, 0x28, 0x88, lba, n);
    IsCommand(p, 0x28, 0x88, lba, n);
  }

  lemma IsCommand(p: Pdu, ten: u8, sixteen: u8, lba: nat, n: nat)
    requires IsTransfer(p, ten, sixteen, lba, n)
    ensures p.bhs.opcode == SCSI_CMD
  {}

  /** Every write of `n` blocks from block `lba` on, whose own data and Data-Outs bring it to what it
      announces, has the service asked to write just those bytes there. */
  lemma WriteAsksExactly(p: Pdu, lba: nat, n: nat, statSn: u32, w: Window, a: Answer, rest: seq<Pdu>)
    requires IsTransfer(p, 0x2A, 0x8A, lba, n) && forall q | q in rest :: WellFormed(q)
    requires |p.data| >= n * 512 || FillsExactly(|p.data|, n * 512, rest)
    ensures var all := p.data + DataOf(rest);
            |all| >= n * 512 &&
            var h := ScsiReply(p, statSn, w, a, WireAll(rest));
            var said := Said(a, Block.BlockRequest(2, lba, n * 512, all[..n * 512]));
            (h.Stuck? <==> said.Hangs?) &&
            (!said.Hangs? ==>
               h.Reply? && h.stored == all[..n * 512] && h.response.bhs.opcode == 0x21 && h.response.data == [] &&
               h.response.bhs.specific[1] == if said.Answered? && said.reply.status == 0 then 0x00 else 0x02)
  {
    hide ToBe, FromBe, Block.Exchange, Lba, Blocks, IsTransfer, WellFormed;
    hide FillsExactly, Fill, DataOf, WireAll, Gathered, ScsiReply;
    TransferFields(p, 0x2A, 0x8A, lba, n);
    IsCommand(p, 0x2A, 0x8A, lba, n);
    if |p.data| >= n * 512 {
      EnoughAtOnce(|p.data|, n * 512, rest);
    } else {
      FillsIsExact(|p.data|, n * 512, rest);
    }
    var k := Fill(|p.data|, n * 512, rest).value;
    WritePassesOnExactly(p, statSn, w, a, rest, k);
    var data, all := Gathered(p, rest[..k]), p.data + DataOf(rest);
    assert |data| == n * 512 && data <= all;
    assert data == all[..n * 512];
    WriteReplyKind(p, statSn, w, a, rest, k);
  }

  lemma WriteReplyKind(p: Pdu, statSn: u32, w: Window, a: Answer, rest: seq<Pdu>, k: nat)
    requires p.bhs.opcode == SCSI_CMD && IsWrite(CdbOf(p)[0]) && forall q | q in rest :: WellFormed(q)
    ensures var h := ScsiReply(p, statSn, w, a, WireAll(rest));
            h.Reply? ==> h.response.bhs.opcode == 0x21 && h.response.data == []
  {
    hide ToBe, WriteData, Said, Blocks, Lba, WindowTail;
  }

  /** The bytes that go to the service for it: magic, command, address and length, least significant byte
      first, twelve zeros, and the data. */
  lemma BlockBytes(cmd: u32, lba: nat, length: u32, data: seq<u8>)
    requires lba < 0x1_0000_0000_0000_0000
    ensures var s := Block.BlockWire(Block.BlockRequest(cmd, lba, length, data));
            |s| == 32 + |data| && s[..4] == [0x53, 0x43, 0x53, 0x49] &&
            (forall i | 0 <= i < 4 :: s[4 + i] == cmd / Range(i) % 256 && s[16 + i] == length / Range(i) % 256) &&
            (forall i | 0 <= i < 8 :: s[8 + i] == lba / Range(i) % 256) && s[20..32] == Zeros(12) && s[32..] == data
  {
    hide ToLe, Range;
    var s := Block.BlockWire(Block.BlockRequest(cmd, lba, length, data));
    assert s[4..8] == ToLe(cmd, 4) && s[8..16] == ToLe(lba, 8) && s[16..20] == ToLe(length, 4);
    forall i | 0 <= i < 4 ensures s[4 + i] == cmd / Range(i) % 256 && s[16 + i] == length / Range(i) % 256 {
      LeDigit(cmd, 4, i);
      LeDigit(length, 4, i);
      assert s[4 + i] == s[4..8][i] && s[16 + i] == s[16..20][i];
    }
    forall i | 0 <= i < 8 ensures s[8 + i] == lba / Range(i) % 256 {
      LeDigit(lba, 8, i);
      assert s[8 + i] == s[8..16][i];
    }
    MagicBytes();
    ZeroBytes();
    assert s[..4] == ToLe(Block.BLOCK_MAGIC, 4);
    assert s[20..32] == ToLe(0, 4) + ToLe(0, 8);
  }

  lemma MagicBytes()
    ensures ToLe(Block.BLOCK_MAGIC, 4) == [0x53, 0x43, 0x53, 0x49]
  {
    assert ToLe(0x49, 1) == [0x49] + ToLe(0, 0);
    assert ToLe(0x4953, 2) == [0x53] + ToLe(0x49, 1);
    assert ToLe(0x49_5343, 3) == [0x43] + ToLe(0x4953, 2);
  }

  lemma ZeroBytes()
    ensures ToLe(0, 4) + ToLe(0, 8) == Zeros(12)
  {
    ZeroLe(4);
    ZeroLe(8);
  }

  lemma {:induction false} ZeroLe(k: nat)
    ensures ToLe(0, k) == Zeros(k)
  {
    if k > 0 { ZeroLe(k - 1); }
  }

  // ---- The other commands

  /** The data in one unit that ends the command well, and the two answers without data. */
  predicate Sends(h: Handled, data: seq<u8>) {
    h.Reply? && h.collected == [] && h.response.bhs.opcode == 0x25 && h.response.bhs.specific[1] == 0x00 &&
    h.response.data == data
  }

  predicate Says(h: Handled, status: u8) {
    h.Reply? && h.collected == [] && h.response.bhs.opcode == 0x21 && h.response.bhs.specific[1] == status &&
    h.response.data == []
  }

  /** What each of them is answered, by the bytes of its command block: INQUIRY and REPORT TARGET PORT GROUPS
      as much of their text as the command has room for, MODE SENSE an empty header that counts the bytes after
      it, REPORT LUNS the one unit 0; and everything the target does not know fails. */
  lemma OtherCommandsExactly(p: Pdu, statSn: u32, w: Window, a: Answer, input: seq<u8>)
    requires p.bhs.opcode == 0x01
    ensures var c, h := p.bhs.specific[12..28], ScsiReply(p, statSn, w, a, input);
            match c[0]
            case 0x00 => Says(h, 0x00)
            case 0x12 => Sends(h, a.inquiry[..Min(|a.inquiry|, Digits(0, 0, c[3], c[4]))])
            case 0x1A => Sends(h, [3, 0, 0, 0])
            case 0x5A => Sends(h, [0, 6, 0, 0, 0, 0, 0, 0])
            case 0xA0 => Sends(h, [0, 0, 0, 8, 0, 0, 0, 0, 0, 0, 0, 0, 0, 0, 0, 0])
            case 0xA3 =>
              if c[1] % 32 == 0x0A then Sends(h, a.portGroups[..Min(|a.portGroups|, Big(c, 6))]) else Says(h, 0x02)
            case 0x9E => c[1] % 32 != 0x10 ==> Says(h, 0x02)
            case opcode => opcode in {0x25, 0x28, 0x2A, 0x88, 0x8A} || Says(h, 0x02)
  {
    hide ReadHandled, WriteHandled, Said, Size, BlockSize, FromBe, ToBe, WindowTail, Big, LastLba;
    var c := p.bhs.specific[12..28];
    if c[0] == 0x12 { TwoFromBe(c, 3); }
    if c[0] == 0xA3 { FourFromBe(c, 6); }
    if c[0] == 0xA0 { EightBytes(); }
  }

  lemma TwoFromBe(s: seq<u8>, at: nat)
    requires at + 2 <= |s|
    ensures FromBe(s[at..at + 2]) == Digits(0, 0, s[at], s[at + 1])
  {
    var a, b := s[at], s[at + 1];
    assert s[at..at + 2] == [a, b] && [a, b][..1] == [a] && [a][..0] == [];
    assert FromBe([a]) == a;
  }

  lemma EightBytes()
    ensures ToBe(8, 4) + Zeros(12) == [0, 0, 0, 8, 0, 0, 0, 0, 0, 0, 0, 0, 0, 0, 0, 0]
  {
    assert ToBe(0, 2) == [0, 0] && ToBe(0, 3) == ToBe(0, 2) + [0] && ToBe(8, 4) == ToBe(0, 3) + [8];
  }

  /** The last block and the block size on the wire: READ CAPACITY(10) has no number above 0xFFFF_FFFF for the
      last block, and both forms keep the low 32 bits of the block size. */
  lemma CapacityOnWire(p: Pdu, statSn: u32, w: Window, a: Answer, input: seq<u8>)
    requires p.bhs.opcode == 0x01 && !Said(a, Block.BlockRequest(4, 0, 0, [])).Hangs? && BlockSize(a) > 0
    ensures var c, h := p.bhs.specific[12..28], ScsiReply(p, statSn, w, a, input);
            var n := Size(a) / BlockSize(a);
            var last := if n == 0 then 0 else n - 1;
            if c[0] == 0x25 then
              h.Reply? && Sends(h, h.response.data) && |h.response.data| == 8 &&
              Big(h.response.data, 0) == Min(last, 0xFFFF_FFFF) &&
              Big(h.response.data, 4) == BlockSize(a) % 0x1_0000_0000
            else if c[0] == 0x9E && c[1] % 32 == 0x10 && Big(c, 10) >= 32 then
              h.Reply? && Sends(h, h.response.data) && |h.response.data| == 32 &&
              (forall i | 0 <= i < 8 :: h.response.data[7 - i] == last / Range(i) % 256) &&
              Big(h.response.data, 8) == BlockSize(a) % 0x1_0000_0000 && h.response.data[12..] == Zeros(20)
            else true
  {
    hide Said, Size, BlockSize, FromBe, ToBe, WindowTail, Big, LastLba, ReadHandled, WriteHandled, Range;
    var c, n := p.bhs.specific[12..28], Size(a) / BlockSize(a);
    var last := if n == 0 then 0 else n - 1;
    LastIs(Size(a), BlockSize(a));
    var d := if c[0] == 0x25 then ToBe(Min(last, 0xFFFF_FFFF), 4) + ToBe(BlockSize(a), 4)
             else ToBe(last, 8) + ToBe(BlockSize(a), 4) + Zeros(20);
    RangeValues();
    BeLow(BlockSize(a), 4);
    if c[0] == 0x25 {
      assert d[0..4] == ToBe(Min(last, 0xFFFF_FFFF), 4) && d[4..8] == ToBe(BlockSize(a) % 0x1_0000_0000, 4);
      BigOf(d, 0, Min(last, 0xFFFF_FFFF));
      BigOf(d, 4, BlockSize(a) % 0x1_0000_0000);
    } else {
      FourFromBe(c, 10);
      assert d[8..12] == ToBe(BlockSize(a) % 0x1_0000_0000, 4) && d[12..] == Zeros(20);
      BigOf(d, 8, BlockSize(a) % 0x1_0000_0000);
      forall i | 0 <= i < 8 ensures d[7 - i] == last / Range(i) % 256 {
        BeDigit(last, 8, i);
        assert d[7 - i] == ToBe(last, 8)[7 - i];
      }
      assert Big(c, 10) >= 32 ==> Take(d, Big(c, 10)) == d;
    }
  }

  lemma LastIs(size: u64, blockSize: u64)
    requires blockSize > 0
    ensures LastLba(size, blockSize) == if size / blockSize == 0 then 0 else size / blockSize - 1
  {}
}
