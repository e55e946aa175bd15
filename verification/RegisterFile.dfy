// General-purpose registers: accesses of four widths to sixteen 64-bit registers, seen as
// accesses to one store of 128 bytes.
module RegisterFile {
  import opened Basics
  import opened Flags

  /** A register write as the instruction encodes it. Without a REX prefix the byte registers
      4 to 7 are AH, CH, DH and BH. */
  datatype Access =
    | Access8(index: nat, rex: bool, val8: bv8)
    | Access16(index: nat, val16: bv16)
    | Access32(index: nat, val32: bv32)
    | Access64(index: nat, val64: bv64)

  predicate IsHighByte(index: nat, rex: bool) {
    !rex && 4 <= index <= 7
  }

  function PutLowByte(reg: bv64, val: bv8): bv64 { (reg & !0xFF) | (val as bv64) }

  function PutHighByte(reg: bv64, val: bv8): bv64 { (reg & !0xFF00) | ((val as bv64) << 8) }

  function PutWord(reg: bv64, val: bv16): bv64 { (reg & !0xFFFF) | (val as bv64) }

  function ZeroExtend(val: bv32): bv64 { val as bv64 }

  function LowByte(reg: bv64): bv8 { (reg & 0xFF) as bv8 }

  function HighByte(reg: bv64): bv8 { ((reg >> 8) & 0xFF) as bv8 }

  function LowWord(reg: bv64): bv64 { reg & 0xFFFF }

  function LowDword(reg: bv64): bv64 { reg & 0xFFFF_FFFF }

  /** The register after the write. */
  function Update(reg: bv64, a: Access): bv64 {
    match a
    case Access8(index, rex, val) =>
      if IsHighByte(index, rex) then PutHighByte(reg, val) else PutLowByte(reg, val)
    case Access16(_, val) => PutWord(reg, val)
    case Access32(_, val) => ZeroExtend(val)
    case Access64(_, val) => val
  }

  function Register(a: Access): nat {
    if a.Access8? && IsHighByte(a.index, a.rex) then a.index - 4 else a.index
  }

  function Write(gpr: seq<bv64>, a: Access): (gpr': seq<bv64>)
    requires |gpr| == 16 && a.index < 16
    ensures |gpr'| == 16
  {
    gpr[Register(a) := Update(gpr[Register(a)], a)]
  }

  function Read8(gpr: seq<bv64>, index: nat, rex: bool): bv8
    requires |gpr| == 16 && index < 16
  {
    if IsHighByte(index, rex) then HighByte(gpr[index - 4]) else LowByte(gpr[index])
  }

  /** The access of `write_gpr`: the operand width truncates the value. */
  function Narrow(index: nat, width: OperandSize, rex: bool, val: bv64): Access {
    match width
    case Byte => Access8(index, rex, (val & 0xFF) as bv8)
    case Word => Access16(index, (val & 0xFFFF) as bv16)
    case Dword => Access32(index, (val & 0xFFFF_FFFF) as bv32)
    case Qword => Access64(index, val)
  }

  class Registers {
    const gpr: array<bv64>

    ghost predicate Valid() { gpr.Length == 16 }

    constructor ()
      ensures Valid() && fresh(gpr)
    {
      gpr := new bv64[16](_ => 0);
    }

    method ReadGpr8(index: nat, hasRex: bool) returns (r: bv8)
      requires Valid() && index < 16
      ensures r == Read8(gpr[..], index, hasRex)
    {
      if !hasRex && index >= 4 && index <= 7 {
        r := HighByte(gpr[index - 4]);
      } else {
        r := LowByte(gpr[index]);
      }
    }

    method WriteGpr8(index: nat, hasRex: bool, val: bv8)
      requires Valid() && index < 16
      modifies gpr
      ensures gpr[..] == Write(old(gpr[..]), Access8(index, hasRex, val))
    {
      hide PutHighByte, PutLowByte;
      if !hasRex && index >= 4 && index <= 7 {
        gpr[index - 4] := PutHighByte(gpr[index - 4], val);
      } else {
        gpr[index] := PutLowByte(gpr[index], val);
      }
    }

    method WriteGpr16(index: nat, val: bv16)
      requires Valid() && index < 16
      modifies gpr
      ensures gpr[..] == Write(old(gpr[..]), Access16(index, val))
    {
      gpr[index] := PutWord(gpr[index], val);
    }

    method WriteGpr32(index: nat, val: bv32)
      requires Valid() && index < 16
      modifies gpr
      ensures gpr[..] == Write(old(gpr[..]), Access32(index, val))
    {
      gpr[index] := ZeroExtend(val);
    }

    method WriteGpr64(index: nat, val: bv64)
      requires Valid() && index < 16
      modifies gpr
      ensures gpr[..] == Write(old(gpr[..]), Access64(index, val))
    {
      gpr[index] := val;
    }

    method ReadGpr(index: nat, width: OperandSize, hasRex: bool) returns (r: bv64)
      requires Valid() && index < 16
      ensures width == Byte ==> r == Read8(gpr[..], index, hasRex) as bv64
      ensures width == Word ==> r == LowWord(gpr[index])
      ensures width == Dword ==> r == LowDword(gpr[index])
      ensures width == Qword ==> r == gpr[index]
    {
      hide LowByte, HighByte, LowWord, LowDword;
      match width
      case Byte => var b := ReadGpr8(index, hasRex); r := b as bv64;
      case Word => r := LowWord(gpr[index]);
      case Dword => r := LowDword(gpr[index]);
      case Qword => r := gpr[index];
    }

    method WriteGpr(index: nat, width: OperandSize, hasRex: bool, val: bv64)
      requires Valid() && index < 16
      modifies gpr
      ensures gpr[..] == Write(old(gpr[..]), Narrow(index, width, hasRex, val))
    {
      match width
      case Byte => WriteGpr8(index, hasRex, (val & 0xFF) as bv8);
      case Word => WriteGpr16(index, (val & 0xFFFF) as bv16);
      case Dword => WriteGpr32(index, (val & 0xFFFF_FFFF) as bv32);
      case Qword => WriteGpr64(index, val);
    }
  }

  // ---- The byte store

  function ByteAt(r: bv64, k: nat): bv8
    requires k < 8
  {
    if k == 0 then (r & 0xFF) as bv8
    else if k == 1 then ((r >> 8) & 0xFF) as bv8
    else if k == 2 then ((r >> 16) & 0xFF) as bv8
    else if k == 3 then ((r >> 24) & 0xFF) as bv8
    else if k == 4 then ((r >> 32) & 0xFF) as bv8
    else if k == 5 then ((r >> 40) & 0xFF) as bv8
    else if k == 6 then ((r >> 48) & 0xFF) as bv8
    else (r >> 56) as bv8
  }

  function Bytes(r: bv64): (bytes: seq<bv8>)
    ensures |bytes| == 8
    ensures forall k | 0 <= k < 8 :: bytes[k] == ByteAt(r, k)
  {
    seq(8, k requires 0 <= k < 8 => ByteAt(r, k))
  }

  /** Register `i` occupies bytes 8i to 8i+7, lowest byte first. */
  function Store(gpr: seq<bv64>): (store: seq<bv8>)
    ensures |store| == 8 * |gpr|
  {
    if gpr == [] then [] else Store(gpr[..|gpr| - 1]) + Bytes(gpr[|gpr| - 1])
  }

  /** First byte an access touches: the second byte of its register for AH, CH, DH and BH. */
  function Offset(a: Access): nat {
    8 * Register(a) + (if a.Access8? && IsHighByte(a.index, a.rex) then 1 else 0)
  }

  /** What a write puts there; a 32-bit write also clears the upper half. */
  function Payload(a: Access): seq<bv8> {
    match a
    case Access8(_, _, val) => [val]
    case Access16(_, val) => Bytes(val as bv64)[..2]
    case Access32(_, val) => Bytes(ZeroExtend(val))[..4] + [0, 0, 0, 0]
    case Access64(_, val) => Bytes(val)
  }

  lemma {:induction false} StoreAt(gpr: seq<bv64>, i: nat)
    requires i < |gpr|
    ensures Store(gpr)[8 * i..8 * i + 8] == Bytes(gpr[i])
  {
    var init := gpr[..|gpr| - 1];
    if i < |init| {
      StoreAt(init, i);
      assert Store(gpr)[8 * i..8 * i + 8] == Store(init)[8 * i..8 * i + 8];
    }
  }

  lemma {:induction false} StoreUpdate(gpr: seq<bv64>, i: nat, r: bv64)
    requires i < |gpr|
    ensures Store(gpr[i := r]) == Overwrite(Store(gpr), 8 * i, Bytes(r))
  {
    hide Bytes;
    var init := gpr[..|gpr| - 1];
    var gpr' := gpr[i := r];
    if i < |init| {
      StoreUpdate(init, i, r);
      assert gpr'[..|gpr| - 1] == init[i := r];
    } else {
      assert gpr'[..|gpr| - 1] == init;
    }
  }

  /** Byte `k` of a register after each kind of write. */
  lemma LowByteUpdate(reg: bv64, val: bv8, k: nat)
    requires k < 8
    ensures ByteAt(PutLowByte(reg, val), k) == if k == 0 then val else ByteAt(reg, k)
  {
  }

  lemma HighByteUpdate(reg: bv64, val: bv8, k: nat)
    requires k < 8
    ensures ByteAt(PutHighByte(reg, val), k) == if k == 1 then val else ByteAt(reg, k)
  {
  }

  lemma WordUpdate(reg: bv64, val: bv16, k: nat)
    requires k < 8
    ensures ByteAt(PutWord(reg, val), k) == if k < 2 then ByteAt(val as bv64, k) else ByteAt(reg, k)
  {
  }

  lemma DwordUpdate(val: bv32, k: nat)
    requires 4 <= k < 8
    ensures ByteAt(ZeroExtend(val), k) == 0
  {
  }

  lemma UpdatedByte(reg: bv64, a: Access, k: nat)
    requires a.index < 16 && k < 8
    ensures var at := Offset(a) - 8 * Register(a);
            ByteAt(Update(reg, a), k)
            == if at <= k < at + |Payload(a)| then Payload(a)[k - at] else ByteAt(reg, k)
  {
    hide ByteAt, PutLowByte, PutHighByte, PutWord, ZeroExtend;
    match a
    case Access8(_, _, val) => LowByteUpdate(reg, val, k); HighByteUpdate(reg, val, k);
    case Access16(_, val) => WordUpdate(reg, val, k);
    case Access32(_, val) => if k >= 4 { DwordUpdate(val, k); }
    case Access64(_, _) =>
  }

  lemma UpdateBytes(reg: bv64, a: Access)
    requires a.index < 16
    ensures Bytes(Update(reg, a)) == Overwrite(Bytes(reg), Offset(a) - 8 * Register(a), Payload(a))
  {
    hide ByteAt, Update, Payload;
    PayloadFits(a);
    forall k: nat | k < 8
      ensures var at := Offset(a) - 8 * Register(a);
              ByteAt(Update(reg, a), k) == if at <= k < at + |Payload(a)| then Payload(a)[k - at] else ByteAt(reg, k)
    {
      UpdatedByte(reg, a, k);
    }
  }

  lemma NestedOverwrite(store: seq<bv8>, base: nat, at: nat, bytes: seq<bv8>)
    requires base + 8 <= |store| && at + |bytes| <= 8
    ensures Overwrite(store, base, Overwrite(store[base..base + 8], at, bytes)) == Overwrite(store, base + at, bytes)
  {
  }

  /** One write of any width changes exactly its own bytes of the store. */
  lemma WriteRefines(gpr: seq<bv64>, a: Access)
    requires |gpr| == 16 && a.index < 16
    ensures Store(Write(gpr, a)) == Overwrite(Store(gpr), Offset(a), Payload(a))
  {
    hide Bytes, Payload, Update, Overwrite, Store;
    var i := Register(a);
    StoreAt(gpr, i);
    StoreUpdate(gpr, i, Update(gpr[i], a));
    UpdateBytes(gpr[i], a);
    PayloadFits(a);
    NestedOverwrite(Store(gpr), 8 * i, Offset(a) - 8 * i, Payload(a));
  }

  lemma PayloadFits(a: Access)
    ensures Offset(a) - 8 * Register(a) + |Payload(a)| <= 8
  {
  }

  function Run(gpr: seq<bv64>, writes: seq<Access>): (gpr': seq<bv64>)
    requires |gpr| == 16 && forall i | 0 <= i < |writes| :: writes[i].index < 16
    ensures |gpr'| == 16
  {
    if writes == [] then gpr else Write(Run(gpr, writes[..|writes| - 1]), writes[|writes| - 1])
  }

  function StoreRun(store: seq<bv8>, writes: seq<Access>): (store': seq<bv8>)
    requires |store| == 128 && forall i | 0 <= i < |writes| :: writes[i].index < 16
    ensures |store'| == 128
  {
    if writes == [] then store
    else
      var a := writes[|writes| - 1];
      PayloadFits(a);
      Overwrite(StoreRun(store, writes[..|writes| - 1]), Offset(a), Payload(a))
  }

  /** Any sequence of mixed-width writes acts on the registers as it acts on the byte store. */
  lemma {:induction false} RunRefines(gpr: seq<bv64>, writes: seq<Access>)
    requires |gpr| == 16 && forall i | 0 <= i < |writes| :: writes[i].index < 16
    ensures Store(Run(gpr, writes)) == StoreRun(Store(gpr), writes)
  {
    hide Store, Overwrite, Payload;
    if writes != [] {
      RunRefines(gpr, writes[..|writes| - 1]);
      WriteRefines(Run(gpr, writes[..|writes| - 1]), writes[|writes| - 1]);
    }
  }

  /** Every read returns the bytes of the store it covers. */
  lemma ReadsAgree(gpr: seq<bv64>, index: nat, rex: bool)
    requires |gpr| == 16 && index < 16
    ensures Read8(gpr, index, rex) == Store(gpr)[Offset(Access8(index, rex, 0))]
    ensures Bytes(LowWord(gpr[index]))[..2] == Store(gpr)[8 * index..8 * index + 2]
    ensures Bytes(LowDword(gpr[index]))[..4] == Store(gpr)[8 * index..8 * index + 4]
    ensures Bytes(gpr[index]) == Store(gpr)[8 * index..8 * index + 8]
  {
    hide Store, Bytes, ByteAt, LowByte, HighByte, LowWord, LowDword, Read8, Offset;
    ByteReadAgrees(gpr, index, rex);
    StoreAt(gpr, index);
    LowParts(gpr[index]);
    Slices(Store(gpr), 8 * index, Bytes(gpr[index]));
  }

  lemma ByteReadAgrees(gpr: seq<bv64>, index: nat, rex: bool)
    requires |gpr| == 16 && index < 16
    ensures Read8(gpr, index, rex) == Store(gpr)[Offset(Access8(index, rex, 0))]
  {
    hide Store, Bytes, ByteAt, LowByte, HighByte, LowWord, LowDword;
    var i := Register(Access8(index, rex, 0));
    StoreAt(gpr, i);
    ReadByte(gpr[i]);
    Slices(Store(gpr), 8 * i, Bytes(gpr[i]));
  }

  lemma Slices(store: seq<bv8>, at: nat, bytes: seq<bv8>)
    requires at + 8 <= |store| && store[at..at + 8] == bytes
    ensures store[at] == bytes[0] && store[at + 1] == bytes[1]
    ensures store[at..at + 2] == bytes[..2] && store[at..at + 4] == bytes[..4]
  {
  }

  lemma LowParts(r: bv64)
    ensures Bytes(LowWord(r))[..2] == Bytes(r)[..2]
    ensures Bytes(LowDword(r))[..4] == Bytes(r)[..4]
  {
    hide ByteAt, LowWord, LowDword;
    forall k | 0 <= k < 2 ensures ByteAt(LowWord(r), k) == ByteAt(r, k) { LowPart16(r, k); }
    forall k | 0 <= k < 4 ensures ByteAt(LowDword(r), k) == ByteAt(r, k) { LowPart32(r, k); }
  }

  lemma ReadByte(r: bv64)
    ensures LowByte(r) == ByteAt(r, 0) && HighByte(r) == ByteAt(r, 1)
  {
  }

  lemma LowPart16(r: bv64, k: nat)
    requires k < 2
    ensures ByteAt(LowWord(r), k) == ByteAt(r, k)
  {
  }

  lemma LowPart32(r: bv64, k: nat)
    requires k < 4
    ensures ByteAt(LowDword(r), k) == ByteAt(r, k)
  {
  }

  /** Equal bytes mean equal registers, so the store loses nothing. */
  lemma BytesDetermine(r: bv64, r': bv64)
    requires Bytes(r) == Bytes(r')
    ensures r == r'
  {
    hide Bytes;
    assert forall k | 0 <= k < 8 :: Bytes(r)[k] == Bytes(r')[k];
    assert ByteAt(r, 0) == ByteAt(r', 0) && ByteAt(r, 1) == ByteAt(r', 1) && ByteAt(r, 2) == ByteAt(r', 2);
    assert ByteAt(r, 3) == ByteAt(r', 3) && ByteAt(r, 4) == ByteAt(r', 4) && ByteAt(r, 5) == ByteAt(r', 5);
    assert ByteAt(r, 6) == ByteAt(r', 6) && ByteAt(r, 7) == ByteAt(r', 7);
  }

  /** A write by operand width stores the low bytes of the value it is given. */
  lemma NarrowStoresLowBytes(index: nat, width: OperandSize, rex: bool, val: bv64)
    ensures Narrow(index, width, rex, val).index == index
    ensures var stored := Payload(Narrow(index, width, rex, val));
            match width
            case Byte => stored == Bytes(val)[..1]
            case Word => stored == Bytes(val)[..2]
            case Dword => stored == Bytes(val)[..4] + [0, 0, 0, 0]
            case Qword => stored == Bytes(val)
  {
    hide ByteAt, ZeroExtend;
    match width
    case Byte => NarrowByte(val);
    case Word =>
      forall k | 0 <= k < 2 ensures ByteAt((val & 0xFFFF) as bv16 as bv64, k) == ByteAt(val, k) {
        NarrowWord(val, k);
      }
    case Dword =>
      forall k | 0 <= k < 4 ensures ByteAt(ZeroExtend((val & 0xFFFF_FFFF) as bv32), k) == ByteAt(val, k) {
        NarrowDword(val, k);
      }
    case Qword =>
  }

  lemma NarrowByte(val: bv64)
    ensures (val & 0xFF) as bv8 == ByteAt(val, 0)
  {}

  lemma NarrowWord(val: bv64, k: nat)
    requires k < 2
    ensures ByteAt((val & 0xFFFF) as bv16 as bv64, k) == ByteAt(val, k)
  {}

  lemma NarrowDword(val: bv64, k: nat)
    requires k < 4
    ensures ByteAt(ZeroExtend((val & 0xFFFF_FFFF) as bv32), k) == ByteAt(val, k)
  {}
}
