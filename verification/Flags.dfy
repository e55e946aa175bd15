// RFLAGS after additions, subtractions, increments and decrements at the four operand sizes,
// and what those flags mean as integer arithmetic. Operands are 64-bit words of which an
// operation uses the low part; the flag register itself is a field of bits.
module Flags {
  import opened Basics
  import opened Bits

  datatype OperandSize = Byte | Word | Dword | Qword
  {
    function Bits(): nat {
      match this
      case Byte => 8
      case Word => 16
      case Dword => 32
      case Qword => 64
    }

    function Mask(): u64 {
      match this
      case Byte => 0xFF
      case Word => 0xFFFF
      case Dword => 0xFFFF_FFFF
      case Qword => 0xFFFF_FFFF_FFFF_FFFF
    }

    function SignBit(): u64 {
      match this
      case Byte => 0x80
      case Word => 0x8000
      case Dword => 0x8000_0000
      case Qword => 0x8000_0000_0000_0000
    }

    /** Number of values of the size. */
    function Range(): nat { Mask() + 1 }
  }

  const CF: bv64 := 0x1
  const PF: bv64 := 0x4
  const AF: bv64 := 0x10
  const ZF: bv64 := 0x40
  const SF: bv64 := 0x80
  const OF: bv64 := 0x800
  const ARITH_MASK: bv64 := 0x8D5

  predicate Has(flags: bv64, flag: bv64) {
    flags & flag != 0
  }

  // ---- Parity

  function Ones(v: nat): nat {
    if v == 0 then 0 else v % 2 + Ones(v / 2)
  }

  /** Even number of one bits in the low byte. */
  predicate EvenOnes(v: nat) {
    Ones(v % 256) % 2 == 0
  }

  lemma {:induction false} OneMore(v: nat, i: nat)
    requires !Bit(v, i)
    ensures Ones(v + Pow2(i)) == Ones(v) + 1
  {
    if i > 0 {
      OneMore(v / 2, i - 1);
      assert (v + Pow2(i)) / 2 == v / 2 + Pow2(i - 1) && (v + Pow2(i)) % 2 == v % 2;
    }
  }

  lemma NoOnes()
    ensures Ones(0) == 0
  {}

  /** Zero is even, and setting any of the eight bits of a byte turns even into odd and odd into even. */
  lemma ParityFlips(v: nat, i: nat)
    requires v < 256 && i < 8 && !Bit(v, i) && v + Pow2(i) < 256
    ensures EvenOnes(0) && (EvenOnes(v + Pow2(i)) <==> !EvenOnes(v))
  {
    hide Bit, Pow2, Ones;
    OneMore(v, i);
    NoOnes();
  }

  /** The 256-entry table, built by counting the bits of every byte. */
  method BuildParityTable() returns (table: array<bool>)
    ensures table.Length == 256 && forall v | 0 <= v < 256 :: table[v] == EvenOnes(v)
  {
    table := new bool[256];
    var i := 0;
    while i < 256
      invariant 0 <= i <= 256
      invariant forall v | 0 <= v < i :: table[v] == EvenOnes(v)
    {
      var bits, v := 0, i;
      while v > 0
        invariant v >= 0 && bits + Ones(v) == Ones(i)
      {
        bits := bits + v % 2;
        v := v / 2;
      }
      table[i] := bits % 2 == 0;
      i := i + 1;
    }
  }

  function Parity(result: nat): bool {
    EvenOnes(And(result, 0xFF))
  }

  // ---- The flag functions

  function Put(f: bv64, flag: bv64, on: bool): bv64 {
    if on then f | flag else f
  }

  /** Every flag function starts from 0 and ORs in the flags whose condition holds. */
  function Assemble(cf: bool, pf: bool, af: bool, zf: bool, sf: bool, of: bool): bv64 {
    Put(Put(Put(Put(Put(Put(0, CF, cf), PF, pf), AF, af), ZF, zf), SF, sf), OF, of)
  }

  function Carry(c: bool): (n: nat)
    ensures n <= 1
  {
    if c then 1 else 0
  }

  /** AF as the XOR of operands and result at bit 4. */
  predicate AuxByXor(op1: u64, op2: u64, result: u64) {
    And(Xor(Xor(op1, op2), result), 0x10) != 0
  }

  predicate AddOverflow(x: u64, y: u64, r: u64, size: OperandSize) {
    And(And(Not(Xor(x, y)), Xor(x, r)), size.SignBit()) != 0
  }

  predicate SubOverflow(x: u64, y: u64, r: u64, size: OperandSize) {
    And(And(Xor(x, y), Xor(x, r)), size.SignBit()) != 0
  }

  function FlagsAdd(op1: u64, op2: u64, result: u64, size: OperandSize): bv64 {
    var res := And(result, size.Mask());
    var a := And(op1, size.Mask());
    Assemble(res < a, Parity(res), AuxByXor(op1, op2, result), res == 0,
             And(res, size.SignBit()) != 0, AddOverflow(op1, op2, result, size))
  }

  function FlagsSub(op1: u64, op2: u64, result: u64, size: OperandSize): bv64 {
    var res := And(result, size.Mask());
    var a := And(op1, size.Mask());
    var b := And(op2, size.Mask());
    Assemble(a < b, Parity(res), AuxByXor(op1, op2, result), res == 0,
             And(res, size.SignBit()) != 0, SubOverflow(op1, op2, result, size))
  }

  /** The sums are 128-bit in the source and cannot wrap. */
  function FlagsAdc(op1: u64, op2: u64, carryIn: bool, result: u64, size: OperandSize): bv64 {
    var a := And(op1, size.Mask());
    var b := And(op2, size.Mask());
    var carry := Carry(carryIn);
    var res := And(result, size.Mask());
    var bEff := And(b + carry, size.Mask());
    Assemble(a + b + carry > size.Mask(), Parity(res), And(a, 0xF) + And(b, 0xF) + carry > 0xF, res == 0,
             And(res, size.SignBit()) != 0,
             And(And(Not(Xor(op1, bEff)), Xor(a, res)), size.SignBit()) != 0)
  }

  function FlagsSbb(op1: u64, op2: u64, borrowIn: bool, result: u64, size: OperandSize): bv64 {
    var a := And(op1, size.Mask());
    var b := And(op2, size.Mask());
    var borrow := Carry(borrowIn);
    var res := And(result, size.Mask());
    var bEff := And(b + borrow, size.Mask());
    Assemble(a < b + borrow, Parity(res), And(a, 0xF) < And(b, 0xF) + borrow, res == 0,
             And(res, size.SignBit()) != 0,
             And(And(Xor(a, bEff), Xor(a, res)), size.SignBit()) != 0)
  }

  function FlagsInc(op1: u64, result: u64, size: OperandSize): bv64 {
    var res := And(result, size.Mask());
    Assemble(false, Parity(res), AuxByXor(op1, 1, result), res == 0, And(res, size.SignBit()) != 0,
             And(op1, size.Mask()) == size.SignBit() - 1)
  }

  function FlagsDec(op1: u64, result: u64, size: OperandSize): bv64 {
    var res := And(result, size.Mask());
    Assemble(false, Parity(res), AuxByXor(op1, 1, result), res == 0, And(res, size.SignBit()) != 0,
             And(op1, size.Mask()) == size.SignBit())
  }
}
