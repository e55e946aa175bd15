// Merging computed flags into RFLAGS and deciding the sixteen condition codes.
module ConditionCodes {
  import opened Basics
  import opened Bits
  import opened Flags
  import opened FlagMeaning

  function Merge(rflags: bv64, computed: bv64, mask: bv64): bv64 {
    (rflags & !mask) | (computed & mask)
  }

  /** PF, AF, ZF, SF and OF. */
  const INC_DEC_MASK: bv64 := 0x8D4

  /** The register the flag updates write through. */
  class FlagRegister {
    var rflags: bv64

    method UpdateFlags(newArithFlags: bv64)
      modifies this
      ensures rflags == Merge(old(rflags), newArithFlags, ARITH_MASK)
    {
      rflags := (rflags & !ARITH_MASK) | (newArithFlags & ARITH_MASK);
    }

    method UpdateFlagsPreserveCf(newFlags: bv64)
      modifies this
      ensures rflags == Merge(old(rflags), newFlags, INC_DEC_MASK)
    {
      rflags := (rflags & !INC_DEC_MASK) | (newFlags & INC_DEC_MASK);
    }
  }

  /** Only the low four bits of the code matter; odd codes negate even ones. */
  predicate EvalCc(cc: bv8, rflags: bv64) {
    var even := cc & 0x0E;
    var result :=
      if even == 0x00 then rflags & OF != 0
      else if even == 0x02 then rflags & CF != 0
      else if even == 0x04 then rflags & ZF != 0
      else if even == 0x06 then rflags & (CF | ZF) != 0
      else if even == 0x08 then rflags & SF != 0
      else if even == 0x0A then rflags & PF != 0
      else if even == 0x0C then (rflags & SF != 0) != (rflags & OF != 0)
      else rflags & ZF != 0 || (rflags & SF != 0) != (rflags & OF != 0);
    if cc & 1 != 0 then !result else result
  }

  /** The status flags of RFLAGS. */
  function StatusOf(rflags: bv64): (st: Status)
    ensures Shows(rflags, st)
  {
    Status(rflags & 1 == 1, (rflags >> 2) & 1 == 1, (rflags >> 4) & 1 == 1, (rflags >> 6) & 1 == 1,
           (rflags >> 7) & 1 == 1, (rflags >> 11) & 1 == 1)
  }

  /** An update brings the status flags of the computed word to bits 0, 2, 4, 6, 7 and 11 of RFLAGS and
      leaves every other bit as it was. */
  lemma UpdateIsExact(rflags: bv64, computed: bv64, st: Status)
    requires Shows(computed, st)
    ensures var now := Merge(rflags, computed, ARITH_MASK);
            Shows(now, st) && now & 0xFFFF_FFFF_FFFF_F72A == rflags & 0xFFFF_FFFF_FFFF_F72A
  {
  }

  /** The update after INC and DEC does the same for all but the carry, which stays. */
  lemma PreserveCfIsExact(rflags: bv64, computed: bv64, st: Status)
    requires Shows(computed, st)
    ensures var now := Merge(rflags, computed, INC_DEC_MASK);
            Shows(now, st.(carry := rflags & 1 == 1)) &&
            now & 0xFFFF_FFFF_FFFF_F72A == rflags & 0xFFFF_FFFF_FFFF_F72A
  {
  }

  /** What each condition promises after a comparison of `op1` with `op2`. */
  ghost predicate Promises(cc: bv8, op1: u64, op2: u64, size: OperandSize) {
    var a, b := Low(op1, size), Low(op2, size);
    var sa, sb := Signed(op1, size), Signed(op2, size);
    var difference := Wrap(a - b, size.Range());
    match cc & 0x0F
    case 0x0 => Overflows(sa - sb, size.SignBit())
    case 0x1 => !Overflows(sa - sb, size.SignBit())
    case 0x2 => a < b
    case 0x3 => a >= b
    case 0x4 => a == b
    case 0x5 => a != b
    case 0x6 => a <= b
    case 0x7 => a > b
    case 0x8 => difference >= size.SignBit()
    case 0x9 => difference < size.SignBit()
    case 0xA => EvenOnes(difference)
    case 0xB => !EvenOnes(difference)
    case 0xC => sa < sb
    case 0xD => sa >= sb
    case 0xE => sa <= sb
    case _ => sa > sb
  }

  /** The condition codes as tables over the flags they read. */
  predicate Condition(cc: bv8, st: Status) {
    match cc & 0x0F
    case 0x0 => st.overflow
    case 0x1 => !st.overflow
    case 0x2 => st.carry
    case 0x3 => !st.carry
    case 0x4 => st.zero
    case 0x5 => !st.zero
    case 0x6 => st.carry || st.zero
    case 0x7 => !st.carry && !st.zero
    case 0x8 => st.sign
    case 0x9 => !st.sign
    case 0xA => st.parity
    case 0xB => !st.parity
    case 0xC => st.sign != st.overflow
    case 0xD => st.sign == st.overflow
    case 0xE => st.zero || st.sign != st.overflow
    case _ => !st.zero && st.sign == st.overflow
  }

  /** Every code decides from those bits of RFLAGS, whatever the others are. */
  lemma EvalIsCondition(cc: bv8, rflags: bv64, st: Status)
    requires Shows(rflags, st)
    ensures EvalCc(cc, rflags) <==> Condition(cc, st)
  {
  }

  lemma SignedOrder(a: nat, b: nat, h: nat)
    requires 0 < h && a < 2 * h && b < 2 * h
    ensures var r, sa, sb := Wrap(a - b, 2 * h), TwosComplement(a, h), TwosComplement(b, h);
            && ((r >= h) != Overflows(sa - sb, h) <==> sa < sb)
            && (r == 0 <==> a == b) && (a == b <==> sa == sb)
  {
  }

  /** What the comparison of `op1` with `op2` leaves in the flags. */
  function Compared(op1: u64, op2: u64, result: u64, size: OperandSize): Status {
    Status(Low(op1, size) < Low(op2, size), EvenOnes(result), op1 % 16 < op2 % 16, Low(result, size) == 0,
           Signed(result, size) < 0, Overflows(Signed(op1, size) - Signed(op2, size), size.SignBit()))
  }

  /** CMP followed by any condition code decides the promised relation, for all operands, at
      every size, whatever the other bits of RFLAGS are. */
  lemma CompareDecides(cc: bv8, op1: u64, op2: u64, result: u64, rflags: bv64, size: OperandSize)
    requires Low(result, size) == Wrap(Low(op1, size) - Low(op2, size), size.Range())
    ensures EvalCc(cc, Merge(rflags, FlagsSub(op1, op2, result, size), ARITH_MASK))
            <==> Promises(cc, op1, op2, size)
  {
    hide FlagsSub, EvalCc, Merge, Shows, Condition, Promises, And, Low, EvenOnes, Wrap, Overflows, Signed;
    SubExact(op1, op2, false, result, size);
    var st := Compared(op1, op2, result, size);
    UpdateIsExact(rflags, FlagsSub(op1, op2, result, size), st);
    EvalIsCondition(cc, Merge(rflags, FlagsSub(op1, op2, result, size), ARITH_MASK), st);
    PromisesAreConditions(cc, op1, op2, result, size);
  }

  lemma PromisesAreConditions(cc: bv8, op1: u64, op2: u64, result: u64, size: OperandSize)
    requires Low(result, size) == Wrap(Low(op1, size) - Low(op2, size), size.Range())
    ensures Promises(cc, op1, op2, size) <==>
            Condition(cc, Compared(op1, op2, result, size))
  {
    hide And, Low, EvenOnes, Wrap, Overflows, Signed;
    ComparisonFacts(op1, op2, result, size);
  }

  lemma ComparisonFacts(op1: u64, op2: u64, result: u64, size: OperandSize)
    requires Low(result, size) == Wrap(Low(op1, size) - Low(op2, size), size.Range())
    ensures Low(result, size) == 0 <==> Low(op1, size) == Low(op2, size)
    ensures Low(op1, size) == Low(op2, size) <==> Signed(op1, size) == Signed(op2, size)
    ensures Signed(result, size) < 0 <==> Low(result, size) >= size.SignBit()
    ensures (Signed(result, size) < 0) != Overflows(Signed(op1, size) - Signed(op2, size), size.SignBit())
            <==> Signed(op1, size) < Signed(op2, size)
    ensures EvenOnes(result) <==> EvenOnes(Low(result, size))
  {
    hide And, Low, EvenOnes, Wrap, Overflows;
    LowLow(op1, size);
    LowLow(op2, size);
    LowLow(result, size);
    SizeFacts(size);
    SignedOrder(Low(op1, size), Low(op2, size), size.SignBit());
    LowByteParity(result, size);
  }

  lemma LowByteParity(result: u64, size: OperandSize)
    ensures EvenOnes(result) <==> EvenOnes(Low(result, size))
  {
    hide Low, Ones;
    LowLow(result, size);
  }
}
