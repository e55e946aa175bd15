// The flag functions against integer arithmetic, including the one input family on which the
// overflow flag of ADC and SBB comes out inverted, and multi-word arithmetic over the carry.
module FlagMeaning {
  import opened Basics
  import opened Bits
  import opened Flags

  // ---- Words as integers

  /** The operand itself: the low part of the word. */
  function Low(x: nat, size: OperandSize): nat {
    x % size.Range()
  }

  /** An operand `v` of a size with half range `h`, read as a two's complement number. */
  function TwosComplement(v: nat, h: nat): int {
    if v >= h then v - 2 * h else v
  }

  function Signed(x: nat, size: OperandSize): int {
    TwosComplement(Low(x, size), size.SignBit())
  }

  /** The exact value does not fit the signed range. */
  predicate Overflows(v: int, h: nat) {
    v + h < 0 || v >= h
  }

  /** A sum or difference of two operands and a carry wraps at most once. */
  function Wrap(v: int, range: nat): int {
    if v >= range then v - range else if v < 0 then v + range else v
  }

  // ---- Arithmetic of the overflow tests; `h` is half the range

  lemma AddOverflowArithmetic(a: nat, b: nat, c: nat, h: nat)
    requires 0 < h && a < 2 * h && b < 2 * h && c <= 1
    ensures var r := Wrap(a + b + c, 2 * h);
            ((a >= h) == (b >= h) && (a >= h) != (r >= h))
            <==> Overflows(TwosComplement(a, h) + TwosComplement(b, h) + c, h)
  {
  }

  lemma SubOverflowArithmetic(a: nat, b: nat, c: nat, h: nat)
    requires 0 < h && a < 2 * h && b < 2 * h && c <= 1
    ensures var r := Wrap(a - b - c, 2 * h);
            ((a >= h) != (b >= h) && (a >= h) != (r >= h))
            <==> Overflows(TwosComplement(a, h) - TwosComplement(b, h) - c, h)
  {
  }

  /** With the carry folded into the second operand the test is inverted exactly when the
      carry turns the largest positive value into the smallest negative one. */
  lemma AdcOverflowArithmetic(a: nat, b: nat, c: nat, h: nat)
    requires 1 < h && a < 2 * h && b < 2 * h && c <= 1
    ensures var bEff, r := Wrap(b + c, 2 * h), Wrap(a + b + c, 2 * h);
            ((a >= h) == (bEff >= h) && (a >= h) != (r >= h))
            <==> (Overflows(TwosComplement(a, h) + TwosComplement(b, h) + c, h) != (c == 1 && b == h - 1))
  {
  }

  lemma SbbOverflowArithmetic(a: nat, b: nat, c: nat, h: nat)
    requires 1 < h && a < 2 * h && b < 2 * h && c <= 1
    ensures var bEff, r := Wrap(b + c, 2 * h), Wrap(a - b - c, 2 * h);
            ((a >= h) != (bEff >= h) && (a >= h) != (r >= h))
            <==> (Overflows(TwosComplement(a, h) - TwosComplement(b, h) - c, h) != (c == 1 && b == h - 1))
  {
  }

  lemma WrapIsMod(v: nat, range: nat)
    requires 0 < range && v < 2 * range
    ensures v % range == Wrap(v, range)
  {
    if v >= range { ModUnique(v, range, 1, v - range); } else { ModUnique(v, range, 0, v); }
  }

  lemma ModMod(x: nat, d: nat, e: nat)
    requires d > 0 && e > 0
    ensures d * e > 0 && x % (d * e) % d == x % d
  {
    assert d * e > 0 by { PositiveProduct(d, e); }
    var n := d * e;
    var q, m := x / n, x % n;
    var q', m' := m / d, m % d;
    assert q * n == (q * e) * d by { Rotate(q, d, e); }
    Gather(q * e, q', d);
    ModUnique(x, d, q * e + q', m');
  }

  lemma PositiveProduct(d: nat, e: nat)
    requires d > 0 && e > 0
    ensures d * e > 0
  {}

  lemma Rotate(q: nat, d: nat, e: nat)
    ensures q * (d * e) == (q * e) * d
  {}

  lemma Gather(a: nat, b: nat, d: nat)
    ensures (a + b) * d == a * d + b * d
  {}

  // ---- Bit tests as arithmetic

  lemma SizeFacts(size: OperandSize)
    ensures Pow2(size.Bits()) == size.Range() && Pow2(size.Bits() - 1) == size.SignBit()
    ensures size.Range() == 2 * size.SignBit()
  {
    Pow2Values();
  }

  lemma MaskIsLow(x: nat, size: OperandSize)
    ensures And(x, size.Mask()) == Low(x, size)
  {
    SizeFacts(size);
    AndMask(x, size.Bits());
  }

  lemma LowLow(x: nat, size: OperandSize)
    ensures Low(x, size) < size.Range() && Low(Low(x, size), size) == Low(x, size)
    ensures Low(x, size) % 256 == x % 256 && Low(x, size) % 16 == x % 16 && Low(x, size) % 32 == x % 32
  {
    var e := size.Range() / 256;
    ModMod(x, 256, e);
    ModMod(x, 16, 16 * e);
    ModMod(x, 32, 8 * e);
  }

  lemma SignTest(x: nat, size: OperandSize)
    ensures And(x, size.SignBit()) != 0 <==> Low(x, size) >= size.SignBit()
    ensures Bit(x, size.Bits() - 1) <==> Low(x, size) >= size.SignBit()
  {
    SizeFacts(size);
    AndPow2(x, size.Bits() - 1);
    BitIsMod(x, size.Bits() - 1);
  }

  /** AF by XOR is the carry out of bit 3, or the borrow into it. */
  lemma AuxTest(op1: u64, op2: u64, result: u64)
    ensures AuxByXor(op1, op2, result) <==>
            ((op1 % 32 >= 16) != (op2 % 32 >= 16)) != (result % 32 >= 16)
  {
    Pow2Values();
    AndPow2(Xor(Xor(op1, op2), result), 4);
    BitXor(Xor(op1, op2), result, 4);
    BitXor(op1, op2, 4);
    BitIsMod(op1, 4);
    BitIsMod(op2, 4);
    BitIsMod(result, 4);
  }

  lemma AddOverflowTest(x: u64, y: u64, z: u64, r: u64, size: OperandSize)
    ensures (And(And(Not(Xor(x, y)), Xor(z, r)), size.SignBit()) != 0) <==>
            (Low(x, size) >= size.SignBit()) == (Low(y, size) >= size.SignBit())
            && (Low(z, size) >= size.SignBit()) != (Low(r, size) >= size.SignBit())
  {
    var i := size.Bits() - 1;
    SignTest(And(Not(Xor(x, y)), Xor(z, r)), size);
    BitAnd(Not(Xor(x, y)), Xor(z, r), i);
    BitNot(Xor(x, y), i);
    BitXor(x, y, i);
    BitXor(z, r, i);
    SignTest(x, size);
    SignTest(y, size);
    SignTest(z, size);
    SignTest(r, size);
  }

  lemma SubOverflowTest(x: u64, y: u64, r: u64, size: OperandSize)
    ensures (And(And(Xor(x, y), Xor(x, r)), size.SignBit()) != 0) <==>
            (Low(x, size) >= size.SignBit()) != (Low(y, size) >= size.SignBit())
            && (Low(x, size) >= size.SignBit()) != (Low(r, size) >= size.SignBit())
  {
    var i := size.Bits() - 1;
    SignTest(And(Xor(x, y), Xor(x, r)), size);
    BitAnd(Xor(x, y), Xor(x, r), i);
    BitXor(x, y, i);
    BitXor(x, r, i);
    SignTest(x, size);
    SignTest(y, size);
    SignTest(r, size);
  }

  /** The six status flags of an operation. */
  datatype Status = Status(carry: bool, parity: bool, half: bool, zero: bool, sign: bool, overflow: bool)

  /** The word has them at the bit positions of the processor manual, 0, 2, 4, 6, 7 and 11. */
  predicate Shows(word: bv64, st: Status) {
    (word & 1 == 1) == st.carry && ((word >> 2) & 1 == 1) == st.parity && ((word >> 4) & 1 == 1) == st.half &&
    ((word >> 6) & 1 == 1) == st.zero && ((word >> 7) & 1 == 1) == st.sign &&
    ((word >> 11) & 1 == 1) == st.overflow
  }

  /** The word has nothing else. */
  predicate Spells(word: bv64, st: Status) { Shows(word, st) && word & 0xFFFF_FFFF_FFFF_F72A == 0 }

  lemma AssembledSpells(cf: bool, pf: bool, af: bool, zf: bool, sf: bool, of: bool)
    ensures Spells(Assemble(cf, pf, af, zf, sf, of), Status(cf, pf, af, zf, sf, of))
  {}

  lemma AllSpell()
    ensures forall cf, pf, af, zf, sf, of ::
              Spells(Assemble(cf, pf, af, zf, sf, of), Status(cf, pf, af, zf, sf, of))
  {
    hide Assemble, Spells;
    forall cf, pf, af, zf, sf, of
      ensures Spells(Assemble(cf, pf, af, zf, sf, of), Status(cf, pf, af, zf, sf, of))
    {
      AssembledSpells(cf, pf, af, zf, sf, of);
    }
  }

  lemma OperandTests(x: nat, size: OperandSize)
    ensures And(x, size.Mask()) == Low(x, size) && And(And(x, size.Mask()), 0xF) == x % 16
  {
    MaskIsLow(x, size);
    LowLow(x, size);
    Pow2Values();
    AndMask(Low(x, size), 4);
  }

  lemma ResultTests(result: u64, size: OperandSize)
    ensures var res := And(result, size.Mask());
            && res == Low(result, size)
            && (Parity(res) <==> EvenOnes(result))
            && (And(res, size.SignBit()) != 0 <==> Signed(result, size) < 0)
  {
    hide And;
    var res := Low(result, size);
    MaskIsLow(result, size);
    LowLow(result, size);
    Pow2Values();
    AndMask(res, 8);
    assert res % 256 % 256 == result % 256;
    SignTest(res, size);
    SizeFacts(size);
  }

  // ---- ADC and SBB

  /** ADC at every size: all flags are the integer definitions, except that OF is signed
      overflow inverted exactly when the carry is set and op2 is the largest positive value. */
  lemma AdcExact(op1: u64, op2: u64, c: bool, result: u64, size: OperandSize)
    requires Low(result, size) == Wrap(Low(op1, size) + Low(op2, size) + Carry(c), size.Range())
    ensures Spells(
              FlagsAdc(op1, op2, c, result, size),
              Status(Low(op1, size) + Low(op2, size) + Carry(c) >= size.Range(),
                EvenOnes(result),
                op1 % 16 + op2 % 16 + Carry(c) >= 16,
                Low(result, size) == 0,
                Signed(result, size) < 0,
                Overflows(Signed(op1, size) + Signed(op2, size) + Carry(c), size.SignBit())
                != (c && Low(op2, size) == size.SignBit() - 1)))
  {
    hide And, XorDigits, Not, EvenOnes, Parity, Low, Signed, Overflows, Wrap, Assemble, Spells;
    AllSpell();
    ResultTests(result, size);
    OperandTests(op1, size);
    OperandTests(op2, size);
    AdcOverflow(op1, op2, c, And(result, size.Mask()), size);
  }

  lemma AdcOverflow(op1: u64, op2: u64, c: bool, res: u64, size: OperandSize)
    requires res == Wrap(Low(op1, size) + Low(op2, size) + Carry(c), size.Range())
    ensures var a, b := Low(op1, size), Low(op2, size);
            var bEff := And(b + Carry(c), size.Mask());
            (And(And(Not(Xor(op1, bEff)), Xor(a, res)), size.SignBit()) != 0)
            <==> (Overflows(Signed(op1, size) + Signed(op2, size) + Carry(c), size.SignBit())
                  != (c && b == size.SignBit() - 1))
  {
    hide And, XorDigits, Not, Wrap, Overflows, TwosComplement;
    var a, b := Low(op1, size), Low(op2, size);
    var bEff := And(b + Carry(c), size.Mask());
    FoldedCarry(op2, c, size);
    LowLow(op1, size);
    LowOfWrapped(a + b + Carry(c), size);
    AddOverflowTest(op1, bEff, a, res, size);
    SizeFacts(size);
    AdcOverflowArithmetic(a, b, Carry(c), size.SignBit());
  }

  lemma FoldedCarry(op2: u64, c: bool, size: OperandSize)
    ensures var bEff := And(Low(op2, size) + Carry(c), size.Mask());
            bEff == Wrap(Low(op2, size) + Carry(c), size.Range()) && Low(bEff, size) == bEff
  {
    var v := Low(op2, size) + Carry(c);
    MaskIsLow(v, size);
    LowLow(v, size);
    WrapIsMod(v, size.Range());
  }

  lemma LowOfWrapped(v: int, size: OperandSize)
    requires 0 <= v + size.Range() && v < 2 * size.Range()
    ensures 0 <= Wrap(v, size.Range()) < size.Range()
    ensures Low(Wrap(v, size.Range()), size) == Wrap(v, size.Range())
  {
    ModUnique(Wrap(v, size.Range()), size.Range(), 0, Wrap(v, size.Range()));
  }

  /** SBB at every size, with the same single exception. */
  lemma SbbExact(op1: u64, op2: u64, c: bool, result: u64, size: OperandSize)
    requires Low(result, size) == Wrap(Low(op1, size) - Low(op2, size) - Carry(c), size.Range())
    ensures Spells(
              FlagsSbb(op1, op2, c, result, size),
              Status(Low(op1, size) < Low(op2, size) + Carry(c),
                EvenOnes(result),
                op1 % 16 < op2 % 16 + Carry(c),
                Low(result, size) == 0,
                Signed(result, size) < 0,
                Overflows(Signed(op1, size) - Signed(op2, size) - Carry(c), size.SignBit())
                != (c && Low(op2, size) == size.SignBit() - 1)))
  {
    hide And, XorDigits, Not, EvenOnes, Parity, Low, Signed, Overflows, Wrap, Assemble, Spells;
    AllSpell();
    ResultTests(result, size);
    OperandTests(op1, size);
    OperandTests(op2, size);
    SbbOverflow(op1, op2, c, And(result, size.Mask()), size);
  }

  lemma SbbOverflow(op1: u64, op2: u64, c: bool, res: u64, size: OperandSize)
    requires res == Wrap(Low(op1, size) - Low(op2, size) - Carry(c), size.Range())
    ensures var a, b := Low(op1, size), Low(op2, size);
            var bEff := And(b + Carry(c), size.Mask());
            (And(And(Xor(a, bEff), Xor(a, res)), size.SignBit()) != 0)
            <==> (Overflows(Signed(op1, size) - Signed(op2, size) - Carry(c), size.SignBit())
                  != (c && b == size.SignBit() - 1))
  {
    hide And, XorDigits, Not, Wrap, Overflows, TwosComplement;
    var a, b := Low(op1, size), Low(op2, size);
    var bEff := And(b + Carry(c), size.Mask());
    FoldedCarry(op2, c, size);
    LowLow(op1, size);
    LowOfWrapped(a - b - Carry(c), size);
    SubOverflowTest(a, bEff, res, size);
    SizeFacts(size);
    SbbOverflowArithmetic(a, b, Carry(c), size.SignBit());
  }

  // ---- ADD, SUB and CMP

  lemma WrapMod32(v: int, size: OperandSize)
    requires 0 <= v + size.Range() && v < 2 * size.Range()
    ensures Wrap(v, size.Range()) % 32 == v % 32
  {
    match size
    case Byte =>
    case Word =>
    case Dword =>
    case Qword =>
  }

  lemma AuxCarry(op1: u64, op2: u64, c: nat, result: u64, size: OperandSize)
    requires c <= 1
    ensures Low(result, size) == Wrap(Low(op1, size) + Low(op2, size) + c, size.Range()) ==>
              (AuxByXor(op1, op2, result) <==> op1 % 16 + op2 % 16 + c >= 16)
    ensures Low(result, size) == Wrap(Low(op1, size) - Low(op2, size) - c, size.Range()) ==>
              (AuxByXor(op1, op2, result) <==> op1 % 16 < op2 % 16 + c)
  {
    hide And, XorDigits, Not, AuxByXor, Low, Wrap;
    AuxTest(op1, op2, result);
    var a, b := Low(op1, size), Low(op2, size);
    LowLow(op1, size);
    LowLow(op2, size);
    LowLow(result, size);
    WrapMod32(a + b + c, size);
    WrapMod32(a - b - c, size);
    AuxArithmetic(op1, op2, c, a, b, result);
  }

  lemma AuxArithmetic(x: nat, y: nat, c: nat, a: nat, b: nat, r: nat)
    requires c <= 1 && a % 32 == x % 32 && b % 32 == y % 32
    ensures r % 32 == (a + b + c) % 32 ==>
              (((x % 32 >= 16) != (y % 32 >= 16)) != (r % 32 >= 16) <==> x % 16 + y % 16 + c >= 16)
    ensures r % 32 == (a - b - c) % 32 ==>
              (((x % 32 >= 16) != (y % 32 >= 16)) != (r % 32 >= 16) <==> x % 16 < y % 16 + c)
  {
    var u, v := x % 32, y % 32;
    Mod32Shift(u + v + c, a / 32 + b / 32);
    Mod32Shift(u - v - c, a / 32 - b / 32);
    Nibble(x);
    Nibble(y);
    AuxNibbles(u, v, c);
  }

  lemma Nibble(x: nat)
    ensures x % 16 == if x % 32 >= 16 then x % 32 - 16 else x % 32
  {
    var q, m := x / 32, x % 32;
    if m >= 16 {
      ModUnique(x, 16, 2 * q + 1, m - 16);
    } else {
      ModUnique(x, 16, 2 * q, m);
    }
  }

  lemma Mod32Shift(v: int, k: int)
    ensures (v + 32 * k) % 32 == v % 32
  {
  }

  lemma AuxNibbles(u: nat, v: nat, c: nat)
    requires u < 32 && v < 32 && c <= 1
    ensures var a, b := if u >= 16 then u - 16 else u, if v >= 16 then v - 16 else v;
            && (((u >= 16) != (v >= 16)) != ((u + v + c) % 32 >= 16) <==> a + b + c >= 16)
            && (((u >= 16) != (v >= 16)) != ((u - v - c) % 32 >= 16) <==> a < b + c)
  {
  }

  /** The ADD helper on the result of an addition with carry-in `c`. Without a carry every flag
      is exact; with one, CF is lost exactly when op2 is all ones. */
  lemma AddExact(op1: u64, op2: u64, c: bool, result: u64, size: OperandSize)
    requires Low(result, size) == Wrap(Low(op1, size) + Low(op2, size) + Carry(c), size.Range())
    ensures Spells(
              FlagsAdd(op1, op2, result, size),
              Status((Low(op1, size) + Low(op2, size) + Carry(c) >= size.Range())
                != (c && Low(op2, size) == size.Range() - 1),
                EvenOnes(result),
                op1 % 16 + op2 % 16 + Carry(c) >= 16,
                Low(result, size) == 0,
                Signed(result, size) < 0,
                Overflows(Signed(op1, size) + Signed(op2, size) + Carry(c), size.SignBit())))
  {
    hide And, XorDigits, Not, EvenOnes, Parity, Low, Overflows, Assemble, Spells, AuxByXor, TwosComplement;
    AllSpell();
    var a, b := Low(op1, size), Low(op2, size);
    ResultTests(result, size);
    OperandTests(op1, size);
    LowLow(op1, size);
    LowLow(op2, size);
    AuxCarry(op1, op2, Carry(c), result, size);
    AddOverflowTest(op1, op2, op1, result, size);
    SizeFacts(size);
    AddOverflowArithmetic(a, b, Carry(c), size.SignBit());
  }

  /** The SUB and CMP helper on the result of a subtraction with borrow-in `c`. Without a borrow
      every flag is exact; with one, CF is lost exactly when the operands are equal. */
  lemma SubExact(op1: u64, op2: u64, c: bool, result: u64, size: OperandSize)
    requires Low(result, size) == Wrap(Low(op1, size) - Low(op2, size) - Carry(c), size.Range())
    ensures Spells(
              FlagsSub(op1, op2, result, size),
              Status((Low(op1, size) < Low(op2, size) + Carry(c)) != (c && Low(op1, size) == Low(op2, size)),
                EvenOnes(result),
                op1 % 16 < op2 % 16 + Carry(c),
                Low(result, size) == 0,
                Signed(result, size) < 0,
                Overflows(Signed(op1, size) - Signed(op2, size) - Carry(c), size.SignBit())))
  {
    hide And, XorDigits, Not, EvenOnes, Parity, Low, Overflows, Assemble, Spells, AuxByXor, TwosComplement;
    AllSpell();
    var a, b := Low(op1, size), Low(op2, size);
    ResultTests(result, size);
    OperandTests(op1, size);
    OperandTests(op2, size);
    LowLow(op1, size);
    LowLow(op2, size);
    AuxCarry(op1, op2, Carry(c), result, size);
    SubOverflowTest(op1, op2, result, size);
    SizeFacts(size);
    SubOverflowArithmetic(a, b, Carry(c), size.SignBit());
  }

  // ---- INC and DEC

  lemma LowOfSmall(x: nat, size: OperandSize)
    requires x < size.Range()
    ensures Low(x, size) == x
  {
    ModUnique(x, size.Range(), 0, x);
  }

  /** INC is an addition of one: every flag but CF is exact, and CF is never produced. */
  lemma IncExact(op1: u64, result: u64, size: OperandSize)
    requires Low(result, size) == Wrap(Low(op1, size) + 1, size.Range())
    ensures Spells(
              FlagsInc(op1, result, size),
              Status(false, EvenOnes(result), op1 % 16 == 15, Low(result, size) == 0, Signed(result, size) < 0,
                Overflows(Signed(op1, size) + 1, size.SignBit())))
  {
    hide And, XorDigits, Not, EvenOnes, Parity, Low, Assemble, Spells, AuxByXor;
    AllSpell();
    ResultTests(result, size);
    OperandTests(op1, size);
    LowLow(op1, size);
    LowOfSmall(1, size);
    AuxCarry(op1, 1, 0, result, size);
    SizeFacts(size);
  }

  /** DEC is a subtraction of one. */
  lemma DecExact(op1: u64, result: u64, size: OperandSize)
    requires Low(result, size) == Wrap(Low(op1, size) - 1, size.Range())
    ensures Spells(
              FlagsDec(op1, result, size),
              Status(false, EvenOnes(result), op1 % 16 == 0, Low(result, size) == 0, Signed(result, size) < 0,
                Overflows(Signed(op1, size) - 1, size.SignBit())))
  {
    hide And, XorDigits, Not, EvenOnes, Parity, Low, Assemble, Spells, AuxByXor;
    AllSpell();
    ResultTests(result, size);
    OperandTests(op1, size);
    LowLow(op1, size);
    LowOfSmall(1, size);
    AuxCarry(op1, 1, 0, result, size);
    SizeFacts(size);
  }

  // ---- Multi-word arithmetic: CF chained from limb to limb

  /** The operand-sized result the caller computes. */
  function Truncate(v: int, size: OperandSize): u64
    requires 0 <= v + size.Range() && v < 2 * size.Range()
  {
    Wrap(v, size.Range())
  }

  ghost predicate IsOperand(x: u64, size: OperandSize) {
    x < size.Range()
  }

  ghost predicate AreLimbs(xs: seq<u64>, size: OperandSize) {
    forall i | 0 <= i < |xs| :: IsOperand(xs[i], size)
  }

  /** Least significant limb first. */
  function Value(xs: seq<u64>, base: nat): nat {
    if xs == [] then 0 else xs[0] + base * Value(xs[1..], base)
  }

  function Power(base: nat, n: nat): nat {
    if n == 0 then 1 else base * Power(base, n - 1)
  }

  predicate CarryFlag(word: bv64) { word & 1 == 1 }

  /** A chain of ADCs, each taking CF from the flags of the one before. */
  ghost function AddLimbs(xs: seq<u64>, ys: seq<u64>, c: bool, size: OperandSize): (seq<u64>, bool)
    requires |xs| == |ys| && AreLimbs(xs, size) && AreLimbs(ys, size)
  {
    if xs == [] then ([], c)
    else
      assert IsOperand(xs[0], size) && IsOperand(ys[0], size);
      var result := Truncate(xs[0] + ys[0] + Carry(c), size);
      var (rest, out) := AddLimbs(xs[1..], ys[1..], CarryFlag(FlagsAdc(xs[0], ys[0], c, result, size)), size);
      ([result] + rest, out)
  }

  ghost function SubLimbs(xs: seq<u64>, ys: seq<u64>, c: bool, size: OperandSize): (seq<u64>, bool)
    requires |xs| == |ys| && AreLimbs(xs, size) && AreLimbs(ys, size)
  {
    if xs == [] then ([], c)
    else
      assert IsOperand(xs[0], size) && IsOperand(ys[0], size);
      var result := Truncate(xs[0] - ys[0] - Carry(c), size);
      var (rest, out) := SubLimbs(xs[1..], ys[1..], CarryFlag(FlagsSbb(xs[0], ys[0], c, result, size)), size);
      ([result] + rest, out)
  }

  lemma AdcLimb(x: u64, y: u64, c: bool, size: OperandSize)
    requires IsOperand(x, size) && IsOperand(y, size)
    ensures var result, out := Truncate(x + y + Carry(c), size), x + y + Carry(c) >= size.Range();
            && (CarryFlag(FlagsAdc(x, y, c, result, size)) <==> out)
            && IsOperand(result, size) && result == x + y + Carry(c) - size.Range() * Carry(out)
  {
    hide And, XorDigits, EvenOnes, Low, FlagsAdc, Overflows, Assemble;
    var result := Truncate(x + y + Carry(c), size);
    LowOfSmall(x, size);
    LowOfSmall(y, size);
    LowOfSmall(result, size);
    AdcExact(x, y, c, result, size);
  }

  lemma SbbLimb(x: u64, y: u64, c: bool, size: OperandSize)
    requires IsOperand(x, size) && IsOperand(y, size)
    ensures var result, out := Truncate(x - y - Carry(c), size), x < y + Carry(c);
            && (CarryFlag(FlagsSbb(x, y, c, result, size)) <==> out)
            && IsOperand(result, size) && result == x - y - Carry(c) + size.Range() * Carry(out)
  {
    hide And, XorDigits, EvenOnes, Low, FlagsSbb, Overflows, Assemble;
    var result := Truncate(x - y - Carry(c), size);
    LowOfSmall(x, size);
    LowOfSmall(y, size);
    LowOfSmall(result, size);
    SbbExact(x, y, c, result, size);
  }

  lemma {:induction false} ValueBound(xs: seq<u64>, size: OperandSize)
    requires AreLimbs(xs, size)
    ensures Value(xs, size.Range()) < Power(size.Range(), |xs|)
  {
    if xs != [] {
      var base, v, p := size.Range(), Value(xs[1..], size.Range()), Power(size.Range(), |xs| - 1);
      assert IsOperand(xs[0], size);
      ValueBound(xs[1..], size);
      assert base * (v + 1) <= base * p by { MulMono(base, v + 1, p); }
    }
  }

  lemma MulMono(k: nat, x: nat, y: nat)
    requires x <= y
    ensures k * x <= k * y
  {
  }

  /** Adding numbers of any length limb by limb is exact: sum and final carry together are the
      mathematical sum. */
  lemma {:induction false} AddLimbsExact(xs: seq<u64>, ys: seq<u64>, c: bool, size: OperandSize)
    requires |xs| == |ys| && AreLimbs(xs, size) && AreLimbs(ys, size)
    ensures var base := size.Range();
            var (sum, out) := AddLimbs(xs, ys, c, size);
            && |sum| == |xs| && AreLimbs(sum, size)
            && Value(sum, base) + Carry(out) * Power(base, |xs|) == Value(xs, base) + Value(ys, base) + Carry(c)
  {
    hide FlagsAdc, CarryFlag, Truncate, Carry;
    if xs != [] {
      var base := size.Range();
      assert IsOperand(xs[0], size) && IsOperand(ys[0], size);
      var result := Truncate(xs[0] + ys[0] + Carry(c), size);
      var c' := xs[0] + ys[0] + Carry(c) >= base;
      AdcLimb(xs[0], ys[0], c, size);
      AddLimbsExact(xs[1..], ys[1..], c', size);
      var (rest, out) := AddLimbs(xs[1..], ys[1..], c', size);
      var sum := [result] + rest;
      assert AddLimbs(xs, ys, c, size) == (sum, out) && sum[1..] == rest;
      LimbStep(base, result, Value(rest, base), Carry(out), Power(base, |xs| - 1),
               xs[0] + ys[0] + Carry(c), Value(xs[1..], base), Value(ys[1..], base), Carry(c'));
    }
  }

  lemma LimbStep(base: int, r: int, rest: int, out: int, p: int, low: int, x: int, y: int, c: int)
    requires rest + out * p == x + y + c && r == low - base * c
    ensures r + base * rest + out * (base * p) == low + base * x + base * y
  {
    assert base * (rest + out * p) == base * (x + y + c);
    assert base * (rest + out * p) == base * rest + out * (base * p);
    assert base * (x + y + c) == base * x + base * y + base * c;
  }

  lemma BorrowStep(base: int, r: int, rest: int, out: int, p: int, low: int, x: int, y: int, c: int)
    requires rest - out * p == x - y - c && r == low + base * c
    ensures r + base * rest - out * (base * p) == low + base * x - base * y
  {
    assert base * (rest - out * p) == base * (x - y - c);
    assert base * (rest - out * p) == base * rest - out * (base * p);
    assert base * (x - y - c) == base * x - base * y - base * c;
  }

  /** Subtracting limb by limb is exact as well. */
  lemma {:induction false} SubLimbsExact(xs: seq<u64>, ys: seq<u64>, c: bool, size: OperandSize)
    requires |xs| == |ys| && AreLimbs(xs, size) && AreLimbs(ys, size)
    ensures var base := size.Range();
            var (diff, out) := SubLimbs(xs, ys, c, size);
            && |diff| == |xs| && AreLimbs(diff, size)
            && Value(diff, base) - Carry(out) * Power(base, |xs|) == Value(xs, base) - Value(ys, base) - Carry(c)
  {
    hide FlagsSbb, CarryFlag, Truncate, Carry;
    if xs != [] {
      var base := size.Range();
      assert IsOperand(xs[0], size) && IsOperand(ys[0], size);
      var result := Truncate(xs[0] - ys[0] - Carry(c), size);
      var c' := xs[0] < ys[0] + Carry(c);
      SbbLimb(xs[0], ys[0], c, size);
      SubLimbsExact(xs[1..], ys[1..], c', size);
      var (rest, out) := SubLimbs(xs[1..], ys[1..], c', size);
      var diff := [result] + rest;
      assert SubLimbs(xs, ys, c, size) == (diff, out) && diff[1..] == rest;
      BorrowStep(base, result, Value(rest, base), Carry(out), Power(base, |xs| - 1),
                 xs[0] - ys[0] - Carry(c), Value(xs[1..], base), Value(ys[1..], base), Carry(c'));
    }
  }

  lemma BorrowIsLess(diff: nat, out: nat, p: nat, v: int)
    requires diff < p && out <= 1 && diff - out * p == v
    ensures out == 1 <==> v < 0
  {
  }

  /** The final borrow of a chain of SBBs compares the whole numbers, whatever their length. */
  lemma BorrowCompares(xs: seq<u64>, ys: seq<u64>, c: bool, size: OperandSize)
    requires |xs| == |ys| && AreLimbs(xs, size) && AreLimbs(ys, size)
    ensures SubLimbs(xs, ys, c, size).1 <==>
            Value(xs, size.Range()) < Value(ys, size.Range()) + Carry(c)
  {
    var base := size.Range();
    var (diff, out) := SubLimbs(xs, ys, c, size);
    SubLimbsExact(xs, ys, c, size);
    ValueBound(diff, size);
    BorrowIsLess(Value(diff, base), Carry(out), Power(base, |xs|), Value(xs, base) - Value(ys, base) - Carry(c));
  }
}
