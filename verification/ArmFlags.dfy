/** Condition flags: the sum-based formulas of Thumb instructions, the bitwise ones of ARM instructions,
    and what the condition codes decide after a comparison. */
module ArmFlags {
  import opened Bits
  import opened RippleAdder

  const WORD: int := 0x1_0000_0000

  predicate IsWord(x: int) { 0 <= x < WORD }

  /** Bit 31. */
  function Top(x: nat): bit { if x < 0x8000_0000 then 0 else 1 }

  function Signed(x: nat): int { if x < 0x8000_0000 then x else x - WORD }

  function Complement(x: nat): nat
    requires IsWord(x)
  {
    WORD - 1 - x
  }

  function Truncate(x: int): nat { x % 0x1_0000_0000 }

  datatype Flags = Flags(n: bit, z: bit, c: bit, v: bit)

  // ---------- AddWithCarry ----------

  /** Result, carry and overflow as the comparison of the truncated sum with the exact sums. */
  function AddWithCarry(x: nat, y: nat, carryIn: bit): (r: (nat, bit, bit)) {
    var unsignedSum := x + y + carryIn;
    var signedSum := Signed(x) + Signed(y) + carryIn;
    var result := Truncate(unsignedSum);
    (result, AsBit(result != unsignedSum), AsBit(Signed(result) != signedSum))
  }

  /** The flags an addition with carry leaves. */
  function SumFlags(x: nat, y: nat, carryIn: bit): Flags {
    var (result, carry, overflow) := AddWithCarry(x, y, carryIn);
    Flags(Top(result), AsBit(result == 0), carry, overflow)
  }

  // ---------- the bitwise formulas ----------

  function AddCarry(a: bit, m: bit, res: bit): bit {
    Or(Or(And(a, m), And(m, Not(res))), And(a, Not(res)))
  }

  function AddOverflow(a: bit, m: bit, res: bit): bit {
    Or(And(And(a, m), Not(res)), And(And(Not(a), Not(m)), res))
  }

  function SubCarry(a: bit, m: bit, res: bit): bit {
    Not(Or(Or(And(Not(a), m), And(m, res)), And(res, Not(a))))
  }

  function SubOverflow(a: bit, m: bit, res: bit): bit {
    Or(And(And(a, Not(m)), Not(res)), And(And(Not(a), m), res))
  }

  /** The exact sum is the truncated one, or exceeds it by 2^32. */
  lemma SumRange(x: nat, y: nat, carryIn: bit)
    requires IsWord(x) && IsWord(y)
    ensures Truncate(x + y + carryIn) == if x + y + carryIn < WORD then x + y + carryIn else x + y + carryIn - WORD
  {
  }

  lemma AddFormulas(a: nat, m: nat, carryIn: bit)
    requires IsWord(a) && IsWord(m)
    ensures var (res, carry, overflow) := AddWithCarry(a, m, carryIn);
            AddCarry(Top(a), Top(m), Top(res)) == carry && AddOverflow(Top(a), Top(m), Top(res)) == overflow
  {
    SumRange(a, m, carryIn);
  }

  /** Subtraction is addition of the complement; its formulas are those of the sum with that operand. */
  lemma SubFormulas(a: nat, m: nat, carryIn: bit)
    requires IsWord(a) && IsWord(m)
    ensures var (res, carry, overflow) := AddWithCarry(a, Complement(m), carryIn);
            && res == Truncate(a - m + carryIn - 1)
            && SubCarry(Top(a), Top(m), Top(res)) == carry && SubOverflow(Top(a), Top(m), Top(res)) == overflow
  {
    SumRange(a, Complement(m), carryIn);
    AddFormulas(a, Complement(m), carryIn);
    assert Top(Complement(m)) == Not(Top(m));
    BorrowRange(a, m, carryIn);
  }

  lemma BorrowRange(a: nat, m: nat, carryIn: bit)
    requires IsWord(a) && IsWord(m)
    ensures var d := a - m + carryIn - 1; Truncate(d) == if d < 0 then d + WORD else d
  {
  }

  // ---------- the instructions ----------

  class StatusRegister {
    var N: bit
    var Z: bit
    var C: bit
    var V: bit

    ghost function State(): Flags
      reads this
    {
      Flags(N, Z, C, V)
    }

    /** ADD, ADC, CMN. */
    method ArmAdd(A: nat, M: nat, withCarry: bool) returns (res: nat)
      requires IsWord(A) && IsWord(M)
      modifies this
      ensures res == AddWithCarry(A, M, if withCarry then old(C) else 0).0
      ensures State() == SumFlags(A, M, if withCarry then old(C) else 0)
    {
      ghost var c := if withCarry then C else 0;
      res := Truncate(A + M);
      if withCarry {
        res := Truncate(res + C);
      }
      TwoSteps(A + M, c);
      AddFormulas(A, M, c);
      C, V := AddCarry(Top(A), Top(M), Top(res)), AddOverflow(Top(A), Top(M), Top(res));
      Z, N := AsBit(res == 0), Top(res);
    }

    /** SUB, SBC, CMP and, inverted, RSB, RSC. */
    method ArmSub(A: nat, M: nat, inverted: bool, withCarry: bool) returns (res: nat)
      requires IsWord(A) && IsWord(M)
      modifies this
      ensures var c := if withCarry then old(C) else 1;
              var (x, y) := if inverted then (M, A) else (A, M);
              && res == AddWithCarry(x, Complement(y), c).0 == Truncate(x - y + c - 1)
              && State() == SumFlags(x, Complement(y), c)
    {
      if inverted {
        res := Subtract(M, A, withCarry);
      } else {
        res := Subtract(A, M, withCarry);
      }
    }

    method Subtract(a: nat, m: nat, withCarry: bool) returns (res: nat)
      requires IsWord(a) && IsWord(m)
      modifies this
      ensures var c := if withCarry then old(C) else 1;
              && res == AddWithCarry(a, Complement(m), c).0 == Truncate(a - m + c - 1)
              && State() == SumFlags(a, Complement(m), c)
    {
      ghost var c := if withCarry then C else 1;
      res := Difference(a, m, withCarry);
      SubFormulas(a, m, c);
      C, V := SubCarry(Top(a), Top(m), Top(res)), SubOverflow(Top(a), Top(m), Top(res));
      Z, N := AsBit(res == 0), Top(res);
    }

    method Difference(a: nat, m: nat, withCarry: bool) returns (res: nat)
      ensures res == Truncate(a - m + (if withCarry then C else 1) - 1)
    {
      res := Truncate(a - m);
      TwoSteps(a - m, 0);
      if withCarry {
        TwoSteps(a - m, C - 1);
        res := Truncate(res + C - 1);
      }
    }

    /** CMP of two registers; in an IT block whose condition fails it does nothing. */
    method CmpT1(rn: nat, rm: nat, itMask: nat, itCond: Cond)
      requires IsWord(rn) && IsWord(rm)
      modifies this
      ensures State() == if ConditionPassed(old(State()), itMask, itCond) then SumFlags(rn, Complement(rm), 1)
                         else old(State())
    {
      if !ConditionPassed(Flags(N, Z, C, V), itMask, itCond) {
        return;
      }
      var (result, carry, overflow) := AddWithCarry(rn, Complement(rm), 1);
      N, Z, C, V := Top(result), AsBit(result == 0), carry, overflow;
    }
  }

  /** Truncating after each step is truncating once. */
  lemma TwoSteps(x: int, c: int)
    ensures Truncate(Truncate(x) + c) == Truncate(x + c) && Truncate(x + 0) == Truncate(x)
  {
  }

  // ---------- conditions ----------

  datatype Cond = EQ | NE | CS | CC | MI | PL | VS | VC | HI | LS | GE | LT | GT | LE | AL

  predicate CheckCond(f: Flags, cond: Cond) {
    match cond
    case EQ => f.z == 1
    case NE => f.z == 0
    case CS => f.c == 1
    case CC => f.c == 0
    case MI => f.n == 1
    case PL => f.n == 0
    case VS => f.v == 1
    case VC => f.v == 0
    case HI => f.c == 1 && f.z == 0
    case LS => f.c == 0 || f.z == 1
    case GE => Xor(f.n, f.v) == 0
    case LT => Xor(f.n, f.v) == 1
    case GT => f.z == 0 && Xor(f.n, f.v) == 0
    case LE => f.z == 1 || Xor(f.n, f.v) == 1
    case AL => true
  }

  /** Inside an IT block (its mask is not zero) the condition of the block decides. */
  predicate ConditionPassed(f: Flags, itMask: nat, itCond: Cond) {
    itMask != 0 ==> CheckCond(f, itCond)
  }

  /** What each condition says about the two operands of a comparison. */
  predicate Decides(cond: Cond, x: nat, y: nat) {
    match cond
    case EQ => x == y
    case NE => x != y
    case CS => x >= y
    case CC => x < y
    case HI => x > y
    case LS => x <= y
    case GE => Signed(x) >= Signed(y)
    case LT => Signed(x) < Signed(y)
    case GT => Signed(x) > Signed(y)
    case LE => Signed(x) <= Signed(y)
    case MI => Truncate(x - y) >= 0x8000_0000
    case PL => Truncate(x - y) < 0x8000_0000
    case VS => !(-0x8000_0000 <= Signed(x) - Signed(y) < 0x8000_0000)
    case VC => -0x8000_0000 <= Signed(x) - Signed(y) < 0x8000_0000
    case AL => true
  }

  /** After a comparison every condition code decides by the integers the operands stand for. */
  lemma CompareDecides(x: nat, y: nat, cond: Cond)
    requires IsWord(x) && IsWord(y)
    ensures CheckCond(SumFlags(x, Complement(y), 1), cond) <==> Decides(cond, x, y)
  {
    SumRange(x, Complement(y), 1);
    BorrowRange(x, y, 1);
  }

  /** In an IT block behind a comparison the integers compared decide whether an instruction is executed; outside
      it always is. */
  lemma ConditionalExecution(x: nat, y: nat, itMask: nat, cond: Cond)
    requires IsWord(x) && IsWord(y)
    ensures ConditionPassed(SumFlags(x, Complement(y), 1), itMask, cond) <==> itMask == 0 || Decides(cond, x, y)
  {
    CompareDecides(x, y, cond);
  }
}
