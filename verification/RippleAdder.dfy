/** The 106-bit ripple adder/subtractor: carry and borrow are propagated bit by bit. */
module RippleAdder {
  import opened Bits

  function Xor(a: bit, b: bit): bit {
    if a != b then 1 else 0
  }

  function And(a: bit, b: bit): bit {
    if a == 1 && b == 1 then 1 else 0
  }

  function Or(a: bit, b: bit): bit {
    if a == 1 || b == 1 then 1 else 0
  }

  function Not(a: bit): bit {
    1 - a
  }

  /** The carry relation of the low i bits: x + y = sum + carry * 2^i, x - y = sum - borrow * 2^i. */
  predicate Balanced(x: nat, y: nat, sum: nat, carry: bit, i: nat, diff: bool) {
    if diff then x - y == sum - BitAt(carry, i) else x + y == sum + BitAt(carry, i)
  }

  function NextCarry(m: bit, l: bit, c: bit, diff: bool): bit {
    if diff then Or(And(Not(m), l), And(c, Not(Xor(m, l)))) else Or(And(m, l), And(c, Or(m, l)))
  }

  lemma ColumnStep(x: nat, y: nat, sum: nat, m: bit, l: bit, c: bit, i: nat, diff: bool)
    requires Balanced(x, y, sum, c, i, diff)
    ensures Balanced(x + BitAt(m, i), y + BitAt(l, i), sum + BitAt(Xor(Xor(c, m), l), i),
                     NextCarry(m, l, c, diff), i + 1, diff)
  {
    assert Pow2(i + 1) == 2 * Pow2(i);
  }

  method RippleAddSub(wbMantMore: array<bit>, mantLessScale: array<bit>, diff: bool)
    returns (mantSum: array<bit>, carryOut: bit)
    requires wbMantMore.Length == 106 && mantLessScale.Length == 106
    ensures mantSum.Length == 106
    ensures Balanced(Value(wbMantMore[..]), Value(mantLessScale[..]), Value(mantSum[..]), carryOut, mantSum.Length,
                     diff)
  {
    mantSum := new bit[106];
    var mantSumCarryBit := new bit[107];
    mantSumCarryBit[0] := 0;
    for i := 0 to 106
      invariant Balanced(Value(wbMantMore[..i]), Value(mantLessScale[..i]), Value(mantSum[..i]), mantSumCarryBit[i],
                         i, diff)
    {
      var m, l, c := wbMantMore[i], mantLessScale[i], mantSumCarryBit[i];
      ColumnStep(Value(wbMantMore[..i]), Value(mantLessScale[..i]), Value(mantSum[..i]), m, l, c, i, diff);
      ghost var done := mantSum[..i];
      mantSum[i] := Xor(Xor(c, m), l);
      mantSumCarryBit[i + 1] := NextCarry(m, l, c, diff);
      ValueSnoc(wbMantMore, i);
      ValueSnoc(mantLessScale, i);
      ValueSnoc(mantSum, i);
      assert mantSum[..i] == done;
    }
    carryOut := mantSumCarryBit[106];
    assert wbMantMore[..106] == wbMantMore[..] && mantLessScale[..106] == mantLessScale[..];
    assert mantSum[..106] == mantSum[..];
  }

  lemma ValueSnoc(a: array<bit>, i: nat)
    requires i < a.Length
    ensures Value(a[..i + 1]) == Value(a[..i]) + BitAt(a[i], i)
  {
    assert a[..i + 1][..i] == a[..i];
  }
}
