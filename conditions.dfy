/**
 * The sixteen predicates of the ARM condition field, applied to the flag
 * nibble `cpsr = Reg[16] >> 28` (N = 8, Z = 4, C = 2, V = 1).
 */
module Conditions {
  import opened Bits
  import opened Alu

  /**
   * `conditions[cond](cpsr)`, each entry testing `cpsr & mask` as the source
   * does; `x in (a, b)` is written `x == a || x == b`.
   */
  function Condition(cond: int, cpsr: int): (passes: bool)
    requires 0 <= cond < 16
    ensures cond == 14 ==> passes
    ensures cond == 15 ==> !passes
  {
    match cond
    case 0 => And(cpsr, 4, 4) == 4
    case 1 => And(cpsr, 4, 4) == 0
    case 2 => And(cpsr, 2, 4) == 2
    case 3 => And(cpsr, 2, 4) == 0
    case 4 => And(cpsr, 8, 4) == 8
    case 5 => And(cpsr, 8, 4) == 0
    case 6 => And(cpsr, 1, 4) == 1
    case 7 => And(cpsr, 1, 4) == 0
    case 8 => And(cpsr, 6, 4) == 2
    case 9 => And(cpsr, 6, 4) != 2
    case 10 => And(cpsr, 9, 4) == 0 || And(cpsr, 9, 4) == 9
    case 11 => !(And(cpsr, 9, 4) == 0 || And(cpsr, 9, 4) == 9)
    case 12 => And(cpsr, 13, 4) == 0 || And(cpsr, 13, 4) == 9
    case 13 => And(cpsr, 13, 4) == 5 || And(cpsr, 13, 4) == 12
    case 14 => true
    case _ => false
  }

  /**
   * The condition table of the ARM Architecture Reference Manual, section
   * A3.2 (with NV never passing).
   */
  function ArmCondition(cond: int, n: bool, z: bool, c: bool, v: bool): bool
    requires 0 <= cond < 16
  {
    match cond
    case 0 => z
    case 1 => !z
    case 2 => c
    case 3 => !c
    case 4 => n
    case 5 => !n
    case 6 => v
    case 7 => !v
    case 8 => c && !z
    case 9 => !c || z
    case 10 => n == v
    case 11 => n != v
    case 12 => !z && n == v
    case 13 => z || n != v
    case 14 => true
    case _ => false
  }

  /** The flags are bits 3 (N), 2 (Z), 1 (C) and 0 (V) of `status >> 28`. */
  lemma FlagBits(status: int)
    ensures var cpsr := status / TWO28;
      (FlagN(status) <==> cpsr / 8 % 2 == 1) && (FlagZ(status) <==> cpsr / 4 % 2 == 1)
      && (FlagC(status) <==> cpsr / 2 % 2 == 1) && (FlagV(status) <==> cpsr % 2 == 1)
  {
    var cpsr := status / TWO28;
    FlagsOfNibble(status);
    NibbleBit(cpsr, 1);
    NibbleBit(cpsr, 2);
    NibbleBit(cpsr, 4);
    NibbleBit(cpsr, 8);
  }

  /** The expected outcome of `Condition` on the four low bits of `cpsr`. */
  predicate OnBits(cond: int, cpsr: int)
    requires 0 <= cond < 16
  {
    var n, z, c, v := cpsr / 8 % 2 == 1, cpsr / 4 % 2 == 1, cpsr / 2 % 2 == 1, cpsr % 2 == 1;
    Condition(cond, cpsr) == if cond == 13 then z && n != v else ArmCondition(cond, n, z, c, v)
  }

  /** The conditions that test a single flag. */
  lemma SingleFlagConditions(cond: int, cpsr: int)
    requires 0 <= cond < 8
    ensures OnBits(cond, cpsr)
  {
    if cond < 2 {
      assert And(cpsr, 4, 4) == 4 * (cpsr / 4 % 2) by { AndNibble(cpsr, 4); }
    } else if cond < 4 {
      assert And(cpsr, 2, 4) == 2 * (cpsr / 2 % 2) by { AndNibble(cpsr, 2); }
    } else if cond < 6 {
      assert And(cpsr, 8, 4) == 8 * (cpsr / 8 % 2) by { AndNibble(cpsr, 8); }
    } else {
      assert And(cpsr, 1, 4) == cpsr % 2 by { AndNibble(cpsr, 1); }
    }
  }

  /** HI, LS, GE and LT. */
  lemma PairConditions(cond: int, cpsr: int)
    requires 8 <= cond < 12
    ensures OnBits(cond, cpsr)
  {
    if cond < 10 {
      assert And(cpsr, 6, 4) == 4 * (cpsr / 4 % 2) + 2 * (cpsr / 2 % 2) by { AndNibble(cpsr, 6); }
    } else {
      assert And(cpsr, 9, 4) == 8 * (cpsr / 8 % 2) + cpsr % 2 by { AndNibble(cpsr, 9); }
    }
  }

  /** GT. */
  lemma GreaterCondition(cpsr: int)
    ensures OnBits(12, cpsr)
  {
    assert And(cpsr, 13, 4) == 8 * (cpsr / 8 % 2) + 4 * (cpsr / 4 % 2) + cpsr % 2 by { AndNibble(cpsr, 13); }
  }

  /** LE, as written. */
  lemma LessOrEqualCondition(cpsr: int)
    ensures OnBits(13, cpsr)
  {
    assert And(cpsr, 13, 4) == 8 * (cpsr / 8 % 2) + 4 * (cpsr / 4 % 2) + cpsr % 2 by { AndNibble(cpsr, 13); }
  }

  /** The table as the source writes it, on the four low bits of `cpsr`. */
  lemma ConditionOnBits(cond: int, cpsr: int)
    requires 0 <= cond < 16
    ensures OnBits(cond, cpsr)
  {
    if cond < 8 {
      SingleFlagConditions(cond, cpsr);
    } else if cond < 12 {
      PairConditions(cond, cpsr);
    } else if cond == 12 {
      GreaterCondition(cpsr);
    } else if cond == 13 {
      LessOrEqualCondition(cpsr);
    }
  }

  /** The table as the source writes it, in terms of the flags of the status word. */
  lemma ConditionAsWritten(cond: int, status: int)
    requires 0 <= cond < 16
    ensures var n, z, c, v := FlagN(status), FlagZ(status), FlagC(status), FlagV(status);
      Condition(cond, status / TWO28) == if cond == 13 then z && n != v else ArmCondition(cond, n, z, c, v)
  {
    FlagBits(status);
    ConditionOnBits(cond, status / TWO28);
  }

  /** Every condition but LE agrees with the reference table on every status word. */
  lemma ConditionMatchesArm(cond: int, status: int)
    requires 0 <= cond < 16 && cond != 13
    ensures Condition(cond, status / TWO28)
      == ArmCondition(cond, FlagN(status), FlagZ(status), FlagC(status), FlagV(status))
  {
    ConditionAsWritten(cond, status);
  }

  /**
   * LE as written passes only when Z is set and N differs from V. With Z set
   * and N equal to V neither GT nor LE passes, where the reference LE does.
   */
  lemma LessOrEqualGap()
    ensures !Condition(12, 4) && !Condition(13, 4)
    ensures ArmCondition(13, false, true, false, false)
  {
    assert And(4, 13, 4) == 4 by { AndNibble(4, 13); }
  }
}
