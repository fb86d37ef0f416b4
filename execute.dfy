/**
 * One interpreter step, `execute(instr, mode)`: the break state is cleared,
 * the pc moves past the instruction, and the instruction goes to the handler
 * its decoder picks; an ARM instruction runs only when its condition holds.
 */
module Interpreter {
  import opened Bits
  import opened Alu
  import opened Conditions
  import opened Decode
  import opened Machine
  import Thumb
  import Arm

  /** The Thumb handler picked by the rank of `instr` among `ThumbBounds`. */
  function ThumbStep(m: State, instr: int): (r: State)
    requires WellFormed(m)
    ensures WellFormed(r)
  {
    match ThumbDecode(instr)
    case Shifted => Thumb.Shifted(m, instr)
    case AddSub => Thumb.AddSub(m, instr)
    case Immediate => Thumb.Immediate(m, instr)
    case AluOp => Thumb.AluOp(m, instr)
    case HiRegBx => Thumb.HiRegBx(m, instr)
    case LdrPc => Thumb.LdrPc(m, instr)
    case LdrStr => Thumb.LdrStr(m, instr)
    case LdrStrImm => Thumb.LdrStrImm(m, instr)
    case LdrStrSp => Thumb.LdrStrSp(m, instr)
    case GetRelAddr => Thumb.GetRelAddr(m, instr)
    case AddSp => Thumb.AddSp(m, instr)
    case PushPop => Thumb.PushPop(m, instr)
    case StmLdm => Thumb.StmLdm(m, instr)
    case BranchIf => Thumb.BranchIf(m, instr)
    case Branch => Thumb.Branch(m, instr)
    case BranchLink => Thumb.BranchLink(m, instr)
    case ThumbUndefined => m
  }

  /** The ARM handler that the walk of `arm_tree` reaches. */
  function ArmStep(m: State, instr: int): (r: State)
    requires WellFormed(m)
    ensures WellFormed(r)
  {
    match ArmDecode(instr)
    case DataProcess => Arm.DataProcess(m, instr)
    case Psr => Arm.Psr(m, instr)
    case Multiply => Arm.Multiply(m, instr)
    case ArmBx => Arm.ArmBx(m, instr)
    case Clz => Arm.Clz(m, instr)
    case DataTransfer => Arm.DataTransfer(m, instr)
    case BlockTransfer => Arm.BlockTransfer(m, instr)
    case ArmBranch => Arm.ArmBranch(m, instr)
    case ArmUndefined => m
  }

  /** The break state cleared and the pc moved on by `size` bytes. */
  function Advance(m: State, size: int): (r: State)
    requires WellFormed(m)
    ensures WellFormed(r)
  {
    SetReg(m.(brk := Quiet), 15, m.reg[15] + size)
  }

  /**
   * Whether an ARM instruction runs: the entry `instr >> 28` of the condition
   * table on the flag nibble. A Python list index from -16 to -1 counts from
   * the end; any other index outside 0..15 raises and nothing runs.
   */
  predicate ConditionHolds(m: State, instr: int)
    requires WellFormed(m)
  {
    var cond := instr / TWO28;
    -16 <= cond < 16 && Condition(cond % 16, m.reg[16] / TWO28)
  }

  /** `execute(instr, mode)`, with `thumb` the mode. */
  function Execute(m: State, instr: int, thumb: bool): (r: State)
    requires WellFormed(m)
    ensures WellFormed(r)
  {
    if thumb then ThumbStep(Advance(m, 2), instr)
    else
      var m1 := Advance(m, 4);
      if ConditionHolds(m1, instr) then ArmStep(m1, instr) else m1
  }

  /** `Advance` clears the break state, moves the pc by `size` and leaves the flags, so the condition, as they were. */
  lemma AdvanceMoves(m: State, size: int, instr: int)
    requires WellFormed(m)
    ensures Advance(m, size) == m.(brk := Quiet).(reg := m.reg[15 := m.reg[15] + size])
    ensures ConditionHolds(Advance(m, size), instr) == ConditionHolds(m, instr)
  {
  }

  /** The Thumb dispatch once the decoder has picked `bl` or no handler. */
  lemma ThumbStepOf(m: State, instr: int)
    requires WellFormed(m)
    ensures ThumbDecode(instr) == BranchLink ==> ThumbStep(m, instr) == Thumb.BranchLink(m, instr)
    ensures ThumbDecode(instr) == ThumbUndefined ==> ThumbStep(m, instr) == m
  {
  }

  /** The ARM dispatch once the tree walk has reached `arm_branch` or no handler. */
  lemma ArmStepOf(m: State, instr: int)
    requires WellFormed(m)
    ensures ArmDecode(instr) == ArmBranch ==> ArmStep(m, instr) == Arm.ArmBranch(m, instr)
    ensures ArmDecode(instr) == ArmUndefined ==> ArmStep(m, instr) == m
  {
  }

  /**
   * The pc moves before the handler runs: a Thumb step hands the handler the
   * state with the pc 2 on, an ARM step with the pc 4 on, and an ARM
   * instruction whose condition fails changes only the pc and the break state.
   */
  lemma ExecuteAdvancesPc(m: State, instr: int, thumb: bool)
    requires WellFormed(m)
    ensures var m1 := m.(brk := Quiet).(reg := m.reg[15 := m.reg[15] + if thumb then 2 else 4]);
      Execute(m, instr, thumb) == (if thumb then ThumbStep(m1, instr) else if ConditionHolds(m1, instr) then ArmStep(m1, instr) else m1)
    ensures !thumb && !ConditionHolds(m, instr) ==> Execute(m, instr, thumb) == m.(brk := Quiet).(reg := m.reg[15 := m.reg[15] + 4])
  {
    AdvanceMoves(m, if thumb then 2 else 4, instr);
  }

  /** The condition of an ARM word tests the flags of the status word as the source's table does. */
  lemma ArmConditionOfWord(m: State, instr: int)
    requires WellFormed(m) && 0 <= instr < TWO32
    ensures var cond := instr / TWO28; var st := m.reg[16];
      0 <= cond < 16
      && (ConditionHolds(m, instr) <==>
            if cond == 13 then FlagZ(st) && FlagN(st) != FlagV(st)
            else ArmCondition(cond, FlagN(st), FlagZ(st), FlagC(st), FlagV(st)))
  {
    var cond := instr / TWO28;
    QuotBelow(instr, TWO28, 16);
    assert cond % 16 == cond;
    ConditionAsWritten(cond, m.reg[16]);
  }

  /** An instruction with no handler changes only the pc and the break state. */
  lemma UndefinedSkips(m: State, instr: int, thumb: bool)
    requires WellFormed(m)
    requires if thumb then ThumbDecode(instr) == ThumbUndefined else ArmDecode(instr) == ArmUndefined
    ensures Execute(m, instr, thumb) == m.(brk := Quiet).(reg := m.reg[15 := m.reg[15] + if thumb then 2 else 4])
  {
    var m1 := Advance(m, if thumb then 2 else 4);
    AdvanceMoves(m, if thumb then 2 else 4, instr);
    if thumb {
      ThumbStepOf(m1, instr);
    } else {
      ArmStepOf(m1, instr);
    }
  }

  /**
   * An always-executed ARM branch (condition 14, bits 27-25 = 101) moves the
   * pc 8 bytes plus four times the offset field past the instruction's pc.
   */
  lemma ArmBranchStep(m: State, instr: int)
    requires WellFormed(m)
    requires instr / TWO28 == 14 && Bit(instr, 27) == 1 && Bit(instr, 26) == 0 && Bit(instr, 25) == 1
    ensures Execute(m, instr, false).reg[15] == m.reg[15] + 8 + 4 * (instr % 0x100_0000)
  {
    BranchesDecode(instr);
    var m1 := Advance(m, 4);
    assert ConditionHolds(m1, instr) by {
      ConditionAsWritten(14, m1.reg[16]);
    }
    ArmStepOf(m1, instr);
    Arm.ArmBranchForward(m1, instr);
  }

  /** A Thumb long branch from 0xF000 on always goes to `bl`. */
  lemma ThumbLongBranchStep(m: State, instr: int)
    requires WellFormed(m) && instr >= 0xF000
    ensures Execute(m, instr, true) == Thumb.BranchLink(Advance(m, 2), instr)
  {
    LongBranchDecodes(instr);
    ThumbStepOf(Advance(m, 2), instr);
  }
}
