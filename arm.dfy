/**
 * The ARM-state handlers: data processing, status-register transfer,
 * branches, count leading zeros, multiplies, single and halfword/doubleword
 * transfers and block transfers. Each handler is a function from the machine
 * state and the 32-bit instruction to the state after it, with the fields
 * extracted as `instr >> k & mask`.
 */
module Arm {
  import opened Bits
  import opened Memory
  import opened Alu
  import opened Machine

  /** The entries of `dataprocess_list`, indexed by the opcode, on `Rn`, the second operand and `S`. */
  function DataResult(opcode: int, rn: int, op2: int, s: int, status: int): (f: Flagged)
    requires 0 <= opcode < 16
    ensures 0 <= f.value < TWO32
    ensures s == 0 ==> f.status == status
  {
    var carry := status / BIT29 % 2;
    match opcode
    case 0 => CmpHalf(And(rn, op2, 32), s, status)
    case 1 => CmpHalf(Xor(rn, op2, 32), s, status)
    case 2 => Compare(rn, -op2, s, status)
    case 3 => Compare(op2, -rn, s, status)
    case 4 => Compare(rn, op2, s, status)
    case 5 => Compare(rn, op2 + carry, s, status)
    case 6 => Compare(rn, -op2 + carry - 1, s, status)
    case 7 => Compare(op2, -rn + carry - 1, s, status)
    case 8 => CmpHalf(And(rn, op2, 32), s, status)
    case 9 => CmpHalf(Xor(rn, op2, 32), s, status)
    case 10 => Compare(rn, -op2, s, status)
    case 11 => Compare(rn, op2, s, status)
    case 12 => CmpHalf(Or(rn, op2, 32), s, status)
    case 13 => CmpHalf(op2, s, status)
    case 14 => CmpHalf(And(rn, Complement(op2), 32), s, status)
    case _ => CmpHalf(Complement(op2), s, status)
  }

  /**
   * The immediate second operand: the low byte joined above a copy of its
   * own low `sh` bits and shifted right by `sh`, twice the rotate field.
   */
  function RotatedImmediate(instr: int): int
  {
    var imm, sh := instr % 0x100, instr / 0x100 % 16 * 2;
    (imm % Pow2(sh) * TWO32 + imm) / Pow2(sh)
  }

  /** The shift amount of a register operand: bits 7-11, or the register named by bits 8-11 when bit 4 is set. */
  function ShiftBy(m: State, instr: int): int
    requires |m.reg| == 17
  {
    if instr / 0x10 % 2 == 1 then m.reg[instr / 0x100 % 16] else instr / 0x80 % 32
  }

  /**
   * A register operand shifted by a negative register amount: `barrelshift`
   * raises at `1 << Shift-1` (every type but rotate) and the handler stops
   * before changing anything.
   */
  predicate ShiftRaises(m: State, instr: int)
    requires |m.reg| == 17
  {
    instr / 0x200_0000 % 2 == 0 && instr / 0x20 % 4 != 3 && ShiftBy(m, instr) < 0
  }

  /** The second operand and the status word after computing it. */
  function Operand2(m: State, instr: int): Flagged
    requires |m.reg| == 17 && !ShiftRaises(m, instr)
  {
    if instr / 0x200_0000 % 2 == 1 then Flagged(RotatedImmediate(instr), m.reg[16])
    else BarrelShift(m.reg[instr % 16], ShiftBy(m, instr), instr / 0x20 % 4, instr / 0x10_0000 % 2, m.reg[16])
  }

  /** `dataprocess`: the opcodes 8-11 (TST, TEQ, CMP, CMN) only set flags. */
  function DataProcess(m: State, instr: int): (r: State)
    requires WellFormed(m)
    ensures WellFormed(r) && r.mem == m.mem
  {
    if ShiftRaises(m, instr) then m
    else
      var opcode, s, rn, rd := instr / 0x20_0000 % 16, instr / 0x10_0000 % 2, instr / 0x1_0000 % 16, instr / 0x1000 % 16;
      var op2 := Operand2(m, instr);
      var f := DataResult(opcode, m.reg[rn], op2.value, s, op2.status);
      var m1 := SetReg(m, 16, f.status);
      if 8 <= opcode <= 11 then m1 else SetReg(m1, rd, f.value)
  }

  /**
   * The operand of every immediate form is its byte rotated right by twice
   * the rotate field, within 32 bits.
   */
  lemma ImmediateRotates(instr: int)
    ensures var imm, sh := instr % 0x100, instr / 0x100 % 16 * 2;
      0 <= RotatedImmediate(instr) < TWO32
      && RotatedImmediate(instr) == imm / Pow2(sh) + imm % Pow2(sh) * Pow2(32 - sh)
  {
    var sh := instr / 0x100 % 16 * 2;
    Pow2Add(sh, 32 - sh);
    Pow2Constants();
    RotateSplit(instr % 0x100, Pow2(sh), Pow2(32 - sh));
  }

  /** Joining `v % p` above a word and dividing by `p` rotates the word right, for `p * p'` the word size. */
  lemma RotateSplit(v: int, p: int, p': int)
    requires p >= 1 && p' >= 1 && 0 <= v < p * p'
    ensures 0 <= (v % p * (p * p') + v) / p < p * p'
    ensures (v % p * (p * p') + v) / p == v / p + v % p * p'
  {
    var q, rest := v / p, v % p;
    assert v == q * p + rest;
    assert rest * (p * p') == (rest * p') * p;
    assert rest * (p * p') + v == (rest * p' + q) * p + rest;
    DivModUnique(rest * (p * p') + v, p, rest * p' + q, rest);
    QuotBelow(v, p, p');
    MulBelow(rest, p, p', q);
  }

  /**
   * Which registers `dataprocess` writes: the status word and, outside the
   * comparisons, `Rd`; a shift that raises writes nothing.
   */
  lemma DataProcessWrites(m: State, instr: int)
    requires WellFormed(m)
    ensures var r, rd, opcode := DataProcess(m, instr), instr / 0x1000 % 16, instr / 0x20_0000 % 16;
      (forall i :: 0 <= i < 16 && i != rd ==> r.reg[i] == m.reg[i])
      && (8 <= opcode <= 11 ==> r.reg[rd] == m.reg[rd])
      && (ShiftRaises(m, instr) ==> r == m)
      && (instr / 0x10_0000 % 2 == 0 ==> r.reg[16] == m.reg[16])
  {
  }

  /**
   * The arithmetic entries of `dataprocess_list`: the 32-bit difference,
   * reverse difference or sum of `Rn` and the second operand.
   */
  lemma ArithmeticResult(opcode: int, rn: int, op2: int, s: int, status: int)
    requires opcode == 2 || opcode == 3 || opcode == 4 || opcode == 10 || opcode == 11
    ensures var v := DataResult(opcode, rn, op2, s, status).value;
      (opcode == 2 || opcode == 10 ==> v == (rn - op2) % TWO32)
      && (opcode == 3 ==> v == (op2 - rn) % TWO32)
      && (opcode == 4 || opcode == 11 ==> v == (rn + op2) % TWO32)
  {
  }

  /** The logical entries of `dataprocess_list`: a bitwise operation of `Rn` and the second operand, or a move. */
  lemma LogicalResult(opcode: int, rn: int, op2: int, s: int, status: int)
    requires 0 <= opcode < 16
    ensures var v := DataResult(opcode, rn, op2, s, status).value;
      (opcode == 0 || opcode == 8 ==> v == And(rn, op2, 32))
      && (opcode == 1 || opcode == 9 ==> v == Xor(rn, op2, 32))
      && (opcode == 12 ==> v == Or(rn, op2, 32))
      && (opcode == 13 ==> v == Lo32(op2))
      && (opcode == 14 ==> v == And(rn, Complement(op2), 32))
  {
    Pow2Constants();
    match opcode
    case 0 => LowWord(And(rn, op2, 32));
    case 1 => LowWord(Xor(rn, op2, 32));
    case 8 => LowWord(And(rn, op2, 32));
    case 9 => LowWord(Xor(rn, op2, 32));
    case 12 => LowWord(Or(rn, op2, 32));
    case 14 => LowWord(And(rn, Complement(op2), 32));
    case _ =>
  }

  lemma LowWord(v: int)
    requires 0 <= v < TWO32
    ensures Lo32(v) == v
  {
  }

  /** The value an arithmetic or logical opcode leaves in `Rd`. */
  lemma DataProcessValue(m: State, instr: int)
    requires WellFormed(m) && !ShiftRaises(m, instr)
    requires !(8 <= instr / 0x20_0000 % 16 <= 11)
    ensures var opcode, rn := instr / 0x20_0000 % 16, m.reg[instr / 0x1_0000 % 16];
      var v, op2 := DataProcess(m, instr).reg[instr / 0x1000 % 16], Operand2(m, instr).value;
      (opcode == 0 ==> v == And(rn, op2, 32))
      && (opcode == 1 ==> v == Xor(rn, op2, 32))
      && (opcode == 2 ==> v == (rn - op2) % TWO32)
      && (opcode == 3 ==> v == (op2 - rn) % TWO32)
      && (opcode == 4 ==> v == (rn + op2) % TWO32)
      && (opcode == 12 ==> v == Or(rn, op2, 32))
      && (opcode == 13 ==> v == Lo32(op2))
      && (opcode == 14 ==> v == And(rn, Complement(op2), 32))
      && 0 <= v < TWO32
  {
    var op2 := Operand2(m, instr);
    DataProcessResult(m, instr);
    var opcode := instr / 0x20_0000 % 16;
    if opcode == 2 || opcode == 3 || opcode == 4 {
      ArithmeticResult(opcode, m.reg[instr / 0x1_0000 % 16], op2.value, instr / 0x10_0000 % 2, op2.status);
    } else {
      LogicalResult(opcode, m.reg[instr / 0x1_0000 % 16], op2.value, instr / 0x10_0000 % 2, op2.status);
    }
  }

  /** An opcode other than 8-11 writes the value of its `DataResult` to `Rd`. */
  lemma DataProcessResult(m: State, instr: int)
    requires WellFormed(m) && !ShiftRaises(m, instr)
    requires !(8 <= instr / 0x20_0000 % 16 <= 11)
    ensures var op2 := Operand2(m, instr);
      DataProcess(m, instr).reg[instr / 0x1000 % 16]
        == DataResult(instr / 0x20_0000 % 16, m.reg[instr / 0x1_0000 % 16], op2.value, instr / 0x10_0000 % 2, op2.status).value
  {
  }

  /** The operand of MSR: the byte rotated right by twice bits 8-11, or `Rm`. */
  function PsrOperand(m: State, instr: int): int
    requires WellFormed(m)
  {
    if instr / 0x200_0000 % 2 == 1 then BarrelShift(instr % 0x100, instr / 0x100 % 16 * 2, 3, 0, m.reg[16]).value else m.reg[instr % 16]
  }

  /**
   * `psr`: MSR (P clear, L set) replaces the bits of the status word that the
   * field mask selects by those of the operand. The flags field (bit 3 of
   * Field) selects bits 28-31; the control field (bit 0) selects 0xEF, and
   * with the flags field clear the mask is 0xF | 0xEF = 0xEF, or 0xF when
   * neither is set. MRS (P and L clear) stops at a name that does not exist
   * and changes nothing, nor does the saved-status form (P set).
   */
  function Psr(m: State, instr: int): (r: State)
    requires WellFormed(m)
    ensures WellFormed(r) && r.mem == m.mem
  {
    var i, p, l, field := instr / 0x200_0000 % 2, instr / 0x40_0000 % 2, instr / 0x20_0000 % 2, instr / 0x1_0000 % 16;
    if p == 1 || l == 0 then m
    else
      SetReg(m, 16, MaskedReplace(m.reg[16], PsrOperand(m, instr), PsrMask(field)))
  }

  /** The bits of the status word an MSR with field mask `field` rewrites, `15 << 28*(Field >> 3) | 0xEF*(Field & 1)`. */
  function PsrMask(field: int): int
    requires 0 <= field < 16
  {
    var control := if field % 2 == 1 then 0xEF else 0;
    if field / 8 == 1 then 0xF000_0000 + control else if field % 2 == 1 then 0xEF else 0xF
  }

  /** `st & ~mask | op & mask` on 32-bit masks: the bits of `st` that `mask` selects replaced by those of `op`. */
  function MaskedReplace(st: int, op: int, mask: int): int
  {
    st - And(st, mask, 32) + And(op, mask, 32)
  }

  /** MSR to the flags field alone: N, Z, C and V become bits 28-31 of the operand, and nothing else changes. */
  lemma PsrFlagsField(m: State, instr: int)
    requires WellFormed(m)
    requires instr / 0x40_0000 % 2 == 0 && instr / 0x20_0000 % 2 == 1 && instr / 0x1_0000 % 16 == 8
    ensures var r, st := Psr(m, instr), m.reg[16];
      var op := PsrOperand(m, instr);
      r.reg[16] % TWO28 == st % TWO28 && r.reg[16] / TWO28 % 16 == op % TWO32 / TWO28
      && r.reg[16] / TWO32 == st / TWO32
      && (forall j :: 0 <= j < 16 ==> r.reg[j] == m.reg[j])
  {
    var st := m.reg[16];
    var op := PsrOperand(m, instr);
    assert Psr(m, instr).reg[16] == MaskedReplace(st, op, 0xF000_0000);
    FlagsFieldReplaced(st, op);
  }

  /** The flags-field mask replaces bits 28-31 of the status word and keeps the rest. */
  lemma FlagsFieldReplaced(st: int, op: int)
    ensures var v := MaskedReplace(st, op, 0xF000_0000);
      v % TWO28 == st % TWO28 && v / TWO28 % 16 == op % TWO32 / TWO28 && v / TWO32 == st / TWO32
  {
    PsrFlagsMask(st, op);
    FlagsReplaced(st, op);
  }

  /** The flags-field mask picks bits 28-31 of both words. */
  lemma PsrFlagsMask(st: int, op: int)
    ensures MaskedReplace(st, op, 0xF000_0000) == st - (st % TWO32 - st % TWO28) + (op % TWO32 - op % TWO28)
  {
    Pow2Constants();
    AndHighMask(st, 28, 32);
    AndHighMask(op, 28, 32);
  }

  /** Bits 28-31 of `st` replaced by those of `op`. */
  lemma FlagsReplaced(st: int, op: int)
    ensures var v := st - (st % TWO32 - st % TWO28) + (op % TWO32 - op % TWO28);
      v % TWO28 == st % TWO28 && v / TWO28 % 16 == op % TWO32 / TWO28 && v / TWO32 == st / TWO32
  {
    var v := st - (st % TWO32 - st % TWO28) + (op % TWO32 - op % TWO28);
    var hi, nib, lo := st / TWO32, op % TWO32 / TWO28, st % TWO28;
    DivDiv(op, TWO28, 16);
    assert st == hi * TWO32 + st % TWO32;
    assert op % TWO32 == nib * TWO28 + op % TWO28;
    assert v == hi * TWO32 + nib * TWO28 + lo;
    assert 0 <= nib < 16 by { QuotBelow(op % TWO32, TWO28, 16); }
    PackSpec(hi, nib, lo);
  }

  /** The forms of `psr` other than MSR leave the whole state as it was. */
  lemma PsrIgnored(m: State, instr: int)
    requires WellFormed(m)
    requires instr / 0x40_0000 % 2 == 1 || instr / 0x20_0000 % 2 == 0
    ensures Psr(m, instr) == m
  {
  }

  /**
   * `arm_bx`: with L set the link register gets `pc - 4` first; the mode bit
   * becomes bit 0 of `Rn`, and the pc the target plus 4 (ARM) or plus 1 (Thumb).
   */
  function ArmBx(m: State, instr: int): (r: State)
    requires WellFormed(m)
    ensures WellFormed(r) && r.mem == m.mem
  {
    var l, rn := instr / 0x20 % 2, instr % 16;
    var m1 := if l == 1 then SetReg(m, 14, m.reg[15] - 4) else m;
    var mode := m1.reg[rn] % 2;
    WithMode(SetReg(m1, 15, m1.reg[rn] + 4 - 3 * mode), mode)
  }

  /** The target of BX/BLX, the mode it selects and the link it leaves. */
  lemma ArmBxTarget(m: State, instr: int)
    requires WellFormed(m)
    ensures var r, l, rn := ArmBx(m, instr), instr / 0x20 % 2, instr % 16;
      var t := if l == 1 && rn == 14 then m.reg[15] - 4 else m.reg[rn];
      r.reg[16] / 32 % 2 == t % 2 && r.reg[16] % 32 == m.reg[16] % 32 && r.reg[16] / 64 == m.reg[16] / 64
      && r.reg[15] == (if t % 2 == 1 then t + 1 else t + 4)
      && (l == 1 ==> r.reg[14] == m.reg[15] - 4)
      && (forall j :: 0 <= j < 14 ==> r.reg[j] == m.reg[j])
  {
    ReplaceFieldSpec(m.reg[16], 32, 2, (if instr / 0x20 % 2 == 1 && instr % 16 == 14 then m.reg[15] - 4 else m.reg[instr % 16]) % 2);
  }

  /**
   * `arm_branch`: with L set the link register gets `pc - 4`; the pc moves by
   * 4 plus four times the 24-bit offset field, which is not sign-extended.
   */
  function ArmBranch(m: State, instr: int): (r: State)
    requires WellFormed(m)
    ensures WellFormed(r) && r.mem == m.mem
  {
    var l, offset := instr / 0x100_0000 % 2, instr % 0x100_0000;
    var m1 := if l == 1 then SetReg(m, 14, m.reg[15] - 4) else m;
    SetReg(m1, 15, m1.reg[15] + 4 + offset * 4)
  }

  /** The branch target is always forward, at most 2^26 bytes on; an offset field meant as -2 lands 0x3FF_FFFC on. */
  lemma ArmBranchForward(m: State, instr: int)
    requires WellFormed(m)
    ensures var r, pc := ArmBranch(m, instr), m.reg[15];
      pc + 4 <= r.reg[15] < pc + 4 + 0x400_0000
      && r.reg[15] - pc - 4 == 4 * (instr % 0x100_0000)
      && (instr / 0x100_0000 % 2 == 1 ==> r.reg[14] == pc - 4)
      && (forall j :: 0 <= j < 14 ==> r.reg[j] == m.reg[j])
    ensures instr % 0x100_0000 == 0xFF_FFFE ==> ArmBranch(m, instr).reg[15] == m.reg[15] + 0x3FF_FFFC
  {
  }

  /** The magnitude whose bit length `int.bit_length` reports. */
  function Abs(x: int): nat
  {
    if x < 0 then -x else x
  }

  /** `clz`: `Rd` gets 32 minus the bit length of `Rm`. */
  function Clz(m: State, instr: int): (r: State)
    requires WellFormed(m)
    ensures WellFormed(r) && r.mem == m.mem
  {
    SetReg(m, instr / 0x1000 % 16, 32 - BitLength(Abs(m.reg[instr % 16])))
  }

  /** On a 32-bit word `clz` counts the zero bits above the highest set bit: 32 for zero. */
  lemma ClzLeadingZeros(m: State, instr: int)
    requires WellFormed(m) && 0 <= m.reg[instr % 16] < TWO32
    ensures var v, n := m.reg[instr % 16], Clz(m, instr).reg[instr / 0x1000 % 16];
      0 <= n <= 32 && v < Pow2(32 - n) && (n < 32 ==> Pow2(31 - n) <= v)
  {
    var v := m.reg[instr % 16];
    var l := BitLength(v);
    Pow2Constants();
    if l > 32 {
      Pow2Le(32, l - 1);
    }
  }

  /** A halfword of a register, `v >> 16*top & 0xFFFF`, sign-extended. */
  function Half(v: int, top: int): int
  {
    SignExtendFrom((if top == 1 then v / 0x1_0000 else v) % 0x1_0000, 0x8000)
  }

  /** A register read as a signed 32-bit value, `(v ^ 2**31) - 2**31`. */
  function Signed32(v: int): int
  {
    SignExtendFrom(v, TWO31)
  }

  /** `result >> 32 & 0xFFFFFFFF` into `hi` and then `result & 0xFFFFFFFF` into `lo`. */
  function SplitLong(m: State, hi: nat, lo: nat, result: int): State
    requires WellFormed(m) && hi < 16 && lo < 16
  {
    SetReg(SetReg(m, hi, result / TWO32 % TWO32), lo, result % TWO32)
  }

  /** The 64-bit result of a multiply from bits 21-24 without the halfword bit. */
  function LongResult(m: State, instr: int): int
    requires WellFormed(m)
  {
    var opcode, rn, rs, rm := instr / 0x20_0000 % 16, instr / 0x1000 % 16, instr / 0x100 % 16, instr % 16;
    var signed := opcode / 2 % 2 == 1;
    var a := if signed then Signed32(m.reg[rm]) else m.reg[rm];
    var b := if signed then Signed32(m.reg[rs]) else m.reg[rs];
    a * b + m.reg[rn] * (opcode % 2)
  }

  /**
   * `multiply`. With bit 3 of the opcode set it is a halfword multiply,
   * otherwise a word multiply.
   */
  function Multiply(m: State, instr: int): (r: State)
    requires WellFormed(m)
    ensures WellFormed(r) && r.mem == m.mem
  {
    if instr / 0x20_0000 % 16 / 8 == 1 then HalfMultiply(m, instr) else WordMultiply(m, instr)
  }

  /** `(hi << 32 | lo) + product`, the sum of a long halfword multiply-accumulate. */
  function LongAccumulate(hi: int, lo: int, product: int): int
  {
    Or(hi * TWO32, lo, 64) + product
  }

  /**
   * The halfword multiplies (S forced off), by the low two opcode bits:
   * 0 multiply-accumulate, 1 word by halfword, 2 long accumulate into
   * `Rd:Rn`, 3 plain product.
   */
  function HalfMultiply(m: State, instr: int): (r: State)
    requires WellFormed(m)
    ensures WellFormed(r) && r.mem == m.mem
  {
    var op, rd, rn := instr / 0x20_0000 % 16 % 4, instr / 0x1_0000 % 16, instr / 0x1000 % 16;
    var v := HalfValue(m, instr);
    if op == 2 then SplitLong(m, rd, rn, v) else SetReg(m, rd, v)
  }

  /** The value a halfword multiply writes: to `Rd`, or split over `Rd:Rn` for opcode 2. */
  function HalfValue(m: State, instr: int): int
    requires WellFormed(m)
  {
    var op, rd, rn := instr / 0x20_0000 % 16 % 4, instr / 0x1_0000 % 16, instr / 0x1000 % 16;
    var rs, y, x, rm := instr / 0x100 % 16, instr / 0x40 % 2, instr / 0x20 % 2, instr % 16;
    var b := Half(m.reg[rs], y);
    var a := if op != 1 then Half(m.reg[rm], x) else m.reg[rm];
    if op == 0 then (a * b + m.reg[rn]) % TWO32
    else if op == 1 then (Signed32(a) * b / 0x1_0000 + m.reg[rn] * (1 - x)) % TWO32
    else if op == 2 then LongAccumulate(m.reg[rd], m.reg[rn], a * b)
    else a * b
  }

  /**
   * The word multiplies: bit 0 of the opcode accumulates `Rn`, bit 1 makes
   * the operands signed, bit 2 writes the long result to `Rd:Rn`, and S sets
   * N from bit 63 and Z from bits 0-62 of the result.
   */
  function WordMultiply(m: State, instr: int): (r: State)
    requires WellFormed(m)
    ensures WellFormed(r) && r.mem == m.mem
  {
    var opcode, s, rd, rn := instr / 0x20_0000 % 16, instr / 0x10_0000 % 2, instr / 0x1_0000 % 16, instr / 0x1000 % 16;
    var result := LongResult(m, instr);
    var m1 := if opcode / 4 % 2 == 1 then SplitLong(m, rd, rn, result) else SetReg(m, rd, result % TWO32);
    if s == 1 then
      var n, z := result / 0x8000_0000_0000_0000 % 2, if result % 0x8000_0000_0000_0000 == 0 then 1 else 0;
      SetReg(m1, 16, (8 * n + 4 * z) * TWO28 + m1.reg[16] % TWO30)
    else m1
  }

  /** A long multiply leaves the 64-bit result, modulo 2^64, in `Rd:Rn` (when they differ). */
  lemma MultiplyLong(m: State, instr: int)
    requires WellFormed(m)
    requires instr / 0x20_0000 % 16 / 4 == 1 && instr / 0x1_0000 % 16 != instr / 0x1000 % 16
    ensures var r, rd, rn := Multiply(m, instr), instr / 0x1_0000 % 16, instr / 0x1000 % 16;
      r.reg[rd] * TWO32 + r.reg[rn] == LongResult(m, instr) % (TWO32 * TWO32)
  {
    DivDiv(LongResult(m, instr), TWO32, TWO32);
  }

  /** UMULL on two words: `Rd:Rn` is their exact 64-bit product. */
  lemma UnsignedLongProduct(m: State, instr: int)
    requires WellFormed(m)
    requires instr / 0x20_0000 % 16 == 4 && instr / 0x1_0000 % 16 != instr / 0x1000 % 16
    requires 0 <= m.reg[instr % 16] < TWO32 && 0 <= m.reg[instr / 0x100 % 16] < TWO32
    ensures var r, rd, rn := Multiply(m, instr), instr / 0x1_0000 % 16, instr / 0x1000 % 16;
      r.reg[rd] * TWO32 + r.reg[rn] == m.reg[instr % 16] * m.reg[instr / 0x100 % 16]
  {
    var a, b := m.reg[instr % 16], m.reg[instr / 0x100 % 16];
    MultiplyLong(m, instr);
    assert LongResult(m, instr) == a * b;
    ProductBelow(a, b, TWO32);
    DivModUnique(a * b, TWO32 * TWO32, 0, a * b);
  }

  /** The flags a flag-setting multiply leaves: N and Z of the 64-bit result, C, V and the low bits kept. */
  lemma MultiplyFlags(m: State, instr: int)
    requires WellFormed(m)
    requires instr / 0x20_0000 % 16 < 8 && instr / 0x10_0000 % 2 == 1
    ensures var st, result := Multiply(m, instr).reg[16], LongResult(m, instr);
      (FlagN(st) <==> result / 0x8000_0000_0000_0000 % 2 == 1)
      && (FlagZ(st) <==> result % 0x8000_0000_0000_0000 == 0)
      && st % TWO30 == m.reg[16] % TWO30 && 0 <= st < TWO32
  {
    var result := LongResult(m, instr);
    var n, z := result / 0x8000_0000_0000_0000 % 2, if result % 0x8000_0000_0000_0000 == 0 then 1 else 0;
    var st := Multiply(m, instr).reg[16];
    var lo := m.reg[16] % TWO30;
    assert st == (8 * n + 4 * z) * TWO28 + lo;
    TopBits(st, 2 * n + z, lo);
  }

  /** A word made of two top bits `k` above thirty low bits `lo`. */
  lemma TopBits(st: int, k: int, lo: int)
    requires 0 <= k < 4 && 0 <= lo < TWO30 && st == k * TWO30 + lo
    ensures (FlagN(st) <==> k / 2 == 1) && (FlagZ(st) <==> k % 2 == 1)
    ensures st % TWO30 == lo && 0 <= st < TWO32
  {
    DivModUnique(st, TWO30, k, lo);
    DivDiv(st, TWO30, 2);
  }

  /** The signed 16-bit number in the top (`top == 1`) or bottom half of the low word of `v`, read as two's complement. */
  function SignedHalf(v: int, top: int): (h: int)
    ensures -0x8000 <= h < 0x8000
  {
    var u := (if top == 1 then v / 0x1_0000 else v) % 0x1_0000;
    if u < 0x8000 then u else u - 0x1_0000
  }

  /** `(Rs >> 16*y & 0xFFFF ^ 2**15) - 2**15` is the signed halfword that `y` selects. */
  lemma HalfSigned(v: int, top: int)
    ensures Half(v, top) == SignedHalf(v, top)
  {
    SignExtendFromIsSignExtension((if top == 1 then v / 0x1_0000 else v) % 0x1_0000, 0x8000);
  }

  /** A product of two naturals is at most the product of their bounds. */
  lemma ProductAtMost(a: int, b: int, x: int, y: int)
    requires 0 <= a <= x && 0 <= b <= y
    ensures a * b <= x * y
  {
    assert x * b - a * b == (x - a) * b;
    assert x * y - x * b == x * (y - b);
  }

  /** The product of two signed halfwords lies in `(-2^30, 2^30]`. */
  lemma HalfProductBounds(a: int, b: int)
    requires -0x8000 <= a < 0x8000 && -0x8000 <= b < 0x8000
    ensures -0x4000_0000 < a * b <= 0x4000_0000
  {
    if a >= 0 && b >= 0 {
      ProductAtMost(a, b, 0x7FFF, 0x7FFF);
    } else if a < 0 && b < 0 {
      ProductAtMost(-a, -b, 0x8000, 0x8000);
      assert a * b == (-a) * (-b);
    } else if a < 0 {
      ProductAtMost(-a, b, 0x8000, 0x7FFF);
      assert a * b == -((-a) * b);
    } else {
      ProductAtMost(a, -b, 0x7FFF, 0x8000);
      assert a * b == -(a * (-b));
    }
  }

  /**
   * SMULxy and SMLAxy multiply the signed halves of `Rm` (by x) and `Rs`
   * (by y): SMULxy puts the product in `Rd`, SMLAxy the product plus `Rn`
   * modulo 2^32; no other register and no byte changes.
   */
  lemma HalfMultiplyProduct(m: State, instr: int)
    requires WellFormed(m)
    requires instr / 0x20_0000 % 16 % 4 == 0 || instr / 0x20_0000 % 16 % 4 == 3
    ensures var op, rd, rn := instr / 0x20_0000 % 16 % 4, instr / 0x1_0000 % 16, instr / 0x1000 % 16;
      var rs, y, x, rm := instr / 0x100 % 16, instr / 0x40 % 2, instr / 0x20 % 2, instr % 16;
      var p, r := SignedHalf(m.reg[rm], x) * SignedHalf(m.reg[rs], y), HalfMultiply(m, instr);
      -0x4000_0000 < p <= 0x4000_0000 && r.mem == m.mem
      && r.reg == m.reg[rd := if op == 3 then p else (p + m.reg[rn]) % TWO32]
  {
    var rs, y, x, rm := instr / 0x100 % 16, instr / 0x40 % 2, instr / 0x20 % 2, instr % 16;
    HalfSigned(m.reg[rm], x);
    HalfSigned(m.reg[rs], y);
    HalfProductBounds(SignedHalf(m.reg[rm], x), SignedHalf(m.reg[rs], y));
  }

  /**
   * SMULWy and SMLAWy multiply the signed word `Rm` by the signed half of
   * `Rs`, keep bits 16 and up, and add `Rn` unless x is set, modulo 2^32.
   */
  lemma HalfMultiplyWord(m: State, instr: int)
    requires WellFormed(m) && instr / 0x20_0000 % 16 % 4 == 1
    ensures var rd, rn := instr / 0x1_0000 % 16, instr / 0x1000 % 16;
      var rs, y, x, rm := instr / 0x100 % 16, instr / 0x40 % 2, instr / 0x20 % 2, instr % 16;
      var r := HalfMultiply(m, instr);
      r.mem == m.mem && r.reg == m.reg[rd := (Signed32(m.reg[rm]) * SignedHalf(m.reg[rs], y) / 0x1_0000 + (if x == 0 then m.reg[rn] else 0)) % TWO32]
  {
    HalfSigned(m.reg[instr / 0x100 % 16], instr / 0x40 % 2);
  }

  /** On word registers, `Reg[Rd] << 32 | Reg[Rn]` is the 64-bit number `Rd:Rn`. */
  lemma LongAccumulateSum(hi: int, lo: int, product: int)
    requires 0 <= hi < TWO32 && 0 <= lo < TWO32
    ensures LongAccumulate(hi, lo, product) == hi * TWO32 + lo + product
  {
    Pow2Constants();
    Pow2Add(32, 32);
    ProductBelow(hi, 0, TWO32);
    assert hi * TWO32 < TWO32 * TWO32 by {
      ProductAtMost(hi, TWO32, TWO32 - 1, TWO32);
    }
    DivModUnique(hi * TWO32, TWO32, hi, 0);
    OrDisjoint(hi * TWO32, lo, 32, 64);
  }

  /**
   * SMLALxy adds the product of the signed halves to the 64-bit number
   * `Rd:Rn` of word registers: with `sum` that exact sum, it writes `sum`
   * modulo 2^64 back as `Rd:Rn`.
   */
  lemma HalfMultiplyLong(m: State, instr: int, sum: int)
    requires WellFormed(m) && instr / 0x20_0000 % 16 % 4 == 2
    requires 0 <= m.reg[instr / 0x1_0000 % 16] < TWO32 && 0 <= m.reg[instr / 0x1000 % 16] < TWO32
    requires var rd, rn := instr / 0x1_0000 % 16, instr / 0x1000 % 16;
      var rs, y, x, rm := instr / 0x100 % 16, instr / 0x40 % 2, instr / 0x20 % 2, instr % 16;
      sum == m.reg[rd] * TWO32 + m.reg[rn] + SignedHalf(m.reg[rm], x) * SignedHalf(m.reg[rs], y)
    ensures HalfMultiply(m, instr) == SplitLong(m, instr / 0x1_0000 % 16, instr / 0x1000 % 16, sum % (TWO32 * TWO32))
  {
    HalfValueLong(m, instr);
    HalfMultiplyLongAt(m, instr, instr / 0x1_0000 % 16, instr / 0x1000 % 16, sum);
  }

  /** SMLALxy splits its value over `Rd:Rn`, and only its value modulo 2^64 matters. */
  lemma HalfMultiplyLongAt(m: State, instr: int, rd: nat, rn: nat, v: int)
    requires WellFormed(m) && instr / 0x20_0000 % 16 % 4 == 2
    requires rd == instr / 0x1_0000 % 16 && rn == instr / 0x1000 % 16 && HalfValue(m, instr) == v
    ensures HalfMultiply(m, instr) == SplitLong(m, rd, rn, v % (TWO32 * TWO32))
  {
    assert HalfMultiply(m, instr) == SplitLong(m, rd, rn, v);
    ModTwice(v, TWO32 * TWO32);
    SplitLongModulo(m, rd, rn, v, v % (TWO32 * TWO32));
  }

  /** On word registers, the value of SMLALxy is `Rd:Rn` plus the product of the signed halves. */
  lemma HalfValueLong(m: State, instr: int)
    requires WellFormed(m) && instr / 0x20_0000 % 16 % 4 == 2
    requires 0 <= m.reg[instr / 0x1_0000 % 16] < TWO32 && 0 <= m.reg[instr / 0x1000 % 16] < TWO32
    ensures var rd, rn := instr / 0x1_0000 % 16, instr / 0x1000 % 16;
      var rs, y, x, rm := instr / 0x100 % 16, instr / 0x40 % 2, instr / 0x20 % 2, instr % 16;
      HalfValue(m, instr) == m.reg[rd] * TWO32 + m.reg[rn] + SignedHalf(m.reg[rm], x) * SignedHalf(m.reg[rs], y)
  {
    var rd, rn := instr / 0x1_0000 % 16, instr / 0x1000 % 16;
    var rs, y, x, rm := instr / 0x100 % 16, instr / 0x40 % 2, instr / 0x20 % 2, instr % 16;
    HalfSigned(m.reg[rm], x);
    HalfSigned(m.reg[rs], y);
    LongAccumulateSum(m.reg[rd], m.reg[rn], SignedHalf(m.reg[rm], x) * SignedHalf(m.reg[rs], y));
  }

  lemma ModTwice(x: int, n: int)
    requires n > 0
    ensures x % n % n == x % n
  {
    DivModUnique(x % n, n, 0, x % n);
  }

  /**
   * `SplitLong` keeps only bits 0-63 of its result: results equal modulo
   * 2^64 write the same `Rd` and `Rn`. So the low 64 bits that `Or` keeps
   * of `Reg[Rd] << 32 | Reg[Rn]` give the registers the unbounded value gives.
   */
  lemma SplitLongModulo(m: State, hi: nat, lo: nat, x: int, y: int)
    requires WellFormed(m) && hi < 16 && lo < 16
    requires x % (TWO32 * TWO32) == y % (TWO32 * TWO32)
    ensures SplitLong(m, hi, lo, x) == SplitLong(m, hi, lo, y)
  {
    DivDiv(x, TWO32, TWO32);
    DivDiv(y, TWO32, TWO32);
    DivModUnique(x % (TWO32 * TWO32), TWO32, x / TWO32 % TWO32, x % TWO32);
    DivModUnique(y % (TWO32 * TWO32), TWO32, y / TWO32 % TWO32, y % TWO32);
  }

  /** The offset after the up/down bit: added when U is set, subtracted otherwise. */
  function Signed(offset: int, u: int): int
  {
    if u == 1 then offset else -offset
  }

  /**
   * The base register write-back of a transfer: pre-indexed (P) transfers use
   * `Rn + offset`, post-indexed ones `Rn`; `Rn` becomes `Rn + offset` when
   * post-indexed or when W is set.
   */
  function Indexed(m: State, rn: nat, p: int, w: int, delta: int): State
    requires WellFormed(m) && rn < 16
  {
    if p == 0 || w == 1 then SetReg(m, rn, m.reg[rn] + delta) else m
  }

  /** The offset of a single data transfer: the 12-bit immediate, or a shifted register when I is set. */
  function WordOffset(m: State, instr: int): int
    requires WellFormed(m)
  {
    var offset := instr % 0x1000;
    if instr / 0x200_0000 % 2 == 1 then BarrelShift(m.reg[offset % 16], offset / 0x80 % 32, offset / 0x20 % 4, 0, m.reg[16]).value
    else offset
  }

  /** The offset of a halfword transfer: split 4+4-bit immediate when bit 22 is set, `Rm` otherwise. */
  function HalfOffset(m: State, instr: int): int
    requires WellFormed(m)
  {
    var offset := instr % 0x1000;
    if instr / 0x40_0000 % 2 == 1 then offset / 0x100 % 16 * 16 + offset % 16 else m.reg[offset % 16]
  }

  /** The offset a transfer adds to `Rn`, after U. */
  function TransferDelta(m: State, instr: int): int
    requires WellFormed(m)
  {
    Signed(if instr / 0x400_0000 % 2 == 1 then WordOffset(m, instr) else HalfOffset(m, instr), instr / 0x80_0000 % 2)
  }

  /** The address a transfer uses. */
  function TransferAddress(m: State, instr: int): int
    requires WellFormed(m)
  {
    m.reg[instr / 0x1_0000 % 16] + if instr / 0x100_0000 % 2 == 1 then TransferDelta(m, instr) else 0
  }

  /** The state a single data transfer works on: `Indexed` with the base register, P, W and offset fields of `instr`. */
  function TransferBase(m: State, instr: int): State
    requires WellFormed(m)
  {
    Indexed(m, instr / 0x1_0000 % 16, instr / 0x100_0000 % 2, instr / 0x20_0000 % 2, TransferDelta(m, instr))
  }

  /** The size of an LDR/STR: a byte when B (bit 22) is set, a word otherwise. */
  function WordSize(instr: int): nat
  {
    4 - 3 * (instr / 0x40_0000 % 2)
  }

  /**
   * `datatransfer`. With bit 26 (D) set: LDR/STR of a word, or a byte when B
   * is set. Otherwise the halfword and doubleword forms.
   */
  function DataTransfer(m: State, instr: int): (r: State)
    requires WellFormed(m)
    ensures WellFormed(r)
  {
    if instr / 0x400_0000 % 2 == 1 then WordTransfer(m, instr) else HalfTransfer(m, instr)
  }

  /** LDR/STR: `Rd` loaded from or stored at the transfer address, after the write-back of `Rn`. */
  function WordTransfer(m: State, instr: int): (r: State)
    requires WellFormed(m) && instr / 0x400_0000 % 2 == 1
    ensures WellFormed(r)
  {
    var l, rd := instr / 0x10_0000 % 2, instr / 0x1000 % 16;
    var addr := TransferAddress(m, instr);
    var m1 := TransferBase(m, instr);
    if l == 1 then Load(m1, rd, addr, WordSize(instr)) else Write(m1, addr, m1.reg[rd], WordSize(instr))
  }

  /**
   * The halfword forms by type: 0 swaps `2 - B` bytes at `Rn`, 1 loads or
   * stores a halfword, 2 loads a signed byte or (store encoding) reads two
   * words into `Rd` and `Rd+1`, 3 loads a signed halfword or stores `Rd`
   * and `Rd+1` as two words.
   */
  function HalfTransfer(m: State, instr: int): (r: State)
    requires WellFormed(m) && instr / 0x400_0000 % 2 == 0
    ensures WellFormed(r)
  {
    var typ, l := instr / 0x20 % 4, instr / 0x10_0000 % 2;
    var addr := TransferAddress(m, instr);
    var m1 := TransferBase(m, instr);
    if typ == 0 then Swap(m1, instr / 0x1_0000 % 16, instr / 0x1000 % 16, instr % 16, 2 - instr / 0x40_0000 % 2)
    else if l == 1 then HalfLoad(m1, instr, addr)
    else HalfStore(m1, instr, addr)
  }

  /** The swap of type 0: `Rd` loaded from `Rn`, then the earlier `Rm` stored at the new `Rn`, `size` bytes each. */
  function Swap(m: State, rn: nat, rd: nat, rm: nat, size: nat): (r: State)
    requires WellFormed(m) && rn < 16 && rd < 16 && rm < 16
    ensures WellFormed(r)
  {
    var temp := m.reg[rm];
    var m2 := Load(m, rd, m.reg[rn], size);
    Write(m2, m2.reg[rn], temp, size)
  }

  /** LDRH, LDRSB and LDRSH at `addr`. */
  function HalfLoad(m: State, instr: int, addr: int): (r: State)
    requires WellFormed(m)
    ensures WellFormed(r) && r.mem == m.mem
  {
    var typ, rd := instr / 0x20 % 4, instr / 0x1000 % 16;
    if typ == 1 then Load(m, rd, addr, 2)
    else if typ == 2 then LoadSigned(m, rd, addr, 1)
    else LoadSigned(m, rd, addr, 2)
  }

  /** STRH, and the two-word load and store of types 2 and 3, at `addr`. */
  function HalfStore(m: State, instr: int, addr: int): (r: State)
    requires WellFormed(m)
    ensures WellFormed(r)
  {
    var typ, rd := instr / 0x20 % 4, instr / 0x1000 % 16;
    if typ == 1 then Write(m, addr, m.reg[rd], 2)
    else if typ == 2 then LoadPair(m, rd, addr)
    else StorePair(m, rd, addr)
  }

  /** `Reg[Rd], Reg[Rd+1] = mem_read(addr, 4), mem_read(addr + 4, 4)`: both reads first, then both registers. */
  function LoadPair(m: State, rd: nat, addr: int): (r: State)
    requires WellFormed(m) && rd < 16
    ensures WellFormed(r) && r.mem == m.mem
  {
    var first := ReadValue(m.mem, addr, 4);
    var m2 := AfterRead(m, addr, 4, first);
    var second := ReadValue(m2.mem, Plus(addr, 4), 4);
    var m3 := AfterRead(m2, Plus(addr, 4), 4, second);
    SetReg(SetReg(m3, rd, first), rd + 1, second)
  }

  /** `Rd` stored at `addr`, then `Rd+1` at `addr + 4`. */
  function StorePair(m: State, rd: nat, addr: int): (r: State)
    requires WellFormed(m) && rd < 16
    ensures WellFormed(r)
  {
    var m2 := Write(m, addr, m.reg[rd], 4);
    Write(m2, Plus(addr, 4), m2.reg[rd + 1], 4)
  }

  /**
   * The base register after a store, or after a load into another register:
   * moved by the offset when post-indexed or written back, kept otherwise.
   */
  lemma DataTransferWriteBack(m: State, instr: int)
    requires WellFormed(m)
    requires instr / 0x400_0000 % 2 == 1
    requires instr / 0x10_0000 % 2 == 0 || instr / 0x1000 % 16 != instr / 0x1_0000 % 16
    ensures var r, rn, p, w := DataTransfer(m, instr), instr / 0x1_0000 % 16, instr / 0x100_0000 % 2, instr / 0x20_0000 % 2;
      r.reg[rn] == if p == 0 || w == 1 then m.reg[rn] + TransferDelta(m, instr) else m.reg[rn]
  {
  }

  /**
   * A word or byte store writes `Rd` at the transfer address, where a read
   * of the same size gives it back, when it stays within its region and
   * does not start a DMA transfer.
   */
  lemma StoreThenLoad(m: State, instr: int)
    requires WellFormed(m)
    requires instr / 0x400_0000 % 2 == 1 && instr / 0x10_0000 % 2 == 0
    requires var m1, addr, size := TransferBase(m, instr), TransferAddress(m, instr), WordSize(instr);
      var region := m1.mem[RegionIndex(addr)];
      addr % |region| + size <= |region| && EnableByte(Stored(m1, addr, m1.reg[instr / 0x1000 % 16], size).mem) < 0x80
    ensures var m1, addr, size := TransferBase(m, instr), TransferAddress(m, instr), WordSize(instr);
      ReadValue(DataTransfer(m, instr).mem, addr, size) == m1.reg[instr / 0x1000 % 16] % Pow256(size)
  {
    var m1, addr, size := TransferBase(m, instr), TransferAddress(m, instr), WordSize(instr);
    StoreWrites(m, instr);
    WriteThenRead(m1, addr, m1.reg[instr / 0x1000 % 16], size);
  }

  /** A word or byte store is one `Write` of `Rd` on the indexed state. */
  lemma StoreWrites(m: State, instr: int)
    requires WellFormed(m)
    requires instr / 0x400_0000 % 2 == 1 && instr / 0x10_0000 % 2 == 0
    ensures var m1 := TransferBase(m, instr);
      DataTransfer(m, instr) == Write(m1, TransferAddress(m, instr), m1.reg[instr / 0x1000 % 16], WordSize(instr))
  {
  }

  /**
   * LDRH, LDRSB and LDRSH (D clear, L set, type 1, 2 or 3) put the unsigned
   * halfword, the sign-extended byte or the sign-extended halfword at the
   * transfer address in `Rd`, after the write-back of `Rn`, and change no byte.
   */
  lemma HalfLoads(m: State, instr: int)
    requires WellFormed(m) && instr / 0x400_0000 % 2 == 0 && instr / 0x10_0000 % 2 == 1 && instr / 0x20 % 4 != 0
    ensures var typ, rd, m1, addr := instr / 0x20 % 4, instr / 0x1000 % 16, TransferBase(m, instr), TransferAddress(m, instr);
      var r := DataTransfer(m, instr);
      r.mem == m.mem
      && r.reg == m1.reg[rd := if typ == 1 then ReadValue(m.mem, addr, 2) else SignedValue(m.mem, addr, typ - 1)]
  {
  }

  /**
   * STRH (D clear, L clear, type 1) keeps the registers after the write-back
   * of `Rn` and writes the low halfword of `Rd` at the transfer address,
   * where LDRH reads it back, when it stays in its region and does not start
   * a DMA transfer.
   */
  lemma HalfStoreThenLoad(m: State, instr: int)
    requires WellFormed(m)
    requires instr / 0x400_0000 % 2 == 0 && instr / 0x10_0000 % 2 == 0 && instr / 0x20 % 4 == 1
    requires var m1, addr := TransferBase(m, instr), TransferAddress(m, instr);
      var region := m1.mem[RegionIndex(addr)];
      addr % |region| + 2 <= |region| && EnableByte(Stored(m1, addr, m1.reg[instr / 0x1000 % 16], 2).mem) < 0x80
    ensures var m1, addr, r := TransferBase(m, instr), TransferAddress(m, instr), DataTransfer(m, instr);
      r.reg == m1.reg && ReadValue(r.mem, addr, 2) == m1.reg[instr / 0x1000 % 16] % 0x1_0000
  {
    var m1, addr := TransferBase(m, instr), TransferAddress(m, instr);
    assert DataTransfer(m, instr) == Write(m1, addr, m1.reg[instr / 0x1000 % 16], 2);
    WriteThenRead(m1, addr, m1.reg[instr / 0x1000 % 16], 2);
  }

  /** LDRD (D clear, L clear, type 2) puts the words at the transfer address and four bytes on in `Rd` and `Rd+1`. */
  lemma LoadPairWords(m: State, instr: int)
    requires WellFormed(m) && instr / 0x400_0000 % 2 == 0 && instr / 0x10_0000 % 2 == 0 && instr / 0x20 % 4 == 2
    ensures var rd, m1, addr := instr / 0x1000 % 16, TransferBase(m, instr), TransferAddress(m, instr);
      var r := DataTransfer(m, instr);
      r.mem == m.mem && r.reg == m1.reg[rd := ReadValue(m.mem, addr, 4)][rd + 1 := ReadValue(m.mem, addr + 4, 4)]
  {
  }

  /**
   * The swap loads `Rd` from the address in `Rn` and stores the earlier `Rm`
   * at the address then in `Rn` (the loaded value when `Rd` is `Rn`), where a
   * read gives it back, when the store stays in its region and does not
   * start a DMA transfer.
   */
  lemma SwapExchanges(m: State, rn: nat, rd: nat, rm: nat, size: nat)
    requires WellFormed(m) && rn < 16 && rd < 16 && rm < 16
    requires var to := if rd == rn then ReadValue(m.mem, m.reg[rn], size) else m.reg[rn];
      var region := m.mem[RegionIndex(to)];
      to % |region| + size <= |region| && EnableByte(Stored(m, to, m.reg[rm], size).mem) < 0x80
    ensures var loaded := ReadValue(m.mem, m.reg[rn], size);
      var to, r := if rd == rn then loaded else m.reg[rn], Swap(m, rn, rd, rm, size);
      r.reg == m.reg[rd := loaded] && ReadValue(r.mem, to, size) == m.reg[rm] % Pow256(size)
  {
    var to := if rd == rn then ReadValue(m.mem, m.reg[rn], size) else m.reg[rn];
    var m2 := Load(m, rd, m.reg[rn], size);
    assert Stored(m2, to, m.reg[rm], size).mem == Stored(m, to, m.reg[rm], size).mem;
    WriteThenRead(m2, to, m.reg[rm], size);
  }

  /** The direction of a block transfer. */
  function Step(up: bool): int
  {
    if up then 4 else -4
  }

  /** The register a block transfer visits at iteration `k`: ascending when up, descending otherwise. */
  function BlockIndex(up: bool, k: nat): nat
    requires k < 16
  {
    if up then k else 15 - k
  }

  /** The registers the iterations `k .. 15` of the loop of `blocktransfer` will still visit. */
  function Remaining(rlist: int, up: bool, k: nat): nat
    requires k <= 16
  {
    PopcountMonotone(rlist, k, 16);
    if up then Popcount(rlist, 16) - Popcount(rlist, k) else Popcount(rlist, 16 - k)
  }

  lemma {:induction false} PopcountMonotone(x: int, a: nat, b: nat)
    requires a <= b
    ensures Popcount(x, a) <= Popcount(x, b)
    decreases b - a
  {
    if a < b {
      PopcountMonotone(x, a, b - 1);
    }
  }

  /** Iteration `k` of the loop of `blocktransfer`: a listed register is loaded or stored at `addr`, which moves one step on. */
  function BlockOne(m: State, l: int, up: bool, rlist: int, addr: int, k: nat): (t: Transfer)
    requires WellFormed(m) && k < 16
    ensures WellFormed(t.m)
    ensures t.addr == addr + Step(up) * Bit(rlist, BlockIndex(up, k))
    ensures l != 1 ==> t.m.reg == m.reg
  {
    var index := BlockIndex(up, k);
    if rlist / Pow2(index) % 2 == 1 then
      Transfer(if l == 1 then Load(m, index, addr, 4) else Write(m, addr, m.reg[index], 4), Plus(addr, Step(up)))
    else Transfer(m, addr)
  }

  /** The iterations `k .. 15` of the loop of `blocktransfer`. */
  function BlockFrom(m: State, l: int, up: bool, rlist: int, addr: int, k: nat): (t: Transfer)
    requires WellFormed(m) && k <= 16
    ensures WellFormed(t.m)
    ensures t.addr == addr + Step(up) * Remaining(rlist, up, k)
    ensures l != 1 ==> t.m.reg == m.reg
    decreases 16 - k
  {
    if k == 16 then Transfer(m, addr)
    else
      PopcountMonotone(rlist, k + 1, 16);
      var t := BlockOne(m, l, up, rlist, addr, k);
      BlockFrom(t.m, l, up, rlist, t.addr, k + 1)
  }

  /** One iteration taken off the front of `BlockFrom`. */
  lemma BlockStep(m: State, l: int, up: bool, rlist: int, addr: int, k: nat)
    requires WellFormed(m) && k < 16
    ensures var t := BlockOne(m, l, up, rlist, addr, k);
      BlockFrom(m, l, up, rlist, addr, k) == BlockFrom(t.m, l, up, rlist, t.addr, k + 1)
  {
  }

  /**
   * `blocktransfer` (LDM/STM): every register of the list in ascending order
   * (U set) or descending order, at addresses 4 apart starting at `Rn`, or
   * one step on when pre-indexed; W writes the final address to `Rn`. The
   * S bit is decoded and has no effect.
   */
  function BlockTransfer(m: State, instr: int): (r: State)
    requires WellFormed(m)
    ensures WellFormed(r)
  {
    var up, l, rlist := instr / 0x80_0000 % 2 == 1, instr / 0x10_0000 % 2, instr % 0x1_0000;
    BlockEnd(BlockFrom(m, l, up, rlist, BlockStart(m, instr), 0), instr)
  }

  /** The first address of a block transfer: `Rn`, or one step on when pre-indexed. */
  function BlockStart(m: State, instr: int): int
    requires WellFormed(m)
  {
    var p, up, rn := instr / 0x100_0000 % 2, instr / 0x80_0000 % 2 == 1, instr / 0x1_0000 % 16;
    if p == 1 then m.reg[rn] + Step(up) else m.reg[rn]
  }

  /** The write-back after the loop: with W set, `Rn` gets the last address visited (pre-indexed) or the one after it. */
  function BlockEnd(t: Transfer, instr: int): (r: State)
    requires WellFormed(t.m)
    ensures WellFormed(r)
  {
    var p, up, w, rn := instr / 0x100_0000 % 2, instr / 0x80_0000 % 2 == 1, instr / 0x20_0000 % 2, instr / 0x1_0000 % 16;
    var last := if p == 1 then t.addr - Step(up) else t.addr;
    if w == 1 then SetReg(t.m, rn, last) else t.m
  }

  /** With W set the base register moves by four bytes per listed register, up or down. */
  lemma BlockWriteBack(m: State, instr: int)
    requires WellFormed(m) && instr / 0x20_0000 % 2 == 1
    ensures var r, rn, up := BlockTransfer(m, instr), instr / 0x1_0000 % 16, instr / 0x80_0000 % 2 == 1;
      r.reg[rn] == m.reg[rn] + Step(up) * Popcount(instr % 0x1_0000, 16)
  {
  }

  /** A block store without write-back changes no register. */
  lemma BlockStoreKeepsRegisters(m: State, instr: int)
    requires WellFormed(m) && instr / 0x20_0000 % 2 == 0 && instr / 0x10_0000 % 2 == 0
    ensures BlockTransfer(m, instr).reg == m.reg
  {
  }
}
