/**
 * The Thumb handlers, each a function from the state before the handler
 * runs to the state after. Fields are cut out of the instruction as the
 * source does it: `instr >> k & mask` is `instr / 2^k % (mask + 1)`. The
 * source passes `x & y`, `x | y` and `x ^ y` to `cmphalf`, which keeps only
 * the low 32 bits, so those bits (`And`, `Or`, `Xor` over 32 bits) are what
 * the model passes.
 */
module Thumb {
  import opened Bits
  import opened Memory
  import opened Alu
  import opened Conditions
  import opened Machine

  /** `shifted`: `Rd := barrelshift(Rs, Offset, Op)`, setting N, Z and C. */
  function Shifted(m: State, instr: int): (r: State)
    requires WellFormed(m)
    ensures WellFormed(r) && r.mem == m.mem
  {
    var op, offset, rs, rd := instr / 0x800 % 4, instr / 0x40 % 32, instr / 8 % 8, instr % 8;
    WithFlags(m, BarrelShift(m.reg[rs], offset, op, 1, m.reg[16]), rd)
  }

  /** `addsub`: `Rd := Rs + Rn` or `Rs - Rn`, where `Rn` is a register or a 3-bit constant. */
  function AddSub(m: State, instr: int): (r: State)
    requires WellFormed(m)
    ensures WellFormed(r) && r.mem == m.mem
  {
    var i, op, rn, rs, rd := instr / 0x400 % 2, instr / 0x200 % 2, instr / 0x40 % 8, instr / 8 % 8, instr % 8;
    var b := if i == 0 then m.reg[rn] else rn;
    WithFlags(m, Compare(m.reg[rs], if op == 0 then b else -b, 1, m.reg[16]), rd)
  }

  /** `immediate`: MOV, CMP, ADD and SUB with an 8-bit constant. */
  function Immediate(m: State, instr: int): (r: State)
    requires WellFormed(m)
    ensures WellFormed(r) && r.mem == m.mem
  {
    var op, rd, offset := instr / 0x800 % 4, instr / 0x100 % 8, instr % 0x100;
    var st := m.reg[16];
    if op == 0 then WithFlags(m, CmpHalf(offset, 1, st), rd)
    else if op == 1 then SetReg(m, 16, Compare(m.reg[rd], -offset, 1, st).status)
    else if op == 2 then WithFlags(m, Compare(m.reg[rd], offset, 1, st), rd)
    else WithFlags(m, Compare(m.reg[rd], -offset, 1, st), rd)
  }

  /** `alu_ops[op](Rd, Rs)`: the sixteen Thumb ALU operations, all setting flags. */
  function AluResult(op: int, rd: int, rs: int, status: int): Flagged
    requires 0 <= op < 16
  {
    var carry := status / BIT29 % 2;
    match op
    case 0 => CmpHalf(And(rd, rs, 32), 1, status)
    case 1 => CmpHalf(Xor(rd, rs, 32), 1, status)
    case 2 => BarrelShift(rd, rs % 32, 0, 1, status)
    case 3 => BarrelShift(rd, rs % 32, 1, 1, status)
    case 4 => BarrelShift(rd, rs % 32, 2, 1, status)
    case 5 => Compare(rd, rs + carry, 1, status)
    case 6 => Compare(rd, -rs + carry - 1, 1, status)
    case 7 => BarrelShift(rd, rs % 32, 3, 1, status)
    case 8 => CmpHalf(And(rd, rs, 32), 1, status)
    case 9 => Compare(0, -rs, 1, status)
    case 10 => Compare(rd, -rs, 1, status)
    case 11 => Compare(rd, rs, 1, status)
    case 12 => CmpHalf(Or(rd, rs, 32), 1, status)
    case 13 => CmpHalf(rd * rs, 1, status)
    case 14 => CmpHalf(And(rd, Complement(rs), 32), 1, status)
    case _ => CmpHalf(Complement(rs), 1, status)
  }

  /** TST, CMP and CMN only set the flags. */
  predicate CompareOnly(op: int)
  {
    op == 8 || op == 10 || op == 11
  }

  /** `AluOp`. */
  function AluOp(m: State, instr: int): (r: State)
    requires WellFormed(m)
    ensures WellFormed(r) && r.mem == m.mem
  {
    var op, rs, rd := instr / 0x40 % 16, instr / 8 % 8, instr % 8;
    var f := AluResult(op, m.reg[rd], m.reg[rs], m.reg[16]);
    var m1 := SetReg(m, 16, f.status);
    if CompareOnly(op) then m1 else SetReg(m1, rd, f.value)
  }

  /** `HiRegBx`: ADD, CMP and MOV on all sixteen registers, and BX/BLX. */
  function HiRegBx(m: State, instr: int): (r: State)
    requires WellFormed(m)
    ensures WellFormed(r) && r.mem == m.mem
  {
    var op, hd, hs := instr / 0x100 % 4, instr / 0x80 % 2, instr / 0x40 % 2;
    var rs, rd := Plus(instr / 8 % 8, 8 * hs), Plus(instr % 8, 8 * hd);
    if op == 0 then SetReg(m, rd, Plus(m.reg[rd], m.reg[rs]))
    else if op == 1 then SetReg(m, 16, Compare(m.reg[rd], -m.reg[rs], 1, m.reg[16]).status)
    else if op == 2 then SetReg(m, rd, m.reg[rs])
    else
      var mode := m.reg[rs] % 2;
      var m1 := if hd == 1 then SetReg(m, 14, m.reg[15] + 1) else m;
      WithMode(SetReg(m1, 15, Plus(m1.reg[rs], 4 - 3 * mode)), mode)
  }

  /** `Reg[15] & ~2`, written as in the source: `Reg[15] - (Reg[15] & 2)`. */
  function WordAligned(pc: int): int
  {
    pc - pc / 2 % 2 * 2
  }

  /** `ldr_pc`: a word load relative to the word-aligned program counter. */
  function LdrPc(m: State, instr: int): (r: State)
    requires WellFormed(m)
    ensures WellFormed(r) && r.mem == m.mem
  {
    var rd, word := instr / 0x100 % 8, instr % 0x100;
    Load(m, rd, Plus(WordAligned(m.reg[15]), word * 4), 4)
  }

  /** `ldrstr`: loads and stores with a register offset. */
  function LdrStr(m: State, instr: int): (r: State)
    requires WellFormed(m)
    ensures WellFormed(r) && SameShape(r.mem, m.mem)
  {
    var op, s, ro, rb, rd := instr / 0x400 % 4, instr / 0x200 % 2, instr / 0x40 % 8, instr / 8 % 8, instr % 8;
    var addr := Plus(m.reg[rb], m.reg[ro]);
    if s == 0 then
      if op == 0 then Write(m, addr, m.reg[rd], 4)
      else if op == 1 then Write(m, addr, m.reg[rd], 1)
      else if op == 2 then Load(m, rd, addr, 4)
      else Load(m, rd, addr, 1)
    else
      if op == 0 then Write(m, addr, m.reg[rd], 2)
      else if op == 1 then LoadSigned(m, rd, addr, 1)
      else if op == 2 then Load(m, rd, addr, 2)
      else LoadSigned(m, rd, addr, 2)
  }

  /** The access size of `ldrstr_imm`: `Op ^ 2`, except 4 for `Op == 2`. */
  function ImmSize(op: int): nat
  {
    if op == 0 then 2 else if op == 1 then 3 else if op == 2 then 4 else 1
  }

  /** `ldrstr_imm`: loads and stores with a 5-bit offset scaled by the size. */
  function LdrStrImm(m: State, instr: int): (r: State)
    requires WellFormed(m)
    ensures WellFormed(r) && SameShape(r.mem, m.mem)
  {
    var op, l, offset, rb, rd := instr / 0x1000 % 4, instr / 0x800 % 2, instr / 0x40 % 32, instr / 8 % 8, instr % 8;
    var size := ImmSize(op);
    var addr := Plus(m.reg[rb], offset * size);
    if l == 0 then Write(m, addr, m.reg[rd], size) else Load(m, rd, addr, size)
  }

  /** `ldrstr_sp`: word loads and stores relative to the stack pointer. */
  function LdrStrSp(m: State, instr: int): (r: State)
    requires WellFormed(m)
    ensures WellFormed(r) && SameShape(r.mem, m.mem)
  {
    var op, rd, word := instr / 0x800 % 2, instr / 0x100 % 8, instr % 0x100;
    var addr := Plus(m.reg[13], word * 4);
    if op == 0 then Write(m, addr, m.reg[rd], 4) else Load(m, rd, addr, 4)
  }

  /** `get_reladdr`: an address relative to the aligned program counter or the stack pointer. */
  function GetRelAddr(m: State, instr: int): (r: State)
    requires WellFormed(m)
    ensures WellFormed(r) && r.mem == m.mem
  {
    var op, rd, word := instr / 0x800 % 2, instr / 0x100 % 8, instr % 0x100;
    SetReg(m, rd, if op == 0 then WordAligned(m.reg[15]) + word * 4 else m.reg[13] + word * 4)
  }

  /** `add_sp`: moves the stack pointer by a 7-bit count of words. */
  function AddSp(m: State, instr: int): (r: State)
    requires WellFormed(m)
    ensures WellFormed(r) && r.mem == m.mem
  {
    var s, word := instr / 0x80 % 2, instr % 0x80;
    SetReg(m, 13, if s == 0 then m.reg[13] + word * 4 else m.reg[13] - word * 4)
  }

  /** `[i for i in range(n) if bits & 2**i]`. */
  function SetBits(bits: int, n: nat): (s: seq<nat>)
    ensures |s| == Popcount(bits, n)
    ensures forall k :: 0 <= k < |s| ==> s[k] < n
  {
    if n == 0 then [] else SetBits(bits, n - 1) + if bits / Pow2(n - 1) % 2 == 1 then [n - 1] else []
  }

  /** The registers of a PUSH or POP, with bit 8 standing for LR (push) or PC (pop). */
  function StackList(instr: int): (s: seq<nat>)
    ensures forall k :: 0 <= k < |s| ==> s[k] < 8 || s[k] == 14 || s[k] == 15
  {
    var op := instr / 0x800 % 2;
    var list := SetBits(instr % 0x200, 9);
    if list != [] && list[|list| - 1] == 8 then list[|list| - 1 := 14 + op] else list
  }

  /** The push of `pushpop` at step `k` of the walk down `reversed(Rlist)`: SP moves down a word and `list[|list|-1-k]` is stored there. */
  function PushOne(m: State, list: seq<nat>, k: nat): (r: State)
    requires WellFormed(m) && k < |list|
    requires forall i :: 0 <= i < |list| ==> list[i] < 17
    ensures WellFormed(r) && r.reg == m.reg[13 := m.reg[13] - 4]
  {
    var m1 := SetReg(m, 13, Plus(m.reg[13], -4));
    Write(m1, m1.reg[13], m1.reg[list[|list| - 1 - k]], 4)
  }

  /** The pushes still to do after `k` of them: `list[|list|-1-k]`, then the one below it, down to `list[0]`. */
  function PushFrom(m: State, list: seq<nat>, k: nat): (r: State)
    requires WellFormed(m) && k <= |list|
    requires forall i :: 0 <= i < |list| ==> list[i] < 17
    ensures WellFormed(r)
    ensures r.reg[13] == m.reg[13] - 4 * (|list| - k)
    ensures forall i :: 0 <= i < 17 && i != 13 ==> r.reg[i] == m.reg[i]
    decreases |list| - k
  {
    if k == |list| then m else PushFrom(PushOne(m, list, k), list, k + 1)
  }

  /** One pop of `pushpop`: `list[j]` is loaded from SP, and SP moves up a word. */
  function PopOne(m: State, list: seq<nat>, j: nat): (r: State)
    requires WellFormed(m) && j < |list|
    requires forall k :: 0 <= k < |list| ==> list[k] < 17
    ensures WellFormed(r) && r.mem == m.mem
  {
    var m1 := Load(m, list[j], m.reg[13], 4);
    SetReg(m1, 13, Plus(m1.reg[13], 4))
  }

  /** The pops still to do: `list[j]`, then `list[j+1]`, up to the end. */
  function PopFrom(m: State, list: seq<nat>, j: nat): (r: State)
    requires WellFormed(m) && j <= |list|
    requires forall k :: 0 <= k < |list| ==> list[k] < 17
    ensures WellFormed(r) && r.mem == m.mem
    decreases |list| - j
  {
    if j == |list| then m else PopFrom(PopOne(m, list, j), list, j + 1)
  }

  /**
   * `pushpop`. An empty list makes `Rlist[-1]` raise before anything
   * changes, so the handler leaves the state as it was.
   */
  function PushPop(m: State, instr: int): (r: State)
    requires WellFormed(m)
    ensures WellFormed(r)
  {
    var op := instr / 0x800 % 2;
    var list := StackList(instr);
    if list == [] then m
    else if op == 0 then PushFrom(m, list, 0)
    else
      var m1 := PopFrom(m, list, 0);
      if m1.reg[15] % 2 == 1 then SetReg(m1, 15, m1.reg[15] + 1) else m1
  }

  /** Iteration `i` of the loop of `stmldm`: a listed register is stored or loaded at `addr`, which moves on a word. */
  function StmLdmOne(m: State, op: int, rlist: int, addr: int, i: nat): (t: Transfer)
    requires WellFormed(m) && i < 8
    ensures WellFormed(t.m)
    ensures t.addr == addr + 4 * Bit(rlist, i)
  {
    if rlist / Pow2(i) % 2 == 1 then
      Transfer(if op == 0 then Write(m, addr, m.reg[i], 4) else Load(m, i, addr, 4), Plus(addr, 4))
    else Transfer(m, addr)
  }

  /** The iterations `i .. 7` of the loop of `stmldm`. */
  function StmLdmFrom(m: State, op: int, rlist: int, addr: int, i: nat): (t: Transfer)
    requires WellFormed(m) && i <= 8
    ensures WellFormed(t.m)
    ensures t.addr == addr + 4 * (Popcount(rlist, 8) - Popcount(rlist, i))
    decreases 8 - i
  {
    if i == 8 then Transfer(m, addr)
    else
      var t := StmLdmOne(m, op, rlist, addr, i);
      StmLdmFrom(t.m, op, rlist, t.addr, i + 1)
  }

  /** `stmldm`: STMIA/LDMIA with write-back of the final address. */
  function StmLdm(m: State, instr: int): (r: State)
    requires WellFormed(m)
    ensures WellFormed(r)
  {
    var op, rb, rlist := instr / 0x800 % 2, instr / 0x100 % 8, instr % 0x100;
    var t := StmLdmFrom(m, op, rlist, m.reg[rb], 0);
    SetReg(t.m, rb, t.addr)
  }

  /** `b_if`: a conditional branch by a signed 8-bit count of halfwords. */
  function BranchIf(m: State, instr: int): (r: State)
    requires WellFormed(m)
    ensures WellFormed(r) && r.mem == m.mem
  {
    var cond, offset := instr / 0x100 % 16, instr % 0x100;
    if Condition(cond, m.reg[16] / TWO28) then SetReg(m, 15, m.reg[15] + SignExtendFrom(offset, 0x80) * 2 + 2)
    else m
  }

  /** `branch`: an unconditional branch by a signed 11-bit count of halfwords. */
  function Branch(m: State, instr: int): (r: State)
    requires WellFormed(m)
    ensures WellFormed(r) && r.mem == m.mem
  {
    SetReg(m, 15, m.reg[15] + SignExtendFrom(instr % 0x800, 0x400) * 2 + 2)
  }

  /** The halfword offset of a two-halfword `bl`, as the source assembles it. */
  function LinkOffset(instr: int): int
  {
    XorPow(instr % 0x800, 0x400) * 0x800 + instr / 0x1_0000 % 0x800 - 0x20_0000
  }

  /** `bl`: the exchange of PC and LR for 0xF800, otherwise a long branch with link. */
  function BranchLink(m: State, instr: int): (r: State)
    requires WellFormed(m)
    ensures WellFormed(r) && r.mem == m.mem
  {
    if instr == 0xF800 then
      var link := m.reg[15] - 1;
      SetReg(SetReg(m, 15, m.reg[14] + 2), 14, link)
    else
      var m1 := SetReg(m, 14, m.reg[15] + 1);
      SetReg(m1, 15, m1.reg[15] + LinkOffset(instr) * 2 + 2)
  }

  /** Every ALU result is a 32-bit word, and no operation touches bits 0-27 of the status word. */
  lemma AluResultWord(op: int, rd: int, rs: int, status: int)
    requires 0 <= op < 16
    ensures var f := AluResult(op, rd, rs, status);
      0 <= f.value < TWO32 && f.status % TWO28 == status % TWO28
  {
    var f := AluResult(op, rd, rs, status);
    if op == 0 || op == 1 || op == 8 || op >= 12 {
      DivDiv(status, TWO28, 4);
      DivDiv(f.status, TWO28, 4);
    }
  }

  /**
   * `AluOp` always sets the flags; TST, CMP and CMN leave `Rd` as it was,
   * every other operation writes its result there; no other register changes.
   */
  lemma AluOpWriteBack(m: State, instr: int)
    requires WellFormed(m)
    ensures var op, rs, rd := instr / 0x40 % 16, instr / 8 % 8, instr % 8;
      var f, r := AluResult(op, m.reg[rd], m.reg[rs], m.reg[16]), AluOp(m, instr);
      r.reg[16] == f.status
      && r.reg[rd] == (if CompareOnly(op) then m.reg[rd] else f.value)
      && forall i :: 0 <= i < 16 && i != rd ==> r.reg[i] == m.reg[i]
  {
    var op, rs, rd := instr / 0x40 % 16, instr / 8 % 8, instr % 8;
    var m1 := SetReg(m, 16, AluResult(op, m.reg[rd], m.reg[rs], m.reg[16]).status);
    assert AluOp(m, instr) == if CompareOnly(op) then m1 else SetReg(m1, rd, AluResult(op, m.reg[rd], m.reg[rs], m.reg[16]).value);
  }

  /** ADD and SUB leave the 32-bit sum or difference in `Rd` and the carry out of bit 31 in C. */
  lemma AddSubResult(m: State, instr: int)
    requires WellFormed(m)
    ensures var i, op, rn, rs, rd := instr / 0x400 % 2, instr / 0x200 % 2, instr / 0x40 % 8, instr / 8 % 8, instr % 8;
      var b := if i == 0 then m.reg[rn] else rn;
      var operand := if op == 0 then b else -b;
      var r := AddSub(m, instr);
      r.reg[rd] == (m.reg[rs] + operand) % TWO32
      && (FlagC(r.reg[16]) <==> Lo32(m.reg[rs]) + Lo32(operand) >= TWO32)
      && (FlagZ(r.reg[16]) <==> r.reg[rd] == 0)
      && r.reg[16] % TWO28 == m.reg[16] % TWO28
  {
  }

  /** With `Op == 1` (CMP) the immediate form only sets the flags. */
  lemma ImmediateCompareOnly(m: State, instr: int)
    requires WellFormed(m) && instr / 0x800 % 4 == 1
    ensures var r := Immediate(m, instr);
      forall i :: 0 <= i < 16 ==> r.reg[i] == m.reg[i]
  {
  }

  /**
   * BX to a target `t`: an odd target enters Thumb state (mode bit 5 set) at
   * `t - 1` plus the 2-byte prefetch, an even one ARM state at `t` plus the
   * 4-byte prefetch; every other bit of the status word is kept. BLX writes
   * the return address to LR; BLX LR takes the mode from the old LR but jumps
   * to the new one.
   */
  lemma BranchExchange(m: State, instr: int)
    requires WellFormed(m) && instr / 0x100 % 4 == 3
    ensures var hd, rs := instr / 0x80 % 2, instr / 8 % 8 + 8 * (instr / 0x40 % 2);
      var t, r := m.reg[rs], HiRegBx(m, instr);
      r.reg[16] / 32 % 2 == t % 2
      && r.reg[16] % 32 == m.reg[16] % 32 && r.reg[16] / 64 == m.reg[16] / 64
      && (hd == 1 ==> r.reg[14] == m.reg[15] + 1)
      && r.reg[15] == if hd == 1 && rs == 14 then m.reg[15] + 5 - 3 * (t % 2)
                     else if t % 2 == 1 then t - 1 + 2 else t + 4
  {
    var rs := instr / 8 % 8 + 8 * (instr / 0x40 % 2);
    ReplaceFieldSpec(m.reg[16], 32, 2, m.reg[rs] % 2);
  }

  /** The register list has one entry per set bit of the low nine bits. */
  lemma StackListLength(instr: int)
    ensures |StackList(instr)| == Popcount(instr % 0x200, 9)
  {
  }

  /** Each pop raises SP by 4; registers outside the list and other than SP keep their values. */
  lemma {:induction false} PopFromRegisters(m: State, list: seq<nat>, j: nat)
    requires WellFormed(m) && j <= |list|
    requires forall k :: 0 <= k < |list| ==> list[k] < 17 && list[k] != 13
    ensures var r := PopFrom(m, list, j);
      r.reg[13] == m.reg[13] + 4 * (|list| - j)
      && forall i :: 0 <= i < 17 && i != 13 && i !in list[j..] ==> r.reg[i] == m.reg[i]
    decreases |list| - j
  {
    if j < |list| {
      var m2 := PopOne(m, list, j);
      PopFromRegisters(m2, list, j + 1);
      assert list[j..] == [list[j]] + list[j + 1..];
    }
  }

  /** PUSH lowers SP by four bytes per listed register and changes no other register. */
  lemma PushStackPointer(m: State, instr: int)
    requires WellFormed(m) && instr / 0x800 % 2 == 0
    ensures var r := PushPop(m, instr);
      r.reg[13] == m.reg[13] - 4 * Popcount(instr % 0x200, 9)
      && forall i :: 0 <= i < 17 && i != 13 ==> r.reg[i] == m.reg[i]
  {
    var list := StackList(instr);
    var n := Popcount(instr % 0x200, 9);
    StackListLength(instr);
    assert |list| == n;
    assert forall k :: 0 <= k < |list| ==> list[k] < 17;
    if list != [] {
      assert PushPop(m, instr) == PushFrom(m, list, 0);
    }
  }

  /**
   * POP raises SP by four bytes per listed register; the registers it does
   * not list keep their values, and so does PC.
   */
  lemma PopStackPointer(m: State, instr: int)
    requires WellFormed(m) && instr / 0x800 % 2 == 1
    ensures var r := PushPop(m, instr);
      r.reg[13] == m.reg[13] + 4 * Popcount(instr % 0x200, 9)
      && forall i :: 0 <= i < 17 && i != 13 && i != 15 && i !in StackList(instr) ==> r.reg[i] == m.reg[i]
  {
    var list := StackList(instr);
    StackListLength(instr);
    if list != [] {
      PopFromRegisters(m, list, 0);
    }
  }

  /** STMIA/LDMIA leaves `Rb` advanced by four bytes per listed register. */
  lemma StmLdmWriteBack(m: State, instr: int)
    requires WellFormed(m)
    ensures var rb := instr / 0x100 % 8;
      StmLdm(m, instr).reg[rb] == m.reg[rb] + 4 * Popcount(instr % 0x100, 8)
  {
  }

  /**
   * A conditional branch moves PC by the signed 8-bit halfword count (plus
   * the prefetch) exactly when the condition holds, and otherwise changes nothing.
   */
  lemma BranchIfTarget(m: State, instr: int)
    requires WellFormed(m)
    ensures var cond, offset := instr / 0x100 % 16, instr % 0x100;
      var signed := if offset < 0x80 then offset else offset - 0x100;
      BranchIf(m, instr) == if Condition(cond, m.reg[16] / TWO28)
        then SetReg(m, 15, m.reg[15] + 2 * signed + 2) else m
  {
    SignExtendFromIsSignExtension(instr % 0x100, 0x80);
  }

  /** An unconditional branch moves PC by the signed 11-bit halfword count plus the prefetch. */
  lemma BranchTarget(m: State, instr: int)
    requires WellFormed(m)
    ensures var offset := instr % 0x800;
      Branch(m, instr).reg[15] == m.reg[15] + 2 * (if offset < 0x400 then offset else offset - 0x800) + 2
  {
    SignExtendFromIsSignExtension(instr % 0x800, 0x400);
  }

  /**
   * The long-branch offset is the 22-bit two's-complement number whose top
   * eleven bits come from the low halfword and low eleven bits from the high one.
   */
  lemma LinkOffsetSigned(instr: int)
    ensures var hi, lo := instr % 0x800, instr / 0x1_0000 % 0x800;
      var joined := hi * 0x800 + lo;
      LinkOffset(instr) == if joined < 0x20_0000 then joined else joined - 0x40_0000
  {
    var hi, lo := instr % 0x800, instr / 0x1_0000 % 0x800;
    var joined := hi * 0x800 + lo;
    DivModUnique(joined, 0x800, hi, lo);
    DivDiv(joined, 0x800, 0x400);
    SignExtendFromIsSignExtension(joined, 0x20_0000);
    SignExtendFromIsSignExtension(hi, 0x400);
  }

  /**
   * `shifted` puts the barrel shifter's 32-bit value in `Rd` and its status
   * in the status word, and keeps the memory and every other register.
   */
  lemma ShiftedResult(m: State, instr: int)
    requires WellFormed(m)
    ensures var op, offset, rs, rd := instr / 0x800 % 4, instr / 0x40 % 32, instr / 8 % 8, instr % 8;
      var f, r := BarrelShift(m.reg[rs], offset, op, 1, m.reg[16]), Shifted(m, instr);
      r.reg[rd] == f.value < TWO32 && r.reg[16] == f.status && r.mem == m.mem
      && forall i :: 0 <= i < 17 && i != rd && i != 16 ==> r.reg[i] == m.reg[i]
  {
  }

  /** Adding `k` whole multiples of `unit * span` leaves the field of width `span` at `unit` as it was. */
  lemma FieldKept(x: int, unit: int, span: int, k: int)
    requires unit > 0 && span > 0
    ensures (x + k * (unit * span)) / unit % span == x / unit % span
  {
    var q := x / unit;
    assert x + k * (unit * span) == (q + k * span) * unit + x % unit;
    DivModUnique(x + k * (unit * span), unit, q + k * span, x % unit);
    assert q + k * span == (q / span + k) * span + q % span;
    DivModUnique(q + k * span, span, q / span + k, q % span);
  }

  /** Adding `v` units to a field with room for them adds `v` to the field. */
  lemma FieldRaised(x: int, unit: int, span: int, v: int)
    requires unit > 0 && span > 0 && v >= 0 && x / unit % span + v < span
    ensures (x + v * unit) / unit % span == x / unit % span + v
  {
    var q := x / unit;
    DivModUnique(x + v * unit, unit, q + v, x % unit);
    DivModUnique(q + v, span, q / span, q % span + v);
  }

  /** Adding a number that fits below a clear bit keeps every field above it. */
  lemma FieldAbove(x: int, unit: int, v: int)
    requires unit > 0 && v >= 0 && x % unit + v < unit
    ensures (x + v) / unit == x / unit
  {
    DivModUnique(x + v, unit, x / unit, x % unit + v);
  }

  /** The access size of `ldrstr` by its S and Op fields. */
  function LdrStrSize(s: int, op: int): nat
  {
    if s == 0 then (if op % 2 == 0 then 4 else 1) else if op == 1 then 1 else 2
  }

  /** A store of `ldrstr`, with its fields decoded. */
  lemma LdrStrStoreAt(m: State, instr: int, op: int, s: int, ro: nat, rb: nat, rd: nat)
    requires WellFormed(m)
    requires op == instr / 0x400 % 4 && s == instr / 0x200 % 2
    requires ro == instr / 0x40 % 8 && rb == instr / 8 % 8 && rd == instr % 8
    requires op < 2 && (s == 0 || op == 0)
    ensures var r := LdrStr(m, instr);
      r == Write(m, Plus(m.reg[rb], m.reg[ro]), m.reg[rd], LdrStrSize(s, op)) && r.reg == m.reg && SameShape(r.mem, m.mem)
  {
  }

  /** A sign-extending load of `ldrstr`, with its fields decoded. */
  lemma LdrStrSignedAt(m: State, instr: int, op: int, s: int, ro: nat, rb: nat, rd: nat)
    requires WellFormed(m)
    requires op == instr / 0x400 % 4 && s == instr / 0x200 % 2
    requires ro == instr / 0x40 % 8 && rb == instr / 8 % 8 && rd == instr % 8
    requires s == 1 && op % 2 == 1
    ensures var r := LdrStr(m, instr);
      r.mem == m.mem && r.reg == m.reg[rd := SignedValue(m.mem, Plus(m.reg[rb], m.reg[ro]), LdrStrSize(s, op))]
  {
  }

  /** An unsigned load of `ldrstr`, with its fields decoded. */
  lemma LdrStrLoadAt(m: State, instr: int, op: int, s: int, ro: nat, rb: nat, rd: nat)
    requires WellFormed(m)
    requires op == instr / 0x400 % 4 && s == instr / 0x200 % 2
    requires ro == instr / 0x40 % 8 && rb == instr / 8 % 8 && rd == instr % 8
    requires op >= 2 && (s == 0 || op == 2)
    ensures var r := LdrStr(m, instr);
      r.mem == m.mem && r.reg == m.reg[rd := ReadValue(m.mem, Plus(m.reg[rb], m.reg[ro]), LdrStrSize(s, op))]
  {
  }

  /** The load that bit 11 makes of a store of `ldrstr` has the store's size. */
  lemma ReloadSize(s: int, op: int)
    requires 0 <= op < 2 && (s == 0 || op == 0)
    ensures LdrStrSize(s, op + 2) == LdrStrSize(s, op)
  {
  }

  /**
   * The eight forms of `ldrstr` at `Rb + Ro`: STR, STRB and STRH are one
   * `mem_write` of `Rd`, so they change only the memory and keep its shape;
   * LDR, LDRB and LDRH put the unsigned value read in `Rd`; LDRSB and LDRSH
   * put the sign-extended one there; a load changes no other register and
   * no byte.
   */
  lemma LdrStrForms(m: State, instr: int)
    requires WellFormed(m)
    ensures var op, s, ro, rb, rd := instr / 0x400 % 4, instr / 0x200 % 2, instr / 0x40 % 8, instr / 8 % 8, instr % 8;
      var addr, size, r := Plus(m.reg[rb], m.reg[ro]), LdrStrSize(s, op), LdrStr(m, instr);
      (if op < 2 && (s == 0 || op == 0) then r == Write(m, addr, m.reg[rd], size) && r.reg == m.reg && SameShape(r.mem, m.mem)
       else if s == 1 && op % 2 == 1 then r.mem == m.mem && r.reg == m.reg[rd := SignedValue(m.mem, addr, size)]
       else r.mem == m.mem && r.reg == m.reg[rd := ReadValue(m.mem, addr, size)])
  {
    var op, s, ro, rb, rd := instr / 0x400 % 4, instr / 0x200 % 2, instr / 0x40 % 8, instr / 8 % 8, instr % 8;
    if op < 2 && (s == 0 || op == 0) {
      LdrStrStoreAt(m, instr, op, s, ro, rb, rd);
    } else if s == 1 && op % 2 == 1 {
      LdrStrSignedAt(m, instr, op, s, ro, rb, rd);
    } else {
      LdrStrLoadAt(m, instr, op, s, ro, rb, rd);
    }
  }

  /** Setting bit 11 of a store of `ldrstr` gives the load of the same size with the same registers. */
  lemma LdrStrReload(instr: int)
    requires instr / 0x400 % 4 < 2
    ensures var load := instr + 0x800;
      load / 0x400 % 4 == instr / 0x400 % 4 + 2 && load / 0x200 % 2 == instr / 0x200 % 2
      && load / 0x40 % 8 == instr / 0x40 % 8 && load / 8 % 8 == instr / 8 % 8 && load % 8 == instr % 8
    ensures instr / 0x200 % 2 == 0 || instr / 0x400 % 4 == 0 ==>
      LdrStrSize(instr / 0x200 % 2, instr / 0x400 % 4 + 2) == LdrStrSize(instr / 0x200 % 2, instr / 0x400 % 4)
  {
    FieldRaised(instr, 0x400, 4, 2);
    FieldKept(instr, 0x200, 2, 2);
    FieldKept(instr, 0x40, 8, 4);
    FieldKept(instr, 8, 8, 32);
    FieldKept(instr, 1, 8, 256);
  }

  /**
   * STR, STRB and STRH keep every register and leave `Rd` at `Rb + Ro`,
   * where a read of the access size gives it back modulo that size, when
   * the store stays in its region and does not start a DMA transfer.
   */
  lemma LdrStrStores(m: State, instr: int)
    requires WellFormed(m)
    requires var op, s := instr / 0x400 % 4, instr / 0x200 % 2; op < 2 && (s == 0 || op == 0)
    requires PlainStore(m, Plus(m.reg[instr / 8 % 8], m.reg[instr / 0x40 % 8]), m.reg[instr % 8], LdrStrSize(instr / 0x200 % 2, instr / 0x400 % 4))
    ensures var addr, size := Plus(m.reg[instr / 8 % 8], m.reg[instr / 0x40 % 8]), LdrStrSize(instr / 0x200 % 2, instr / 0x400 % 4);
      var r := LdrStr(m, instr);
      r.reg == m.reg && ReadValue(r.mem, addr, size) == m.reg[instr % 8] % Pow256(size)
  {
    var op, s, ro, rb, rd := instr / 0x400 % 4, instr / 0x200 % 2, instr / 0x40 % 8, instr / 8 % 8, instr % 8;
    LdrStrStoreAt(m, instr, op, s, ro, rb, rd);
    WriteReadsBack(m, Plus(m.reg[rb], m.reg[ro]), m.reg[rd], LdrStrSize(s, op));
  }

  /**
   * A store of `ldrstr` followed by the load with the same registers and
   * size (the same fields with bit 11 set, as `LdrStrReload` shows of
   * `instr + 0x800`) gives `Rd` back modulo the access size and keeps the
   * other registers, when the store stays in its region and does not start
   * a DMA transfer.
   */
  lemma LdrStrRoundTrip(m: State, instr: int, load: int)
    requires WellFormed(m)
    requires var op, s := instr / 0x400 % 4, instr / 0x200 % 2; op < 2 && (s == 0 || op == 0)
    requires load / 0x400 % 4 == instr / 0x400 % 4 + 2 && load / 0x200 % 2 == instr / 0x200 % 2
    requires load / 0x40 % 8 == instr / 0x40 % 8 && load / 8 % 8 == instr / 8 % 8 && load % 8 == instr % 8
    requires PlainStore(m, Plus(m.reg[instr / 8 % 8], m.reg[instr / 0x40 % 8]), m.reg[instr % 8], LdrStrSize(instr / 0x200 % 2, instr / 0x400 % 4))
    ensures var rd, size := instr % 8, LdrStrSize(instr / 0x200 % 2, instr / 0x400 % 4);
      var r := LdrStr(LdrStr(m, instr), load);
      r.reg[rd] == m.reg[rd] % Pow256(size) && forall i :: 0 <= i < 17 && i != rd ==> r.reg[i] == m.reg[i]
  {
    var op, s, ro, rb, rd := instr / 0x400 % 4, instr / 0x200 % 2, instr / 0x40 % 8, instr / 8 % 8, instr % 8;
    var m1 := LdrStr(m, instr);
    LdrStrStores(m, instr);
    LdrStrLoadAt(m1, load, op + 2, s, ro, rb, rd);
    ReloadSize(s, op);
    Reloaded(m.reg, m1.reg, LdrStr(m1, load).reg, rd, m.reg[rd] % Pow256(LdrStrSize(s, op)));
  }

  /** `ldrstr_imm` at `Rb + Offset * size`: a store is one `mem_write` of `Rd`, a load puts the value read in `Rd`. */
  lemma LdrStrImmForms(m: State, instr: int)
    requires WellFormed(m)
    ensures var op, l, offset, rb, rd := instr / 0x1000 % 4, instr / 0x800 % 2, instr / 0x40 % 32, instr / 8 % 8, instr % 8;
      var size, r := ImmSize(op), LdrStrImm(m, instr);
      var addr := Plus(m.reg[rb], offset * size);
      (if l == 0 then r == Write(m, addr, m.reg[rd], size) && r.reg == m.reg && SameShape(r.mem, m.mem)
       else r.mem == m.mem && r.reg == m.reg[rd := ReadValue(m.mem, addr, size)])
  {
  }

  /** A load of `ldrstr_imm`, with its fields decoded. */
  lemma LdrStrImmLoadAt(m: State, instr: int, op: int, offset: int, rb: nat, rd: nat)
    requires WellFormed(m)
    requires op == instr / 0x1000 % 4 && instr / 0x800 % 2 == 1
    requires offset == instr / 0x40 % 32 && rb == instr / 8 % 8 && rd == instr % 8
    ensures var r := LdrStrImm(m, instr);
      r.mem == m.mem && r.reg == m.reg[rd := ReadValue(m.mem, Plus(m.reg[rb], offset * ImmSize(op)), ImmSize(op))]
  {
  }

  /** Setting bit 11 (L) of a store of `ldrstr_imm` gives the load with the same fields. */
  lemma LdrStrImmReload(instr: int)
    requires instr / 0x800 % 2 == 0
    ensures var load := instr + 0x800;
      load / 0x1000 % 4 == instr / 0x1000 % 4 && load / 0x800 % 2 == 1
      && load / 0x40 % 32 == instr / 0x40 % 32 && load / 8 % 8 == instr / 8 % 8 && load % 8 == instr % 8
  {
    FieldRaised(instr, 0x800, 2, 1);
    DivDiv(instr, 0x800, 2);
    FieldAbove(instr, 0x1000, 0x800);
    FieldKept(instr, 0x40, 32, 1);
    FieldKept(instr, 8, 8, 32);
    FieldKept(instr, 1, 8, 256);
  }

  /**
   * A store of `ldrstr_imm` keeps the registers and leaves `Rd` at
   * `Rb + Offset * size`, where it reads back modulo the access size, when
   * the store stays in its region and does not start a DMA transfer.
   */
  lemma LdrStrImmStores(m: State, instr: int)
    requires WellFormed(m) && instr / 0x800 % 2 == 0
    requires var size := ImmSize(instr / 0x1000 % 4);
      PlainStore(m, Plus(m.reg[instr / 8 % 8], instr / 0x40 % 32 * size), m.reg[instr % 8], size)
    ensures var rd, size := instr % 8, ImmSize(instr / 0x1000 % 4);
      var addr, r := Plus(m.reg[instr / 8 % 8], instr / 0x40 % 32 * size), LdrStrImm(m, instr);
      r.reg == m.reg && ReadValue(r.mem, addr, size) == m.reg[rd] % Pow256(size)
  {
    var rd, size := instr % 8, ImmSize(instr / 0x1000 % 4);
    var addr := Plus(m.reg[instr / 8 % 8], instr / 0x40 % 32 * size);
    assert LdrStrImm(m, instr) == Write(m, addr, m.reg[rd], size);
    WriteReadsBack(m, addr, m.reg[rd], size);
  }

  /**
   * A store of `ldrstr_imm` followed by the load with the same fields (L
   * set) gives `Rd` back modulo the access size and keeps the other
   * registers, when the store stays in its region and does not start a DMA
   * transfer.
   */
  lemma LdrStrImmRoundTrip(m: State, instr: int)
    requires WellFormed(m) && instr / 0x800 % 2 == 0
    requires var size := ImmSize(instr / 0x1000 % 4);
      PlainStore(m, Plus(m.reg[instr / 8 % 8], instr / 0x40 % 32 * size), m.reg[instr % 8], size)
    ensures var rd, size := instr % 8, ImmSize(instr / 0x1000 % 4);
      var r := LdrStrImm(LdrStrImm(m, instr), instr + 0x800);
      r.reg[rd] == m.reg[rd] % Pow256(size) && forall i :: 0 <= i < 17 && i != rd ==> r.reg[i] == m.reg[i]
  {
    var op, offset, rb, rd := instr / 0x1000 % 4, instr / 0x40 % 32, instr / 8 % 8, instr % 8;
    var m1 := LdrStrImm(m, instr);
    LdrStrImmStores(m, instr);
    LdrStrImmReload(instr);
    LdrStrImmLoadAt(m1, instr + 0x800, op, offset, rb, rd);
    Reloaded(m.reg, m1.reg, LdrStrImm(m1, instr + 0x800).reg, rd, m.reg[rd] % Pow256(ImmSize(op)));
  }

  /** `ldrstr_sp` at `SP + 4 Word`: a store is one `mem_write` of `Rd`, a load puts the word read in `Rd`. */
  lemma LdrStrSpForms(m: State, instr: int)
    requires WellFormed(m)
    ensures var op, rd, word := instr / 0x800 % 2, instr / 0x100 % 8, instr % 0x100;
      var addr, r := Plus(m.reg[13], word * 4), LdrStrSp(m, instr);
      (if op == 0 then r == Write(m, addr, m.reg[rd], 4) && r.reg == m.reg && SameShape(r.mem, m.mem)
       else r.mem == m.mem && r.reg == m.reg[rd := ReadValue(m.mem, addr, 4)])
  {
  }

  /** Setting bit 11 of a store of `ldrstr_sp` gives the load with the same fields. */
  lemma LdrStrSpReload(instr: int)
    requires instr / 0x800 % 2 == 0
    ensures var load := instr + 0x800;
      load / 0x800 % 2 == 1 && load / 0x100 % 8 == instr / 0x100 % 8 && load % 0x100 == instr % 0x100
  {
    FieldRaised(instr, 0x800, 2, 1);
    FieldKept(instr, 0x100, 8, 1);
    FieldKept(instr, 1, 0x100, 8);
  }

  /**
   * A store of `ldrstr_sp` keeps the registers and leaves `Rd` at `SP + 4 Word`,
   * where it reads back modulo `2^32`, when the store stays in its region and
   * does not start a DMA transfer.
   */
  lemma LdrStrSpStores(m: State, instr: int)
    requires WellFormed(m) && instr / 0x800 % 2 == 0
    requires PlainStore(m, Plus(m.reg[13], instr % 0x100 * 4), m.reg[instr / 0x100 % 8], 4)
    ensures var rd, addr, r := instr / 0x100 % 8, Plus(m.reg[13], instr % 0x100 * 4), LdrStrSp(m, instr);
      r.reg == m.reg && ReadValue(r.mem, addr, 4) == m.reg[rd] % TWO32
  {
    var rd, addr := instr / 0x100 % 8, Plus(m.reg[13], instr % 0x100 * 4);
    assert LdrStrSp(m, instr) == Write(m, addr, m.reg[rd], 4);
    WriteReadsBack(m, addr, m.reg[rd], 4);
  }

  /** A load of `ldrstr_sp`, with its fields decoded: the word at `SP + 4 Word` goes to `Rd`. */
  lemma LdrStrSpLoadAt(m: State, instr: int, rd: nat, word: int)
    requires WellFormed(m) && instr / 0x800 % 2 == 1
    requires rd == instr / 0x100 % 8 && word == instr % 0x100
    ensures var r := LdrStrSp(m, instr);
      r.mem == m.mem && r.reg == m.reg[rd := ReadValue(m.mem, Plus(m.reg[13], word * 4), 4)]
  {
  }

  /**
   * A word stored relative to SP and loaded back with the same fields (bit 11
   * set) returns `Rd` modulo `2^32` and keeps the other registers, when the
   * store stays in its region and does not start a DMA transfer.
   */
  lemma LdrStrSpRoundTrip(m: State, instr: int)
    requires WellFormed(m) && instr / 0x800 % 2 == 0
    requires PlainStore(m, Plus(m.reg[13], instr % 0x100 * 4), m.reg[instr / 0x100 % 8], 4)
    ensures var rd := instr / 0x100 % 8;
      var r := LdrStrSp(LdrStrSp(m, instr), instr + 0x800);
      r.reg[rd] == m.reg[rd] % TWO32 && forall i :: 0 <= i < 17 && i != rd ==> r.reg[i] == m.reg[i]
  {
    var rd, word := instr / 0x100 % 8, instr % 0x100;
    var m1 := LdrStrSp(m, instr);
    LdrStrSpStores(m, instr);
    LdrStrSpReload(instr);
    LdrStrSpLoadAt(m1, instr + 0x800, rd, word);
    Reloaded(m.reg, m1.reg, LdrStrSp(m1, instr + 0x800).reg, rd, m.reg[rd] % TWO32);
  }

  /** `Reg[15] - (Reg[15] & 2)` clears bit 1 of the program counter and keeps the rest. */
  lemma WordAlignedClearsBit1(pc: int)
    ensures WordAligned(pc) == pc / 4 * 4 + pc % 2
    ensures WordAligned(pc) / 2 % 2 == 0 && WordAligned(pc) % 2 == pc % 2
  {
    DivDiv(pc, 2, 2);
    var w := pc / 4 * 4 + pc % 2;
    DivModUnique(w, 2, pc / 4 * 2, pc % 2);
    DivModUnique(pc / 4 * 2, 2, pc / 4, 0);
  }

  /** `ldr_pc` loads the word at the PC with bit 1 cleared plus `4 Word` into `Rd`, and changes nothing else. */
  lemma LdrPcLoads(m: State, instr: int)
    requires WellFormed(m)
    ensures var rd, word, pc := instr / 0x100 % 8, instr % 0x100, m.reg[15];
      var r := LdrPc(m, instr);
      r.mem == m.mem && r.reg == m.reg[rd := ReadValue(m.mem, pc / 4 * 4 + pc % 2 + 4 * word, 4)]
  {
    WordAlignedClearsBit1(m.reg[15]);
  }

  /** `get_reladdr` puts the aligned PC or SP plus `4 Word` in `Rd`, and changes nothing else. */
  lemma GetRelAddrResult(m: State, instr: int)
    requires WellFormed(m)
    ensures var op, rd, word, pc := instr / 0x800 % 2, instr / 0x100 % 8, instr % 0x100, m.reg[15];
      GetRelAddr(m, instr) == m.(reg := m.reg[rd := (if op == 0 then pc / 4 * 4 + pc % 2 else m.reg[13]) + 4 * word])
  {
    WordAlignedClearsBit1(m.reg[15]);
  }

  /** `add_sp` moves SP by a multiple of four of at most 508 bytes, up when S is clear, and changes nothing else. */
  lemma AddSpMoves(m: State, instr: int)
    requires WellFormed(m)
    ensures var s, word := instr / 0x80 % 2, instr % 0x80;
      var delta := if s == 0 then 4 * word else -4 * word;
      -508 <= delta <= 508 && delta % 4 == 0
      && AddSp(m, instr) == m.(reg := m.reg[13 := m.reg[13] + delta])
  {
  }
}
