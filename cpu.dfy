/**
 * The interpreter as the source runs it: the register list `Reg` and the
 * bytearrays of `Memory` are updated in place by every helper and handler.
 * `Cpu` holds them as arrays (the 17 registers and the 16 regions, which the
 * embedding program creates and passes in), together with `BreakState` and
 * the monitored addresses. Each method is proved to leave the machine in the
 * state that the matching function of `Machine`, `Thumb`, `Arm` or
 * `Interpreter` computes from the state before it.
 */
module Cpu {
  import opened Bits
  import opened Memory
  import opened Alu
  import opened Machine
  import Conditions
  import Decode
  import Thumb
  import Arm
  import Interpreter

  class Cpu {
    const reg: array<int>
    const mem: seq<array<Byte>>
    var brk: Break
    const readPoints: set<int>
    const watchPoints: set<int>

    /** 17 registers, 16 distinct non-empty regions, and the DMA control word inside region 4. */
    predicate Valid()
    {
      reg.Length == 17 && |mem| == 16
      && (forall i :: 0 <= i < 16 ==> mem[i].Length > 0)
      && (forall i, j :: 0 <= i < j < 16 ==> mem[i] != mem[j])
      && DMA_CONTROL % mem[4].Length + 2 <= mem[4].Length
    }

    /** The contents of the 16 regions. */
    ghost function Mem(): (s: seq<seq<Byte>>)
      requires Valid()
      reads mem
      ensures |s| == 16 && forall i :: 0 <= i < 16 ==> s[i] == mem[i][..]
    {
      seq(16, i requires 0 <= i < 16 reads mem => mem[i][..])
    }

    /** After a write to region `k` alone, the contents are the old ones with region `k` replaced. */
    lemma Replaced(before: seq<seq<Byte>>, k: nat)
      requires Valid() && |before| == 16 && k < 16
      requires forall i :: 0 <= i < 16 && i != k ==> mem[i][..] == before[i]
      ensures Mem() == before[k := mem[k][..]]
    {
    }

    /** The machine state the arrays and fields hold. */
    ghost function Model(): (s: State)
      requires Valid()
      reads this, reg, mem
      ensures WellFormed(s)
    {
      State(reg[..], Mem(), brk, readPoints, watchPoints)
    }

    constructor(reg: array<int>, mem: seq<array<Byte>>, readPoints: set<int>, watchPoints: set<int>)
      requires reg.Length == 17 && |mem| == 16
      requires forall i :: 0 <= i < 16 ==> mem[i].Length > 0
      requires forall i, j :: 0 <= i < j < 16 ==> mem[i] != mem[j]
      requires DMA_CONTROL % mem[4].Length + 2 <= mem[4].Length
      ensures Valid() && Model() == State(reg[..], Mem(), Quiet, readPoints, watchPoints)
      ensures this.reg == reg && this.mem == mem
    {
      this.reg := reg;
      this.mem := mem;
      this.readPoints := readPoints;
      this.watchPoints := watchPoints;
      brk := Quiet;
    }

    /** `mem_read(addr, size)`. */
    method MemRead(addr: int, size: nat) returns (value: nat)
      requires Valid()
      modifies this
      ensures value == ReadValue(old(Model()).mem, addr, size)
      ensures Model() == AfterRead(old(Model()), addr, size, value)
    {
      var region := mem[addr / 0x100_0000 % 16];
      var rel := addr % region.Length;
      value := FromLE(region[rel .. Min(rel + size, region.Length)]);
      if addr in readPoints {
        brk := ReadPoint(addr, size, value);
      }
    }

    /** `mem_readsigned(addr, size)`. */
    method MemReadSigned(addr: int, size: nat) returns (value: nat)
      requires Valid() && size >= 1
      modifies this
      ensures value == SignedValue(old(Model()).mem, addr, size)
      ensures Model() == AfterRead(old(Model()), addr, size, value)
    {
      var region := mem[addr / 0x100_0000 % 16];
      var rel := addr % region.Length;
      var raw := FromLE(region[rel .. Min(rel + size, region.Length)]);
      assert raw == ReadValue(Mem(), addr, size);
      value := Lo32(SignExtendFrom(raw, Pow256(size) / 2));
      if addr in readPoints {
        brk := ReadPoint(addr, size, value);
      }
    }

    /** `region[at:at+len(bs)] = bs` on a region that keeps its length. */
    static method Place(region: array<Byte>, at: nat, bs: seq<Byte>)
      modifies region
      ensures region[..] == Overwrite(old(region[..]), at, bs)
    {
      forall j | at <= j < at + |bs| && j < region.Length {
        region[j] := bs[j - at];
      }
    }

    /** The store of `mem_write`, before its DMA check. */
    method MemStore(addr: int, data: int, size: nat)
      requires Valid()
      modifies this, mem
      ensures Model() == Stored(old(Model()), addr, data, size)
    {
      var k := addr / 0x100_0000 % 16;
      var region := mem[k];
      var rel := addr % region.Length;
      var value := ToLE(data, size);
      if addr in watchPoints {
        var previous := MemRead(addr, size);
        brk := WatchPoint(addr, previous, FromLE(value), size);
      }
      ghost var before := Mem();
      Place(region, rel, value);
      Replaced(before, k);
    }

    /** `mem_write(addr, data, size)`: the store, then `DMA()` when bit 7 of the enable byte is set. */
    method MemWrite(addr: int, data: int, size: nat)
      requires Valid()
      modifies this, mem
      ensures Model() == Write(old(Model()), addr, data, size)
    {
      MemStore(addr, data, size);
      var enable := MemRead(DMA_ENABLE, 1);
      if enable / 0x80 % 2 == 1 {
        Dma();
      }
    }

    /** `mem_copy(src, des, size)`, writing the head of a wrapping run with `copydata[distance:size]`. */
    method MemCopy(src: int, des: int, size: nat)
      requires Valid()
      modifies mem
      ensures Model() == Copy(old(Model()), src, des, size)
    {
      var region1 := mem[src / 0x100_0000 % 16];
      var k := des / 0x100_0000 % 16;
      var region2 := mem[k];
      var s := src % region1.Length;
      var d := des % region2.Length;
      ghost var before0 := Mem();
      var copydata := region1[s .. Min(s + size, region1.Length)];
      if s + size > region1.Length {
        copydata := copydata + region1[.. (s + size) % region1.Length];
      }
      assert copydata == CopyData(before0[src / 0x100_0000 % 16], s, size);
      ghost var before := Mem();
      CopyRun(region2, d, copydata, size);
      Replaced(before, k);
    }

    /** The destination side of `mem_copy`: a run passing the end of the region goes on at its start. */
    static method CopyRun(region: array<Byte>, des: nat, copydata: seq<Byte>, size: nat)
      requires des < region.Length
      modifies region
      ensures region[..] == CopyInto(old(region[..]), des, copydata, size)
    {
      if des + size > region.Length {
        var distance := region.Length - des;
        Place(region, des, PySlice(copydata, 0, distance));
        Place(region, 0, PySlice(copydata, distance, size));
      } else {
        Place(region, des, copydata);
      }
    }

    /**
     * `DMA()`. The control word is written back through `mem_write`, whose
     * DMA check then reads an enable byte with bit 7 clear.
     */
    method Dma()
      requires Valid()
      modifies this, mem
      ensures Model() == Machine.Dma(old(Model()))
    {
      var src := MemRead(DMA_SOURCE, 4);
      var des := MemRead(DMA_DEST, 4);
      var count := MemRead(DMA_COUNT, 2);
      var control := MemRead(DMA_CONTROL, 2);
      DmaCopy(src, des, count, control);
    }

    /** `DMA()` after its four register reads. */
    method DmaCopy(src: int, des: int, count: nat, control: nat)
      requires Valid()
      modifies this, mem
      ensures Model() == Machine.DmaCopy(old(Model()), src, des, count, control)
    {
      MemCopy(src, des, count * (2 + 2 * (control / 0x400 % 2)));
      ControlClearsEnable(Model(), control % 0x8000);
      MemStore(DMA_CONTROL, control % 0x8000, 2);
      var enable := MemRead(DMA_ENABLE, 1);
      assert enable < 0x80;
      EnableClear(enable);
    }

    /** `Reg[i] = v`. */
    method Set(i: nat, v: int)
      requires Valid() && i < 17
      modifies reg
      ensures Model() == SetReg(old(Model()), i, v)
    {
      reg[i] := v;
    }

    /** `compare(op1, op2, S)`: returns the low word of the sum and, with `S` set, rewrites the flags. */
    method Compare(op1: int, op2: int, s: int) returns (value: int)
      requires Valid()
      modifies reg
      ensures var f := Alu.Compare(op1, op2, s, old(reg[16]));
        value == f.value && Model() == SetReg(old(Model()), 16, f.status)
    {
      var f := Alu.Compare(op1, op2, s, reg[16]);
      if s != 0 {
        Set(16, f.status);
      }
      value := f.value;
    }

    /** `cmphalf(result, S)`. */
    method CmpHalf(result: int, s: int) returns (value: int)
      requires Valid()
      modifies reg
      ensures var f := Alu.CmpHalf(result, s, old(reg[16]));
        value == f.value && Model() == SetReg(old(Model()), 16, f.status)
    {
      var f := Alu.CmpHalf(result, s, reg[16]);
      if s != 0 {
        Set(16, f.status);
      }
      value := f.value;
    }

    /** `barrelshift(value, Shift, Typ, S)`, for the amounts at which it does not raise. */
    method BarrelShift(value: int, shift: int, typ: int, s: int) returns (r: int)
      requires Valid() && 0 <= typ < 4 && (typ == 3 || shift >= 0)
      modifies reg
      ensures var f := Alu.BarrelShift(value, shift, typ, s, old(reg[16]));
        r == f.value && Model() == SetReg(old(Model()), 16, f.status)
    {
      var f := Alu.BarrelShift(value, shift, typ, s, reg[16]);
      if s != 0 {
        Set(16, f.status);
      }
      r := f.value;
    }

    /** `shifted`. */
    method Shifted(instr: int)
      requires Valid()
      modifies reg
      ensures Model() == Thumb.Shifted(old(Model()), instr)
    {
      var op, offset, rs, rd := instr / 0x800 % 4, instr / 0x40 % 32, instr / 8 % 8, instr % 8;
      var v := BarrelShift(reg[rs], offset, op, 1);
      Set(rd, v);
    }

    /** `addsub`. */
    method AddSub(instr: int)
      requires Valid()
      modifies reg
      ensures Model() == Thumb.AddSub(old(Model()), instr)
    {
      var i, op, rn, rs, rd := instr / 0x400 % 2, instr / 0x200 % 2, instr / 0x40 % 8, instr / 8 % 8, instr % 8;
      var a := reg[rs];
      var b := if i == 0 then reg[rn] else rn;
      var v := Compare(a, if op == 0 then b else -b, 1);
      Set(rd, v);
    }

    /** `immediate`. */
    method Immediate(instr: int)
      requires Valid()
      modifies reg
      ensures Model() == Thumb.Immediate(old(Model()), instr)
    {
      var op, rd, offset := instr / 0x800 % 4, instr / 0x100 % 8, instr % 0x100;
      if op == 0 {
        var v := CmpHalf(offset, 1);
        Set(rd, v);
      } else if op == 1 {
        var _ := Compare(reg[rd], -offset, 1);
      } else if op == 2 {
        var v := Compare(reg[rd], offset, 1);
        Set(rd, v);
      } else {
        var v := Compare(reg[rd], -offset, 1);
        Set(rd, v);
      }
    }

    /** `AluOp`. */
    method AluOp(instr: int)
      requires Valid()
      modifies reg
      ensures Model() == Thumb.AluOp(old(Model()), instr)
    {
      var op, rs, rd := instr / 0x40 % 16, instr / 8 % 8, instr % 8;
      var f := Thumb.AluResult(op, reg[rd], reg[rs], reg[16]);
      Set(16, f.status);
      if !Thumb.CompareOnly(op) {
        Set(rd, f.value);
      }
    }

    /** `HiRegBx`. */
    method HiRegBx(instr: int)
      requires Valid()
      modifies reg
      ensures Model() == Thumb.HiRegBx(old(Model()), instr)
    {
      var op, hd, hs := instr / 0x100 % 4, instr / 0x80 % 2, instr / 0x40 % 2;
      var rs, rd := Plus(instr / 8 % 8, 8 * hs), Plus(instr % 8, 8 * hd);
      if op == 0 {
        Set(rd, Plus(reg[rd], reg[rs]));
      } else if op == 1 {
        var _ := Compare(reg[rd], -reg[rs], 1);
      } else if op == 2 {
        Set(rd, reg[rs]);
      } else {
        var mode := reg[rs] % 2;
        if hd == 1 {
          Set(14, reg[15] + 1);
        }
        Set(15, Plus(reg[rs], 4 - 3 * mode));
        Set(16, ReplaceField(reg[16], 32, 2, mode));
      }
    }

    /** `ldr_pc`. */
    method LdrPc(instr: int)
      requires Valid()
      modifies this, reg
      ensures Model() == Thumb.LdrPc(old(Model()), instr)
    {
      var rd, word := instr / 0x100 % 8, instr % 0x100;
      var v := MemRead(Plus(reg[15] - reg[15] / 2 % 2 * 2, word * 4), 4);
      Set(rd, v);
    }

    /** `ldrstr`. */
    method LdrStr(instr: int)
      requires Valid()
      modifies this, reg, mem
      ensures Model() == Thumb.LdrStr(old(Model()), instr)
    {
      var op, s, ro, rb, rd := instr / 0x400 % 4, instr / 0x200 % 2, instr / 0x40 % 8, instr / 8 % 8, instr % 8;
      var addr := Plus(reg[rb], reg[ro]);
      if s == 0 {
        if op == 0 {
          MemWrite(addr, reg[rd], 4);
        } else if op == 1 {
          MemWrite(addr, reg[rd], 1);
        } else if op == 2 {
          var v := MemRead(addr, 4);
          Set(rd, v);
        } else {
          var v := MemRead(addr, 1);
          Set(rd, v);
        }
      } else {
        if op == 0 {
          MemWrite(addr, reg[rd], 2);
        } else if op == 1 {
          var v := MemReadSigned(addr, 1);
          Set(rd, v);
        } else if op == 2 {
          var v := MemRead(addr, 2);
          Set(rd, v);
        } else {
          var v := MemReadSigned(addr, 2);
          Set(rd, v);
        }
      }
    }

    /** `ldrstr_imm`. */
    method LdrStrImm(instr: int)
      requires Valid()
      modifies this, reg, mem
      ensures Model() == Thumb.LdrStrImm(old(Model()), instr)
    {
      var op, l, offset, rb, rd := instr / 0x1000 % 4, instr / 0x800 % 2, instr / 0x40 % 32, instr / 8 % 8, instr % 8;
      var size := Thumb.ImmSize(op);
      var addr := Plus(reg[rb], offset * size);
      if l == 0 {
        MemWrite(addr, reg[rd], size);
      } else {
        var v := MemRead(addr, size);
        Set(rd, v);
      }
    }

    /** `ldrstr_sp`. */
    method LdrStrSp(instr: int)
      requires Valid()
      modifies this, reg, mem
      ensures Model() == Thumb.LdrStrSp(old(Model()), instr)
    {
      var op, rd, word := instr / 0x800 % 2, instr / 0x100 % 8, instr % 0x100;
      var addr := Plus(reg[13], word * 4);
      if op == 0 {
        MemWrite(addr, reg[rd], 4);
      } else {
        var v := MemRead(addr, 4);
        Set(rd, v);
      }
    }

    /** `get_reladdr`. */
    method GetRelAddr(instr: int)
      requires Valid()
      modifies reg
      ensures Model() == Thumb.GetRelAddr(old(Model()), instr)
    {
      var op, rd, word := instr / 0x800 % 2, instr / 0x100 % 8, instr % 0x100;
      if op == 0 {
        Set(rd, reg[15] - reg[15] / 2 % 2 * 2 + word * 4);
      } else {
        Set(rd, reg[13] + word * 4);
      }
    }

    /** `add_sp`. */
    method AddSp(instr: int)
      requires Valid()
      modifies reg
      ensures Model() == Thumb.AddSp(old(Model()), instr)
    {
      var s, word := instr / 0x80 % 2, instr % 0x80;
      if s == 0 {
        Set(13, reg[13] + word * 4);
      } else {
        Set(13, reg[13] - word * 4);
      }
    }

    /** One push of `pushpop`, the `k`-th of `reversed(Rlist)`. */
    method PushOne(list: seq<nat>, k: nat)
      requires Valid() && k < |list|
      requires forall i :: 0 <= i < |list| ==> list[i] < 17
      modifies this, reg, mem
      ensures Model() == Thumb.PushOne(old(Model()), list, k)
    {
      Set(13, Plus(reg[13], -4));
      MemWrite(reg[13], reg[list[|list| - 1 - k]], 4);
    }

    /** The PUSH loop of `pushpop`: the last listed register goes first, just below the old SP. */
    method Push(list: seq<nat>)
      requires Valid() && forall i :: 0 <= i < |list| ==> list[i] < 17
      modifies this, reg, mem
      ensures Model() == Thumb.PushFrom(old(Model()), list, 0)
    {
      ghost var goal := Thumb.PushFrom(Model(), list, 0);
      var k := 0;
      while k < |list|
        invariant k <= |list| && Valid()
        invariant Thumb.PushFrom(Model(), list, k) == goal
      {
        ghost var m0 := Model();
        PushOne(list, k);
        assert Thumb.PushFrom(m0, list, k) == Thumb.PushFrom(Model(), list, k + 1);
        k := k + 1;
      }
    }

    /** One pop of `pushpop`. */
    method PopOne(list: seq<nat>, j: nat)
      requires Valid() && j < |list|
      requires forall k :: 0 <= k < |list| ==> list[k] < 17
      modifies this, reg
      ensures Model() == Thumb.PopOne(old(Model()), list, j)
    {
      var v := MemRead(reg[13], 4);
      Set(list[j], v);
      Set(13, Plus(reg[13], 4));
    }

    /** The POP loop of `pushpop`: the first listed register comes first, from the old SP. */
    method Pop(list: seq<nat>)
      requires Valid() && forall k :: 0 <= k < |list| ==> list[k] < 17
      modifies this, reg
      ensures Model() == Thumb.PopFrom(old(Model()), list, 0)
    {
      ghost var goal := Thumb.PopFrom(Model(), list, 0);
      var j := 0;
      while j < |list|
        invariant j <= |list| && Valid()
        invariant Thumb.PopFrom(Model(), list, j) == goal
      {
        ghost var m0 := Model();
        PopOne(list, j);
        assert Thumb.PopFrom(m0, list, j) == Thumb.PopFrom(Model(), list, j + 1);
        j := j + 1;
      }
    }

    /** `pushpop`. An empty list raises before anything changes. */
    method PushPop(instr: int)
      requires Valid()
      modifies this, reg, mem
      ensures Model() == Thumb.PushPop(old(Model()), instr)
    {
      var op := instr / 0x800 % 2;
      var list := Thumb.StackList(instr);
      if list == [] {
        return;
      }
      if op == 0 {
        Push(list);
      } else {
        Pop(list);
        if reg[15] % 2 == 1 {
          Set(15, reg[15] + 1);
        }
      }
    }

    /** `stmldm`: the listed low registers stored to or loaded from consecutive words at `Rb`, which then holds the address after them. */
    method StmLdm(instr: int)
      requires Valid()
      modifies this, reg, mem
      ensures Model() == Thumb.StmLdm(old(Model()), instr)
    {
      var op, rb, rlist := instr / 0x800 % 2, instr / 0x100 % 8, instr % 0x100;
      var addr := reg[rb];
      ghost var goal := Thumb.StmLdmFrom(Model(), op, rlist, addr, 0);
      var i := 0;
      while i < 8
        invariant i <= 8 && Valid()
        invariant Thumb.StmLdmFrom(Model(), op, rlist, addr, i) == goal
      {
        ghost var m0, a0 := Model(), addr;
        addr := StmLdmOne(op, rlist, addr, i);
        assert Thumb.StmLdmFrom(m0, op, rlist, a0, i) == Thumb.StmLdmFrom(Model(), op, rlist, addr, i + 1);
        i := i + 1;
      }
      Set(rb, addr);
    }

    /** One iteration of the loop of `stmldm`, returning the next address. */
    method StmLdmOne(op: int, rlist: int, addr: int, i: nat) returns (next: int)
      requires Valid() && i < 8
      modifies this, reg, mem
      ensures Transfer(Model(), next) == Thumb.StmLdmOne(old(Model()), op, rlist, addr, i)
    {
      next := addr;
      if rlist / Pow2(i) % 2 == 1 {
        if op == 0 {
          MemWrite(addr, reg[i], 4);
        } else {
          var v := MemRead(addr, 4);
          Set(i, v);
        }
        next := Plus(addr, 4);
      }
    }

    /** `b_if`. */
    method BranchIf(instr: int)
      requires Valid()
      modifies reg
      ensures Model() == Thumb.BranchIf(old(Model()), instr)
    {
      var cond, offset := instr / 0x100 % 16, instr % 0x100;
      if Conditions.Condition(cond, reg[16] / TWO28) {
        Set(15, reg[15] + SignExtendFrom(offset, 0x80) * 2 + 2);
      }
    }

    /** `branch`. */
    method Branch(instr: int)
      requires Valid()
      modifies reg
      ensures Model() == Thumb.Branch(old(Model()), instr)
    {
      Set(15, reg[15] + SignExtendFrom(instr % 0x800, 0x400) * 2 + 2);
    }

    /** `bl`. */
    method BranchLink(instr: int)
      requires Valid()
      modifies reg
      ensures Model() == Thumb.BranchLink(old(Model()), instr)
    {
      if instr == 0xF800 {
        var link := reg[15] - 1;
        Set(15, reg[14] + 2);
        Set(14, link);
      } else {
        Set(14, reg[15] + 1);
        Set(15, reg[15] + Thumb.LinkOffset(instr) * 2 + 2);
      }
    }


    /** The entry `opcode` of `dataprocess_list` on `Rn`, the second operand and `S`: `compare` or `cmphalf` of the operation's operands. */
    method DataOp(opcode: int, rn: int, op2: int, s: int) returns (value: int)
      requires Valid() && 0 <= opcode < 16
      modifies reg
      ensures var f := Arm.DataResult(opcode, rn, op2, s, old(reg[16]));
        value == f.value && Model() == SetReg(old(Model()), 16, f.status)
    {
      var f := Arm.DataResult(opcode, rn, op2, s, reg[16]);
      if s != 0 {
        Set(16, f.status);
      }
      value := f.value;
    }

    /**
     * The second operand of `dataprocess`: the rotated immediate, or `Rm`
     * through `barrelshift`, which raises on a negative register amount for
     * every type but rotate.
     */
    method Operand(instr: int) returns (op2: int, raises: bool)
      requires Valid()
      modifies reg
      ensures raises == Arm.ShiftRaises(old(Model()), instr)
      ensures raises ==> Model() == old(Model())
      ensures !raises ==> var f := Arm.Operand2(old(Model()), instr);
        op2 == f.value && Model() == SetReg(old(Model()), 16, f.status)
    {
      var imm, s := instr / 0x200_0000 % 2, instr / 0x10_0000 % 2;
      var shift, typ, imm2, rm := instr / 0x80 % 32, instr / 0x20 % 4, instr / 0x10 % 2, instr % 16;
      op2, raises := 0, false;
      if imm == 1 {
        op2 := Arm.RotatedImmediate(instr);
        SetRegTwice(Model(), 16, 0, reg[16]);
      } else {
        if imm2 == 1 {
          shift := reg[instr / 0x100 % 16];
        }
        if shift < 0 && typ != 3 {
          raises := true;
          return;
        }
        op2 := BarrelShift(reg[rm], shift, typ, s);
      }
    }

    /** `dataprocess`: opcodes 8-11 only set the flags. */
    method DataProcess(instr: int)
      requires Valid()
      modifies reg
      ensures Model() == Arm.DataProcess(old(Model()), instr)
    {
      var opcode, s, rn, rd := instr / 0x20_0000 % 16, instr / 0x10_0000 % 2, instr / 0x1_0000 % 16, instr / 0x1000 % 16;
      ghost var m := Model();
      var op2, raises := Operand(instr);
      if raises {
        return;
      }
      ghost var f := Arm.Operand2(m, instr);
      ghost var m1 := Model();
      var result := DataOp(opcode, reg[rn], op2, s);
      ghost var g := Arm.DataResult(opcode, m.reg[rn], f.value, s, f.status);
      SetRegTwice(m, 16, f.status, g.status);
      assert Model() == SetReg(m, 16, g.status);
      if !(8 <= opcode <= 11) {
        Set(rd, result);
      }
    }

    /** `psr`: MSR rewrites the bits of the status word the field mask selects; the other forms change nothing. */
    method Psr(instr: int)
      requires Valid()
      modifies reg
      ensures Model() == Arm.Psr(old(Model()), instr)
    {
      var i, p, l, field := instr / 0x200_0000 % 2, instr / 0x40_0000 % 2, instr / 0x20_0000 % 2, instr / 0x1_0000 % 16;
      var shift, imm, rm := instr / 0x100 % 16, instr % 0x100, instr % 16;
      if p == 0 && l == 1 {
        var op := if i == 1 then Alu.BarrelShift(imm, shift * 2, 3, 0, reg[16]).value else reg[rm];
        assert op == Arm.PsrOperand(Model(), instr);
        Set(16, Arm.MaskedReplace(reg[16], op, Arm.PsrMask(field)));
      }
    }

    /** `arm_bx`. */
    method ArmBx(instr: int)
      requires Valid()
      modifies reg
      ensures Model() == Arm.ArmBx(old(Model()), instr)
    {
      var l, rn := instr / 0x20 % 2, instr % 16;
      if l == 1 {
        Set(14, Plus(reg[15], -4));
      }
      var mode := reg[rn] % 2;
      Set(15, Plus(reg[rn], 4 - 3 * mode));
      Set(16, ReplaceField(reg[16], 32, 2, mode));
    }

    /** `arm_branch`. */
    method ArmBranch(instr: int)
      requires Valid()
      modifies reg
      ensures Model() == Arm.ArmBranch(old(Model()), instr)
    {
      var l, offset := instr / 0x100_0000 % 2, instr % 0x100_0000;
      if l == 1 {
        Set(14, Plus(reg[15], -4));
      }
      Set(15, reg[15] + 4 + offset * 4);
    }

    /** `clz`. */
    method Clz(instr: int)
      requires Valid()
      modifies reg
      ensures Model() == Arm.Clz(old(Model()), instr)
    {
      var rd, rm := instr / 0x1000 % 16, instr % 16;
      Set(rd, 32 - BitLength(Arm.Abs(reg[rm])));
    }


    /** `result >> 32 & 0xFFFFFFFF` into `Reg[hi]`, then `result & 0xFFFFFFFF` into `Reg[lo]`. */
    method SplitLong(hi: nat, lo: nat, result: int)
      requires Valid() && hi < 16 && lo < 16
      modifies reg
      ensures Model() == Arm.SplitLong(old(Model()), hi, lo, result)
    {
      Set(hi, result / TWO32 % TWO32);
      Set(lo, result % TWO32);
    }

    /** `multiply`. */
    method Multiply(instr: int)
      requires Valid()
      modifies reg
      ensures Model() == Arm.Multiply(old(Model()), instr)
    {
      if instr / 0x20_0000 % 16 / 8 == 1 {
        HalfMultiply(instr);
      } else {
        WordMultiply(instr);
      }
    }

    /** The halfword branch of `multiply`. */
    method HalfMultiply(instr: int)
      requires Valid()
      modifies reg
      ensures Model() == Arm.HalfMultiply(old(Model()), instr)
    {
      var op, rd, rn := instr / 0x20_0000 % 16 % 4, instr / 0x1_0000 % 16, instr / 0x1000 % 16;
      var y, x := instr / 0x40 % 2, instr / 0x20 % 2;
      var vm, vs := reg[instr % 16], reg[instr / 0x100 % 16];
      vs := Arm.Half(vs, y);
      if op != 1 {
        vm := Arm.Half(vm, x);
      }
      var v;
      if op == 0 {
        v := (vm * vs + reg[rn]) % TWO32;
        assert v == Arm.HalfValue(Model(), instr);
      } else if op == 1 {
        vm := Arm.Signed32(vm);
        v := (vm * vs / 0x1_0000 + reg[rn] * (1 - x)) % TWO32;
        assert v == Arm.HalfValue(Model(), instr);
      } else if op == 2 {
        v := Arm.LongAccumulate(reg[rd], reg[rn], vm * vs);
        assert v == Arm.HalfValue(Model(), instr);
      } else {
        v := vm * vs;
        assert v == Arm.HalfValue(Model(), instr);
      }
      if op == 2 {
        SplitLong(rd, rn, v);
      } else {
        Set(rd, v);
      }
    }

    /** The word branch of `multiply`. */
    method WordMultiply(instr: int)
      requires Valid()
      modifies reg
      ensures Model() == Arm.WordMultiply(old(Model()), instr)
    {
      var opcode, s, rd, rn := instr / 0x20_0000 % 16, instr / 0x10_0000 % 2, instr / 0x1_0000 % 16, instr / 0x1000 % 16;
      var vm, vs := reg[instr % 16], reg[instr / 0x100 % 16];
      if opcode / 2 % 2 == 1 {
        vm, vs := Arm.Signed32(vm), Arm.Signed32(vs);
      }
      var result := vm * vs + reg[rn] * (opcode % 2);
      assert result == Arm.LongResult(Model(), instr);
      if opcode / 4 % 2 == 1 {
        SplitLong(rd, rn, result);
      } else {
        Set(rd, result % TWO32);
      }
      if s == 1 {
        var n, z := result / 0x8000_0000_0000_0000 % 2, if result % 0x8000_0000_0000_0000 == 0 then 1 else 0;
        Set(16, (8 * n + 4 * z) * TWO28 + reg[16] % TWO30);
      }
    }

    /**
     * The indexing of `datatransfer` once the unsigned offset is known: a
     * pre-indexed transfer uses `Rn` plus (U) or minus the offset, and `Rn`
     * takes that value when post-indexed or written back (W).
     */
    method Index(instr: int, offset: int) returns (addr: int)
      requires Valid() && Arm.Signed(offset, instr / 0x80_0000 % 2) == Arm.TransferDelta(Model(), instr)
      modifies reg
      ensures addr == Arm.TransferAddress(old(Model()), instr)
      ensures Model() == Arm.TransferBase(old(Model()), instr)
    {
      var p, u, w, rn := instr / 0x100_0000 % 2, instr / 0x80_0000 % 2, instr / 0x20_0000 % 2, instr / 0x1_0000 % 16;
      var delta := Arm.Signed(offset, u);
      addr := reg[rn];
      if p == 1 {
        addr := addr + delta;
      }
      if p == 0 || w == 1 {
        Set(rn, reg[rn] + delta);
      }
    }

    /** `datatransfer`. */
    method DataTransfer(instr: int)
      requires Valid()
      modifies this, reg, mem
      ensures Model() == Arm.DataTransfer(old(Model()), instr)
    {
      if instr / 0x400_0000 % 2 == 1 {
        WordTransfer(instr);
      } else {
        HalfTransfer(instr);
      }
    }

    /** The D branch of `datatransfer`. */
    method WordTransfer(instr: int)
      requires Valid() && instr / 0x400_0000 % 2 == 1
      modifies this, reg, mem
      ensures Model() == Arm.WordTransfer(old(Model()), instr)
    {
      var i, l, rd, offset := instr / 0x200_0000 % 2, instr / 0x10_0000 % 2, instr / 0x1000 % 16, instr % 0x1000;
      if i == 1 {
        offset := Alu.BarrelShift(reg[offset % 16], offset / 0x80 % 32, offset / 0x20 % 4, 0, reg[16]).value;
      }
      var addr := Index(instr, offset);
      if l == 1 {
        var v := MemRead(addr, Arm.WordSize(instr));
        Set(rd, v);
      } else {
        MemWrite(addr, reg[rd], Arm.WordSize(instr));
      }
    }

    /** The halfword branch of `datatransfer`. */
    method HalfTransfer(instr: int)
      requires Valid() && instr / 0x400_0000 % 2 == 0
      modifies this, reg, mem
      ensures Model() == Arm.HalfTransfer(old(Model()), instr)
    {
      var b, l, typ, offset := instr / 0x40_0000 % 2, instr / 0x10_0000 % 2, instr / 0x20 % 4, instr % 0x1000;
      offset := if b == 1 then offset / 0x100 % 16 * 16 + offset % 16 else reg[offset % 16];
      ghost var m := Model();
      var addr := Index(instr, offset);
      ghost var m1 := Model();
      if typ == 0 {
        assert Arm.HalfTransfer(m, instr) == Arm.Swap(m1, instr / 0x1_0000 % 16, instr / 0x1000 % 16, instr % 16, 2 - b);
        Swap(instr / 0x1_0000 % 16, instr / 0x1000 % 16, instr % 16, 2 - b);
      } else if l == 1 {
        assert Arm.HalfTransfer(m, instr) == Arm.HalfLoad(m1, instr, addr);
        HalfLoad(instr, addr);
      } else {
        assert Arm.HalfTransfer(m, instr) == Arm.HalfStore(m1, instr, addr);
        HalfStore(instr, addr);
      }
    }

    /** The swap of type 0. */
    method Swap(rn: nat, rd: nat, rm: nat, size: nat)
      requires Valid() && rn < 16 && rd < 16 && rm < 16
      modifies this, reg, mem
      ensures Model() == Arm.Swap(old(Model()), rn, rd, rm, size)
    {
      var temp := reg[rm];
      var v := MemRead(reg[rn], size);
      Set(rd, v);
      MemWrite(reg[rn], temp, size);
    }

    /** The loads of types 1-3. */
    method HalfLoad(instr: int, addr: int)
      requires Valid()
      modifies this, reg
      ensures Model() == Arm.HalfLoad(old(Model()), instr, addr)
    {
      var typ, rd := instr / 0x20 % 4, instr / 0x1000 % 16;
      var v;
      if typ == 1 {
        v := MemRead(addr, 2);
      } else if typ == 2 {
        v := MemReadSigned(addr, 1);
      } else {
        v := MemReadSigned(addr, 2);
      }
      Set(rd, v);
    }

    /** The stores of types 1-3. */
    method HalfStore(instr: int, addr: int)
      requires Valid()
      modifies this, reg, mem
      ensures Model() == Arm.HalfStore(old(Model()), instr, addr)
    {
      var typ, rd := instr / 0x20 % 4, instr / 0x1000 % 16;
      if typ == 1 {
        MemWrite(addr, reg[rd], 2);
      } else if typ == 2 {
        LoadPair(rd, addr);
      } else {
        StorePair(rd, addr);
      }
    }

    /** The two-word load of type 2. */
    method LoadPair(rd: nat, addr: int)
      requires Valid() && rd < 16
      modifies this, reg
      ensures Model() == Arm.LoadPair(old(Model()), rd, addr)
    {
      var first := MemRead(addr, 4);
      var second := MemRead(Plus(addr, 4), 4);
      Set(rd, first);
      Set(rd + 1, second);
    }

    /** The two-word store of type 3. */
    method StorePair(rd: nat, addr: int)
      requires Valid() && rd < 16
      modifies this, reg, mem
      ensures Model() == Arm.StorePair(old(Model()), rd, addr)
    {
      MemWrite(addr, reg[rd], 4);
      MemWrite(Plus(addr, 4), reg[rd + 1], 4);
    }

    /** `blocktransfer`. */
    method BlockTransfer(instr: int)
      requires Valid()
      modifies this, reg, mem
      ensures Model() == Arm.BlockTransfer(old(Model()), instr)
    {
      var p, up, w, l := instr / 0x100_0000 % 2, instr / 0x80_0000 % 2 == 1, instr / 0x20_0000 % 2, instr / 0x10_0000 % 2;
      var rn, rlist := instr / 0x1_0000 % 16, instr % 0x1_0000;
      var addr := reg[rn];
      if p == 1 {
        addr := addr + Arm.Step(up);
      }
      assert addr == Arm.BlockStart(Model(), instr);
      addr := BlockLoop(l, up, rlist, addr);
      BlockEnd(instr, addr);
    }

    /** The loop of `blocktransfer` over the 16 registers from `addr`; returns the address it ends at. */
    method BlockLoop(l: int, up: bool, rlist: int, addr: int) returns (end: int)
      requires Valid()
      modifies this, reg, mem
      ensures Transfer(Model(), end) == Arm.BlockFrom(old(Model()), l, up, rlist, addr, 0)
    {
      ghost var goal := Arm.BlockFrom(Model(), l, up, rlist, addr, 0);
      end := addr;
      var index := if up then 0 else 15;
      for k := 0 to 16
        invariant Valid() && index == if up then k else 15 - k
        invariant Arm.BlockFrom(Model(), l, up, rlist, end, k) == goal
      {
        Arm.BlockStep(Model(), l, up, rlist, end, k);
        end := BlockOne(l, up, rlist, end, index, k);
        index := index + if up then 1 else -1;
      }
    }

    /** The write-back after the loop of `blocktransfer`, from the address the loop ended at. */
    method BlockEnd(instr: int, addr: int)
      requires Valid()
      modifies reg
      ensures Model() == Arm.BlockEnd(Transfer(old(Model()), addr), instr)
    {
      var p, up, w, rn := instr / 0x100_0000 % 2, instr / 0x80_0000 % 2 == 1, instr / 0x20_0000 % 2, instr / 0x1_0000 % 16;
      var last := addr;
      if p == 1 {
        last := addr - Arm.Step(up);
      }
      if w == 1 {
        Set(rn, last);
      }
    }

    /** One iteration of the loop of `blocktransfer`, on register `index`; returns the next address. */
    method BlockOne(l: int, up: bool, rlist: int, addr: int, index: nat, ghost k: nat) returns (next: int)
      requires Valid() && k < 16 && index == Arm.BlockIndex(up, k)
      modifies this, reg, mem
      ensures Transfer(Model(), next) == Arm.BlockOne(old(Model()), l, up, rlist, addr, k)
    {
      next := addr;
      if rlist / Pow2(index) % 2 == 1 {
        if l == 1 {
          var v := MemRead(addr, 4);
          Set(index, v);
        } else {
          MemWrite(addr, reg[index], 4);
        }
        next := Plus(addr, Arm.Step(up));
      }
    }


    /** `ThumbFuncs[ID](instr)`: the call of the Thumb handler the decoder picked. */
    method ThumbDispatch(op: Decode.ThumbOp, instr: int)
      requires Valid() && op == Decode.ThumbDecode(instr)
      modifies this, reg, mem
      ensures Model() == Interpreter.ThumbStep(old(Model()), instr)
    {
      match op
      case Shifted => Shifted(instr);
      case AddSub => AddSub(instr);
      case Immediate => Immediate(instr);
      case AluOp => AluOp(instr);
      case HiRegBx => HiRegBx(instr);
      case LdrPc => LdrPc(instr);
      case LdrStr => LdrStr(instr);
      case LdrStrImm => LdrStrImm(instr);
      case LdrStrSp => LdrStrSp(instr);
      case GetRelAddr => GetRelAddr(instr);
      case AddSp => AddSp(instr);
      case PushPop => PushPop(instr);
      case StmLdm => StmLdm(instr);
      case BranchIf => BranchIf(instr);
      case Branch => Branch(instr);
      case BranchLink => BranchLink(instr);
      case ThumbUndefined =>
    }

    /** `arm_function(instr)`: the call of the ARM handler the tree walk reached. */
    method ArmDispatch(op: Decode.ArmOp, instr: int)
      requires Valid() && op == Decode.ArmDecode(instr)
      modifies this, reg, mem
      ensures Model() == Interpreter.ArmStep(old(Model()), instr)
    {
      match op
      case DataProcess => DataProcess(instr);
      case Psr => Psr(instr);
      case Multiply => Multiply(instr);
      case ArmBx => ArmBx(instr);
      case Clz => Clz(instr);
      case DataTransfer => DataTransfer(instr);
      case BlockTransfer => BlockTransfer(instr);
      case ArmBranch => ArmBranch(instr);
      case ArmUndefined =>
    }

    /**
     * `execute(instr, mode)`: the break state cleared, the pc moved past the
     * instruction, and the handler called; an ARM instruction whose condition
     * fails, or whose condition index is outside the table, stops there.
     */
    method Execute(instr: int, thumb: bool)
      requires Valid()
      modifies this, reg, mem
      ensures Model() == Interpreter.Execute(old(Model()), instr, thumb)
    {
      ghost var m := Model();
      brk := Quiet;
      if thumb {
        Set(15, reg[15] + 2);
        assert Model() == Interpreter.Advance(m, 2);
        Decode.ThumbBoundsSorted();
        var id := Decode.BisectRight(Decode.ThumbBounds, instr);
        ThumbDispatch(Decode.ThumbFuncs[id], instr);
      } else {
        Set(15, reg[15] + 4);
        ghost var m1 := Model();
        assert m1 == Interpreter.Advance(m, 4);
        var cond := instr / TWO28;
        if -16 <= cond < 16 && Conditions.Condition(cond % 16, reg[16] / TWO28) {
          assert Interpreter.ConditionHolds(m1, instr);
          var op;
          ghost var steps;
          op, steps := Decode.NavigateTree(instr);
          ArmDispatch(op, instr);
        } else {
          assert !Interpreter.ConditionHolds(m1, instr);
        }
      }
    }

  }
}
