/**
 * The interpreter's whole state as a value: the register list `Reg` (index
 * 15 is the program counter, 16 the status word), the 16 memory regions,
 * the debugger's `BreakState` and the monitored addresses; and the memory
 * operations `mem_read`, `mem_readsigned`, `mem_write`, `mem_copy` and `DMA`
 * as functions on it.
 */
module Machine {
  import opened Bits
  import opened Memory
  import opened Alu

  /** What `BreakState` holds: nothing, or the last monitored read or write. */
  datatype Break =
    | Quiet
    | ReadPoint(addr: int, size: nat, value: int)
    | WatchPoint(addr: int, before: nat, after: nat, size: nat)

  datatype State = State(reg: seq<int>, mem: seq<seq<Byte>>, brk: Break, readPoints: set<int>, watchPoints: set<int>)

  /** The DMA registers: source, destination, count, and the control word whose bit 15 starts a transfer. */
  const DMA_SOURCE: int := 0x0400_00D4
  const DMA_DEST: int := 0x0400_00D8
  const DMA_COUNT: int := 0x0400_00DC
  const DMA_CONTROL: int := 0x0400_00DE
  const DMA_ENABLE: int := 0x0400_00DF

  /** The control word lies inside region 4 without running past its end. */
  predicate DmaControlFits(mem: seq<seq<Byte>>)
    requires Shaped(mem)
  {
    DMA_CONTROL % |mem[4]| + 2 <= |mem[4]|
  }

  predicate WellFormed(m: State)
  {
    |m.reg| == 17 && Shaped(m.mem) && DmaControlFits(m.mem)
  }

  function SetReg(m: State, i: nat, v: int): State
    requires i < |m.reg|
  {
    m.(reg := m.reg[i := v])
  }

  /** A register written twice holds the second value; written with its own value, the state is unchanged. */
  lemma SetRegTwice(m: State, i: nat, a: int, b: int)
    requires i < |m.reg|
    ensures SetReg(SetReg(m, i, a), i, b) == SetReg(m, i, b)
    ensures SetReg(m, i, m.reg[i]) == m
  {
    assert m.reg[i := m.reg[i]] == m.reg;
  }

  /** Registers kept by a first step and then updated at `rd` alone: `rd` holds the new value and the rest are as before. */
  lemma Reloaded(reg: seq<int>, reg1: seq<int>, reg2: seq<int>, rd: nat, v: int)
    requires |reg| == 17 && rd < 17 && reg1 == reg && reg2 == reg1[rd := v]
    ensures reg2[rd] == v && forall i :: 0 <= i < 17 && i != rd ==> reg2[i] == reg[i]
  {
  }

  /** The status word a flag-setting primitive left and the register that receives its value. */
  function WithFlags(m: State, f: Flagged, rd: nat): State
    requires |m.reg| == 17 && rd < 17
  {
    SetReg(SetReg(m, 16, f.status), rd, f.value)
  }

  /** The mode bit (bit 5 of the status word) set to `mode`: `Reg[16] & ~(1<<5) | mode << 5`. */
  function WithMode(m: State, mode: int): State
    requires |m.reg| == 17
  {
    SetReg(m, 16, ReplaceField(m.reg[16], 32, 2, mode))
  }

  /** The state and the running address of a multiple load or store. */
  datatype Transfer = Transfer(m: State, addr: int)

  /** The state after a `mem_read` of `addr` that returned `value`: a monitored address records it. */
  function AfterRead(m: State, addr: int, size: nat, value: int): (r: State)
    ensures r.reg == m.reg && r.mem == m.mem
    ensures r.readPoints == m.readPoints && r.watchPoints == m.watchPoints
  {
    if addr in m.readPoints then m.(brk := ReadPoint(addr, size, value)) else m
  }

  /** The value `mem_readsigned(addr, size)` returns: the read sign-extended from its top bit, masked to 32 bits. */
  function SignedValue(mem: seq<seq<Byte>>, addr: int, size: nat): nat
    requires Shaped(mem) && size >= 1
  {
    Lo32(SignExtendFrom(ReadValue(mem, addr, size), Pow256(size) / 2))
  }

  /** The idiom on a value of `8 size` bits, masked to 32 bits, for widths up to a word. */
  lemma SignExtendWord(v: int, full: int)
    requires 2 <= full <= TWO32 && full % 2 == 0 && 0 <= v < full
    ensures Lo32(SignExtendFrom(v, full / 2)) == if v < full / 2 then v else v + TWO32 - full
  {
    SignExtendFromIsSignExtension(v, full / 2);
    if v >= full / 2 {
      DivModUnique(v - full, TWO32, -1, v + TWO32 - full);
    } else {
      DivModUnique(v, TWO32, 0, v);
    }
  }

  /** `Reg[rd] = mem_read(addr, size)`. */
  function Load(m: State, rd: nat, addr: int, size: nat): (r: State)
    requires WellFormed(m) && rd < 17
    ensures WellFormed(r) && r.mem == m.mem
    ensures r.reg == m.reg[rd := ReadValue(m.mem, addr, size)]
  {
    var v := ReadValue(m.mem, addr, size);
    SetReg(AfterRead(m, addr, size, v), rd, v)
  }

  /** `Reg[rd] = mem_readsigned(addr, size)`. */
  function LoadSigned(m: State, rd: nat, addr: int, size: nat): (r: State)
    requires WellFormed(m) && rd < 17 && size >= 1
    ensures WellFormed(r) && r.mem == m.mem
    ensures r.reg == m.reg[rd := SignedValue(m.mem, addr, size)]
  {
    var v := SignedValue(m.mem, addr, size);
    SetReg(AfterRead(m, addr, size, v), rd, v)
  }

  lemma Pow256Word(size: nat)
    requires 1 <= size <= 4
    ensures 2 <= Pow256(size) <= TWO32 && Pow256(size) % 2 == 0
  {
    if size == 1 {
    } else if size == 2 {
    } else if size == 3 {
      assert Pow256(3) == 0x100_0000;
    } else {
      assert Pow256(4) == TWO32;
    }
  }

  /** A signed read of up to four bytes is the two's-complement value of the bytes, as a 32-bit word. */
  lemma ReadSignedExtends(mem: seq<seq<Byte>>, addr: int, size: nat)
    requires Shaped(mem) && 1 <= size <= 4
    ensures var v, half := ReadValue(mem, addr, size), Pow256(size) / 2;
      SignedValue(mem, addr, size) == if v < half then v else v + TWO32 - Pow256(size)
  {
    Pow256Word(size);
    SignExtendWord(ReadValue(mem, addr, size), Pow256(size));
  }

  /**
   * `mem_write` up to its DMA check: a watched address records the value it
   * held and the value written; then the bytes replace the run in place.
   */
  function Stored(m: State, addr: int, data: int, size: nat): (r: State)
    requires WellFormed(m)
    ensures WellFormed(r) && r.reg == m.reg && SameShape(r.mem, m.mem)
    ensures r.readPoints == m.readPoints && r.watchPoints == m.watchPoints
  {
    var k := RegionIndex(addr);
    var region := m.mem[k];
    var bytes := ToLE(data, size);
    var m1 := if addr in m.watchPoints
      then m.(brk := WatchPoint(addr, ReadValue(m.mem, addr, size), FromLE(bytes), size))
      else m;
    m1.(mem := m.mem[k := Overwrite(region, addr % |region|, bytes)])
  }

  /** `mem_copy(src, des, size)`, with the wrapping destination as intended. */
  function Copy(m: State, src: int, des: int, size: nat): (r: State)
    requires WellFormed(m)
    ensures WellFormed(r) && r.reg == m.reg && SameShape(r.mem, m.mem)
    ensures r.readPoints == m.readPoints && r.watchPoints == m.watchPoints
  {
    var from := m.mem[RegionIndex(src)];
    var data := CopyData(from, src % |from|, size);
    var k := RegionIndex(des);
    var into := m.mem[k];
    m.(mem := m.mem[k := CopyInto(into, des % |into|, data, size)])
  }

  /** The byte that holds the DMA enable bit. */
  function EnableByte(mem: seq<seq<Byte>>): nat
    requires Shaped(mem)
  {
    ReadValue(mem, DMA_ENABLE, 1)
  }

  /**
   * `DMA()`: reads the four DMA registers, copies `count` halfwords (words
   * when bit 10 of the control is set), then writes the control back with
   * bit 15 clear. The DMA check inside that last `mem_write` reads the enable
   * byte, which the write has just cleared, so it cannot start another transfer.
   */
  function Dma(m: State): (r: State)
    requires WellFormed(m)
    ensures WellFormed(r) && r.reg == m.reg && SameShape(r.mem, m.mem)
    ensures r.readPoints == m.readPoints && r.watchPoints == m.watchPoints
    ensures EnableByte(r.mem) < 0x80
  {
    var src := ReadValue(m.mem, DMA_SOURCE, 4);
    var m1 := AfterRead(m, DMA_SOURCE, 4, src);
    var des := ReadValue(m1.mem, DMA_DEST, 4);
    var m2 := AfterRead(m1, DMA_DEST, 4, des);
    var count := ReadValue(m2.mem, DMA_COUNT, 2);
    var m3 := AfterRead(m2, DMA_COUNT, 2, count);
    var control := ReadValue(m3.mem, DMA_CONTROL, 2);
    var m4 := AfterRead(m3, DMA_CONTROL, 2, control);
    DmaCopy(m4, src, des, count, control)
  }

  /**
   * The part of `DMA()` after it has read its registers: the copy of `count`
   * halfwords or words, then the control word written back with bit 15 clear
   * and the enable byte read by that write's DMA check.
   */
  function DmaCopy(m: State, src: int, des: int, count: int, control: int): (r: State)
    requires WellFormed(m) && count >= 0 && control >= 0
    ensures WellFormed(r) && r.reg == m.reg && SameShape(r.mem, m.mem)
    ensures r.readPoints == m.readPoints && r.watchPoints == m.watchPoints
    ensures EnableByte(r.mem) < 0x80
  {
    var m5 := Copy(m, src, des, count * (2 + 2 * (control / 0x400 % 2)));
    var m6 := Stored(m5, DMA_CONTROL, control % 0x8000, 2);
    ControlClearsEnable(m5, control % 0x8000);
    AfterRead(m6, DMA_ENABLE, 1, EnableByte(m6.mem))
  }

  /** Writing a control word below 0x8000 leaves the enable byte below 0x80. */
  lemma ControlClearsEnable(m: State, control: int)
    requires WellFormed(m) && 0 <= control < 0x8000
    ensures EnableByte(Stored(m, DMA_CONTROL, control, 2).mem) < 0x80
  {
    var len := |m.mem[4]|;
    var rel := DMA_CONTROL % len;
    assert RegionIndex(DMA_CONTROL) == 4 && RegionIndex(DMA_ENABLE) == 4;
    EnableFollowsControl(len);
    var bytes := ToLE(control, 2);
    assert bytes[1] == control / 256 % 256;
    StoredMemory(m, DMA_CONTROL, control, 2);
    var region := Overwrite(m.mem[4], rel, bytes);
    assert Stored(m, DMA_CONTROL, control, 2).mem[4] == region;
    assert region[rel + 1] == bytes[1];
    SliceOne(region, rel + 1);
  }

  /** The enable byte is the byte after the control word's first byte, in any region that holds the control word. */
  lemma EnableFollowsControl(len: int)
    requires len > 0 && DMA_CONTROL % len + 2 <= len
    ensures DMA_ENABLE % len == DMA_CONTROL % len + 1
  {
    DivModUnique(DMA_ENABLE, len, DMA_CONTROL / len, DMA_CONTROL % len + 1);
  }

  /**
   * `mem_write(addr, data, size)`: store the bytes, then read the enable
   * byte and run `DMA` when its bit 7 is set.
   */
  function Write(m: State, addr: int, data: int, size: nat): (r: State)
    requires WellFormed(m)
    ensures WellFormed(r) && r.reg == m.reg && SameShape(r.mem, m.mem)
    ensures r.readPoints == m.readPoints && r.watchPoints == m.watchPoints
    ensures EnableByte(r.mem) < 0x80
  {
    var m1 := Stored(m, addr, data, size);
    var enable := EnableByte(m1.mem);
    var m2 := AfterRead(m1, DMA_ENABLE, 1, enable);
    if enable / 0x80 % 2 == 1 then Dma(m2) else m2
  }

  lemma EnableClear(enable: int)
    requires 0 <= enable < 0x80
    ensures enable / 0x80 % 2 == 0
  {
  }

  /** A write that leaves the enable bit clear does not start a DMA transfer. */
  lemma WriteWithoutDma(m: State, addr: int, data: int, size: nat)
    requires WellFormed(m)
    requires EnableByte(Stored(m, addr, data, size).mem) < 0x80
    ensures Write(m, addr, data, size).mem == Stored(m, addr, data, size).mem
  {
    var m1 := Stored(m, addr, data, size);
    EnableClear(EnableByte(m1.mem));
  }

  /** The memory after `Stored`: the addressed region with the run overwritten. */
  lemma StoredMemory(m: State, addr: int, data: int, size: nat)
    requires WellFormed(m)
    ensures var k := RegionIndex(addr); var region := m.mem[k];
      Stored(m, addr, data, size).mem == m.mem[k := Overwrite(region, addr % |region|, ToLE(data, size))]
  {
  }

  /** The stored run reads back as the data, and no byte outside it changes. */
  lemma StoredThenRead(m: State, addr: int, data: int, size: nat)
    requires WellFormed(m)
    requires var region := m.mem[RegionIndex(addr)]; addr % |region| + size <= |region|
    ensures ReadValue(Stored(m, addr, data, size).mem, addr, size) == data % Pow256(size)
    ensures var after := Stored(m, addr, data, size).mem; var k := RegionIndex(addr); var rel := addr % |m.mem[k]|;
      forall i, j :: 0 <= i < 16 && 0 <= j < |m.mem[i]| && (i != k || j < rel || rel + size <= j)
        ==> after[i][j] == m.mem[i][j]
  {
    var k := RegionIndex(addr);
    var region := m.mem[k];
    var rel := addr % |region|;
    var bytes := ToLE(data, size);
    StoredMemory(m, addr, data, size);
    OverwriteThenSlice(region, rel, bytes);
    FromToLE(data, size);
  }

  /**
   * A write inside its region that leaves the DMA enable bit clear reads
   * back as the data modulo `2^(8 size)`, and changes no other byte.
   */
  lemma WriteThenRead(m: State, addr: int, data: int, size: nat)
    requires WellFormed(m)
    requires var region := m.mem[RegionIndex(addr)]; addr % |region| + size <= |region|
    requires EnableByte(Stored(m, addr, data, size).mem) < 0x80
    ensures ReadValue(Write(m, addr, data, size).mem, addr, size) == data % Pow256(size)
    ensures var after := Write(m, addr, data, size).mem; var k := RegionIndex(addr); var rel := addr % |m.mem[k]|;
      forall i, j :: 0 <= i < 16 && 0 <= j < |m.mem[i]| && (i != k || j < rel || rel + size <= j)
        ==> after[i][j] == m.mem[i][j]
  {
    WriteWithoutDma(m, addr, data, size);
    StoredThenRead(m, addr, data, size);
  }

  /** A store that stays inside its region and leaves the DMA enable bit clear, so that `mem_write` starts no transfer. */
  predicate PlainStore(m: State, addr: int, data: int, size: nat)
    requires WellFormed(m)
  {
    var region := m.mem[RegionIndex(addr)];
    addr % |region| + size <= |region| && EnableByte(Stored(m, addr, data, size).mem) < 0x80
  }

  /** A plain store reads back as the data, modulo its size. */
  lemma WriteReadsBack(m: State, addr: int, data: int, size: nat)
    requires WellFormed(m) && PlainStore(m, addr, data, size)
    ensures ReadValue(Write(m, addr, data, size).mem, addr, size) == data % Pow256(size)
  {
    WriteThenRead(m, addr, data, size);
  }
}
