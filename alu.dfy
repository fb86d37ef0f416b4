/**
 * The three flag-setting primitives of the interpreter. Each returns a value
 * together with the status word `Reg[16]` it leaves behind; the flags are its
 * top nibble: N = bit 31, Z = bit 30, C = bit 29, V = bit 28.
 */
module Alu {
  import opened Bits

  const BIT29: int := 0x2000_0000

  /** A result and the status word after the operation. */
  datatype Flagged = Flagged(value: int, status: int)

  predicate FlagN(status: int) { status / TWO31 % 2 == 1 }
  predicate FlagZ(status: int) { status / TWO30 % 2 == 1 }
  predicate FlagC(status: int) { status / BIT29 % 2 == 1 }
  predicate FlagV(status: int) { status / TWO28 % 2 == 1 }

  /** The flag nibble `status >> 28 & 0xF`. */
  function Nibble(status: int): (k: nat)
    ensures k < 16
  {
    status / TWO28 % 16
  }

  /** Bit `log2 d` of `q` is the same bit of `q`'s low nibble. */
  lemma NibbleBit(q: int, d: int)
    requires d == 1 || d == 2 || d == 4 || d == 8
    ensures q / d % 2 == q % 16 / d % 2
  {
    var a, k := q / 16, q % 16;
    if d == 1 {
      DivModUnique(q, 2, 8 * a + k / 2, k % 2);
    } else if d == 2 {
      DivModUnique(q, 2, 8 * a + k / 2, k % 2);
      DivModUnique(q / 2, 2, 4 * a + k / 4, k / 2 % 2);
    } else if d == 4 {
      DivModUnique(q, 4, 4 * a + k / 4, k % 4);
      DivModUnique(q / 4, 2, 2 * a + k / 8, k / 4 % 2);
    } else {
      DivModUnique(q, 8, 2 * a + k / 8, k % 8);
      DivModUnique(q / 8, 2, a, k / 8);
    }
  }

  /** Each flag is one bit of the nibble. */
  lemma FlagsOfNibble(status: int)
    ensures FlagN(status) <==> Nibble(status) / 8 == 1
    ensures FlagZ(status) <==> Nibble(status) / 4 % 2 == 1
    ensures FlagC(status) <==> Nibble(status) / 2 % 2 == 1
    ensures FlagV(status) <==> Nibble(status) % 2 == 1
  {
    var q := status / TWO28;
    DivDiv(status, TWO28, 8);
    DivDiv(status, TWO28, 4);
    DivDiv(status, TWO28, 2);
    NibbleBit(q, 1);
    NibbleBit(q, 2);
    NibbleBit(q, 4);
    NibbleBit(q, 8);
  }

  /** A status word built from the bits above 31, a flag nibble and bits 0-27. */
  function Pack(hi: int, k: int, lo: int): int
  {
    hi * TWO32 + k * TWO28 + lo
  }

  lemma PackSpec(hi: int, k: int, lo: int)
    requires 0 <= k < 16 && 0 <= lo < TWO28
    ensures var st := Pack(hi, k, lo);
      st / TWO32 == hi && Nibble(st) == k && st % TWO28 == lo
      && (FlagN(st) <==> k / 8 == 1) && (FlagZ(st) <==> k / 4 % 2 == 1)
      && (FlagC(st) <==> k / 2 % 2 == 1) && (FlagV(st) <==> k % 2 == 1)
  {
    var st := Pack(hi, k, lo);
    DivModUnique(st, TWO28, hi * 16 + k, lo);
    DivModUnique(hi * 16 + k, 16, hi, k);
    DivDiv(st, TWO28, 16);
    FlagsOfNibble(st);
  }

  /** Every status word is packed from its own parts. */
  lemma Unpack(status: int)
    ensures status == Pack(status / TWO32, Nibble(status), status % TWO28)
  {
    DivDiv(status, TWO28, 16);
  }

  /**
   * `compare(Op1, Op2, S)`: the 33-bit sum of the low words; with `S` set the
   * flags are rewritten from it and bits 0-27 of the status word are kept.
   */
  function Compare(op1: int, op2: int, s: int, status: int): (f: Flagged)
    ensures f.value == (op1 + op2) % TWO32
    ensures s == 0 ==> f.status == status
    ensures s != 0 ==> f.status % TWO28 == status % TWO28 && 0 <= f.status < TWO32
    ensures s != 0 ==> (FlagN(f.status) <==> f.value >= TWO31)
    ensures s != 0 ==> (FlagZ(f.status) <==> f.value == 0)
    ensures s != 0 ==> (FlagC(f.status) <==> Lo32(op1) + Lo32(op2) >= TWO32)
  {
    var result := Lo32(op1) + Lo32(op2);
    var sign1, sign2 := op1 / TWO30, op2 / TWO30;
    var n := if result / TWO31 % 2 == 1 then 8 else 0;
    var z := if result % TWO32 == 0 then 4 else 0;
    var c := if result / TWO32 % 2 == 1 then 2 else 0;
    var v := if sign1 == sign2 && sign2 != n then 1 else 0;
    PackSpec(0, n + z + c + v, status % TWO28);
    SumLow(op1, op2);
    Flagged(result % TWO32, if s != 0 then (n + z + c + v) * TWO28 + status % TWO28 else status)
  }

  /** Bit 31 of a 32-bit word is set exactly when the word is at least 2^31. */
  lemma TopBit(r: int)
    requires 0 <= r < TWO32
    ensures r / TWO31 % 2 == 1 <==> r >= TWO31
  {
    if r >= TWO31 {
      DivModUnique(r, TWO31, 1, r - TWO31);
    } else {
      DivModUnique(r, TWO31, 0, r);
    }
  }

  /** Facts about the 33-bit sum that `compare` reads its flags from. */
  lemma SumLow(op1: int, op2: int)
    ensures var result := Lo32(op1) + Lo32(op2);
      result % TWO32 == (op1 + op2) % TWO32
      && (result / TWO31 % 2 == 1 <==> result % TWO32 >= TWO31)
      && (result / TWO32 % 2 == 1 <==> result >= TWO32)
  {
    var a, b := op1 / TWO32, op2 / TWO32;
    var result := Lo32(op1) + Lo32(op2);
    assert op1 + op2 == result + (a + b) * TWO32;
    if result >= TWO32 {
      DivModUnique(result, TWO32, 1, result - TWO32);
      DivModUnique(op1 + op2, TWO32, a + b + 1, result - TWO32);
    } else {
      DivModUnique(result, TWO32, 0, result);
      DivModUnique(op1 + op2, TWO32, a + b, result);
    }
  }

  /** The V flag as the source computes it: the operands' `>> 30` agree and differ from N's 8 or 0. */
  lemma CompareOverflowAsWritten(op1: int, op2: int, status: int)
    ensures var f := Compare(op1, op2, 1, status);
      var n := if f.value >= TWO31 then 8 else 0;
      FlagV(f.status) <==> op1 / TWO30 == op2 / TWO30 && op2 / TWO30 != n
  {
    var result := Lo32(op1) + Lo32(op2);
    SumLow(op1, op2);
    var n := if result / TWO31 % 2 == 1 then 8 else 0;
    var z := if result % TWO32 == 0 then 4 else 0;
    var c := if result / TWO32 % 2 == 1 then 2 else 0;
    var v := if op1 / TWO30 == op2 / TWO30 && op2 / TWO30 != n then 1 else 0;
    PackSpec(0, n + z + c + v, status % TWO28);
  }

  /** 0x7FFFFFFF + 1 overflows a signed word, yet the source leaves V clear. */
  lemma CompareOverflowExample()
    ensures Compare(0x7FFF_FFFF, 1, 1, 0).value == TWO31
    ensures FlagN(Compare(0x7FFF_FFFF, 1, 1, 0).status)
    ensures !FlagV(Compare(0x7FFF_FFFF, 1, 1, 0).status)
  {
    CompareOverflowAsWritten(0x7FFF_FFFF, 1, 0);
  }

  /** `cmphalf(result, S)`: the low word of `result`; with `S` set only N and Z are rewritten. */
  function CmpHalf(result: int, s: int, status: int): (f: Flagged)
    ensures f.value == Lo32(result)
    ensures s == 0 ==> f.status == status
    ensures s != 0 ==> f.status % TWO30 == status % TWO30 && 0 <= f.status < TWO32
    ensures s != 0 ==> (FlagN(f.status) <==> f.value >= TWO31)
    ensures s != 0 ==> (FlagZ(f.status) <==> f.value == 0)
  {
    var r := Lo32(result);
    var n := if r / TWO31 % 2 == 1 then 8 else 0;
    var z := if r == 0 then 4 else 0;
    var st := (n + z) * TWO28 + status % TWO30;
    DivDiv(status, TWO28, 4);
    PackSpec(0, n + z + status / TWO28 % 4, status % TWO28);
    DivModUnique(st, TWO30, (n + z) / 4, status % TWO30);
    TopBit(r);
    Flagged(r, if s != 0 then st else status)
  }

  /** The shift amount `barrelshift` works with: ROR amounts mod 32, the others capped at 32. */
  function ShiftAmount(shift: int, typ: int): int
  {
    if typ == 3 then shift % 32 else Min(32, shift)
  }

  /** The shifted value before the final mask, for an amount `sh` already normalised. */
  function ShiftedValue(v: nat, sh: nat, typ: int, status: int): int
  {
    if sh != 0 then
      if typ == 0 then v * Pow2(sh)
      else if typ == 1 then v / Pow2(sh)
      else if typ == 2 then SignExtendFrom(v, TWO31) / Pow2(sh)
      else (v * TWO32 + v) / Pow2(sh)
    else
      if typ == 0 then v
      else if typ == 1 then 0
      else if typ == 2 then -(v / TWO31)
      else ((status / BIT29 % 2) * TWO32 + v) / 2
  }

  /**
   * The C term `barrelshift` ORs in at bit 28 of the status: 2 (bit 29) for the
   * last bit shifted out, except that a nonzero LSL yields 0 or 1.
   */
  function ShiftCarry(v: nat, sh: nat, typ: int): nat
  {
    if sh != 0 then
      if typ == 0 then Bit(v * Pow2(sh), 32) else 2 * Bit(v, sh - 1)
    else
      if typ == 0 then 0 else 2 * (v / TWO31)
  }

  /**
   * The status word `barrelshift` writes when `S` is set:
   * `Reg[16] & ~affectedflags | (N|Z|C) << 28`. Only the flag nibble changes;
   * the affected mask is 0xC (N, Z) for LSL #0 and 0xE (N, Z, C) otherwise.
   */
  function ShiftStatus(n: nat, z: nat, c: nat, lslZero: bool, status: int): int
  {
    var nib := Nibble(status);
    var nzc := n + z + c;
    var merged :=
      if lslZero then nib % 4 + nzc                              // bits 0-1 kept, N and Z at bits 2-3
      else nzc + (if nzc % 2 == 0 then nib % 2 else 0);          // bit 0 kept, OR-ed with the C term
    Pack(status / TWO32, merged, status % TWO28)
  }

  /**
   * `barrelshift(value, Shift, Typ, S)`. The source raises on a negative amount
   * for LSL, LSR and ASR, so such an amount is excluded here and handled by
   * the caller.
   */
  function BarrelShift(value: int, shift: int, typ: int, s: int, status: int): (f: Flagged)
    requires 0 <= typ < 4 && (typ == 3 || shift >= 0)
    ensures 0 <= f.value < TWO32
    ensures s == 0 ==> f.status == status
    ensures s != 0 ==> f.status % TWO28 == status % TWO28
    ensures s != 0 ==> f.status / TWO32 == status / TWO32
    ensures s != 0 ==> (FlagN(f.status) <==> f.value >= TWO31)
    ensures s != 0 ==> (FlagZ(f.status) <==> f.value == 0)
  {
    var v := Lo32(value);
    var sh: nat := ShiftAmount(shift, typ);
    var r := Lo32(ShiftedValue(v, sh, typ, status));
    var n := if r / TWO31 % 2 == 1 then 8 else 0;
    var z := if r == 0 then 4 else 0;
    var c := ShiftCarry(v, sh, typ);
    ShiftStatusSpec(n, z, c, sh == 0 && typ == 0, status);
    TopBit(r);
    Flagged(r, if s != 0 then ShiftStatus(n, z, c, sh == 0 && typ == 0, status) else status)
  }

  /** ROR amounts are taken modulo 32 and the other amounts are capped at 32. */
  lemma ShiftAmountNormalised(value: int, shift: int, typ: int, s: int, status: int)
    requires 0 <= typ < 4 && (typ == 3 || shift >= 0)
    ensures typ == 3 ==> BarrelShift(value, shift, typ, s, status) == BarrelShift(value, shift % 32, typ, s, status)
    ensures typ < 3 && shift >= 32 ==> BarrelShift(value, shift, typ, s, status) == BarrelShift(value, 32, typ, s, status)
  {
    if typ == 3 {
      assert ShiftAmount(shift % 32, typ) == ShiftAmount(shift, typ);
      SameShiftAmount(value, shift, shift % 32, typ, s, status);
    } else if shift >= 32 {
      assert ShiftAmount(32, typ) == ShiftAmount(shift, typ);
      SameShiftAmount(value, shift, 32, typ, s, status);
    }
  }

  /** `barrelshift` depends on the amount only through `ShiftAmount`. */
  lemma SameShiftAmount(value: int, shift: int, shift': int, typ: int, s: int, status: int)
    requires 0 <= typ < 4 && (typ == 3 || (shift >= 0 && shift' >= 0))
    requires ShiftAmount(shift, typ) == ShiftAmount(shift', typ)
    ensures BarrelShift(value, shift, typ, s, status) == BarrelShift(value, shift', typ, s, status)
  {
  }

  /** The flags `barrelshift` leaves, in terms of its value and carry term. */
  lemma BarrelShiftStatus(value: int, shift: int, typ: int, s: int, status: int)
    requires 0 <= typ < 4 && (typ == 3 || shift >= 0) && s != 0
    ensures var v, sh := Lo32(value), ShiftAmount(shift, typ);
      var f := BarrelShift(value, shift, typ, s, status);
      var c := ShiftCarry(v, sh, typ);
      (FlagC(f.status) <==> if sh == 0 && typ == 0 then FlagC(status) else c == 2)
      && (FlagV(f.status) <==> if c == 1 then true else FlagV(status))
  {
    var v := Lo32(value);
    var sh: nat := ShiftAmount(shift, typ);
    var r := Lo32(ShiftedValue(v, sh, typ, status));
    var n := if r / TWO31 % 2 == 1 then 8 else 0;
    var z := if r == 0 then 4 else 0;
    ShiftStatusSpec(n, z, ShiftCarry(v, sh, typ), sh == 0 && typ == 0, status);
  }

  /** The masked result of a shift by a zero amount. */
  lemma ZeroShiftValue(v: nat, typ: int, status: int)
    requires v < TWO32
    ensures typ == 0 ==> Lo32(ShiftedValue(v, 0, typ, status)) == v
    ensures typ == 2 ==> Lo32(ShiftedValue(v, 0, typ, status)) == if v >= TWO31 then MASK32 else 0
    ensures typ == 3 ==> Lo32(ShiftedValue(v, 0, typ, status)) == (if FlagC(status) then TWO31 else 0) + v / 2
  {
    if typ == 2 {
      if v >= TWO31 {
        DivModUnique(v, TWO31, 1, v - TWO31);
        DivModUnique(-1, TWO32, -1, MASK32);
      } else {
        DivModUnique(v, TWO31, 0, v);
      }
    } else if typ == 3 {
      var b := status / BIT29 % 2;
      DivModUnique(b * TWO32 + v, 2, b * TWO31 + v / 2, v % 2);
    }
  }

  /**
   * Shifting by a zero amount: LSL returns the word and keeps C and V; LSR
   * gives 0, ASR gives 0 or 0xFFFFFFFF from bit 31, ROR is RRX, `C << 31 | v >> 1`;
   * for the last three the carry becomes the old bit 31.
   */
  lemma BarrelShiftZeroAmount(value: int, typ: int, s: int, status: int)
    requires 0 <= typ < 4
    ensures var v, f := Lo32(value), BarrelShift(value, 0, typ, s, status);
      (typ == 0 ==> f.value == v)
      && (typ == 1 ==> f.value == 0)
      && (typ == 2 ==> f.value == if v >= TWO31 then MASK32 else 0)
      && (typ == 3 ==> f.value == (if FlagC(status) then TWO31 else 0) + v / 2)
      && (s != 0 && typ == 0 ==> (FlagC(f.status) <==> FlagC(status)) && (FlagV(f.status) <==> FlagV(status)))
      && (s != 0 && typ != 0 ==> (FlagC(f.status) <==> v >= TWO31) && (FlagV(f.status) <==> FlagV(status)))
  {
    var v := Lo32(value);
    assert BarrelShift(value, 0, typ, s, status).value == Lo32(ShiftedValue(v, 0, typ, status));
    ZeroShiftValue(v, typ, status);
    if s != 0 {
      BarrelShiftStatus(value, 0, typ, s, status);
      assert ShiftCarry(v, 0, typ) == if typ == 0 then 0 else 2 * (v / TWO31);
    }
  }

  /** For a nonzero LSR, ASR or ROR amount the carry is the last bit shifted out and V is kept. */
  lemma BarrelShiftCarry(value: int, shift: int, typ: int, s: int, status: int)
    requires 1 <= typ < 4 && (typ == 3 || shift >= 0) && s != 0 && ShiftAmount(shift, typ) != 0
    ensures var f := BarrelShift(value, shift, typ, s, status);
      (FlagC(f.status) <==> Bit(Lo32(value), ShiftAmount(shift, typ) - 1) == 1)
      && (FlagV(f.status) <==> FlagV(status))
  {
    BarrelShiftStatus(value, shift, typ, s, status);
  }

  /** LSR by 1 to 32 is the unsigned quotient `v >> amount`. */
  lemma LogicalShiftRight(value: int, shift: int, s: int, status: int)
    requires 1 <= shift
    ensures BarrelShift(value, shift, 1, s, status).value == Lo32(value) / Pow2(Min(32, shift))
  {
    DivBounds(Lo32(value), Pow2(Min(32, shift)));
  }

  /** ASR keeps the sign bit, and ASR by 32 or more fills the word with it. */
  lemma ArithmeticShiftRight(value: int, shift: int, s: int, status: int)
    requires 1 <= shift
    ensures var v, r := Lo32(value), BarrelShift(value, shift, 2, s, status).value;
      (r >= TWO31 <==> v >= TWO31) && (shift >= 32 ==> r == if v >= TWO31 then MASK32 else 0)
  {
    var v := Lo32(value);
    var sh := Min(32, shift);
    var x := SignExtendFrom(v, TWO31);
    SignExtendFromIsSignExtension(v, TWO31);
    var p := Pow2(sh);
    DivBounds(x, p);
    var q := x / p;
    if q < 0 {
      DivModUnique(q, TWO32, -1, q + TWO32);
    } else {
      DivModUnique(q, TWO32, 0, q);
    }
    if sh == 32 {
      Pow2Constants();
      if v >= TWO31 {
        DivModUnique(x, TWO32, -1, v);
      } else {
        DivModUnique(x, TWO32, 0, v);
      }
    } else {
      assert p >= 2;
      if x >= 0 {
        assert q * p <= x;
        MulAtLeast(p, q + 1);
        assert q < TWO31;
      }
    }
  }

  lemma RotateDiv(v: int, p: int, p': int)
    requires p >= 1 && p' >= 1 && 0 <= v
    ensures (v * (p * p') + v) / p == v * p' + v / p
  {
    var q, r := v / p, v % p;
    assert v * (p * p') + v == (v * p' + q) * p + r by {
      assert v * (p * p') == v * p' * p;
    }
    DivModUnique(v * (p * p') + v, p, v * p' + q, r);
  }

  lemma QuotBelow(v: int, p: int, p': int)
    requires p >= 1 && p' >= 1 && 0 <= v < p * p'
    ensures v / p < p'
  {
    var q := v / p;
    assert q * p <= v;
    if q >= p' {
      MulAtLeast(q - p' + 1, p);
    }
  }

  lemma MulBelow(r: int, p: int, p': int, q: int)
    requires 0 <= r < p && p' >= 1 && q < p'
    ensures r * p' + q < p * p'
  {
    assert r * p' <= (p - 1) * p';
  }

  lemma RotateMod(v: int, p: int, p': int)
    requires p >= 1 && p' >= 1 && 0 <= v < p * p'
    ensures (v * p' + v / p) % (p * p') == v / p + v % p * p'
  {
    var t := p * p';
    var q, r := v / p, v % p;
    assert v * p' == q * t + r * p' by {
      assert v == q * p + r;
      assert v * p' == (q * p + r) * p';
    }
    QuotBelow(v, p, p');
    MulBelow(r, p, p', q);
    DivModUnique(v * p' + q, t, q, r * p' + q);
  }

  /** Rotation arithmetic for a word of `p * p'` values rotated by the factor `p`. */
  lemma RotateArith(v: int, p: int, p': int)
    requires p >= 1 && p' >= 1 && 0 <= v < p * p'
    ensures (v * (p * p') + v) / p % (p * p') == v / p + v % p * p'
  {
    RotateDiv(v, p, p');
    RotateMod(v, p, p');
  }

  /** Rotating a word right by `sh`, as `(v << 32 | v) >> sh` masked to 32 bits. */
  lemma RotateWord(v: nat, sh: nat)
    requires v < TWO32 && 0 < sh < 32
    ensures Lo32((v * TWO32 + v) / Pow2(sh)) == v / Pow2(sh) + v % Pow2(sh) * Pow2(32 - sh)
  {
    Pow2Add(sh, 32 - sh);
    Pow2Constants();
    RotateArith(v, Pow2(sh), Pow2(32 - sh));
  }

  /** ROR by 1 to 31 is the rotation `v >> amount | v << (32 - amount)` of the word. */
  lemma RotateRight(value: int, shift: int, s: int, status: int)
    requires 0 < shift % 32
    ensures var v, sh := Lo32(value), shift % 32;
      BarrelShift(value, shift, 3, s, status).value == v / Pow2(sh) + v % Pow2(sh) * Pow2(32 - sh)
  {
    RotateWord(Lo32(value), shift % 32);
  }

  /**
   * A nonzero LSL clears C and ORs the bit shifted out, bit `32 - amount` of the
   * word, into bit 28 (V) instead of writing it to C.
   */
  lemma ShiftLeftCarryInBit28(value: int, shift: int, s: int, status: int)
    requires 1 <= shift && s != 0
    ensures var v, sh := Lo32(value), Min(32, shift);
      var f := BarrelShift(value, shift, 0, s, status);
      f.value == v * Pow2(sh) % TWO32
      && !FlagC(f.status)
      && (FlagV(f.status) <==> FlagV(status) || Bit(v, 32 - sh) == 1)
  {
    var v, sh := Lo32(value), Min(32, shift);
    BarrelShiftStatus(value, shift, 0, s, status);
    ShiftedOutBit(v, sh);
  }

  /** The bit an LSL by `sh` carries past bit 31 is bit `32 - sh` of the word. */
  lemma ShiftedOutBit(v: nat, sh: nat)
    requires 1 <= sh <= 32
    ensures Bit(v * Pow2(sh), 32) == Bit(v, 32 - sh)
  {
    var a, b := Pow2(sh), Pow2(32 - sh);
    Pow2Add(sh, 32 - sh);
    DivDiv(v * a, a, b);
    assert v * a / a == v by {
      DivModUnique(v * a, a, v, 0);
    }
  }

  /** The nibble `barrelshift` writes, bit by bit. */
  lemma MergedBits(n: nat, z: nat, c: nat, lslZero: bool, nib: nat)
    requires (n == 0 || n == 8) && (z == 0 || z == 4) && c <= 2 && (lslZero ==> c == 0) && nib < 16
    ensures var nzc := n + z + c;
      var merged := if lslZero then nib % 4 + nzc else nzc + (if nzc % 2 == 0 then nib % 2 else 0);
      merged < 16 && merged / 8 == n / 8 && merged / 4 % 2 == z / 4
      && merged / 2 % 2 == (if lslZero then nib / 2 % 2 else c / 2)
      && merged % 2 == (if c == 1 then 1 else nib % 2)
  {
    var nzc := n + z + c;
    var merged := if lslZero then nib % 4 + nzc else nzc + (if nzc % 2 == 0 then nib % 2 else 0);
    var hi, lo := n / 8, merged - n - z;
    assert 0 <= lo < 4;
    assert lo / 2 == (if lslZero then nib / 2 % 2 else c / 2);
    assert lo % 2 == (if c == 1 then 1 else nib % 2);
    DivModUnique(merged, 8, hi, z + lo);
    DivModUnique(merged, 4, 2 * hi + z / 4, lo);
    DivModUnique(merged / 4, 2, hi, z / 4);
    DivModUnique(merged, 2, 4 * hi + z / 2 + lo / 2, lo % 2);
    DivModUnique(merged / 2, 2, 2 * hi + z / 4, lo / 2);
  }

  /** What the status update of `barrelshift` does to each flag. */
  lemma ShiftStatusSpec(n: nat, z: nat, c: nat, lslZero: bool, status: int)
    requires (n == 0 || n == 8) && (z == 0 || z == 4) && c <= 2 && (lslZero ==> c == 0)
    ensures var st := ShiftStatus(n, z, c, lslZero, status);
      st % TWO28 == status % TWO28 && st / TWO32 == status / TWO32
      && (FlagN(st) <==> n == 8) && (FlagZ(st) <==> z == 4)
      && (FlagC(st) <==> if lslZero then FlagC(status) else c == 2)
      && (FlagV(st) <==> if c == 1 then true else FlagV(status))
  {
    var nib := Nibble(status);
    var nzc := n + z + c;
    var merged := if lslZero then nib % 4 + nzc else nzc + (if nzc % 2 == 0 then nib % 2 else 0);
    MergedBits(n, z, c, lslZero, nib);
    FlagsOfNibble(status);
    PackSpec(status / TWO32, merged, status % TWO28);
  }
}
