/**
 * Byte-level view of the memory map: 16 regions, each a byte buffer,
 * selected by bits 24-27 of an address; little-endian values; and the Python
 * slice semantics that `mem_read`, `mem_write` and `mem_copy` rely on.
 */
module Memory {
  import opened Bits

  type Byte = x: int | 0 <= x < 256

  /** `2 ** (8 * n)`: the number of values `n` bytes hold. */
  function Pow256(n: nat): (r: nat)
    ensures r >= 1
  {
    if n == 0 then 1 else 256 * Pow256(n - 1)
  }

  /** `int.from_bytes(bs, "little")`. */
  function FromLE(bs: seq<Byte>): (v: nat)
    ensures v < Pow256(|bs|)
  {
    if bs == [] then 0 else bs[0] + 256 * FromLE(bs[1..])
  }

  /** `int.to_bytes(v % 2**(8*n), n, "little")`. */
  function ToLE(v: int, n: nat): (bs: seq<Byte>)
    ensures |bs| == n
    decreases n
  {
    if n == 0 then [] else [v % 256] + ToLE(v / 256, n - 1)
  }

  /** Encoding then decoding keeps exactly the low `8 n` bits. */
  lemma {:induction false} FromToLE(v: int, n: nat)
    ensures FromLE(ToLE(v, n)) == v % Pow256(n)
    decreases n
  {
    if n > 0 {
      FromToLE(v / 256, n - 1);
      assert ToLE(v, n)[1..] == ToLE(v / 256, n - 1);
      DivDiv(v, 256, Pow256(n - 1));
    }
  }

  /** Decoding then encoding gives the bytes back. */
  lemma {:induction false} ToFromLE(bs: seq<Byte>)
    ensures ToLE(FromLE(bs), |bs|) == bs
  {
    if bs != [] {
      var rest := FromLE(bs[1..]);
      DivModUnique(FromLE(bs), 256, rest, bs[0]);
      ToFromLE(bs[1..]);
    }
  }

  /** The memory map: 16 regions, none empty. */
  predicate Shaped(mem: seq<seq<Byte>>)
  {
    |mem| == 16 && forall i :: 0 <= i < 16 ==> |mem[i]| > 0
  }

  /** Two memory maps whose regions have the same lengths. */
  predicate SameShape(a: seq<seq<Byte>>, b: seq<seq<Byte>>)
  {
    |a| == |b| && forall i :: 0 <= i < |a| ==> |a[i]| == |b[i]|
  }

  /** More bytes hold more values. */
  lemma {:induction false} Pow256Le(a: nat, b: nat)
    requires a <= b
    ensures Pow256(a) <= Pow256(b)
    decreases b
  {
    if a < b {
      Pow256Le(a, b - 1);
    }
  }

  /** `addr >> 24 & 0xF`. */
  function RegionIndex(addr: int): (i: nat)
    ensures i < 16
  {
    addr / 0x100_0000 % 16
  }

  /** Python's `r[from:from+size]`: the run is cut short at the end of `r`. */
  function Slice(r: seq<Byte>, from: nat, size: nat): (s: seq<Byte>)
    requires from <= |r|
    ensures |s| == Min(size, |r| - from)
  {
    r[from .. Min(from + size, |r|)]
  }

  /** The value `mem_read(addr, size)` returns. */
  function ReadValue(mem: seq<seq<Byte>>, addr: int, size: nat): (v: nat)
    requires Shaped(mem)
    ensures v < Pow256(size)
  {
    var region := mem[RegionIndex(addr)];
    var run := Slice(region, addr % |region|, size);
    Pow256Le(|run|, size);
    FromLE(run)
  }

  /**
   * `r[at:at+len(bs)] = bs` on a buffer that cannot grow: every byte of `bs`
   * that falls inside `r` is written, the region keeps its length.
   */
  function Overwrite(r: seq<Byte>, at: nat, bs: seq<Byte>): (s: seq<Byte>)
    ensures |s| == |r|
  {
    seq(|r|, j requires 0 <= j < |r| => if at <= j < at + |bs| then bs[j - at] else r[j])
  }

  /** A one-byte read is the byte itself. */
  lemma SliceOne(r: seq<Byte>, at: nat)
    requires at < |r|
    ensures FromLE(Slice(r, at, 1)) == r[at]
  {
    assert Slice(r, at, 1) == [r[at]];
  }

  /** A run written inside a buffer reads back as written. */
  lemma OverwriteThenSlice(r: seq<Byte>, at: nat, bs: seq<Byte>)
    requires at + |bs| <= |r|
    ensures Slice(Overwrite(r, at, bs), at, |bs|) == bs
  {
    var s := Overwrite(r, at, bs);
    forall i | 0 <= i < |bs| ensures Slice(s, at, |bs|)[i] == bs[i] {
      assert Slice(s, at, |bs|)[i] == s[at + i];
    }
  }

  /** The distance from `at` forward to `j`, going round the end of a buffer of length `len`. */
  function Ahead(j: nat, at: nat, len: nat): nat
    requires j < len && at < len
  {
    if at <= j then j - at else j + len - at
  }

  lemma WrapIndex(at: nat, i: nat, len: nat)
    requires at < len && i < len
    ensures (at + i) % len < len && Ahead((at + i) % len, at, len) == i
  {
    if at + i < len {
      DivModUnique(at + i, len, 0, at + i);
    } else {
      DivModUnique(at + i, len, 1, at + i - len);
    }
  }

  /**
   * The bytes `mem_copy` gathers: `region1[src:src+size]`, followed by
   * `region1[:(src+size) % len]` when the run passes the end of the region.
   */
  function CopyData(r: seq<Byte>, src: nat, size: nat): seq<Byte>
    requires src < |r|
  {
    Slice(r, src, size) + if src + size > |r| then r[..(src + size) % |r|] else []
  }

  /** For a run no longer than the region the gathered bytes are the wrapped run. */
  lemma CopyDataWraps(r: seq<Byte>, src: nat, size: nat)
    requires src < |r| && size <= |r|
    ensures |CopyData(r, src, size)| == size
    ensures forall i :: 0 <= i < size ==> CopyData(r, src, size)[i] == r[(src + i) % |r|]
  {
    var data := CopyData(r, src, size);
    var wrap := if src + size > |r| then src + size - |r| else 0;
    assert data == Slice(r, src, size) + r[..wrap] by {
      if src + size > |r| {
        DivModUnique(src + size, |r|, 1, wrap);
      }
    }
    forall i | 0 <= i < size ensures data[i] == r[(src + i) % |r|] {
      if src + i < |r| {
        assert data[i] == r[src + i];
        DivModUnique(src + i, |r|, 0, src + i);
      } else {
        assert data[i] == r[src + i - |r|];
        DivModUnique(src + i, |r|, 1, src + i - |r|);
      }
    }
  }

  /**
   * The gathered run is never longer than `size`, and is exactly `size`
   * long only while `src + size` stays below twice the region's length:
   * a longer run takes the region's tail and a single wrap of its head.
   */
  lemma CopyDataLength(r: seq<Byte>, src: nat, size: nat)
    requires src < |r|
    ensures |CopyData(r, src, size)| <= size
    ensures |CopyData(r, src, size)| == size <==> src + size < 2 * |r|
  {
    var n, t := |r|, src + size;
    if t > n {
      var x := t - n;
      DivBounds(x, n);
      assert x == n * (x / n) + x % n;
      assert n * (x / n) >= 0;
      DivModUnique(t, n, x / n + 1, x % n);
      if x < n {
        DivModUnique(x, n, 0, x);
      }
    }
  }

  /** A 4-byte region copied 8 bytes from offset 0 gathers only its own 4 bytes. */
  lemma CopyDataShortExample(r: seq<Byte>)
    requires |r| == 4
    ensures CopyData(r, 0, 8) == r
  {
  }

  /**
   * Python's `s[a:b] = t` on a list, which may change its length; with
   * `b == |s|` this is also `s[a:] = t`.
   */
  function SliceAssign(s: seq<Byte>, a: nat, b: nat, t: seq<Byte>): seq<Byte>
    requires a <= |s|
  {
    s[..a] + t + s[Min(if a <= b then b else a, |s|)..]
  }

  /** Python's `t[a:b]` for non-negative bounds. */
  function PySlice(t: seq<Byte>, a: nat, b: nat): seq<Byte>
  {
    if a < b && a < |t| then t[a .. Min(b, |t|)] else []
  }

  /**
   * The destination side of `mem_copy` as the source writes it. When the run
   * wraps, the head of the region receives `copydata[distance:size-distance]`
   * instead of `copydata[distance:]`.
   */
  function CopyIntoAsWritten(r: seq<Byte>, des: nat, data: seq<Byte>, size: nat): seq<Byte>
    requires des < |r|
  {
    if des + size > |r| then
      var distance := |r| - des;
      var r1 := SliceAssign(r, des, |r|, PySlice(data, 0, distance));
      SliceAssign(r1, 0, size - distance, PySlice(data, distance, size - distance))
    else
      SliceAssign(r, des, des + size, data)
  }

  /**
   * Whenever the destination run of a full-length copy wraps, the as-written
   * assignment makes the region shorter, so a byte buffer of fixed length
   * cannot hold the result.
   */
  lemma WrappingCopyShrinks(r: seq<Byte>, des: nat, data: seq<Byte>)
    requires des < |r| && des + |data| > |r| && |data| <= |r|
    ensures |CopyIntoAsWritten(r, des, data, |data|)| < |r|
  {
    var size, distance := |data|, |r| - des;
    var r1 := SliceAssign(r, des, |r|, PySlice(data, 0, distance));
    assert |r1| == |r|;
    var head := PySlice(data, distance, size - distance);
    assert |head| < size - distance;
  }

  /**
   * The destination side of `mem_copy` as evidently intended: a run that
   * passes the end of the region fills its tail with the first `distance`
   * bytes and its head with `copydata[distance:size]`.
   */
  function CopyInto(r: seq<Byte>, des: nat, data: seq<Byte>, size: nat): (s: seq<Byte>)
    requires des < |r|
    ensures |s| == |r|
  {
    if des + size > |r| then
      var distance := |r| - des;
      Overwrite(Overwrite(r, des, PySlice(data, 0, distance)), 0, PySlice(data, distance, size))
    else
      Overwrite(r, des, data)
  }

  /**
   * A copy no longer than the region puts byte `i` of the run at offset
   * `(des + i) mod len`, wrapping at the end, and leaves every other byte.
   */
  lemma CopyIntoLands(r: seq<Byte>, des: nat, data: seq<Byte>)
    requires des < |r| && |data| <= |r|
    ensures forall j :: 0 <= j < |r| ==>
      CopyInto(r, des, data, |data|)[j] == if Ahead(j, des, |r|) < |data| then data[Ahead(j, des, |r|)] else r[j]
  {
    var len, n := |r|, |data|;
    if des + n > len {
      var distance := len - des;
      var tail, head := PySlice(data, 0, distance), PySlice(data, distance, n);
      assert tail == data[..distance] && head == data[distance..];
      var r1 := Overwrite(r, des, tail);
      forall j | 0 <= j < len
        ensures CopyInto(r, des, data, n)[j] == if Ahead(j, des, len) < n then data[Ahead(j, des, len)] else r[j]
      {
        assert CopyInto(r, des, data, n)[j] == if j < |head| then head[j] else r1[j];
      }
    }
  }

  /**
   * A copy that does not wrap and whose gathered run is exactly `size`
   * bytes long is the same as written and as intended.
   */
  lemma CopyAsWrittenAgrees(r: seq<Byte>, des: nat, data: seq<Byte>)
    requires des < |r| && des + |data| <= |r|
    ensures CopyIntoAsWritten(r, des, data, |data|) == CopyInto(r, des, data, |data|)
  {
    var n := |data|;
    var written := SliceAssign(r, des, des + n, data);
    assert written == r[..des] + data + r[des + n..];
    var intended := Overwrite(r, des, data);
    forall j | 0 <= j < |r| ensures written[j] == intended[j] {
      if j < des {
        assert written[j] == r[j];
      } else if j < des + n {
        assert written[j] == data[j - des];
      } else {
        assert written[j] == r[j];
      }
    }
    assert written == intended;
  }

  /** The run `DD CC BB AA 01 02 03 04` copied to offset 0xFC of a 0x100-byte region. */
  lemma WrappingCopyExample(r: seq<Byte>)
    requires |r| == 0x100
    ensures |CopyIntoAsWritten(r, 0xFC, [0xDD, 0xCC, 0xBB, 0xAA, 1, 2, 3, 4], 8)| == 0xFC
    ensures var s := CopyInto(r, 0xFC, [0xDD, 0xCC, 0xBB, 0xAA, 1, 2, 3, 4], 8);
      |s| == 0x100 && s[0] == 1 && s[3] == 4 && s[0xFC] == 0xDD && s[4] == r[4]
  {
  }
}
