/**
 * Instruction decoding: the Thumb handler is chosen by the rank of the
 * instruction among `ThumbBounds`, the ARM handler by walking the static
 * decision tree `arm_tree`.
 */
module Decode {
  import opened Bits

  /** The Thumb handlers, in the order `ThumbFuncs` lists them. */
  datatype ThumbOp =
    | Shifted | AddSub | Immediate | AluOp | HiRegBx | LdrPc | LdrStr | LdrStrImm
    | LdrStrSp | GetRelAddr | AddSp | PushPop | StmLdm | BranchIf | Branch | BranchLink
    | ThumbUndefined

  /** The ARM handlers reachable from `arm_tree`. */
  datatype ArmOp =
    | DataProcess | Psr | Multiply | ArmBx | Clz | DataTransfer | BlockTransfer | ArmBranch
    | ArmUndefined

  const ThumbBounds: seq<int> := [
    0x1800, 0x2000, 0x4000, 0x4400, 0x4800, 0x5000, 0x6000, 0x8000, 0x9000, 0xA000,
    0xB000, 0xB400, 0xBE00, 0xC000, 0xD000, 0xDE00, 0xDF00, 0xE000, 0xE800, 0xF000]

  const ThumbFuncs: seq<ThumbOp> := [
    Shifted, AddSub, Immediate, AluOp, HiRegBx, LdrPc, LdrStr, LdrStrImm, LdrStrImm, LdrStrSp,
    GetRelAddr, AddSp, PushPop, ThumbUndefined, StmLdm, BranchIf, ThumbUndefined, ThumbUndefined,
    Branch, ThumbUndefined, BranchLink]

  /** `bisect_right(bounds, x)`, as the number of entries that are at most `x`. */
  function BisectRight(bounds: seq<int>, x: int): (r: nat)
    ensures r <= |bounds|
  {
    if bounds == [] then 0 else (if bounds[0] <= x then 1 else 0) + BisectRight(bounds[1..], x)
  }

  predicate Sorted(s: seq<int>)
  {
    forall i, j :: 0 <= i < j < |s| ==> s[i] < s[j]
  }

  /** On a sorted sequence the count is the insertion point after every entry at most `x`. */
  lemma {:induction false} BisectRightRank(bounds: seq<int>, x: int)
    requires Sorted(bounds)
    ensures var r := BisectRight(bounds, x);
      (forall i :: 0 <= i < r ==> bounds[i] <= x) && (forall i :: r <= i < |bounds| ==> x < bounds[i])
  {
    if bounds != [] {
      var tail := bounds[1..];
      assert Sorted(tail);
      BisectRightRank(tail, x);
      var r' := BisectRight(tail, x);
      if bounds[0] <= x {
        forall i | 0 <= i < 1 + r' ensures bounds[i] <= x {
          if i > 0 { assert bounds[i] == tail[i - 1]; }
        }
        forall i | 1 + r' <= i < |bounds| ensures x < bounds[i] {
          assert bounds[i] == tail[i - 1];
        }
      } else {
        forall i | 0 <= i < |bounds| ensures x < bounds[i] {
          if i > 0 { assert bounds[0] < bounds[i]; }
        }
      }
    }
  }

  /** Each entry is below the next. */
  predicate Increasing(s: seq<int>)
  {
    forall i :: 0 <= i < |s| - 1 ==> s[i] < s[i + 1]
  }

  lemma {:induction false} IncreasingSorted(s: seq<int>)
    requires Increasing(s)
    ensures Sorted(s)
  {
    if |s| >= 2 {
      var tail := s[1..];
      assert Increasing(tail) by {
        forall i | 0 <= i < |tail| - 1 ensures tail[i] < tail[i + 1] {
          assert tail[i] == s[i + 1] && tail[i + 1] == s[i + 2];
        }
      }
      IncreasingSorted(tail);
      forall i, j | 0 <= i < j < |s| ensures s[i] < s[j] {
        if i > 0 {
          assert s[i] == tail[i - 1] && s[j] == tail[j - 1];
        } else if j > 1 {
          assert s[1] == tail[0] && s[j] == tail[j - 1];
        }
      }
    }
  }

  /**
   * The Thumb rank lies in 0..20, so it always indexes `ThumbFuncs`, and rank
   * `k` is taken exactly by the instructions from `ThumbBounds[k-1]` up to
   * just below `ThumbBounds[k]`.
   */
  lemma ThumbRank(instr: int)
    ensures var k := BisectRight(ThumbBounds, instr);
      k < |ThumbFuncs|
      && (k > 0 ==> ThumbBounds[k - 1] <= instr)
      && (k < |ThumbBounds| ==> instr < ThumbBounds[k])
  {
    ThumbBoundsSorted();
    BisectRightRank(ThumbBounds, instr);
  }

  lemma ThumbBoundsSorted()
    ensures Sorted(ThumbBounds) && |ThumbBounds| == 20 && |ThumbFuncs| == 21
  {
    assert Increasing(ThumbBounds);
    IncreasingSorted(ThumbBounds);
  }

  /** The Thumb handler that `execute` dispatches `instr` to. */
  function ThumbDecode(instr: int): ThumbOp
  {
    ThumbRank(instr);
    ThumbFuncs[BisectRight(ThumbBounds, instr)]
  }

  /** Every Thumb instruction from 0xF000 on goes to `bl`. */
  lemma LongBranchDecodes(instr: int)
    requires instr >= 0xF000
    ensures ThumbDecode(instr) == BranchLink
  {
    ThumbRank(instr);
    BoundsAtMostTop();
  }

  /** No entry of `ThumbBounds` lies above its last one, 0xF000. */
  lemma BoundsAtMostTop()
    ensures |ThumbBounds| == 20 && forall i :: 0 <= i < |ThumbBounds| ==> ThumbBounds[i] <= 0xF000
  {
  }

  /**
   * A node of `arm_tree`: a bit test `(bit, taken)`, a mask test
   * `([mask, value], taken)`, or a handler. A test that fails goes on to the
   * next node.
   */
  datatype Node = TestBit(bit: nat, taken: nat) | TestMask(mask: int, value: int, taken: nat) | Leaf(op: ArmOp)

  /** Node `p` of `arm_tree`, one dictionary entry per case. */
  function ArmNode(p: nat): Node
    requires p < 49
  {
    match p
    case 0 => TestBit(27, 36)
    case 1 => TestBit(26, 31)
    case 2 => TestBit(25, 28)
    case 3 => TestBit(4, 9)
    case 4 => TestMask(0x190_0000, 0x100_0000, 6)
    case 5 => Leaf(DataProcess)
    case 6 => TestBit(7, 8)
    case 7 => Leaf(Psr)
    case 8 => Leaf(Multiply)
    case 9 => TestBit(7, 19)
    case 10 => TestMask(0x190_0000, 0x100_0000, 12)
    case 11 => Leaf(DataProcess)
    case 12 => TestBit(6, 16)
    case 13 => TestBit(22, 15)
    case 14 => Leaf(ArmBx)
    case 15 => Leaf(Clz)
    case 16 => TestBit(5, 18)
    case 17 => Leaf(ArmUndefined)
    case 18 => Leaf(ArmUndefined)
    case 19 => TestMask(0x60, 0, 23)
    case 20 => TestBit(22, 22)
    case 21 => Leaf(DataTransfer)
    case 22 => Leaf(DataTransfer)
    case 23 => TestBit(24, 27)
    case 24 => TestBit(23, 26)
    case 25 => Leaf(Multiply)
    case 26 => Leaf(Multiply)
    case 27 => Leaf(DataTransfer)
    case 28 => TestMask(0x190_0000, 0x100_0000, 30)
    case 29 => Leaf(DataProcess)
    case 30 => Leaf(Psr)
    case 31 => TestBit(25, 33)
    case 32 => Leaf(DataTransfer)
    case 33 => TestBit(4, 35)
    case 34 => Leaf(DataTransfer)
    case 35 => Leaf(ArmUndefined)
    case 36 => TestBit(26, 40)
    case 37 => TestBit(25, 39)
    case 38 => Leaf(BlockTransfer)
    case 39 => Leaf(ArmBranch)
    case 40 => TestBit(25, 44)
    case 41 => TestMask(0x1E0_0000, 0x40_0000, 43)
    case 42 => Leaf(ArmUndefined)
    case 43 => Leaf(ArmUndefined)
    case 44 => TestBit(24, 48)
    case 45 => TestBit(4, 47)
    case 46 => Leaf(ArmUndefined)
    case 47 => Leaf(ArmUndefined)
    case _ => Leaf(ArmUndefined)
  }

  /** The number of nodes of `arm_tree`; its keys are 0 .. 48. */
  const ArmTreeSize: nat := 49

  /** A test node jumps strictly forward, to a node of the tree, and is not the last node. */
  predicate NodeForward(p: nat)
    requires p < ArmTreeSize
  {
    ArmNode(p).Leaf? || (p < ArmNode(p).taken < ArmTreeSize && p + 1 < ArmTreeSize)
  }

  /** Every test node of `arm_tree` jumps forward, so every walk ends. */
  lemma ArmTreeForward()
    ensures forall p :: 0 <= p < ArmTreeSize ==> NodeForward(p)
  {
  }

  /** Whether the test at a node passes: `instr >> bit & 1`, or `instr & mask == value`. */
  predicate Passes(node: Node, instr: int)
    requires !node.Leaf?
  {
    if node.TestBit? then Bit(instr, node.bit) == 1 else And(instr, node.mask, 32) == node.value
  }

  /** The handler `navigateTree` reaches from node `pos`. */
  function Walk(instr: int, pos: nat): ArmOp
    requires pos < ArmTreeSize
    decreases ArmTreeSize - pos
  {
    var node := ArmNode(pos);
    if node.Leaf? then node.op
    else
      ArmTreeForward();
      assert NodeForward(pos);
      Walk(instr, if Passes(node, instr) then node.taken else pos + 1)
  }

  /** The ARM handler that `execute` dispatches `instr` to. */
  function ArmDecode(instr: int): ArmOp
  {
    Walk(instr, 0)
  }

  /**
   * `navigateTree(instr, arm_tree)`: follows the tests from the root until a
   * handler; the walk strictly increases its position, so it takes fewer
   * steps than the tree has nodes.
   */
  method NavigateTree(instr: int) returns (op: ArmOp, ghost steps: nat)
    ensures op == ArmDecode(instr)
    ensures steps < ArmTreeSize
  {
    ArmTreeForward();
    var pos := 0;
    steps := 0;
    while !ArmNode(pos).Leaf?
      invariant pos < ArmTreeSize && steps <= pos
      invariant Walk(instr, pos) == Walk(instr, 0)
      decreases ArmTreeSize - pos
    {
      assert NodeForward(pos);
      var node := ArmNode(pos);
      var passes := if node.TestBit? then instr / Pow2(node.bit) % 2 == 1 else And(instr, node.mask, 32) == node.value;
      pos := if passes then node.taken else pos + 1;
      steps := steps + 1;
    }
    op := ArmNode(pos).op;
  }

  /** Bits 27-25 of 101 reach `arm_branch`; 100 reach `blocktransfer`. */
  lemma BranchesDecode(instr: int)
    requires Bit(instr, 27) == 1 && Bit(instr, 26) == 0
    ensures ArmDecode(instr) == if Bit(instr, 25) == 1 then ArmBranch else BlockTransfer
  {
    BranchNodes();
    assert Passes(ArmNode(0), instr) && !Passes(ArmNode(36), instr);
    assert Walk(instr, 37) == if Bit(instr, 25) == 1 then Walk(instr, 39) else Walk(instr, 38);
  }

  /** The nodes on the path to `arm_branch` and `blocktransfer`. */
  lemma BranchNodes()
    ensures ArmNode(0) == TestBit(27, 36) && ArmNode(36) == TestBit(26, 40) && ArmNode(37) == TestBit(25, 39)
    ensures ArmNode(38) == Leaf(BlockTransfer) && ArmNode(39) == Leaf(ArmBranch)
  {
  }
}
