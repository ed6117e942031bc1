/**
 * A small arena IR standing in for the parts of LLVM's IR the pass reads:
 * a function has an entry block, an ordered list of blocks, for each block
 * an ordered list of instruction ids (the last one is the terminator), and
 * an arena mapping instruction ids to their kind, parent block and bit width.
 */
module IR {
  import opened Lattice
  import opened Int64Arith

  datatype Option<T> = None | Some(value: T)

  type BlockId = nat
  type InstId = nat

  /**
   * An operand: an integer literal (ConstantInt, a bit pattern of a width),
   * the result of an instruction, or a function argument.
   */
  datatype Value = Lit(width: Width, bits: nat) | InstV(id: InstId) | Arg(index: nat)

  /** One (value, incoming block) pair of a phi node. */
  datatype Incoming = Incoming(value: Value, block: BlockId)

  /** The ten predicates of an LLVM icmp instruction. */
  datatype Pred = EQ | NE | UGT | UGE | ULT | ULE | SGT | SGE | SLT | SLE

  /** The opcodes of LLVM's BinaryOperator. */
  datatype BinOpcode =
    | Add | FAdd | Sub | FSub | Mul | FMul
    | UDiv | SDiv | FDiv | URem | SRem | FRem
    | Shl | LShr | AShr | And | Or | Xor

  /**
   * The instruction kinds the pass distinguishes. Br is a conditional
   * branch (two successors) when it has a condition and an unconditional one
   * (one successor) otherwise; Other stands for every remaining instruction,
   * including terminators such as ret or switch with their successor list.
   */
  datatype InstKind =
    | Phi(incoming: seq<Incoming>)
    | Br(cond: Option<Value>, succs: seq<BlockId>)
    | ICmp(pred: Pred, lhs: Value, rhs: Value)
    | BinOp(op: BinOpcode, lhs: Value, rhs: Value)
    | Other(operands: seq<Value>, succs: seq<BlockId>)

  datatype Inst = Inst(kind: InstKind, parent: BlockId, width: Width)

  datatype Func = Func(
    entry: BlockId,
    layout: seq<BlockId>,
    body: map<BlockId, seq<InstId>>,
    insts: map<InstId, Inst>)

  /** CFGEdge: From is None only for the edge that enters the entry block. */
  datatype Edge = Edge(from: Option<BlockId>, to: BlockId)

  /** The values an instruction reads (a phi's incoming values, a branch's condition). */
  function Operands(k: InstKind): seq<Value>
  {
    match k
    case Phi(inc) => seq(|inc|, j requires 0 <= j < |inc| => inc[j].value)
    case Br(c, _) => if c.Some? then [c.value] else []
    case ICmp(_, a, b) => [a, b]
    case BinOp(_, a, b) => [a, b]
    case Other(ops, _) => ops
  }

  /** The instructions whose results k reads. */
  function OperandIds(k: InstKind): set<InstId>
  {
    set v | v in Operands(k) && v.InstV? :: v.id
  }

  /** Value::users() restricted to instructions: every instruction that reads id. */
  function Users(fn: Func, id: InstId): set<InstId>
  {
    set i | i in fn.insts && id in OperandIds(fn.insts[i].kind)
  }

  /** True for kinds that may end a block and transfer control. */
  predicate IsTerminatorKind(k: InstKind)
  {
    k.Br? || (k.Other? && |k.succs| > 0)
  }

  /** The id of a block's last instruction (BasicBlock::getTerminator). */
  function Terminator(fn: Func, b: BlockId): Option<InstId>
  {
    if b in fn.body && |fn.body[b]| > 0 then Some(fn.body[b][|fn.body[b]| - 1]) else None
  }

  /** The successor list an instruction carries (empty for non-terminators). */
  function SuccList(k: InstKind): seq<BlockId>
  {
    match k
    case Br(_, s) => s
    case Other(_, s) => s
    case _ => []
  }

  /** The successor blocks of a block, read from its terminator. */
  function Succs(fn: Func, b: BlockId): seq<BlockId>
  {
    var t := Terminator(fn, b);
    if t.Some? && t.value in fn.insts then SuccList(fn.insts[t.value].kind) else []
  }

  predicate IsPhi(fn: Func, i: InstId)
  {
    i in fn.insts && fn.insts[i].kind.Phi?
  }

  /** The leading run of phi instructions of an instruction list. */
  function PhiPrefix(fn: Func, s: seq<InstId>): (r: seq<InstId>)
    ensures |r| <= |s| && r == s[..|r|]
    ensures forall k :: 0 <= k < |r| ==> IsPhi(fn, r[k])
    ensures |r| < |s| ==> !IsPhi(fn, s[|r|])
  {
    if s == [] || !IsPhi(fn, s[0]) then [] else [s[0]] + PhiPrefix(fn, s[1..])
  }

  /** BasicBlock::phis(): the phi nodes at the start of a block. */
  function Phis(fn: Func, b: BlockId): seq<InstId>
  {
    if b in fn.body then PhiPrefix(fn, fn.body[b]) else []
  }

  predicate NoDup<T(==)>(s: seq<T>)
  {
    forall j, k :: 0 <= j < k < |s| ==> s[j] != s[k]
  }

  /**
   * The arena is consistent: blocks list their own instructions, each once,
   * every instruction sits in the block it names as parent, and the layout
   * lists every block once, starting with the entry.
   */
  ghost predicate Linked(fn: Func)
  {
    && (forall b, k :: b in fn.body && 0 <= k < |fn.body[b]| ==>
          fn.body[b][k] in fn.insts && fn.insts[fn.body[b][k]].parent == b)
    && (forall b :: b in fn.body ==> NoDup(fn.body[b]))
    && NoDup(fn.layout)
    && (forall b :: b in fn.layout <==> b in fn.body)
  }

  /**
   * Well-formed IR as LLVM's verifier demands it, as far as the pass relies
   * on it: the entry block is the first block, every instruction belongs to
   * a block, phis come first in a block, only the last instruction of a
   * block transfers control, and a branch has two successors when it is
   * conditional and one otherwise.
   */
  ghost predicate Wf(fn: Func)
  {
    && Linked(fn)
    && |fn.layout| > 0 && fn.layout[0] == fn.entry
    && (forall i :: i in fn.insts ==>
          fn.insts[i].parent in fn.body && i in fn.body[fn.insts[i].parent])
    && (forall b, j, k :: b in fn.body && 0 <= j < k < |fn.body[b]| && IsPhi(fn, fn.body[b][k]) ==>
          IsPhi(fn, fn.body[b][j]))
    && (forall b, k :: b in fn.body && 0 <= k < |fn.body[b]| - 1 ==>
          !IsTerminatorKind(fn.insts[fn.body[b][k]].kind))
    && BranchShape(fn)
    && TargetsInBody(fn)
    && (forall i :: i in fn.insts && fn.insts[i].kind.ICmp? ==> fn.insts[i].width == I1)
    && LiteralsFit(fn)
  }

  /** Every literal operand is a bit pattern of its own width. */
  ghost predicate LiteralsFit(fn: Func)
  {
    forall i, v :: i in fn.insts && v in Operands(fn.insts[i].kind) && v.Lit? ==> v.bits < Modulus(v.width)
  }

  /** A branch has two successors when it is conditional and one otherwise. */
  ghost predicate BranchShape(fn: Func)
  {
    forall i :: i in fn.insts && fn.insts[i].kind.Br? ==>
      |fn.insts[i].kind.succs| == if fn.insts[i].kind.cond.Some? then 2 else 1
  }

  /** Every block an instruction may transfer control to is a block of the function. */
  ghost predicate TargetsInBody(fn: Func)
  {
    forall i, k :: i in fn.insts && 0 <= k < |SuccList(fn.insts[i].kind)| ==>
      SuccList(fn.insts[i].kind)[k] in fn.body
  }

  /** Every successor of a block is a block of the function. */
  lemma SuccsAreBlocks(fn: Func, b: BlockId)
    requires TargetsInBody(fn)
    ensures forall c :: c in Succs(fn, b) ==> c in fn.body
  {
    var t := Terminator(fn, b);
    if t.Some? && t.value in fn.insts {
      var s := SuccList(fn.insts[t.value].kind);
      forall c | c in s ensures c in fn.body {
        var k :| 0 <= k < |s| && s[k] == c;
      }
    }
  }

  /** A branch is the terminator of its block, so its targets are the block's successors. */
  lemma BranchIsTerminator(fn: Func, i: InstId)
    requires Wf(fn) && i in fn.insts && fn.insts[i].kind.Br?
    ensures Succs(fn, fn.insts[i].parent) == fn.insts[i].kind.succs
  {
    var b := fn.insts[i].parent;
    var s := fn.body[b];
    var k :| 0 <= k < |s| && s[k] == i;
    assert k == |s| - 1;
  }

  /** Every phi of a block is in the block's leading run of phis. */
  lemma PhiIsLeading(fn: Func, i: InstId)
    requires Wf(fn) && IsPhi(fn, i)
    ensures i in Phis(fn, fn.insts[i].parent)
  {
    var b := fn.insts[i].parent;
    var s := fn.body[b];
    var k :| 0 <= k < |s| && s[k] == i;
    var p := PhiPrefix(fn, s);
    assert k < |p|;
    assert p[k] == i;
  }

  /** A subset has no more elements than its superset. */
  lemma SubsetCardinality<T>(a: set<T>, b: set<T>)
    requires a <= b
    ensures |a| <= |b|
    decreases |b|
  {
    if b != {} {
      var x :| x in b;
      SubsetCardinality(a - {x}, b - {x});
    }
  }

  /** A path in the control-flow graph that starts at the entry block. */
  ghost predicate IsPath(fn: Func, p: seq<BlockId>)
  {
    && |p| > 0
    && p[0] == fn.entry
    && forall k :: 0 <= k < |p| - 1 ==> p[k + 1] in Succs(fn, p[k])
  }

  /** b can be reached from the entry block by following successor edges. */
  ghost predicate Reachable(fn: Func, b: BlockId)
  {
    exists p :: IsPath(fn, p) && p[|p| - 1] == b
  }

  lemma EntryIsReachable(fn: Func)
    ensures Reachable(fn, fn.entry)
  {
    assert IsPath(fn, [fn.entry]);
  }

  /** A successor of a reachable block is reachable. */
  lemma ReachableStep(fn: Func, b: BlockId, c: BlockId)
    requires Reachable(fn, b) && c in Succs(fn, b)
    ensures Reachable(fn, c)
  {
    var p :| IsPath(fn, p) && p[|p| - 1] == b;
    var q := p + [c];
    assert forall k :: 0 <= k < |q| - 1 ==> q[k + 1] in Succs(fn, q[k]) by {
      forall k | 0 <= k < |q| - 1 ensures q[k + 1] in Succs(fn, q[k]) {
        if k < |p| - 1 {
          assert q[k] == p[k] && q[k + 1] == p[k + 1];
        }
      }
    }
    assert IsPath(fn, q) && q[|q| - 1] == c;
  }
}
