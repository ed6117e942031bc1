/**
 * The transfer functions of SimpleSCCPAnalysis::InstructionVisitor and the
 * operand reader getConstantValue, as pure functions of the analysis state
 * they read: the set of executable edges and the dataflow facts.
 */
module Visitor {
  import opened Lattice
  import opened Int64Arith
  import opened IR

  /** DataflowFacts: the lattice value recorded for each visited instruction. */
  type Facts = map<InstId, ConstantValue>

  /** The fact recorded for an instruction, Top when none is recorded. */
  function Fact(facts: Facts, id: InstId): ConstantValue
  {
    if id in facts then facts[id] else Top
  }

  /**
   * getConstantValue: a literal reads as its sign-extended value, an
   * instruction as its recorded fact (Top if none); a function argument is
   * never recorded and so reads as Top.
   */
  function ConstantOf(v: Value, facts: Facts): (r: ConstantValue)
    ensures v.Lit? ==> r.Const? && (r.value - v.bits) % Modulus(v.width) == 0
    ensures v.Lit? ==> -(Modulus(v.width) / 2) <= r.value < Modulus(v.width) / 2
    ensures v.Lit? && v.bits < Modulus(v.width) / 2 ==> r == Const(v.bits)
    ensures v.InstV? ==> r == (if v.id in facts then facts[v.id] else Top)
    ensures v.Arg? ==> r == Top
  {
    match v
    case Lit(w, bits) => Const(SignExtend(w, bits))
    case InstV(id) => Fact(facts, id)
    case Arg(_) => Top
  }

  /** Pointwise order on fact maps, an absent entry counting as Top. */
  ghost predicate FactsBelow(f1: Facts, f2: Facts)
  {
    forall id :: Below(Fact(f1, id), Fact(f2, id))
  }

  /** Two fact maps give the same value to every id in ids. */
  ghost predicate AgreeOn(f1: Facts, f2: Facts, ids: set<InstId>)
  {
    forall id :: id in ids ==> Fact(f1, id) == Fact(f2, id)
  }

  /** Reading an operand is monotone in the facts. */
  lemma ConstantOfMonotone(v: Value, f1: Facts, f2: Facts)
    requires FactsBelow(f1, f2)
    ensures Below(ConstantOf(v, f1), ConstantOf(v, f2))
  {
    if v.InstV? {
      assert Below(Fact(f1, v.id), Fact(f2, v.id));
    }
  }

  // ----------------------------------------------------------------------
  // icmp

  /**
   * The comparison visitICmpInst performs on the two int64 values: the
   * unsigned predicates share the code of the signed ones.
   */
  function Compare(p: Pred, x: Int64, y: Int64): bool
  {
    match p
    case SLT => x < y
    case ULT => x < y
    case SLE => x <= y
    case ULE => x <= y
    case SGT => x > y
    case UGT => x > y
    case SGE => x >= y
    case UGE => x >= y
    case EQ => x == y
    case NE => x != y
  }

  /** visitICmpInst on the two operand facts. */
  function EvalICmp(p: Pred, a: ConstantValue, b: ConstantValue): ConstantValue
  {
    if a.Bottom? || b.Bottom? then Bottom
    else if a.Top? || b.Top? then Top
    else Const(if Compare(p, a.value, b.value) then 1 else 0)
  }

  /**
   * The icmp transfer: Bottom if an operand is Bottom, else Top if an
   * operand is Top, else the constant 1 or 0 telling whether the predicate
   * holds.
   */
  lemma ICmpTable(p: Pred, a: ConstantValue, b: ConstantValue)
    ensures var r := EvalICmp(p, a, b);
      && (a.Bottom? || b.Bottom? <==> r.Bottom?)
      && (r.Top? <==> !a.Bottom? && !b.Bottom? && (a.Top? || b.Top?))
      && (r.Const? ==> (r.value == 1 || r.value == 0) && (r.value == 1 <==> Compare(p, a.value, b.value)))
  {
  }

  /** The value an int64 has as an unsigned 64-bit number. */
  function AsUnsigned(x: Int64): nat
  {
    if x < 0 then x + TwoTo64 else x
  }

  /** LLVM's meaning of the unsigned predicates, on the unsigned readings of the operands. */
  function CompareUnsigned(p: Pred, x: Int64, y: Int64): bool
    requires p == ULT || p == ULE || p == UGT || p == UGE
  {
    var ux, uy := AsUnsigned(x), AsUnsigned(y);
    match p
    case ULT => ux < uy
    case ULE => ux <= uy
    case UGT => ux > uy
    case UGE => ux >= uy
  }

  /**
   * The unsigned predicates agree with LLVM's unsigned comparison exactly
   * when the operands have the same sign (or are equal); when the signs
   * differ, every unsigned predicate gives the opposite answer.
   */
  lemma UnsignedPredicatesCompareSigned(p: Pred, x: Int64, y: Int64)
    requires p == ULT || p == ULE || p == UGT || p == UGE
    ensures (x < 0) == (y < 0) ==> Compare(p, x, y) == CompareUnsigned(p, x, y)
    ensures (x < 0) != (y < 0) ==> Compare(p, x, y) != CompareUnsigned(p, x, y)
  {
  }

  // ----------------------------------------------------------------------
  // binary operators

  /** The result of a transfer function: a lattice value, or a trap of the C++ division. */
  datatype Outcome = Computed(cv: ConstantValue) | Trap

  /**
   * visitBinaryOperator on the two operand facts. Add, Sub and Mul wrap
   * around in 64 bits; UDiv and SDiv both divide the signed values with
   * truncation and have no guard, so a zero divisor or MIN / -1 traps;
   * And, Or and Xor work on the two's-complement patterns; every other
   * opcode gives Bottom.
   */
  function EvalBinOp(op: BinOpcode, a: ConstantValue, b: ConstantValue): Outcome
  {
    if a.Bottom? || b.Bottom? then Computed(Bottom)
    else if a.Top? || b.Top? then Computed(Top)
    else
      var x, y := a.value, b.value;
      match op
      case Add => Computed(Const(Wrap(x + y)))
      case Sub => Computed(Const(Wrap(x - y)))
      case Mul => Computed(Const(Wrap(x * y)))
      case UDiv => if y == 0 || (x == MinInt64 && y == -1) then Trap else Computed(Const(TruncDiv(x, y)))
      case SDiv => if y == 0 || (x == MinInt64 && y == -1) then Trap else Computed(Const(TruncDiv(x, y)))
      case And => Computed(Const(BitAnd(x, y)))
      case Or => Computed(Const(BitOr(x, y)))
      case Xor => Computed(Const(BitXor(x, y)))
      case _ => Computed(Bottom)
  }

  predicate Supported(op: BinOpcode)
  {
    op in {Add, Sub, Mul, UDiv, SDiv, And, Or, Xor}
  }

  /**
   * The binary-operator transfer: Bottom if an operand is Bottom, else Top
   * if an operand is Top; on two constants a supported opcode computes a
   * constant (or traps for a division that C++ cannot perform) and any other
   * opcode gives Bottom.
   */
  lemma BinOpTable(op: BinOpcode, a: ConstantValue, b: ConstantValue)
    ensures var r := EvalBinOp(op, a, b);
      && (a.Bottom? || b.Bottom? ==> r == Computed(Bottom))
      && (!a.Bottom? && !b.Bottom? && (a.Top? || b.Top?) ==> r == Computed(Top))
      && (a.Const? && b.Const? ==>
            && (r.Trap? <==> (op == UDiv || op == SDiv) &&
                             (b.value == 0 || (a.value == MinInt64 && b.value == -1)))
            && (!Supported(op) ==> r == Computed(Bottom))
            && (Supported(op) && r.Computed? ==> r.cv.Const?)
            && (op == Add ==> (r.cv.value - (a.value + b.value)) % TwoTo64 == 0)
            && (op == Sub ==> (r.cv.value - (a.value - b.value)) % TwoTo64 == 0)
            && (op == Mul ==> (r.cv.value - a.value * b.value) % TwoTo64 == 0)
            && ((op == UDiv || op == SDiv) && r.Computed? ==> r.cv == Const(TruncDiv(a.value, b.value))))
  {
  }

  /**
   * On two constants And gives the int64 operator&, whose effect on
   * two's-complement patterns Int64Arith.BitwiseOnPatterns states; likewise
   * Or and Xor below.
   */
  lemma BinOpAnd(x: Int64, y: Int64)
    ensures EvalBinOp(And, Const(x), Const(y)) == Computed(Const(BitAnd(x, y)))
  {
  }

  lemma BinOpOr(x: Int64, y: Int64)
    ensures EvalBinOp(Or, Const(x), Const(y)) == Computed(Const(BitOr(x, y)))
  {
  }

  lemma BinOpXor(x: Int64, y: Int64)
    ensures EvalBinOp(Xor, Const(x), Const(y)) == Computed(Const(BitXor(x, y)))
  {
  }

  // ----------------------------------------------------------------------
  // order on outcomes and monotonicity

  /**
   * The order Below extended to outcomes: a trap sits where a constant
   * would, above Bottom and below Top.
   */
  predicate OutBelow(o1: Outcome, o2: Outcome)
  {
    match (o1, o2)
    case (Computed(a), Computed(b)) => Below(a, b)
    case (Trap, Computed(b)) => b.Top?
    case (Computed(a), Trap) => a.Bottom?
    case (Trap, Trap) => true
  }

  lemma OutBelowTransitive(o1: Outcome, o2: Outcome, o3: Outcome)
    requires OutBelow(o1, o2) && OutBelow(o2, o3)
    ensures OutBelow(o1, o3)
  {
  }

  lemma ICmpMonotone(p: Pred, a: ConstantValue, a': ConstantValue, b: ConstantValue, b': ConstantValue)
    requires Below(a, a') && Below(b, b')
    ensures Below(EvalICmp(p, a, b), EvalICmp(p, a', b'))
  {
  }

  lemma BinOpMonotone(op: BinOpcode, a: ConstantValue, a': ConstantValue, b: ConstantValue, b': ConstantValue)
    requires Below(a, a') && Below(b, b')
    ensures OutBelow(EvalBinOp(op, a, b), EvalBinOp(op, a', b'))
  {
  }

  // ----------------------------------------------------------------------
  // phi

  /**
   * An incoming value of a phi in block phiBlock takes part in the meet when
   * it is an instruction and the edge from that instruction's own block to
   * phiBlock is executable (the code looks at the defining block, not at the
   * incoming block recorded in the phi).
   */
  predicate Contributes(fn: Func, phiBlock: BlockId, exec: set<Edge>, v: Value)
  {
    v.InstV? && v.id in fn.insts && Edge(Some(fn.insts[v.id].parent), phiBlock) in exec
  }

  /** visitPHINode: start at Top and meet in the contributing incoming values in order. */
  function PhiMeet(fn: Func, phiBlock: BlockId, exec: set<Edge>, facts: Facts, inc: seq<Incoming>): ConstantValue
    decreases |inc|
  {
    if inc == [] then Top
    else
      var acc := PhiMeet(fn, phiBlock, exec, facts, inc[..|inc| - 1]);
      var v := inc[|inc| - 1].value;
      if Contributes(fn, phiBlock, exec, v) then Meet(acc, ConstantOf(v, facts)) else acc
  }

  /** The phi's value lies below every contributing incoming value. */
  lemma {:induction false} PhiMeetIsLowerBound(fn: Func, phiBlock: BlockId, exec: set<Edge>, facts: Facts, inc: seq<Incoming>)
    ensures forall k :: 0 <= k < |inc| && Contributes(fn, phiBlock, exec, inc[k].value) ==>
      Below(PhiMeet(fn, phiBlock, exec, facts, inc), ConstantOf(inc[k].value, facts))
    decreases |inc|
  {
    if inc != [] {
      var pre := inc[..|inc| - 1];
      PhiMeetIsLowerBound(fn, phiBlock, exec, facts, pre);
      var acc := PhiMeet(fn, phiBlock, exec, facts, pre);
      var last := inc[|inc| - 1].value;
      forall k | 0 <= k < |inc| && Contributes(fn, phiBlock, exec, inc[k].value)
        ensures Below(PhiMeet(fn, phiBlock, exec, facts, inc), ConstantOf(inc[k].value, facts))
      {
        if Contributes(fn, phiBlock, exec, last) {
          MeetIsGreatestLowerBound(acc, ConstantOf(last, facts), Top);
          if k < |inc| - 1 {
            assert inc[k] == pre[k];
            BelowIsPartialOrder(Meet(acc, ConstantOf(last, facts)), acc, ConstantOf(inc[k].value, facts));
          }
        } else {
          assert k < |inc| - 1 && inc[k] == pre[k];
        }
      }
    }
  }

  /** Every common lower bound of the contributing incoming values lies below the phi's value. */
  lemma {:induction false} PhiMeetIsGreatest(fn: Func, phiBlock: BlockId, exec: set<Edge>, facts: Facts, inc: seq<Incoming>, c: ConstantValue)
    requires forall k :: 0 <= k < |inc| && Contributes(fn, phiBlock, exec, inc[k].value) ==>
      Below(c, ConstantOf(inc[k].value, facts))
    ensures Below(c, PhiMeet(fn, phiBlock, exec, facts, inc))
    decreases |inc|
  {
    if inc != [] {
      var pre := inc[..|inc| - 1];
      forall k | 0 <= k < |pre| && Contributes(fn, phiBlock, exec, pre[k].value)
        ensures Below(c, ConstantOf(pre[k].value, facts))
      {
        assert pre[k] == inc[k];
      }
      PhiMeetIsGreatest(fn, phiBlock, exec, facts, pre, c);
      var acc := PhiMeet(fn, phiBlock, exec, facts, pre);
      var last := inc[|inc| - 1].value;
      if Contributes(fn, phiBlock, exec, last) {
        MeetIsGreatestLowerBound(acc, ConstantOf(last, facts), c);
      }
    }
  }

  /**
   * A phi none of whose incoming values contributes is Top; in particular a
   * phi whose incoming values are all literals or arguments stays Top.
   */
  lemma PhiWithoutContributionIsTop(fn: Func, phiBlock: BlockId, exec: set<Edge>, facts: Facts, inc: seq<Incoming>)
    requires forall k :: 0 <= k < |inc| ==> !Contributes(fn, phiBlock, exec, inc[k].value)
    ensures PhiMeet(fn, phiBlock, exec, facts, inc) == Top
  {
    PhiMeetIsGreatest(fn, phiBlock, exec, facts, inc, Top);
  }

  /** More executable edges and lower facts give a lower phi value. */
  lemma PhiMeetMonotone(fn: Func, phiBlock: BlockId, exec: set<Edge>, exec': set<Edge>, f: Facts, f': Facts, inc: seq<Incoming>)
    requires exec <= exec' && FactsBelow(f', f)
    ensures Below(PhiMeet(fn, phiBlock, exec', f', inc), PhiMeet(fn, phiBlock, exec, f, inc))
  {
    var lo := PhiMeet(fn, phiBlock, exec', f', inc);
    PhiMeetIsLowerBound(fn, phiBlock, exec', f', inc);
    forall k | 0 <= k < |inc| && Contributes(fn, phiBlock, exec, inc[k].value)
      ensures Below(lo, ConstantOf(inc[k].value, f))
    {
      ConstantOfMonotone(inc[k].value, f', f);
      BelowIsPartialOrder(lo, ConstantOf(inc[k].value, f'), ConstantOf(inc[k].value, f));
    }
    PhiMeetIsGreatest(fn, phiBlock, exec, f, inc, lo);
  }

  /** The phi's value reads only the facts of its incoming instructions and the edges into its block. */
  lemma {:induction false} PhiMeetLocal(fn: Func, phiBlock: BlockId, exec1: set<Edge>, exec2: set<Edge>, f1: Facts, f2: Facts, inc: seq<Incoming>)
    requires forall e: Edge :: e.to == phiBlock ==> (e in exec1 <==> e in exec2)
    requires forall k :: 0 <= k < |inc| && inc[k].value.InstV? ==> Fact(f1, inc[k].value.id) == Fact(f2, inc[k].value.id)
    ensures PhiMeet(fn, phiBlock, exec1, f1, inc) == PhiMeet(fn, phiBlock, exec2, f2, inc)
    decreases |inc|
  {
    if inc != [] {
      var pre := inc[..|inc| - 1];
      forall k | 0 <= k < |pre| && pre[k].value.InstV?
        ensures Fact(f1, pre[k].value.id) == Fact(f2, pre[k].value.id)
      {
        assert pre[k] == inc[k];
      }
      PhiMeetLocal(fn, phiBlock, exec1, exec2, f1, f2, pre);
    }
  }

  // ----------------------------------------------------------------------
  // the visitor as a whole

  /** The lattice value InstructionVisitor::visit computes for an instruction. */
  function Transfer(fn: Func, inst: Inst, exec: set<Edge>, facts: Facts): Outcome
  {
    match inst.kind
    case Phi(inc) => Computed(PhiMeet(fn, inst.parent, exec, facts, inc))
    case Br(_, _) => Computed(Bottom)
    case ICmp(p, a, b) => Computed(EvalICmp(p, ConstantOf(a, facts), ConstantOf(b, facts)))
    case BinOp(op, a, b) => EvalBinOp(op, ConstantOf(a, facts), ConstantOf(b, facts))
    case Other(_, _) => Computed(Bottom)
  }

  /**
   * Branches and every instruction without a visitor of its own
   * (visitInstruction) give Bottom; only a division can trap, and only on
   * a zero divisor or MIN / -1; phis and comparisons always give a value.
   */
  lemma TransferOutcomes(fn: Func, inst: Inst, exec: set<Edge>, facts: Facts)
    ensures inst.kind.Br? || inst.kind.Other? ==> Transfer(fn, inst, exec, facts) == Computed(Bottom)
    ensures inst.kind.Phi? || inst.kind.ICmp? ==> Transfer(fn, inst, exec, facts).Computed?
    ensures Transfer(fn, inst, exec, facts).Trap? ==>
      && inst.kind.BinOp? && (inst.kind.op == UDiv || inst.kind.op == SDiv)
      && var y := ConstantOf(inst.kind.rhs, facts);
         y.Const? && (y.value == 0 || y.value == -1)
  {
  }

  /** The edges from block b to each of succs. */
  function SuccEdges(b: BlockId, succs: seq<BlockId>): (r: set<Edge>)
    ensures forall e :: e in r <==> e.from == Some(b) && e.to in succs
  {
    set k | 0 <= k < |succs| :: Edge(Some(b), succs[k])
  }

  /** True when inst is a conditional branch whose condition currently reads as a constant. */
  predicate DecidedBranch(inst: Inst, facts: Facts)
  {
    inst.kind.Br? && inst.kind.cond.Some? && ConstantOf(inst.kind.cond.value, facts).Const?
  }

  /**
   * The successor edges visitBranchInst enables: the edge to successor 0
   * for a constant nonzero condition, to successor 1 for a constant zero,
   * and every successor edge otherwise; nothing for other instructions.
   */
  function BranchTargets(inst: Inst, facts: Facts): set<Edge>
  {
    match inst.kind
    case Br(c, s) =>
      if DecidedBranch(inst, facts) then
        if ConstantOf(c.value, facts).value != 0 then
          (if |s| > 0 then {Edge(Some(inst.parent), s[0])} else {})
        else
          (if |s| > 1 then {Edge(Some(inst.parent), s[1])} else {})
      else SuccEdges(inst.parent, s)
    case _ => {}
  }

  /**
   * The edges visitBranchInst inserts into CFGWorkset: the decided edge even
   * when it is already executable, or else every enabled edge that is not
   * yet executable (appendExecutableSuccessors).
   */
  function Queued(inst: Inst, exec: set<Edge>, facts: Facts): set<Edge>
  {
    if DecidedBranch(inst, facts) then BranchTargets(inst, facts) else BranchTargets(inst, facts) - exec
  }

  /** Every enabled edge leaves the branch's block for one of its successors. */
  lemma BranchTargetsAreSuccessorEdges(inst: Inst, facts: Facts)
    ensures forall e :: e in BranchTargets(inst, facts) ==>
      inst.kind.Br? && e.from == Some(inst.parent) && e.to in inst.kind.succs
  {
  }

  /**
   * The branch table: a branch whose condition is not a constant (Top as
   * well as Bottom) or that is unconditional enables all its successor
   * edges; a decided branch enables exactly one successor edge, to
   * successor 0 when the condition is nonzero and to successor 1 when it
   * is zero.
   */
  lemma BranchTable(inst: Inst, facts: Facts)
    requires inst.kind.Br? && |inst.kind.succs| == if inst.kind.cond.Some? then 2 else 1
    ensures !DecidedBranch(inst, facts) ==> BranchTargets(inst, facts) == SuccEdges(inst.parent, inst.kind.succs)
    ensures DecidedBranch(inst, facts) ==>
      var c := ConstantOf(inst.kind.cond.value, facts).value;
      BranchTargets(inst, facts) == {Edge(Some(inst.parent), inst.kind.succs[if c != 0 then 0 else 1])}
    ensures |BranchTargets(inst, facts)| >= 1 && BranchTargets(inst, facts) <= SuccEdges(inst.parent, inst.kind.succs)
  {
    var s := inst.kind.succs;
    assert Edge(Some(inst.parent), s[0]) in SuccEdges(inst.parent, s);
  }

  /** Transfer is monotone: more executable edges and lower facts give a lower outcome. */
  lemma TransferMonotone(fn: Func, inst: Inst, exec: set<Edge>, exec': set<Edge>, f: Facts, f': Facts)
    requires exec <= exec' && FactsBelow(f', f)
    ensures OutBelow(Transfer(fn, inst, exec', f'), Transfer(fn, inst, exec, f))
  {
    match inst.kind
    case Phi(inc) =>
      PhiMeetMonotone(fn, inst.parent, exec, exec', f, f', inc);
    case Br(_, _) =>
    case ICmp(p, a, b) =>
      ConstantOfMonotone(a, f', f);
      ConstantOfMonotone(b, f', f);
      ICmpMonotone(p, ConstantOf(a, f'), ConstantOf(a, f), ConstantOf(b, f'), ConstantOf(b, f));
    case BinOp(op, a, b) =>
      ConstantOfMonotone(a, f', f);
      ConstantOfMonotone(b, f', f);
      BinOpMonotone(op, ConstantOf(a, f'), ConstantOf(a, f), ConstantOf(b, f'), ConstantOf(b, f));
    case Other(_, _) =>
  }

  /**
   * Changing the fact of id leaves every instruction outside Users(fn, id)
   * where it was: its transfer and the edges it enables are unchanged, which
   * is why only the users are queued again.
   */
  lemma NonUserUnaffected(fn: Func, id: InstId, j: InstId, exec: set<Edge>, facts: Facts, v: ConstantValue)
    requires j in fn.insts && j !in Users(fn, id)
    ensures Transfer(fn, fn.insts[j], exec, facts[id := v]) == Transfer(fn, fn.insts[j], exec, facts)
    ensures BranchTargets(fn.insts[j], facts[id := v]) == BranchTargets(fn.insts[j], facts)
  {
    assert id !in OperandIds(fn.insts[j].kind);
    forall k | k in OperandIds(fn.insts[j].kind) ensures Fact(facts[id := v], k) == Fact(facts, k) {
    }
    TransferLocal(fn, fn.insts[j], exec, exec, facts[id := v], facts);
  }

  /**
   * What the visitor computes for an instruction depends only on the facts
   * of the instructions it reads and, for a phi, on the edges into its block.
   */
  lemma TransferLocal(fn: Func, inst: Inst, exec1: set<Edge>, exec2: set<Edge>, f1: Facts, f2: Facts)
    requires AgreeOn(f1, f2, OperandIds(inst.kind))
    requires inst.kind.Phi? ==> forall e: Edge :: e.to == inst.parent ==> (e in exec1 <==> e in exec2)
    ensures Transfer(fn, inst, exec1, f1) == Transfer(fn, inst, exec2, f2)
    ensures BranchTargets(inst, f1) == BranchTargets(inst, f2)
    ensures DecidedBranch(inst, f1) == DecidedBranch(inst, f2)
  {
    var ops := Operands(inst.kind);
    forall k | 0 <= k < |ops| && ops[k].InstV?
      ensures Fact(f1, ops[k].id) == Fact(f2, ops[k].id)
    {
      assert ops[k].id in OperandIds(inst.kind);
    }
    match inst.kind
    case Phi(inc) =>
      forall k | 0 <= k < |inc| && inc[k].value.InstV?
        ensures Fact(f1, inc[k].value.id) == Fact(f2, inc[k].value.id)
      {
        assert ops[k] == inc[k].value;
      }
      PhiMeetLocal(fn, inst.parent, exec1, exec2, f1, f2, inc);
    case Br(c, _) =>
      if c.Some? {
        assert ops[0] == c.value;
      }
    case ICmp(_, a, b) =>
      assert ops[0] == a && ops[1] == b;
    case BinOp(_, a, b) =>
      assert ops[0] == a && ops[1] == b;
    case Other(_, _) =>
  }
}
