/**
 * SimpleSCCPTransform::foldConstants, on function values: each phase of the
 * C++ (substitute and detach constants, rewrite branches on literal
 * conditions, find and erase unreachable blocks, repair phis) is a method
 * that returns the rewritten function, proved equal to a specification
 * function of its input; the lemmas state what the phases achieve.
 */
module Transform {
  import opened Lattice
  import opened Int64Arith
  import opened IR
  import opened Visitor

  // ----------------------------------------------------------------------
  // Sequences

  /** The elements of s (block or instruction ids) that are not in d, in their order. */
  function Without(s: seq<nat>, d: set<nat>): (r: seq<nat>)
    ensures |r| <= |s|
  {
    if s == [] then []
    else if s[0] in d then Without(s[1..], d)
    else [s[0]] + Without(s[1..], d)
  }

  /** Filtering keeps exactly the elements outside d. */
  lemma {:induction false} WithoutMembers(s: seq<nat>, d: set<nat>, x: nat)
    ensures x in Without(s, d) <==> x in s && x !in d
  {
    if s != [] {
      WithoutMembers(s[1..], d, x);
      assert x in s <==> x == s[0] || x in s[1..];
    }
  }

  lemma {:induction false} WithoutKeepsNoDup(s: seq<nat>, d: set<nat>)
    requires NoDup(s)
    ensures NoDup(Without(s, d))
  {
    if s != [] {
      assert NoDup(s[1..]) by {
        forall j, k | 0 <= j < k < |s[1..]| ensures s[1..][j] != s[1..][k] {
          assert s[1..][j] == s[j + 1] && s[1..][k] == s[k + 1];
        }
      }
      WithoutKeepsNoDup(s[1..], d);
      if s[0] !in d {
        assert s[0] !in s[1..] by {
          forall k | 0 <= k < |s[1..]| ensures s[1..][k] != s[0] {
            assert s[1..][k] == s[k + 1];
          }
        }
        var w := Without(s[1..], d);
        assert Without(s, d) == [s[0]] + w;
        forall j, k | 0 <= j < k < |[s[0]] + w| ensures ([s[0]] + w)[j] != ([s[0]] + w)[k] {
          if j > 0 {
            assert ([s[0]] + w)[j] == w[j - 1] && ([s[0]] + w)[k] == w[k - 1];
          } else {
            assert ([s[0]] + w)[k] == w[k - 1];
            assert w[k - 1] in w;
            WithoutMembers(s[1..], d, w[k - 1]);
          }
        }
      }
    }
  }

  /** Filtering twice is filtering by the union. */
  lemma {:induction false} WithoutTwice(s: seq<nat>, d1: set<nat>, d2: set<nat>)
    ensures Without(Without(s, d1), d2) == Without(s, d1 + d2)
  {
    if s != [] {
      WithoutTwice(s[1..], d1, d2);
      if s[0] !in d1 {
        assert Without(s, d1) == [s[0]] + Without(s[1..], d1);
        assert ([s[0]] + Without(s[1..], d1))[1..] == Without(s[1..], d1);
      }
    }
  }

  /** Filtering out elements the sequence does not hold changes nothing. */
  lemma {:induction false} WithoutAbsent(s: seq<nat>, d: set<nat>)
    requires forall k :: 0 <= k < |s| ==> s[k] !in d
    ensures Without(s, d) == s
  {
    if s != [] {
      assert forall k :: 0 <= k < |s[1..]| ==> s[1..][k] == s[k + 1];
      WithoutAbsent(s[1..], d);
    }
  }

  /** The set of elements of a sequence. */
  function Elems(s: seq<nat>): set<nat>
  {
    set x | x in s
  }

  // ----------------------------------------------------------------------
  // Phase 1: substitute the constants and detach their instructions

  /** The instructions foldConstants detaches: those whose fact is a constant. */
  function Folded(fn: Func, facts: Facts): set<InstId>
  {
    set i | i in fn.insts && i in facts && facts[i].Const?
  }

  /**
   * The literal that replaces instruction j (one of the ids in d):
   * ConstantInt::get of its type and its constant, i.e. the constant
   * truncated to the instruction's width.
   */
  function LiteralsFor(fn: Func, facts: Facts, d: set<InstId>): (sub: map<InstId, Value>)
    ensures sub.Keys == d * Folded(fn, facts)
    ensures forall j :: j in sub ==> sub[j].Lit? && sub[j].width == fn.insts[j].width
  {
    map j | j in d && j in Folded(fn, facts) ::
      Lit(fn.insts[j].width, Truncate(facts[j].value, fn.insts[j].width))
  }

  function FoldedLiterals(fn: Func, facts: Facts): map<InstId, Value>
  {
    LiteralsFor(fn, facts, facts.Keys)
  }

  /**
   * The literal written for an instruction reads back, through
   * getConstantValue, as a constant congruent to the instruction's constant
   * modulo 2^width, and as exactly that constant when it fits the width
   * (always for i64).
   */
  lemma FoldedLiteralReadsBack(fn: Func, facts: Facts, j: InstId)
    requires j in FoldedLiterals(fn, facts)
    ensures ConstantOf(FoldedLiterals(fn, facts)[j], facts).Const?
    ensures (ConstantOf(FoldedLiterals(fn, facts)[j], facts).value - facts[j].value)
      % Modulus(fn.insts[j].width) == 0
    ensures -(Modulus(fn.insts[j].width) / 2) <= facts[j].value < Modulus(fn.insts[j].width) / 2 ==>
      ConstantOf(FoldedLiterals(fn, facts)[j], facts) == facts[j]
  {
    var w := fn.insts[j].width;
    var m: int := Modulus(w);
    var v := facts[j].value;
    TruncateIsCongruent(v, w);
    if -(m / 2) <= v < m / 2 {
      TruncateThenSignExtend(v, w);
    }
  }

  predicate LiteralsOnly(sub: map<InstId, Value>)
  {
    forall j :: j in sub ==> sub[j].Lit?
  }

  function SubstValue(v: Value, sub: map<InstId, Value>): Value
  {
    if v.InstV? && v.id in sub then sub[v.id] else v
  }

  function SubstValues(vs: seq<Value>, sub: map<InstId, Value>): (r: seq<Value>)
    ensures |r| == |vs|
  {
    seq(|vs|, j requires 0 <= j < |vs| => SubstValue(vs[j], sub))
  }

  function SubstIncoming(inc: seq<Incoming>, sub: map<InstId, Value>): (r: seq<Incoming>)
    ensures |r| == |inc|
  {
    seq(|inc|, j requires 0 <= j < |inc| => Incoming(SubstValue(inc[j].value, sub), inc[j].block))
  }

  /** The instruction kind k with every use of an id in sub replaced by sub's value. */
  function SubstKind(k: InstKind, sub: map<InstId, Value>): InstKind
  {
    match k
    case Phi(inc) => Phi(SubstIncoming(inc, sub))
    case Br(c, s) => Br(if c.Some? then Some(SubstValue(c.value, sub)) else None, s)
    case ICmp(p, a, b) => ICmp(p, SubstValue(a, sub), SubstValue(b, sub))
    case BinOp(op, a, b) => BinOp(op, SubstValue(a, sub), SubstValue(b, sub))
    case Other(ops, s) => Other(SubstValues(ops, sub), s)
  }

  /** Value::replaceAllUsesWith for every id of sub at once, over the whole function. */
  function ReplaceAllUses(fn: Func, sub: map<InstId, Value>): Func
  {
    fn.(insts := map i | i in fn.insts :: fn.insts[i].(kind := SubstKind(fn.insts[i].kind, sub)))
  }

  /** Substitution keeps a kind's shape: its successors and whether a branch is conditional. */
  lemma SubstKeepsShape(k: InstKind, sub: map<InstId, Value>)
    ensures SuccList(SubstKind(k, sub)) == SuccList(k)
    ensures k.Phi? == SubstKind(k, sub).Phi? && k.Br? == SubstKind(k, sub).Br?
    ensures k.Br? ==> k.cond.Some? == SubstKind(k, sub).cond.Some?
  {
  }

  /** The operands after substitution are the operands before, each substituted. */
  lemma SubstOperands(k: InstKind, sub: map<InstId, Value>)
    ensures Operands(SubstKind(k, sub)) == SubstValues(Operands(k), sub)
  {
    match k
    case Phi(inc) =>
      assert Operands(SubstKind(k, sub)) == SubstValues(Operands(k), sub);
    case Br(c, s) =>
    case ICmp(p, a, b) =>
    case BinOp(op, a, b) =>
    case Other(ops, s) =>
  }

  /** After replacing by literals, no instruction reads a replaced id; every other use stays. */
  lemma SubstRemovesUses(k: InstKind, sub: map<InstId, Value>)
    requires LiteralsOnly(sub)
    ensures OperandIds(SubstKind(k, sub)) == OperandIds(k) - sub.Keys
  {
    SubstOperands(k, sub);
    var before := Operands(k);
    var after := Operands(SubstKind(k, sub));
    forall x | x in OperandIds(SubstKind(k, sub)) ensures x in OperandIds(k) - sub.Keys {
      var v :| v in after && v.InstV? && v.id == x;
      var j :| 0 <= j < |after| && after[j] == v;
      assert after[j] == SubstValue(before[j], sub);
      assert before[j] in before;
    }
    forall x | x in OperandIds(k) - sub.Keys ensures x in OperandIds(SubstKind(k, sub)) {
      var v :| v in before && v.InstV? && v.id == x;
      var j :| 0 <= j < |before| && before[j] == v;
      assert after[j] == v;
      assert after[j] in after;
    }
  }

  lemma SubstNothing(k: InstKind)
    ensures SubstKind(k, map[]) == k
  {
    match k
    case Phi(inc) =>
      assert SubstIncoming(inc, map[]) == inc;
    case Br(c, s) =>
    case ICmp(p, a, b) =>
    case BinOp(op, a, b) =>
    case Other(ops, s) =>
      assert SubstValues(ops, map[]) == ops;
  }

  /** Substituting literals and then more values is one substitution with both. */
  lemma SubstCompose(k: InstKind, s1: map<InstId, Value>, s2: map<InstId, Value>)
    requires LiteralsOnly(s1)
    ensures SubstKind(SubstKind(k, s1), s2) == SubstKind(k, s2 + s1)
  {
    match k
    case Phi(inc) =>
      assert SubstIncoming(SubstIncoming(inc, s1), s2) == SubstIncoming(inc, s2 + s1);
    case Br(c, s) =>
    case ICmp(p, a, b) =>
    case BinOp(op, a, b) =>
    case Other(ops, s) =>
      assert SubstValues(SubstValues(ops, s1), s2) == SubstValues(ops, s2 + s1);
  }

  lemma ReplaceNothing(fn: Func)
    ensures ReplaceAllUses(fn, map[]) == fn
  {
    forall i | i in fn.insts ensures SubstKind(fn.insts[i].kind, map[]) == fn.insts[i].kind {
      SubstNothing(fn.insts[i].kind);
    }
  }

  /** Replacing uses changes only the kinds of instructions, never the arena's ids, parents or widths. */
  lemma ReplaceKeepsArena(fn: Func, sub: map<InstId, Value>, i: InstId)
    ensures i in ReplaceAllUses(fn, sub).insts <==> i in fn.insts
    ensures i in fn.insts ==>
      && ReplaceAllUses(fn, sub).insts[i].parent == fn.insts[i].parent
      && ReplaceAllUses(fn, sub).insts[i].width == fn.insts[i].width
  {
  }

  lemma ReplaceAllUsesCompose(fn: Func, s1: map<InstId, Value>, s2: map<InstId, Value>)
    requires LiteralsOnly(s1)
    ensures ReplaceAllUses(ReplaceAllUses(fn, s1), s2) == ReplaceAllUses(fn, s2 + s1)
  {
    forall i | i in fn.insts
      ensures SubstKind(SubstKind(fn.insts[i].kind, s1), s2) == SubstKind(fn.insts[i].kind, s2 + s1)
    {
      SubstCompose(fn.insts[i].kind, s1, s2);
    }
  }

  /** One more replaceAllUsesWith extends the substitution by one literal. */
  lemma SubstituteStep(fn: Func, facts: Facts, done: set<InstId>, v: InstId)
    requires v in Folded(fn, facts) && v !in done
    ensures var w := fn.insts[v].width;
      ReplaceAllUses(ReplaceAllUses(fn, LiteralsFor(fn, facts, done)), map[v := Lit(w, Truncate(facts[v].value, w))])
      == ReplaceAllUses(fn, LiteralsFor(fn, facts, done + {v}))
  {
    var w := fn.insts[v].width;
    var lit := Lit(w, Truncate(facts[v].value, w));
    var sub := LiteralsFor(fn, facts, done);
    ReplaceAllUsesCompose(fn, sub, map[v := lit]);
    assert map[v := lit] + sub == LiteralsFor(fn, facts, done + {v});
  }

  /** A fact that is not a constant of an instruction adds no literal. */
  lemma SkipStep(fn: Func, facts: Facts, done: set<InstId>, v: InstId)
    requires v !in Folded(fn, facts)
    ensures LiteralsFor(fn, facts, done) == LiteralsFor(fn, facts, done + {v})
  {
  }

  lemma NoDupAppend(s: seq<nat>, v: nat)
    requires NoDup(s) && v !in s
    ensures NoDup(s + [v])
  {
    forall j, k | 0 <= j < k < |s + [v]| ensures (s + [v])[j] != (s + [v])[k] {
      if k == |s| {
        assert (s + [v])[j] == s[j];
        assert s[j] in s;
      } else {
        assert (s + [v])[j] == s[j] && (s + [v])[k] == s[k];
      }
    }
  }

  /**
   * The first loop of foldConstants: for every fact that is a constant of an
   * instruction, replace all uses of the instruction by its literal and
   * record the instruction as abandoned. The facts are visited in the
   * unspecified order of the hash map.
   */
  method SubstituteConstants(fn: Func, facts: Facts) returns (r: Func, abandoned: seq<InstId>)
    ensures r == ReplaceAllUses(fn, FoldedLiterals(fn, facts))
    ensures NoDup(abandoned)
    ensures forall i :: i in abandoned <==> i in Folded(fn, facts)
  {
    r := fn;
    abandoned := [];
    var pending := facts.Keys;
    ghost var done: set<InstId> := {};
    assert LiteralsFor(fn, facts, done) == map[];
    ReplaceNothing(fn);
    while pending != {}
      invariant pending + done == facts.Keys && pending * done == {}
      invariant r == ReplaceAllUses(fn, LiteralsFor(fn, facts, done))
      invariant NoDup(abandoned)
      invariant forall i :: i in abandoned <==> i in done && i in Folded(fn, facts)
      decreases |pending|
    {
      var v :| v in pending;
      pending := pending - {v};
      var cv := facts[v];
      ReplaceKeepsArena(fn, LiteralsFor(fn, facts, done), v);
      if cv.Const? && v in r.insts {
        var w := r.insts[v].width;
        var lit := Lit(w, Truncate(cv.value, w));
        SubstituteStep(fn, facts, done, v);
        r := ReplaceAllUses(r, map[v := lit]);
        NoDupAppend(abandoned, v);
        abandoned := abandoned + [v];
      } else {
        SkipStep(fn, facts, done, v);
      }
      done := done + {v};
    }
    assert done == facts.Keys;
  }

  /** Instruction::removeFromParent for every id of d: the function without them. */
  function Detach(fn: Func, d: set<InstId>): Func
  {
    fn.(body := map b | b in fn.body :: Without(fn.body[b], d), insts := fn.insts - d)
  }

  /** Instruction::removeFromParent for one instruction i. */
  function DetachOne(fn: Func, i: InstId): Func
    requires i in fn.insts && fn.insts[i].parent in fn.body
  {
    var p := fn.insts[i].parent;
    fn.(body := fn.body[p := Without(fn.body[p], {i})], insts := fn.insts - {i})
  }

  lemma ElemsStep(s: seq<nat>, k: nat)
    requires k < |s|
    ensures Elems(s[..k + 1]) == Elems(s[..k]) + {s[k]}
  {
    assert s[..k + 1] == s[..k] + [s[k]];
  }

  /** Detaching one more instruction from its own block is detaching the larger set everywhere. */
  lemma DetachStep(fn: Func, d: set<InstId>, i: InstId)
    requires Linked(fn) && i in fn.insts && i !in d && fn.insts[i].parent in fn.body
    ensures DetachOne(Detach(fn, d), i) == Detach(fn, d + {i})
  {
    var p := fn.insts[i].parent;
    var r := DetachOne(Detach(fn, d), i);
    var t := Detach(fn, d + {i});
    forall b | b in fn.body ensures r.body[b] == t.body[b] {
      if b != p {
        forall n | 0 <= n < |fn.body[b]| ensures fn.body[b][n] != i {
          assert fn.insts[fn.body[b][n]].parent == b;
        }
      }
      WithoutOneMore(fn.body[b], d, i, b == p);
    }
    assert r.body == t.body;
  }

  lemma WithoutOneMore(s: seq<nat>, d: set<nat>, i: nat, own: bool)
    requires !own ==> i !in s
    ensures (if own then Without(Without(s, d), {i}) else Without(s, d)) == Without(s, d + {i})
  {
    WithoutTwice(s, d, {i});
    if !own {
      var w := Without(s, d);
      forall n | 0 <= n < |w| ensures w[n] !in {i} {
        assert w[n] in w;
        WithoutMembers(s, d, w[n]);
      }
      WithoutAbsent(w, {i});
    }
  }

  /** The second loop of foldConstants: every abandoned instruction leaves its block. */
  method DetachAll(fn: Func, abandoned: seq<InstId>) returns (r: Func)
    requires Linked(fn) && NoDup(abandoned)
    requires forall i :: i in abandoned ==> i in fn.insts && fn.insts[i].parent in fn.body
    ensures r == Detach(fn, Elems(abandoned))
  {
    r := fn;
    assert Detach(fn, {}) == fn by {
      forall b | b in fn.body ensures Without(fn.body[b], {}) == fn.body[b] {
        WithoutAbsent(fn.body[b], {});
      }
    }
    assert Elems(abandoned[..0]) == {};
    for k := 0 to |abandoned|
      invariant r == Detach(fn, Elems(abandoned[..k]))
    {
      var i := abandoned[k];
      ghost var d := Elems(abandoned[..k]);
      assert i !in d by {
        forall j | 0 <= j < k ensures abandoned[..k][j] != i {
          assert abandoned[..k][j] == abandoned[j];
        }
      }
      DetachStep(fn, d, i);
      ElemsStep(abandoned, k);
      r := DetachOne(r, i);
    }
    assert abandoned[..|abandoned|] == abandoned;
  }

  /** The function after the first phase: literals substituted, constant instructions detached. */
  function Substituted(fn: Func, facts: Facts): Func
  {
    Detach(ReplaceAllUses(fn, FoldedLiterals(fn, facts)), Folded(fn, facts))
  }

  // ----------------------------------------------------------------------
  // Phase 2: conditional branches on a literal become unconditional

  /** A conditional branch whose condition is the literal 1 or the literal 0. */
  predicate BranchOnBoolLiteral(k: InstKind)
  {
    k.Br? && k.cond.Some? && k.cond.value.Lit? && (k.cond.value.bits == 1 || k.cond.value.bits == 0)
  }

  /**
   * The kind foldConstants leaves for a terminator: a conditional branch on
   * a literal that isOne becomes an unconditional branch to successor 0, one
   * on a literal that isZero an unconditional branch to successor 1; every
   * other kind stays.
   */
  function Decide(k: InstKind): InstKind
    requires k.Br? && k.cond.Some? ==> |k.succs| == 2
  {
    if k.Br? && k.cond.Some? && k.cond.value.Lit? then
      if k.cond.value.bits == 1 then Br(None, [k.succs[0]])
      else if k.cond.value.bits == 0 then Br(None, [k.succs[1]])
      else k
    else k
  }

  /**
   * Decide rewrites exactly the branches on a literal 1 or 0, into an
   * unconditional branch to the successor the literal selects; the result
   * reads no more values and reaches no more blocks than before, and
   * deciding again changes nothing.
   */
  lemma DecideProperties(k: InstKind)
    requires k.Br? && k.cond.Some? ==> |k.succs| == 2
    ensures Decide(k) != k <==> BranchOnBoolLiteral(k)
    ensures BranchOnBoolLiteral(k) ==>
      Decide(k) == Br(None, [k.succs[if k.cond.value.bits == 1 then 0 else 1]])
    ensures !BranchOnBoolLiteral(Decide(k)) && Decide(Decide(k)) == Decide(k)
    ensures forall c :: c in SuccList(Decide(k)) ==> c in SuccList(k)
    ensures OperandIds(Decide(k)) <= OperandIds(k)
    ensures Decide(k).Phi? == k.Phi? && (k.Phi? ==> Decide(k) == k)
  {
  }

  /** The ids of the terminators of the blocks in bs (BasicBlock::getTerminator). */
  function Terminators(fn: Func, bs: seq<BlockId>): set<InstId>
  {
    set b | b in bs && Terminator(fn, b).Some? && Terminator(fn, b).value in fn.insts :: Terminator(fn, b).value
  }

  lemma TerminatorsStep(fn: Func, bs: seq<BlockId>, k: nat)
    requires k < |bs|
    ensures var t := Terminator(fn, bs[k]);
      Terminators(fn, bs[..k + 1]) ==
        Terminators(fn, bs[..k]) + (if t.Some? && t.value in fn.insts then {t.value} else {})
  {
    assert bs[..k + 1] == bs[..k] + [bs[k]];
  }

  /** The function with Decide applied to the instructions in t. */
  function DecideAt(fn: Func, t: set<InstId>): Func
    requires BranchShape(fn)
  {
    fn.(insts := map i | i in fn.insts ::
      if i in t then fn.insts[i].(kind := Decide(fn.insts[i].kind)) else fn.insts[i])
  }

  /**
   * Deciding one more terminator t: when t's current kind is still a branch
   * on a literal 1 or 0, t was not decided before and replacing its kind by
   * the decided one extends DecideAt; otherwise DecideAt is unchanged.
   */
  lemma DecideStep(fn: Func, done: set<InstId>, t: InstId)
    requires BranchShape(fn) && t in fn.insts
    ensures var r := DecideAt(fn, done);
      && t in r.insts && r.body == fn.body
      && (r.insts[t].kind.Br? && r.insts[t].kind.cond.Some? ==>
            r.insts[t] == fn.insts[t] && |r.insts[t].kind.succs| == 2)
      && (if BranchOnBoolLiteral(r.insts[t].kind) then
            && t !in done && BranchOnBoolLiteral(fn.insts[t].kind)
            && r.(insts := r.insts[t := r.insts[t].(kind := Decide(r.insts[t].kind))]) == DecideAt(fn, done + {t})
          else
            && r == DecideAt(fn, done + {t})
            && (t !in done ==> !BranchOnBoolLiteral(fn.insts[t].kind)))
  {
    DecideProperties(fn.insts[t].kind);
    var r := DecideAt(fn, done);
    if !BranchOnBoolLiteral(r.insts[t].kind) {
      assert r.insts == DecideAt(fn, done + {t}).insts;
    } else {
      assert r.(insts := r.insts[t := r.insts[t].(kind := Decide(r.insts[t].kind))]).insts
        == DecideAt(fn, done + {t}).insts;
    }
  }

  /** The function after the second phase: every block's terminator decided. */
  function SimplifiedBranches(fn: Func): Func
    requires BranchShape(fn)
  {
    DecideAt(fn, Terminators(fn, fn.layout))
  }

  /** Some block ends in a branch on a literal 1 or 0: the second phase sets madeChange. */
  predicate BranchRewritten(fn: Func)
  {
    exists i :: i in Terminators(fn, fn.layout) && BranchOnBoolLiteral(fn.insts[i].kind)
  }

  /**
   * The third loop of foldConstants: for each block in layout order, a
   * terminator that is a conditional branch on a literal 1 or 0 is replaced
   * by an unconditional branch to the selected successor, and madeChange is
   * set.
   */
  method SimplifyBranches(fn: Func) returns (r: Func, changed: bool)
    requires BranchShape(fn)
    ensures r == SimplifiedBranches(fn)
    ensures changed <==> BranchRewritten(fn)
  {
    r := fn;
    changed := false;
    assert DecideAt(fn, {}) == fn;
    assert fn.layout[..0] == [];
    for k := 0 to |fn.layout|
      invariant r == DecideAt(fn, Terminators(fn, fn.layout[..k]))
      invariant changed <==>
        exists i :: i in Terminators(fn, fn.layout[..k]) && BranchOnBoolLiteral(fn.insts[i].kind)
    {
      var b := fn.layout[k];
      ghost var done := Terminators(fn, fn.layout[..k]);
      TerminatorsStep(fn, fn.layout, k);
      var t := Terminator(r, b);
      if t.Some? && t.value in r.insts {
        DecideStep(fn, done, t.value);
        var inst := r.insts[t.value];
        if inst.kind.Br? && inst.kind.cond.Some? {
          var c := inst.kind.cond.value;
          if c.Lit? && c.bits == 1 {
            r := r.(insts := r.insts[t.value := inst.(kind := Br(None, [inst.kind.succs[0]]))]);
            changed := true;
          } else if c.Lit? && c.bits == 0 {
            r := r.(insts := r.insts[t.value := inst.(kind := Br(None, [inst.kind.succs[1]]))]);
            changed := true;
          }
        }
      }
    }
    assert fn.layout[..|fn.layout|] == fn.layout;
  }

  // ----------------------------------------------------------------------
  // Phase 3: find the reachable blocks and erase the others

  /** A set of blocks holding the entry and closed under successors. */
  ghost predicate ClosedUnderSuccs(fn: Func, reach: set<BlockId>)
  {
    && fn.entry in reach
    && forall b, c :: b in reach && c in Succs(fn, b) ==> c in reach
  }

  /** Every block of a path from the entry lies in any closed set. */
  lemma {:induction false} PathInClosedSet(fn: Func, reach: set<BlockId>, p: seq<BlockId>)
    requires ClosedUnderSuccs(fn, reach) && IsPath(fn, p)
    ensures p[|p| - 1] in reach
  {
    if |p| > 1 {
      var q := p[..|p| - 1];
      assert IsPath(fn, q) by {
        forall k | 0 <= k < |q| - 1 ensures q[k + 1] in Succs(fn, q[k]) {
          assert q[k] == p[k] && q[k + 1] == p[k + 1];
        }
      }
      PathInClosedSet(fn, reach, q);
      assert p[|p| - 1] in Succs(fn, p[|p| - 2]);
    }
  }

  /**
   * The inner loop of the search: every successor of current that was not
   * seen before is marked reachable and pushed on the work list.
   */
  method PushSuccessors(fn: Func, current: BlockId, reach0: set<BlockId>, work0: seq<BlockId>)
    returns (reach: set<BlockId>, work: seq<BlockId>)
    requires TargetsInBody(fn) && current in reach0 && current !in work0
    requires reach0 <= fn.body.Keys && NoDup(work0)
    requires forall k :: 0 <= k < |work0| ==> work0[k] in reach0
    requires forall b :: b in reach0 ==> Reachable(fn, b)
    requires forall b, c :: b in reach0 && b !in work0 && b != current && c in Succs(fn, b) ==> c in reach0
    ensures reach0 <= reach <= fn.body.Keys
    ensures reach == reach0 ==> work == work0
    ensures NoDup(work) && forall k :: 0 <= k < |work| ==> work[k] in reach
    ensures forall b :: b in reach ==> Reachable(fn, b)
    ensures forall b, c :: b in reach && b !in work && c in Succs(fn, b) ==> c in reach
  {
    reach, work := reach0, work0;
    var succs := Succs(fn, current);
    SuccsAreBlocks(fn, current);
    for j := 0 to |succs|
      invariant reach0 <= reach <= fn.body.Keys
      invariant reach == reach0 ==> work == work0
      invariant forall k :: 0 <= k < |work| ==> work[k] in reach
      invariant current !in work && NoDup(work)
      invariant forall b :: b in reach ==> Reachable(fn, b)
      invariant forall b, c :: b in reach && b !in work && b != current && c in Succs(fn, b) ==> c in reach
      invariant forall n :: 0 <= n < j ==> succs[n] in reach
    {
      var s := succs[j];
      if s !in reach {
        ReachableStep(fn, current, s);
        NoDupAppend(work, s);
        reach := reach + {s};
        work := work + [s];
      }
    }
  }

  /**
   * The depth-first search of foldConstants: starting from the entry block,
   * pop a block from the work list and push each successor not seen before.
   * The result is exactly the set of blocks reachable from the entry.
   */
  method FindReachable(fn: Func) returns (reach: set<BlockId>)
    requires fn.entry in fn.body && TargetsInBody(fn)
    ensures forall b :: b in reach <==> Reachable(fn, b)
  {
    var work := [fn.entry];
    reach := {fn.entry};
    EntryIsReachable(fn);
    while work != []
      invariant reach <= fn.body.Keys && fn.entry in reach
      invariant forall k :: 0 <= k < |work| ==> work[k] in reach
      invariant NoDup(work)
      invariant forall b :: b in reach ==> Reachable(fn, b)
      invariant forall b, c :: b in reach && b !in work && c in Succs(fn, b) ==> c in reach
      decreases |fn.body.Keys - reach|, |work|
    {
      var current := work[|work| - 1];
      work := work[..|work| - 1];
      ghost var reach0 := reach;
      ghost var work0 := work;
      assert current !in work by {
        forall k | 0 <= k < |work| ensures work[k] != current {
          assert work[k] == work0[k];
        }
      }
      reach, work := PushSuccessors(fn, current, reach, work);
      if reach != reach0 {
        assert reach - reach0 != {};
        var x :| x in reach - reach0;
        SubsetCardinality(fn.body.Keys - reach, fn.body.Keys - reach0 - {x});
      }
    }
    forall b | Reachable(fn, b) ensures b in reach {
      var p :| IsPath(fn, p) && p[|p| - 1] == b;
      PathInClosedSet(fn, reach, p);
    }
  }

  /** BasicBlock::eraseFromParent for every block of d: the blocks and their instructions go. */
  function EraseBlocks(fn: Func, d: set<BlockId>): Func
  {
    Func(fn.entry, Without(fn.layout, d), fn.body - d,
      map i | i in fn.insts && fn.insts[i].parent !in d :: fn.insts[i])
  }

  lemma EraseStep(fn: Func, d: set<BlockId>, b: BlockId)
    ensures EraseBlocks(EraseBlocks(fn, d), {b}) == EraseBlocks(fn, d + {b})
  {
    WithoutTwice(fn.layout, d, {b});
  }

  /** The blocks of bs outside reach. */
  function Outside(bs: seq<BlockId>, reach: set<BlockId>): set<BlockId>
  {
    set b | b in bs && b !in reach
  }

  /** The blocks of the layout outside reach: the ones foldConstants collects for erasure. */
  function Unreachable(fn: Func, reach: set<BlockId>): set<BlockId>
  {
    Outside(fn.layout, reach)
  }

  /**
   * The last two loops of the block removal: collect the blocks of the
   * layout that are not reachable, then erase each of them.
   */
  method RemoveUnreachable(fn: Func, reach: set<BlockId>) returns (r: Func)
    ensures r == EraseBlocks(fn, Unreachable(fn, reach))
  {
    var unreachable: seq<BlockId> := [];
    assert fn.layout[..0] == [];
    for k := 0 to |fn.layout|
      invariant Elems(unreachable) == Outside(fn.layout[..k], reach)
    {
      ghost var u := unreachable;
      if fn.layout[k] !in reach {
        unreachable := unreachable + [fn.layout[k]];
      }
      assert Elems(unreachable) == Elems(u) + (if fn.layout[k] in reach then {} else {fn.layout[k]});
      assert fn.layout[..k + 1] == fn.layout[..k] + [fn.layout[k]];
    }
    assert fn.layout[..|fn.layout|] == fn.layout;
    r := fn;
    assert EraseBlocks(fn, {}) == fn by {
      WithoutAbsent(fn.layout, {});
    }
    assert Elems(unreachable[..0]) == {};
    for k := 0 to |unreachable|
      invariant r == EraseBlocks(fn, Elems(unreachable[..k]))
    {
      var b := unreachable[k];
      EraseStep(fn, Elems(unreachable[..k]), b);
      ElemsStep(unreachable, k);
      r := EraseBlocks(r, {b});
    }
    assert unreachable[..|unreachable|] == unreachable;
  }

  // ----------------------------------------------------------------------
  // Phase 4: the phi repair loop

  /** The entries at odd positions 1, 3, 5, ... of an incoming list. */
  function OddEntries(s: seq<Incoming>): seq<Incoming>
  {
    seq(|s| / 2, j requires 0 <= j < |s| / 2 => s[2 * j + 1])
  }

  /**
   * The repair keeps an entry exactly when its position is odd, whichever
   * block it comes from: removing entry i moves the next entry into
   * position i, and the loop then moves on to i + 1.
   */
  lemma OddEntriesKeepOddPositions(s: seq<Incoming>)
    ensures |OddEntries(s)| == |s| / 2
    ensures forall j :: 0 <= j < |s| && j % 2 == 1 ==> s[j] in OddEntries(s)
    ensures forall x :: x in OddEntries(s) ==> exists j :: 0 <= j < |s| && j % 2 == 1 && s[j] == x
  {
    var r := OddEntries(s);
    forall j | 0 <= j < |s| && j % 2 == 1 ensures s[j] in r {
      assert r[j / 2] == s[j];
    }
    forall x | x in r ensures exists j :: 0 <= j < |s| && j % 2 == 1 && s[j] == x {
      var n :| 0 <= n < |r| && r[n] == x;
      assert s[2 * n + 1] == x;
    }
  }

  /** The state of the repair loop for one phi after i removals. */
  function AfterRemovals(inc: seq<Incoming>, i: nat): seq<Incoming>
  {
    var m := if 2 * i <= |inc| then 2 * i else |inc|;
    OddEntries(inc[..m]) + inc[m..]
  }

  /** One removal at position i moves the loop from i to i + 1 removals. */
  lemma RemovalStep(inc: seq<Incoming>, i: nat)
    requires 2 * i <= |inc| + 1 && i < |AfterRemovals(inc, i)|
    ensures 2 * i < |inc|
    ensures var r := AfterRemovals(inc, i); r[..i] + r[i + 1..] == AfterRemovals(inc, i + 1)
  {
    var r := AfterRemovals(inc, i);
    assert 2 * i <= |inc|;
    assert |OddEntries(inc[..2 * i])| == i;
    assert r[..i] == OddEntries(inc[..2 * i]);
    assert r[i + 1..] == inc[2 * i + 1..];
    OddEntriesStep(inc, i);
  }

  lemma OddEntriesStep(inc: seq<Incoming>, i: nat)
    requires 2 * i < |inc|
    ensures var m := if 2 * i + 2 <= |inc| then 2 * i + 2 else |inc|;
      OddEntries(inc[..2 * i]) + inc[2 * i + 1..] == OddEntries(inc[..m]) + inc[m..]
  {
    if 2 * i + 2 <= |inc| {
      assert OddEntries(inc[..2 * i + 2]) == OddEntries(inc[..2 * i]) + [inc[2 * i + 1]];
      assert inc[2 * i + 1..] == [inc[2 * i + 1]] + inc[2 * i + 2..];
    } else {
      assert OddEntries(inc[..|inc|]) == OddEntries(inc[..2 * i]);
    }
  }

  /**
   * The innermost loop of the repair, for one phi: for i from 0 while i is
   * below the current number of entries, remove entry i (PHINode::
   * removeIncomingValue) and report a change. An incoming block is never
   * null here, so the loop's continue is never taken.
   */
  method RemoveEvenIncoming(inc: seq<Incoming>) returns (r: seq<Incoming>, removed: bool)
    ensures r == OddEntries(inc)
    ensures removed <==> |inc| > 0
  {
    r := inc;
    removed := false;
    var i := 0;
    assert OddEntries(inc[..0]) == [];
    assert r == AfterRemovals(inc, 0);
    while i < |r|
      invariant 2 * i <= |inc| + 1
      invariant r == AfterRemovals(inc, i)
      invariant removed <==> i > 0
      decreases |r| - i
    {
      RemovalStep(inc, i);
      r := r[..i] + r[i + 1..];
      removed := true;
      i := i + 1;
    }
    if 2 * i <= |inc| {
      assert |OddEntries(inc[..2 * i])| == i;
    }
    assert inc[..|inc|] == inc;
  }

  /** The phis of the blocks in bs (BasicBlock::phis), as a set of ids. */
  function RepairSet(fn: Func, bs: seq<BlockId>): set<InstId>
  {
    set i | i in fn.insts && fn.insts[i].parent in bs && i in Phis(fn, fn.insts[i].parent)
  }

  /** The function with the incoming list of every phi in d cut to its odd entries. */
  function RepairAt(fn: Func, d: set<InstId>): Func
  {
    fn.(insts := map i | i in fn.insts ::
      if i in d && fn.insts[i].kind.Phi? then
        fn.insts[i].(kind := Phi(OddEntries(fn.insts[i].kind.incoming)))
      else fn.insts[i])
  }

  /** The function after the fourth phase. */
  function RepairedPhis(fn: Func): Func
  {
    RepairAt(fn, RepairSet(fn, fn.layout))
  }

  /** Some phi of a block has an entry: the fourth phase sets madeChange. */
  predicate PhiEntryRemoved(fn: Func)
  {
    HasEntries(fn, RepairSet(fn, fn.layout))
  }

  /** The leading phis depend only on which instructions are phis. */
  lemma PhiPrefixSame(fn: Func, fn': Func, s: seq<InstId>)
    requires forall i :: IsPhi(fn, i) == IsPhi(fn', i)
    ensures PhiPrefix(fn, s) == PhiPrefix(fn', s)
  {
    if s != [] && IsPhi(fn, s[0]) {
      PhiPrefixSame(fn, fn', s[1..]);
    }
  }

  lemma RepairKeepsPhis(fn: Func, d: set<InstId>, b: BlockId)
    ensures Phis(RepairAt(fn, d), b) == Phis(fn, b)
  {
    var r := RepairAt(fn, d);
    assert forall i :: IsPhi(fn, i) == IsPhi(r, i);
    if b in fn.body {
      PhiPrefixSame(fn, r, fn.body[b]);
    }
  }

  /** The phis of a block are its own instructions, each once. */
  lemma PhisOfBlock(fn: Func, b: BlockId)
    requires Linked(fn)
    ensures NoDup(Phis(fn, b))
    ensures forall i :: i in Phis(fn, b) ==> i in fn.insts && fn.insts[i].parent == b && IsPhi(fn, i)
  {
    if b in fn.body {
      var s := fn.body[b];
      var p := PhiPrefix(fn, s);
      forall i | i in p ensures i in fn.insts && fn.insts[i].parent == b && IsPhi(fn, i) {
        var k :| 0 <= k < |p| && p[k] == i;
        assert s[k] == i;
      }
      forall j, k | 0 <= j < k < |p| ensures p[j] != p[k] {
        assert p[j] == s[j] && p[k] == s[k];
      }
    }
  }

  /** Repairing one more phi, whose kind is still the original one. */
  lemma RepairStep(fn: Func, d: set<InstId>, p: InstId)
    requires p in fn.insts && p !in d && fn.insts[p].kind.Phi?
    ensures var r := RepairAt(fn, d);
      && p in r.insts && r.insts[p] == fn.insts[p]
      && r.(insts := r.insts[p := r.insts[p].(kind := Phi(OddEntries(r.insts[p].kind.incoming)))])
        == RepairAt(fn, d + {p})
  {
    var r := RepairAt(fn, d);
    assert r.(insts := r.insts[p := r.insts[p].(kind := Phi(OddEntries(r.insts[p].kind.incoming)))]).insts
      == RepairAt(fn, d + {p}).insts;
  }

  /** Some phi of d has an incoming entry. */
  predicate HasEntries(fn: Func, d: set<InstId>)
  {
    exists i :: i in d && i in fn.insts && fn.insts[i].kind.Phi? && |fn.insts[i].kind.incoming| > 0
  }

  /** One step of the loop over the phis of block b. */
  lemma RepairBlockStep(fn: Func, b: BlockId, d: set<InstId>, j: nat)
    requires Linked(fn) && j < |Phis(fn, b)|
    requires forall i :: i in d ==> i in fn.insts && fn.insts[i].parent != b
    ensures var phis := Phis(fn, b); var p := phis[j]; var done := d + Elems(phis[..j]);
      && p in fn.insts && fn.insts[p].kind.Phi? && p !in done
      && d + Elems(phis[..j + 1]) == done + {p}
      && (HasEntries(fn, Elems(phis[..j + 1])) <==>
            HasEntries(fn, Elems(phis[..j])) || |fn.insts[p].kind.incoming| > 0)
      && RepairAt(fn, done).insts[p] == fn.insts[p]
      && var r := RepairAt(fn, done);
         r.(insts := r.insts[p := r.insts[p].(kind := Phi(OddEntries(r.insts[p].kind.incoming)))])
           == RepairAt(fn, done + {p})
  {
    var phis := Phis(fn, b);
    var p := phis[j];
    PhisOfBlock(fn, b);
    assert p in phis;
    assert p !in Elems(phis[..j]) by {
      forall n | 0 <= n < j ensures phis[..j][n] != p {
        assert phis[..j][n] == phis[n];
      }
    }
    ElemsStep(phis, j);
    RepairStep(fn, d + Elems(phis[..j]), p);
  }

  /** The middle loop of the repair: every phi of block b, in order. */
  method RepairBlock(fn: Func, r0: Func, b: BlockId, ghost d: set<InstId>) returns (r: Func, changed: bool)
    requires Linked(fn) && r0 == RepairAt(fn, d)
    requires forall i :: i in d ==> i in fn.insts && fn.insts[i].parent != b
    ensures r == RepairAt(fn, d + Elems(Phis(fn, b)))
    ensures changed <==> HasEntries(fn, Elems(Phis(fn, b)))
  {
    r := r0;
    changed := false;
    RepairKeepsPhis(fn, d, b);
    var phis := Phis(r, b);
    PhisOfBlock(fn, b);
    assert Elems(phis[..0]) == {};
    for j := 0 to |phis|
      invariant r == RepairAt(fn, d + Elems(phis[..j]))
      invariant changed <==> HasEntries(fn, Elems(phis[..j]))
    {
      var p := phis[j];
      RepairBlockStep(fn, b, d, j);
      var newIncoming, removed := RemoveEvenIncoming(r.insts[p].kind.incoming);
      r := r.(insts := r.insts[p := r.insts[p].(kind := Phi(newIncoming))]);
      changed := changed || removed;
    }
    assert phis[..|phis|] == phis;
  }

  lemma RepairSetStep(fn: Func, k: nat)
    requires Linked(fn) && k < |fn.layout|
    ensures RepairSet(fn, fn.layout[..k + 1]) == RepairSet(fn, fn.layout[..k]) + Elems(Phis(fn, fn.layout[k]))
    ensures forall i :: i in RepairSet(fn, fn.layout[..k]) ==> fn.insts[i].parent != fn.layout[k]
  {
    var b := fn.layout[k];
    PhisOfBlock(fn, b);
    assert fn.layout[..k + 1] == fn.layout[..k] + [b];
    forall i | i in RepairSet(fn, fn.layout[..k]) ensures fn.insts[i].parent != b {
      var n :| 0 <= n < k && fn.layout[..k][n] == fn.insts[i].parent;
      assert fn.layout[n] == fn.layout[..k][n];
    }
  }

  /**
   * The last loop of foldConstants: for every block in layout order, for
   * every phi of the block, the incoming entries at even positions are
   * removed; madeChange is set whenever some phi had an entry.
   */
  method RepairPhis(fn: Func) returns (r: Func, changed: bool)
    requires Linked(fn)
    ensures r == RepairedPhis(fn)
    ensures changed <==> PhiEntryRemoved(fn)
  {
    r := fn;
    changed := false;
    assert RepairAt(fn, {}) == fn;
    assert RepairSet(fn, fn.layout[..0]) == {};
    for k := 0 to |fn.layout|
      invariant r == RepairAt(fn, RepairSet(fn, fn.layout[..k]))
      invariant changed <==> HasEntries(fn, RepairSet(fn, fn.layout[..k]))
    {
      RepairSetStep(fn, k);
      var c;
      r, c := RepairBlock(fn, r, fn.layout[k], RepairSet(fn, fn.layout[..k]));
      changed := changed || c;
    }
    assert fn.layout[..|fn.layout|] == fn.layout;
  }

  // ----------------------------------------------------------------------
  // What each phase keeps

  /** The arena invariants a phase of the transform relies on. */
  ghost predicate Shaped(fn: Func)
  {
    Linked(fn) && BranchShape(fn) && TargetsInBody(fn) && fn.entry in fn.body
  }

  lemma WfIsShaped(fn: Func)
    requires Wf(fn)
    ensures Shaped(fn)
  {
    assert fn.layout[0] in fn.layout;
  }

  /** Replacing uses keeps the blocks and the shape of every instruction. */
  lemma ReplaceKeepsShape(fn: Func, sub: map<InstId, Value>)
    requires Shaped(fn)
    ensures var r := ReplaceAllUses(fn, sub);
      && Shaped(r) && r.entry == fn.entry && r.layout == fn.layout && r.body == fn.body
      && r.insts.Keys == fn.insts.Keys
  {
    var r := ReplaceAllUses(fn, sub);
    forall i | i in fn.insts
      ensures SuccList(r.insts[i].kind) == SuccList(fn.insts[i].kind)
      ensures r.insts[i].kind.Br? == fn.insts[i].kind.Br?
      ensures r.insts[i].kind.Br? ==> r.insts[i].kind.cond.Some? == fn.insts[i].kind.cond.Some?
      ensures r.insts[i].kind.Br? ==> r.insts[i].kind.succs == fn.insts[i].kind.succs
    {
      SubstKeepsShape(fn.insts[i].kind, sub);
    }
  }

  /** Detaching instructions keeps the blocks, and no block lists a detached instruction. */
  lemma DetachKeepsShape(fn: Func, d: set<InstId>)
    requires Shaped(fn)
    ensures var r := Detach(fn, d);
      && Shaped(r) && r.entry == fn.entry && r.layout == fn.layout && r.body.Keys == fn.body.Keys
      && (forall b, i :: b in r.body && i in d ==> i !in r.body[b])
  {
    var r := Detach(fn, d);
    forall b | b in r.body ensures NoDup(r.body[b]) && forall i :: i in d ==> i !in r.body[b] {
      WithoutKeepsNoDup(fn.body[b], d);
      forall i | i in d ensures i !in r.body[b] {
        WithoutMembers(fn.body[b], d, i);
      }
    }
    forall b, k | b in r.body && 0 <= k < |r.body[b]|
      ensures r.body[b][k] in r.insts && r.insts[r.body[b][k]].parent == b
    {
      var x := r.body[b][k];
      assert x in r.body[b];
      WithoutMembers(fn.body[b], d, x);
      var n :| 0 <= n < |fn.body[b]| && fn.body[b][n] == x;
    }
  }

  /** Deciding terminators keeps the blocks and the arena's ids and parents. */
  lemma DecideKeepsShape(fn: Func, t: set<InstId>)
    requires Shaped(fn)
    ensures var r := DecideAt(fn, t);
      && Shaped(r) && r.entry == fn.entry && r.layout == fn.layout && r.body == fn.body
      && r.insts.Keys == fn.insts.Keys
  {
    var r := DecideAt(fn, t);
    forall i | i in fn.insts
      ensures forall c :: c in SuccList(r.insts[i].kind) ==> c in SuccList(fn.insts[i].kind)
      ensures r.insts[i].kind.Br? && r.insts[i].kind.cond.Some? ==> r.insts[i] == fn.insts[i]
    {
      DecideProperties(fn.insts[i].kind);
    }
    forall i, k | i in r.insts && 0 <= k < |SuccList(r.insts[i].kind)|
      ensures SuccList(r.insts[i].kind)[k] in r.body
    {
      var c := SuccList(r.insts[i].kind)[k];
      assert c in SuccList(r.insts[i].kind);
      var n :| 0 <= n < |SuccList(fn.insts[i].kind)| && SuccList(fn.insts[i].kind)[n] == c;
    }
  }

  /** After the second phase no block ends in a branch on a literal 1 or 0. */
  lemma NoBranchOnBoolLiteralLeft(fn: Func, b: BlockId)
    requires Shaped(fn)
    ensures var r := SimplifiedBranches(fn); var t := Terminator(r, b);
      b in fn.layout && t.Some? && t.value in r.insts ==> !BranchOnBoolLiteral(r.insts[t.value].kind)
  {
    var r := SimplifiedBranches(fn);
    DecideKeepsShape(fn, Terminators(fn, fn.layout));
    var t := Terminator(r, b);
    if b in fn.layout && t.Some? && t.value in r.insts {
      assert t.value in Terminators(fn, fn.layout);
      DecideProperties(fn.insts[t.value].kind);
    }
  }

  /** The reachable blocks of a function. */
  ghost function ReachableBlocks(fn: Func): set<BlockId>
  {
    set b | b in fn.body && Reachable(fn, b)
  }

  /** The third phase's result: every block that the search did not reach is erased. */
  ghost function Pruned(fn: Func): Func
  {
    EraseBlocks(fn, Unreachable(fn, ReachableBlocks(fn)))
  }

  /**
   * Erasing the unreachable blocks keeps the arena linked; the blocks left
   * are exactly the reachable ones, each with the same instruction list and
   * the same terminator as before.
   */
  lemma PruneKeepsShape(fn: Func)
    requires Shaped(fn)
    ensures var r := Pruned(fn);
      && Linked(r) && r.entry == fn.entry
      && r.body.Keys == ReachableBlocks(fn)
      && (forall c :: c in r.body ==> r.body[c] == fn.body[c] && Succs(r, c) == Succs(fn, c))
  {
    var u := Unreachable(fn, ReachableBlocks(fn));
    var r := Pruned(fn);
    PruneKeepsTerminators(fn);
    WithoutKeepsNoDup(fn.layout, u);
    forall b ensures b in r.layout <==> b in r.body {
      WithoutMembers(fn.layout, u, b);
    }
    forall b | b in fn.body ensures b in r.body <==> Reachable(fn, b) {
      assert b in fn.layout;
    }
  }

  /** Every block left keeps its terminator, with the same instruction. */
  lemma PruneKeepsTerminators(fn: Func)
    requires Linked(fn)
    ensures var r := Pruned(fn);
      forall c :: c in r.body ==>
        && r.body[c] == fn.body[c] && c in fn.body && Succs(r, c) == Succs(fn, c)
        && Terminator(r, c) == Terminator(fn, c)
        && (Terminator(r, c).Some? ==>
              Terminator(r, c).value in r.insts && r.insts[Terminator(r, c).value] == fn.insts[Terminator(r, c).value])
  {
    var r := Pruned(fn);
    forall c | c in r.body
      ensures r.body[c] == fn.body[c] && Succs(r, c) == Succs(fn, c)
      ensures Terminator(r, c).Some? ==>
        Terminator(r, c) == Terminator(fn, c) && Terminator(r, c).value in r.insts
        && r.insts[Terminator(r, c).value] == fn.insts[Terminator(r, c).value]
    {
      var t := Terminator(fn, c);
      if t.Some? {
        var s := fn.body[c];
        assert fn.insts[s[|s| - 1]].parent == c;
      }
    }
  }

  /** Repairing phis keeps the blocks, the arena's ids and every non-phi instruction. */
  lemma RepairKeepsShape(fn: Func)
    requires Linked(fn)
    ensures var r := RepairedPhis(fn);
      && Linked(r) && r.entry == fn.entry && r.layout == fn.layout && r.body == fn.body
      && r.insts.Keys == fn.insts.Keys
      && (forall i :: i in r.insts ==> r.insts[i].parent == fn.insts[i].parent)
      && (forall i :: i in r.insts && !fn.insts[i].kind.Phi? ==> r.insts[i] == fn.insts[i])
  {
  }

  /** Repairing phis keeps every block's successors and only drops operands. */
  lemma RepairKeepsEdges(fn: Func)
    ensures var r := RepairedPhis(fn);
      && (forall c :: c in r.body ==> Succs(r, c) == Succs(fn, c))
      && (forall i :: i in r.insts ==> OperandIds(r.insts[i].kind) <= OperandIds(fn.insts[i].kind))
  {
    var r := RepairedPhis(fn);
    forall c | c in r.body ensures Succs(r, c) == Succs(fn, c) {
      var t := Terminator(fn, c);
      assert Terminator(r, c) == t;
      if t.Some? && t.value in fn.insts {
        assert SuccList(r.insts[t.value].kind) == SuccList(fn.insts[t.value].kind);
      }
    }
    forall i | i in r.insts ensures OperandIds(r.insts[i].kind) <= OperandIds(fn.insts[i].kind) {
      var k := fn.insts[i].kind;
      if k.Phi? {
        OddEntriesReadLess(k.incoming);
      }
    }
  }

  /** Keeping the odd entries of a phi only drops operands. */
  lemma OddEntriesReadLess(inc: seq<Incoming>)
    ensures OperandIds(Phi(OddEntries(inc))) <= OperandIds(Phi(inc))
  {
    OddEntriesKeepOddPositions(inc);
    var odd := OddEntries(inc);
    forall x | x in OperandIds(Phi(odd)) ensures x in OperandIds(Phi(inc)) {
      var ops := Operands(Phi(odd));
      var v :| v in ops && v.InstV? && v.id == x;
      var n :| 0 <= n < |ops| && ops[n] == v;
      assert odd[n] in odd;
      var j :| 0 <= j < |inc| && j % 2 == 1 && inc[j] == odd[n];
      assert Operands(Phi(inc))[j] == v;
    }
  }

  /** A prefix of a path from the entry is a path: every block on it is reachable. */
  lemma PathBlocksReachable(fn: Func, p: seq<BlockId>, k: nat)
    requires IsPath(fn, p) && k < |p|
    ensures Reachable(fn, p[k])
  {
    var q := p[..k + 1];
    assert IsPath(fn, q) by {
      forall n | 0 <= n < |q| - 1 ensures q[n + 1] in Succs(fn, q[n]) {
        assert q[n] == p[n] && q[n + 1] == p[n + 1];
      }
    }
  }

  /**
   * After the blocks the search did not reach are erased and the phis
   * repaired, every block left is reachable in the function that remains.
   */
  lemma {:induction false} RemainingBlocksReachable(fn: Func)
    requires Shaped(fn)
    ensures var r := RepairedPhis(Pruned(fn));
      forall b :: b in r.body ==> Reachable(r, b)
  {
    PruneKeepsShape(fn);
    var fn3 := Pruned(fn);
    RepairKeepsEdges(fn3);
    var r := RepairedPhis(fn3);
    assert r.body == fn3.body;
    forall b | b in r.body ensures Reachable(r, b) {
      var p :| IsPath(fn, p) && p[|p| - 1] == b;
      forall k | 0 <= k < |p| ensures p[k] in r.body {
        PathBlocksReachable(fn, p, k);
        if k > 0 {
          assert p[k] in Succs(fn, p[k - 1]);
          SuccsAreBlocks(fn, p[k - 1]);
        }
      }
      forall k | 0 <= k < |p| - 1 ensures p[k + 1] in Succs(r, p[k]) {
        assert p[k] in r.body;
      }
      assert IsPath(r, p);
    }
  }

  // ----------------------------------------------------------------------
  // foldConstants

  /** The function foldConstants leaves: the four phases in order. */
  ghost function FoldedFunction(fn: Func, facts: Facts): Func
    requires Wf(fn)
  {
    WfIsShaped(fn);
    var fn1 := Substituted(fn, facts);
    SubstitutedShape(fn, facts);
    RepairedPhis(Pruned(SimplifiedBranches(fn1)))
  }

  /** The function after the second phase, as the search for reachable blocks sees it. */
  ghost function BranchesFolded(fn: Func, facts: Facts): Func
    requires Wf(fn)
  {
    WfIsShaped(fn);
    SubstitutedShape(fn, facts);
    SimplifiedBranches(Substituted(fn, facts))
  }

  /**
   * The first phase keeps the blocks and the arena's shape, drops exactly
   * the instructions whose fact is a constant from the arena and from every
   * block, and leaves no instruction reading one of them.
   */
  lemma SubstitutedShape(fn: Func, facts: Facts)
    requires Shaped(fn)
    ensures var r := Substituted(fn, facts);
      Shaped(r) && r.entry == fn.entry && r.layout == fn.layout && r.body.Keys == fn.body.Keys
  {
    var sub := FoldedLiterals(fn, facts);
    ReplaceKeepsShape(fn, sub);
    DetachKeepsShape(ReplaceAllUses(fn, sub), Folded(fn, facts));
  }

  /** The first phase drops the constant instructions from the arena and every block; nothing reads them. */
  lemma SubstitutedDrops(fn: Func, facts: Facts)
    ensures var r := Substituted(fn, facts);
      && (forall i :: i in Folded(fn, facts) ==> i !in r.insts && forall b :: b in r.body ==> i !in r.body[b])
      && (forall i :: i in r.insts ==> OperandIds(r.insts[i].kind) !! Folded(fn, facts))
  {
    var sub := FoldedLiterals(fn, facts);
    var fn0 := ReplaceAllUses(fn, sub);
    var d := Folded(fn, facts);
    forall i, b | i in d && b in fn0.body ensures i !in Without(fn0.body[b], d) {
      WithoutMembers(fn0.body[b], d, i);
    }
    forall i | i in fn.insts ensures OperandIds(fn0.insts[i].kind) !! d {
      SubstRemovesUses(fn.insts[i].kind, sub);
    }
  }

  /** Deciding terminators changes only instruction kinds. */
  lemma DecideFrame(fn: Func, t: set<InstId>)
    requires BranchShape(fn)
    ensures var r := DecideAt(fn, t);
      && r.body == fn.body && r.insts.Keys == fn.insts.Keys
      && forall i :: i in r.insts ==> OperandIds(r.insts[i].kind) <= OperandIds(fn.insts[i].kind)
  {
    forall i | i in fn.insts && i in t {
      DecideProperties(fn.insts[i].kind);
    }
  }

  /** Erasing blocks keeps the remaining blocks and instructions as they were. */
  lemma PruneFrame(fn: Func)
    ensures var r := Pruned(fn);
      && r.body.Keys <= fn.body.Keys && (forall c :: c in r.body ==> r.body[c] == fn.body[c])
      && r.insts.Keys <= fn.insts.Keys && (forall i :: i in r.insts ==> r.insts[i] == fn.insts[i])
  {
  }

  /**
   * SimpleSCCPTransform::foldConstants: substitute and detach the
   * constants, rewrite the branches on literal conditions, erase the blocks
   * no longer reachable from the entry, and repair the phis. madeChange
   * reports a rewritten branch or a removed phi entry; substituting
   * constants and erasing blocks alone do not set it.
   */
  method FoldConstants(fn: Func, facts: Facts) returns (r: Func, madeChange: bool)
    requires Wf(fn)
    ensures r == FoldedFunction(fn, facts)
    ensures madeChange <==>
      BranchRewritten(Substituted(fn, facts)) || PhiEntryRemoved(Pruned(BranchesFolded(fn, facts)))
    ensures forall i :: i in Folded(fn, facts) ==>
      i !in r.insts && forall b :: b in r.body ==> i !in r.body[b]
    ensures forall i :: i in r.insts ==> OperandIds(r.insts[i].kind) !! Folded(fn, facts)
    ensures forall b :: b in r.body <==> b in fn.body && Reachable(BranchesFolded(fn, facts), b)
    ensures forall b :: b in r.body ==> Reachable(r, b)
    ensures forall b :: b in r.body && Terminator(r, b).Some? && Terminator(r, b).value in r.insts ==>
      !BranchOnBoolLiteral(r.insts[Terminator(r, b).value].kind)
  {
    WfIsShaped(fn);
    var fn1 := SubstituteAndDetach(fn, facts);
    SubstitutedShape(fn, facts);
    var fn2, rewritten := SimplifyBranches(fn1);
    DecideKeepsShape(fn1, Terminators(fn1, fn1.layout));
    var fn3 := RemoveAllUnreachable(fn2);
    var removed;
    r, removed := RepairPhis(fn3);
    madeChange := rewritten || removed;
    FoldConstantsDetaches(fn, facts);
    FoldConstantsKeepsReachable(fn, facts);
    FoldConstantsDecidesBranches(fn, facts);
  }

  /** The first phase: the substitution loop, then the loop that detaches the abandoned instructions. */
  method SubstituteAndDetach(fn: Func, facts: Facts) returns (r: Func)
    requires Wf(fn)
    ensures r == Substituted(fn, facts)
  {
    var fn0, abandoned := SubstituteConstants(fn, facts);
    WfIsShaped(fn);
    ReplaceKeepsShape(fn, FoldedLiterals(fn, facts));
    forall i | i in abandoned ensures i in fn0.insts && fn0.insts[i].parent in fn0.body {
      ReplaceKeepsArena(fn, FoldedLiterals(fn, facts), i);
    }
    r := DetachAll(fn0, abandoned);
    assert Elems(abandoned) == Folded(fn, facts);
  }

  /** The third phase: the search for reachable blocks, then their erasure. */
  method RemoveAllUnreachable(fn: Func) returns (r: Func)
    requires Shaped(fn)
    ensures r == Pruned(fn) && Linked(r)
  {
    var reach := FindReachable(fn);
    assert Unreachable(fn, reach) == Unreachable(fn, ReachableBlocks(fn));
    r := RemoveUnreachable(fn, reach);
    PruneKeepsShape(fn);
  }

  /** Every instruction whose fact is a constant is gone, and nothing reads one. */
  lemma FoldConstantsDetaches(fn: Func, facts: Facts)
    requires Wf(fn)
    ensures var r := FoldedFunction(fn, facts);
      && (forall i :: i in Folded(fn, facts) ==> i !in r.insts && forall b :: b in r.body ==> i !in r.body[b])
      && (forall i :: i in r.insts ==> OperandIds(r.insts[i].kind) !! Folded(fn, facts))
  {
    WfIsShaped(fn);
    SubstitutedShape(fn, facts);
    SubstitutedDrops(fn, facts);
    var fn1 := Substituted(fn, facts);
    DecideFrame(fn1, Terminators(fn1, fn1.layout));
    var fn2 := SimplifiedBranches(fn1);
    PruneFrame(fn2);
    var fn3 := Pruned(fn2);
    RepairKeepsEdges(fn3);
    RepairFrame(fn3);
  }

  /** Repairing phis keeps the blocks and the arena's ids. */
  lemma RepairFrame(fn: Func)
    ensures var r := RepairedPhis(fn); r.body == fn.body && r.insts.Keys == fn.insts.Keys
  {
  }

  /** The blocks left are exactly those reachable after the branch rewrite, and reachable still. */
  lemma FoldConstantsKeepsReachable(fn: Func, facts: Facts)
    requires Wf(fn)
    ensures var r := FoldedFunction(fn, facts);
      && (forall b :: b in r.body <==> b in fn.body && Reachable(BranchesFolded(fn, facts), b))
      && (forall b :: b in r.body ==> Reachable(r, b))
  {
    WfIsShaped(fn);
    SubstitutedShape(fn, facts);
    var fn1 := Substituted(fn, facts);
    DecideKeepsShape(fn1, Terminators(fn1, fn1.layout));
    var fn2 := SimplifiedBranches(fn1);
    PruneKeepsShape(fn2);
    RepairKeepsShape(Pruned(fn2));
    RemainingBlocksReachable(fn2);
  }

  /** No block left ends in a conditional branch on a literal 1 or 0. */
  lemma FoldConstantsDecidesBranches(fn: Func, facts: Facts)
    requires Wf(fn)
    ensures var r := FoldedFunction(fn, facts);
      forall b :: b in r.body && Terminator(r, b).Some? && Terminator(r, b).value in r.insts ==>
        !BranchOnBoolLiteral(r.insts[Terminator(r, b).value].kind)
  {
    WfIsShaped(fn);
    SubstitutedShape(fn, facts);
    var fn1 := Substituted(fn, facts);
    forall b {
      TerminatorStaysDecided(fn1, b);
    }
  }

  /** A block left after the last two phases still ends in its decided terminator. */
  lemma TerminatorStaysDecided(fn1: Func, b: BlockId)
    requires Shaped(fn1)
    ensures var r := RepairedPhis(Pruned(SimplifiedBranches(fn1)));
      b in r.body && Terminator(r, b).Some? && Terminator(r, b).value in r.insts ==>
        !BranchOnBoolLiteral(r.insts[Terminator(r, b).value].kind)
  {
    DecideKeepsShape(fn1, Terminators(fn1, fn1.layout));
    var fn2 := SimplifiedBranches(fn1);
    PruneKeepsTerminators(fn2);
    var fn3 := Pruned(fn2);
    RepairFrame(fn3);
    var r := RepairedPhis(fn3);
    if b in r.body && Terminator(r, b).Some? && Terminator(r, b).value in r.insts {
      assert Terminator(r, b) == Terminator(fn3, b);
      var t := Terminator(r, b).value;
      assert Terminator(fn3, b) == Terminator(fn2, b) && t in fn3.insts && fn3.insts[t] == fn2.insts[t];
      assert b in fn1.layout;
      NoBranchOnBoolLiteralLeft(fn1, b);
      if !fn3.insts[t].kind.Phi? {
        assert r.insts[t] == fn3.insts[t];
      }
    }
  }

  /**
   * When the analysis has decided a conditional branch on an i1 instruction
   * whose constant is -1, 0 or 1 (what an icmp or an i1 literal gives),
   * folding that instruction turns the branch into an unconditional branch
   * to exactly the successor the analysis enabled. For other constants
   * (say -2, from an i1 add the analysis evaluated at 64 bits) the truncated
   * literal may select the other successor.
   */
  lemma FoldedBranchFollowsAnalysis(fn: Func, facts: Facts, i: InstId)
    requires BranchShape(fn) && i in fn.insts
    requires fn.insts[i].kind.Br? && fn.insts[i].kind.cond.Some? && fn.insts[i].kind.cond.value.InstV?
    requires fn.insts[i].kind.cond.value.id in Folded(fn, facts)
    requires fn.insts[fn.insts[i].kind.cond.value.id].width == I1
    requires -1 <= facts[fn.insts[i].kind.cond.value.id].value <= 1
    ensures DecidedBranch(fn.insts[i], facts)
    ensures var k := SubstKind(fn.insts[i].kind, FoldedLiterals(fn, facts));
      && BranchOnBoolLiteral(k)
      && SuccEdges(fn.insts[i].parent, SuccList(Decide(k))) == BranchTargets(fn.insts[i], facts)
  {
    var j := fn.insts[i].kind.cond.value.id;
    var c := facts[j].value;
    assert Truncate(c, I1) == if c == 0 then 0 else 1;
  }
}
