/**
 * A concrete function on which foldConstants, as the phi repair is
 * written, leaves a phi of a kept block reading an instruction of an erased
 * block. The repair drops the entries at even positions whatever their
 * incoming block, after the unreachable blocks are already gone.
 */
module FoldWitness {
  import opened Int64Arith
  import opened IR
  import opened Visitor
  import opened Transform

  /**
   *   bb0: br i1 true, bb1, bb2
   *   bb1: br bb3
   *   bb2: %2 = add a0, a1; br bb3
   *   bb3: %4 = phi [5, bb1], [%2, bb2]; ret
   */
  function Witness(): Func
  {
    Func(0, [0, 1, 2, 3],
      map[0 := [0], 1 := [1], 2 := [2, 3], 3 := [4, 5]],
      map[0 := Inst(Br(Some(Lit(I1, 1)), [1, 2]), 0, I1),
          1 := Inst(Br(None, [3]), 1, I1),
          2 := Inst(BinOp(Add, Arg(0), Arg(1)), 2, I64),
          3 := Inst(Br(None, [3]), 2, I1),
          4 := Inst(Phi([Incoming(Lit(I64, 5), 1), Incoming(InstV(2), 2)]), 3, I64),
          5 := Inst(Other([], []), 3, I64)])
  }

  /** The witness after the branch rewrite: bb0 jumps to bb1. */
  function Decided(): Func
  {
    Witness().(insts := Witness().insts[0 := Inst(Br(None, [1]), 0, I1)])
  }

  /** The witness after bb2, which the search does not reach, is erased. */
  function Erased(): Func
  {
    Func(0, [0, 1, 3],
      map[0 := [0], 1 := [1], 3 := [4, 5]],
      map[0 := Inst(Br(None, [1]), 0, I1),
          1 := Inst(Br(None, [3]), 1, I1),
          4 := Inst(Phi([Incoming(Lit(I64, 5), 1), Incoming(InstV(2), 2)]), 3, I64),
          5 := Inst(Other([], []), 3, I64)])
  }

  /** The erased witness after the phi repair: %4 keeps only [%2, bb2]. */
  function Repaired(): Func
  {
    Func(0, [0, 1, 3],
      map[0 := [0], 1 := [1], 3 := [4, 5]],
      map[0 := Inst(Br(None, [1]), 0, I1),
          1 := Inst(Br(None, [3]), 1, I1),
          4 := Inst(Phi([Incoming(InstV(2), 2)]), 3, I64),
          5 := Inst(Other([], []), 3, I64)])
  }

  lemma WitnessKeys()
    ensures Witness().insts.Keys == {0, 1, 2, 3, 4, 5} && Witness().body.Keys == {0, 1, 2, 3}
  {
  }

  lemma WitnessLinked()
    ensures Linked(Witness())
  {
    var fn := Witness();
    WitnessKeys();
    forall b, k | b in fn.body && 0 <= k < |fn.body[b]|
      ensures fn.body[b][k] in fn.insts && fn.insts[fn.body[b][k]].parent == b
    {
      if b == 2 {
        assert k == 0 || k == 1;
      } else if b == 3 {
        assert k == 0 || k == 1;
      }
    }
  }

  lemma WitnessPlaced()
    ensures forall i :: i in Witness().insts ==>
      Witness().insts[i].parent in Witness().body && i in Witness().body[Witness().insts[i].parent]
  {
    var fn := Witness();
    WitnessKeys();
    forall i | i in fn.insts ensures fn.insts[i].parent in fn.body && i in fn.body[fn.insts[i].parent] {
      if i == 3 {
        assert fn.body[2][1] == 3;
      } else if i == 5 {
        assert fn.body[3][1] == 5;
      }
    }
  }

  lemma WitnessOrdered()
    ensures forall b, j, k :: b in Witness().body && 0 <= j < k < |Witness().body[b]| && IsPhi(Witness(), Witness().body[b][k]) ==>
      IsPhi(Witness(), Witness().body[b][j])
    ensures forall b, k :: b in Witness().body && 0 <= k < |Witness().body[b]| - 1 ==>
      !IsTerminatorKind(Witness().insts[Witness().body[b][k]].kind)
  {
    var fn := Witness();
    WitnessKeys();
    forall b, k | b in fn.body && 0 < k < |fn.body[b]| ensures !IsPhi(fn, fn.body[b][k]) {
      assert b == 2 || b == 3;
      assert k == 1;
    }
    forall b, k | b in fn.body && 0 <= k < |fn.body[b]| - 1
      ensures !IsTerminatorKind(fn.insts[fn.body[b][k]].kind)
    {
      assert b == 2 || b == 3;
      assert k == 0;
    }
  }

  lemma WitnessOperands()
    ensures BranchShape(Witness()) && TargetsInBody(Witness())
    ensures forall i :: i in Witness().insts && Witness().insts[i].kind.ICmp? ==> Witness().insts[i].width == I1
  {
    var fn := Witness();
    WitnessKeys();
    forall i, k | i in fn.insts && 0 <= k < |SuccList(fn.insts[i].kind)|
      ensures SuccList(fn.insts[i].kind)[k] in fn.body
    {
      if i == 0 {
        assert k == 0 || k == 1;
      }
    }
  }

  lemma WitnessLiterals()
    ensures LiteralsFit(Witness())
  {
    var fn := Witness();
    WitnessKeys();
    assert Operands(fn.insts[0].kind) == [Lit(I1, 1)];
    assert Operands(fn.insts[2].kind) == [Arg(0), Arg(1)];
    assert Operands(fn.insts[4].kind) == [Lit(I64, 5), InstV(2)];
    assert Operands(fn.insts[1].kind) == Operands(fn.insts[3].kind) == Operands(fn.insts[5].kind) == [];
  }

  lemma WitnessWf()
    ensures Wf(Witness())
  {
    WitnessLinked();
    WitnessPlaced();
    WitnessOrdered();
    WitnessOperands();
    WitnessLiterals();
  }

  /** With no facts, the first phase changes nothing. */
  lemma SubstituteNothing()
    ensures Substituted(Witness(), map[]) == Witness()
  {
    var fn := Witness();
    assert Folded(fn, map[]) == {};
    assert FoldedLiterals(fn, map[]) == map[];
    ReplaceNothing(fn);
    forall b | b in fn.body ensures Without(fn.body[b], {}) == fn.body[b] {
      WithoutAbsent(fn.body[b], {});
    }
    assert Detach(fn, {}).body == fn.body;
  }

  /** The terminators of the witness: the last instruction of each block. */
  lemma WitnessTerminators()
    ensures Terminators(Witness(), Witness().layout) == {0, 1, 3, 5}
  {
    var fn := Witness();
    assert Terminator(fn, 0) == Some(0) && Terminator(fn, 1) == Some(1);
    assert Terminator(fn, 2) == Some(3) && Terminator(fn, 3) == Some(5);
    forall x | x in Terminators(fn, fn.layout) ensures x in {0, 1, 3, 5} {
      var b :| b in fn.layout && Terminator(fn, b).Some? && Terminator(fn, b).value == x;
      assert b in {0, 1, 2, 3};
    }
  }

  /** Deciding the witness's terminators rewrites only the branch on true. */
  lemma DecideAtWitness()
    requires BranchShape(Witness())
    ensures DecideAt(Witness(), {0, 1, 3, 5}) == Decided()
  {
    var fn := Witness();
    var r := DecideAt(fn, {0, 1, 3, 5});
    WitnessKeys();
    forall i | i in fn.insts ensures r.insts[i] == Decided().insts[i] {
      assert i in {0, 1, 2, 3, 4, 5};
    }
    assert r.insts == Decided().insts;
  }

  /** The second phase turns the branch on true into a jump to bb1 and keeps the rest. */
  lemma DecideWitness()
    ensures BranchShape(Witness()) && SimplifiedBranches(Witness()) == Decided()
  {
    WitnessOperands();
    WitnessTerminators();
    DecideAtWitness();
  }

  /** bb2 is the only block the search from bb0 does not reach once bb0 jumps to bb1. */
  lemma DecidedReach()
    ensures ReachableBlocks(Decided()) == {0, 1, 3}
  {
    var fn := Decided();
    assert Succs(fn, 0) == [1] && Succs(fn, 1) == [3] && Succs(fn, 3) == [];
    assert IsPath(fn, [0]) && IsPath(fn, [0, 1]) && IsPath(fn, [0, 1, 3]);
    assert ClosedUnderSuccs(fn, {0, 1, 3});
    forall b | Reachable(fn, b) ensures b in {0, 1, 3} {
      var p :| IsPath(fn, p) && p[|p| - 1] == b;
      PathInClosedSet(fn, {0, 1, 3}, p);
    }
  }

  /** Erasing bb2 from the decided witness drops its two instructions. */
  lemma EraseWitness()
    ensures EraseBlocks(Decided(), {2}) == Erased()
  {
    var fn := Decided();
    var r := EraseBlocks(fn, {2});
    WitnessKeys();
    assert Without([3], {2}) == [3];
    assert Without([2, 3], {2}) == [3];
    assert Without([1, 2, 3], {2}) == [1, 3];
    assert r.layout == [0, 1, 3];
    assert r.body == Erased().body;
    assert r.insts.Keys == {0, 1, 4, 5} by {
      forall i | i in r.insts ensures i in {0, 1, 4, 5} {
        assert i in {0, 1, 2, 3, 4, 5};
      }
    }
    forall i | i in r.insts ensures r.insts[i] == Erased().insts[i] {
    }
  }

  /** The third phase erases bb2 with %2 and its branch. */
  lemma PruneWitness()
    ensures Pruned(Decided()) == Erased()
  {
    var fn := Decided();
    DecidedReach();
    assert Unreachable(fn, {0, 1, 3}) == {2} by {
      forall b | b in Outside(fn.layout, {0, 1, 3}) ensures b == 2 {
      }
    }
    EraseWitness();
  }

  /** The fourth phase repairs %4, the only phi left. */
  lemma RepairSetWitness()
    ensures RepairSet(Erased(), Erased().layout) == {4}
  {
    var fn := Erased();
    assert Phis(fn, 3) == [4];
    assert Phis(fn, 0) == [] && Phis(fn, 1) == [];
  }

  /** The fourth phase keeps the second entry of %4, the one from the erased bb2. */
  lemma RepairWitness()
    ensures RepairedPhis(Erased()) == Repaired()
  {
    RepairSetWitness();
    var fn := Erased();
    var r := RepairAt(fn, {4});
    assert OddEntries([Incoming(Lit(I64, 5), 1), Incoming(InstV(2), 2)]) == [Incoming(InstV(2), 2)];
    forall i | i in fn.insts ensures r.insts[i] == Repaired().insts[i] {
    }
    assert r.insts == Repaired().insts;
  }

  /** In the repaired witness %4 sits in bb3 and reads %2, which is gone with bb2. */
  lemma RepairedDangles()
    ensures var r := Repaired();
      && 3 in r.body && 4 in r.insts && r.insts[4].parent == 3
      && 2 !in r.body && 2 !in r.insts
      && 2 in OperandIds(r.insts[4].kind)
  {
    assert Operands(Repaired().insts[4].kind) == [InstV(2)];
  }

  /** foldConstants on the witness, phase by phase. */
  lemma FoldWitnessPhases()
    ensures Wf(Witness()) && FoldedFunction(Witness(), map[]) == Repaired()
  {
    WitnessWf();
    SubstituteNothing();
    DecideWitness();
    PruneWitness();
    RepairWitness();
    assert FoldedFunction(Witness(), map[]) == RepairedPhis(Pruned(SimplifiedBranches(Witness())));
  }

  /**
   * foldConstants on the witness with no facts keeps bb3 and its phi %4,
   * erases bb2 with the instruction %2, and leaves %4 reading %2.
   */
  lemma FoldLeavesDanglingPhi()
    ensures Wf(Witness())
    ensures var r := FoldedFunction(Witness(), map[]);
      && 3 in r.body && 4 in r.insts && r.insts[4].parent == 3
      && 2 !in r.body && 2 !in r.insts
      && 2 in OperandIds(r.insts[4].kind)
  {
    FoldWitnessPhases();
    RepairedDangles();
  }
}
