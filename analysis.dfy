/**
 * SimpleSCCPAnalysis: the two-workset fixpoint engine. The C++ object keeps
 * CFGWorkset, SSAWorkset, ExecutableEdges and DataflowFacts as members and
 * updates them in place; here they are the fields of SCCPAnalysis. The
 * invariant the engine keeps is stated over a snapshot of those fields (a
 * State value), so that the lemmas about it are about plain values.
 */
module Analysis {
  import opened Lattice
  import opened Int64Arith
  import opened IR
  import opened Visitor

  // ----------------------------------------------------------------------
  // CFGEdge

  /**
   * The address the C++ compares for an edge endpoint: the null From of the
   * entry edge comes before every block. Block ids stand in for the
   * addresses of the blocks.
   */
  function Address(b: Option<BlockId>): nat
  {
    if b.None? then 0 else b.value + 1
  }

  /** CFGEdge::operator<: by the address of From, then by that of To. */
  predicate EdgeLess(a: Edge, b: Edge)
  {
    Address(a.from) < Address(b.from) || (Address(a.from) == Address(b.from) && a.to < b.to)
  }

  /** CFGEdge::operator==: both endpoints are the same. */
  function EdgeEqual(a: Edge, b: Edge): (r: bool)
    ensures r <==> a == b
  {
    a.from == b.from && a.to == b.to
  }

  /**
   * The order is a strict total order on edges, so std::set<CFGEdge> keeps
   * each edge once and EdgeEqual agrees with "neither is less".
   */
  lemma EdgeLessIsStrictTotalOrder(a: Edge, b: Edge, c: Edge)
    ensures !EdgeLess(a, a)
    ensures EdgeLess(a, b) && EdgeLess(b, c) ==> EdgeLess(a, c)
    ensures EdgeEqual(a, b) <==> !EdgeLess(a, b) && !EdgeLess(b, a)
  {
  }

  // ----------------------------------------------------------------------
  // executable blocks

  /** The executable edges that enter block b. */
  function InEdges(exec: set<Edge>, b: BlockId): set<Edge>
  {
    set e | e in exec && e.to == b
  }

  /** A block is executable once some executable edge enters it. */
  predicate ExecutableBlock(exec: set<Edge>, b: BlockId)
  {
    exists e :: e in exec && e.to == b
  }

  /** The instructions at positions k and later of a list. */
  function Suffix(s: seq<InstId>, k: nat): set<InstId>
    requires k <= |s|
  {
    set j | k <= j < |s| :: s[j]
  }

  /** The non-phi instructions at positions k and later of a list. */
  function NonPhiSuffix(fn: Func, s: seq<InstId>, k: nat): set<InstId>
    requires k <= |s|
  {
    set j | k <= j < |s| && !IsPhi(fn, s[j]) :: s[j]
  }

  lemma SuffixStep(fn: Func, s: seq<InstId>, k: nat)
    requires k < |s|
    ensures Suffix(s, k) - {s[k]} <= Suffix(s, k + 1)
    ensures NonPhiSuffix(fn, s, k) - {s[k]} <= NonPhiSuffix(fn, s, k + 1)
  {
  }

  // ----------------------------------------------------------------------
  // the state of the engine and what a visit does to it

  datatype State = State(cfg: set<Edge>, ssa: set<InstId>, exec: set<Edge>, facts: Facts)

  /** How analyze ends: drained worklists, exhausted fuel, or a C++ division that traps. */
  datatype RunResult = Fixpoint | OutOfFuel | DivisionTrap

  /** True when visiting id must store a new fact (no fact yet, or a different one). */
  predicate Changes(s: State, id: InstId, nv: ConstantValue)
  {
    id !in s.facts || s.facts[id] != nv
  }

  /**
   * SimpleSCCPAnalysis::visit on a snapshot: the visitor's value is stored
   * and the instruction's users are queued when the value is new or
   * different; a branch also queues the edges visitBranchInst inserts.
   */
  function VisitState(fn: Func, s: State, id: InstId): State
    requires id in fn.insts && Transfer(fn, fn.insts[id], s.exec, s.facts).Computed?
  {
    var inst := fn.insts[id];
    var nv := Transfer(fn, inst, s.exec, s.facts).cv;
    var cfg := s.cfg + Queued(inst, s.exec, s.facts);
    if Changes(s, id, nv) then State(cfg, s.ssa + Users(fn, id), s.exec, s.facts[id := nv])
    else State(cfg, s.ssa, s.exec, s.facts)
  }

  /** Where a run of visits got to: the state reached, and whether a visit trapped. */
  datatype Progress = Progress(st: State, trapped: bool)

  /** One visit: the state VisitState gives, or a trap that leaves the state as it was. */
  function VisitStep(fn: Func, s: State, id: InstId): Progress
    requires id in fn.insts
  {
    if Transfer(fn, fn.insts[id], s.exec, s.facts).Trap? then Progress(s, true)
    else Progress(VisitState(fn, s, id), false)
  }

  /**
   * Visit ids in order, stopping at the first trap; with skipPhis the phis
   * among them are passed over, as the loop over a block's body does.
   */
  function VisitAll(fn: Func, s: State, ids: seq<InstId>, skipPhis: bool): Progress
    requires forall i :: i in ids ==> i in fn.insts
    decreases |ids|
  {
    if |ids| == 0 then Progress(s, false)
    else
      var r := VisitAll(fn, s, ids[..|ids| - 1], skipPhis);
      var id := ids[|ids| - 1];
      if r.trapped || (skipPhis && IsPhi(fn, id)) then r else VisitStep(fn, r.st, id)
  }

  /**
   * One iteration of analyze on an edge e taken from CFGWorkset (line
   * 253-283): mark it executable, visit the phis of its block, the rest of
   * the block when e is the block's only executable in-edge, then take the
   * jump to a single successor; a trap stops where it happens.
   */
  function EdgeRun(fn: Func, s: State, e: Edge): Progress
    requires e.to in fn.body && forall i :: i in fn.body[e.to] ==> i in fn.insts
  {
    var s1 := State(s.cfg - {e}, s.ssa, s.exec + {e}, s.facts);
    var r1 := VisitAll(fn, s1, Phis(fn, e.to), false);
    var r2 := if !r1.trapped && |InEdges(s1.exec, e.to)| == 1 then VisitAll(fn, r1.st, fn.body[e.to], true) else r1;
    if r2.trapped then r2 else Progress(JumpState(fn, r2.st, e.to), false)
  }

  /** The run over one more id extends the run over the prefix by one visit. */
  lemma VisitAllStep(fn: Func, s: State, ids: seq<InstId>, k: nat, skipPhis: bool)
    requires forall i :: i in ids ==> i in fn.insts
    requires k < |ids|
    ensures var r := VisitAll(fn, s, ids[..k], skipPhis);
      VisitAll(fn, s, ids[..k + 1], skipPhis) ==
        if r.trapped || (skipPhis && IsPhi(fn, ids[k])) then r else VisitStep(fn, r.st, ids[k])
  {
    assert ids[..k + 1][..k] == ids[..k];
  }

  /** Once a visit traps, the rest of the ids are not visited. */
  lemma {:induction false} VisitAllTrapSticks(fn: Func, s: State, ids: seq<InstId>, k: nat, skipPhis: bool)
    requires forall i :: i in ids ==> i in fn.insts
    requires k <= |ids| && VisitAll(fn, s, ids[..k], skipPhis).trapped
    ensures VisitAll(fn, s, ids, skipPhis) == VisitAll(fn, s, ids[..k], skipPhis)
    decreases |ids|
  {
    if k < |ids| {
      var front := ids[..|ids| - 1];
      assert front[..k] == ids[..k];
      VisitAllTrapSticks(fn, s, front, k, skipPhis);
    } else {
      assert ids[..k] == ids;
    }
  }

  /** Visits never change the executable edges. */
  lemma {:induction false} VisitAllKeepsExec(fn: Func, s: State, ids: seq<InstId>, skipPhis: bool)
    requires forall i :: i in ids ==> i in fn.insts
    ensures VisitAll(fn, s, ids, skipPhis).st.exec == s.exec
    decreases |ids|
  {
    if |ids| > 0 {
      VisitAllKeepsExec(fn, s, ids[..|ids| - 1], skipPhis);
    }
  }

  /**
   * A step on edge e adds e to the executable edges, and, when it does not
   * trap, the edge to the block's single successor if there is one; it
   * adds no other executable edge.
   */
  lemma EdgeRunExec(fn: Func, s: State, e: Edge)
    requires e.to in fn.body && forall i :: i in fn.body[e.to] ==> i in fn.insts
    ensures var r := EdgeRun(fn, s, e);
      r.st.exec == s.exec + {e} +
        (if !r.trapped && |Succs(fn, e.to)| == 1 then {Edge(Some(e.to), Succs(fn, e.to)[0])} else {})
  {
    var s1 := State(s.cfg - {e}, s.ssa, s.exec + {e}, s.facts);
    var r1 := VisitAll(fn, s1, Phis(fn, e.to), false);
    VisitAllKeepsExec(fn, s1, Phis(fn, e.to), false);
    if !r1.trapped && |InEdges(s1.exec, e.to)| == 1 {
      VisitAllKeepsExec(fn, r1.st, fn.body[e.to], true);
    }
  }

  // ----------------------------------------------------------------------
  // the invariant of analyze

  /**
   * An edge the engine may hold: it enters a reachable block of the
   * function, and it is either the entry edge or a CFG edge that leaves a
   * block already entered by an executable edge.
   */
  ghost predicate EdgeOk(fn: Func, exec: set<Edge>, e: Edge)
  {
    && e.to in fn.body
    && Reachable(fn, e.to)
    && match e.from
       case None => e.to == fn.entry
       case Some(p) => e.to in Succs(fn, p) && ExecutableBlock(exec, p)
  }

  /**
   * An instruction whose fact may be out of date: it is queued in
   * SSAWorkset, it is among the instructions X the current step has still
   * to visit, or it is a phi whose block has a queued incoming edge.
   */
  ghost predicate Pending(fn: Func, s: State, X: set<InstId>, i: InstId)
  {
    || i in s.ssa
    || i in X
    || (IsPhi(fn, i) && exists e :: e in s.cfg && e.to == fn.insts[i].parent)
  }

  ghost predicate Bounded(fn: Func, s: State)
  {
    && (forall i :: i in s.ssa ==> i in fn.insts)
    && (forall i :: i in s.facts ==> i in fn.insts)
  }

  ghost predicate EdgesSound(fn: Func, s: State)
  {
    && (forall e :: e in s.cfg ==> EdgeOk(fn, s.exec, e))
    && (forall e :: e in s.exec ==> EdgeOk(fn, s.exec, e))
    && (Edge(None, fn.entry) in s.cfg || Edge(None, fn.entry) in s.exec)
  }

  /** A fact is recorded only in executable code, except a phi still at Top. */
  ghost predicate Live(fn: Func, s: State)
  {
    forall i :: i in s.facts && i in fn.insts ==>
      ExecutableBlock(s.exec, fn.insts[i].parent) || (IsPhi(fn, i) && s.facts[i] == Top)
  }

  /** Re-evaluating any recorded instruction can only lower its fact. */
  ghost predicate Descending(fn: Func, s: State)
  {
    forall i :: i in s.facts && i in fn.insts ==>
      OutBelow(Transfer(fn, fn.insts[i], s.exec, s.facts), Computed(s.facts[i]))
  }

  /** A recorded fact that is not pending is what the visitor computes now. */
  ghost predicate Fresh(fn: Func, s: State, X: set<InstId>)
  {
    forall i :: i in s.facts && i in fn.insts && !Pending(fn, s, X, i) ==>
      Transfer(fn, fn.insts[i], s.exec, s.facts) == Computed(s.facts[i])
  }

  /** The edges a recorded, non-pending branch enables are executable or queued. */
  ghost predicate BranchesClosed(fn: Func, s: State, X: set<InstId>)
  {
    forall i :: i in s.facts && i in fn.insts && fn.insts[i].kind.Br? && !Pending(fn, s, X, i) ==>
      BranchTargets(fn.insts[i], s.facts) <= s.exec + s.cfg
  }

  /**
   * An executable edge that is neither queued nor the one being processed
   * (PE) has had its block's single outgoing edge made executable.
   */
  ghost predicate JumpsClosed(fn: Func, s: State, PE: set<Edge>)
  {
    forall e :: e in s.exec && e !in s.cfg && e !in PE && |Succs(fn, e.to)| == 1 ==>
      Edge(Some(e.to), Succs(fn, e.to)[0]) in s.exec
  }

  /** A path of executable edges that starts with the edge into the entry block. */
  ghost predicate ExecPath(fn: Func, exec: set<Edge>, p: seq<BlockId>)
  {
    && |p| > 0
    && p[0] == fn.entry
    && Edge(None, fn.entry) in exec
    && forall k :: 0 <= k < |p| - 1 ==> Edge(Some(p[k]), p[k + 1]) in exec
  }

  /** Block b is reached from the entry along executable edges alone. */
  ghost predicate ExecReachable(fn: Func, exec: set<Edge>, b: BlockId)
  {
    exists p :: ExecPath(fn, exec, p) && p[|p| - 1] == b
  }

  /** Every executable edge enters a block reached from the entry along executable edges. */
  ghost predicate ExecConnected(fn: Func, exec: set<Edge>)
  {
    forall e :: e in exec ==> ExecReachable(fn, exec, e.to)
  }

  /** Every instruction of ids has a recorded fact. */
  predicate Recorded(facts: Facts, ids: seq<InstId>)
  {
    forall i :: i in ids ==> i in facts
  }

  /**
   * What processing the executable edge e leaves behind: the phis of its
   * block have facts, and so has every instruction of the block when e is
   * the only executable edge into it.
   */
  predicate EdgeCovered(fn: Func, s: State, e: Edge)
  {
    && Recorded(s.facts, Phis(fn, e.to))
    && (e.to in fn.body && InEdges(s.exec, e.to) == {e} ==> Recorded(s.facts, fn.body[e.to]))
  }

  /** Every executable edge that is neither queued nor in process (PE) has been processed. */
  ghost predicate Covered(fn: Func, s: State, PE: set<Edge>)
  {
    forall e :: e in s.exec && e !in s.cfg && e !in PE ==> EdgeCovered(fn, s, e)
  }

  ghost predicate Inv(fn: Func, s: State, X: set<InstId>, PE: set<Edge>)
  {
    && Wf(fn)
    && Bounded(fn, s)
    && EdgesSound(fn, s)
    && ExecConnected(fn, s.exec)
    && Live(fn, s)
    && Descending(fn, s)
    && Fresh(fn, s, X)
    && BranchesClosed(fn, s, X)
    && JumpsClosed(fn, s, PE)
    && Covered(fn, s, PE)
  }

  /**
   * What a drained run has computed: every recorded fact is a fixpoint of
   * its transfer function, the edges enabled by every recorded branch and
   * by every single-successor block are executable, the entry edge is
   * executable, every executable edge is a CFG edge (or the entry edge)
   * leaving an executable block and entering a block of the function that
   * is reachable from the entry, every executable edge enters a block
   * reached from the entry along executable edges, facts sit only in
   * executable code (or
   * are phis at Top), and every executable edge has been processed: the
   * phis of its block have facts, and so has the whole block when the edge
   * is the only executable edge into it.
   */
  ghost predicate IsFixpoint(fn: Func, s: State)
  {
    && Edge(None, fn.entry) in s.exec
    && (forall i :: i in s.facts ==> i in fn.insts)
    && (forall i :: i in s.facts && i in fn.insts ==>
          Transfer(fn, fn.insts[i], s.exec, s.facts) == Computed(s.facts[i]))
    && (forall i :: i in s.facts && i in fn.insts && fn.insts[i].kind.Br? ==>
          BranchTargets(fn.insts[i], s.facts) <= s.exec)
    && (forall e :: e in s.exec && |Succs(fn, e.to)| == 1 ==>
          Edge(Some(e.to), Succs(fn, e.to)[0]) in s.exec)
    && (forall e :: e in s.exec ==> EdgeOk(fn, s.exec, e))
    && ExecConnected(fn, s.exec)
    && Live(fn, s)
    && (forall e :: e in s.exec ==> EdgeCovered(fn, s, e))
  }

  // ----------------------------------------------------------------------
  // the invariant is established and kept by every step

  lemma FactsBelowReflexive(f: Facts)
    ensures FactsBelow(f, f)
  {
  }

  lemma FactsBelowTransitive(f1: Facts, f2: Facts, f3: Facts)
    requires FactsBelow(f1, f2) && FactsBelow(f2, f3)
    ensures FactsBelow(f1, f3)
  {
    forall id ensures Below(Fact(f1, id), Fact(f3, id)) {
      BelowIsPartialOrder(Fact(f1, id), Fact(f2, id), Fact(f3, id));
    }
  }

  /** analyze starts from the entry edge alone, and the invariant holds there. */
  lemma InitInv(fn: Func)
    requires Wf(fn)
    ensures Inv(fn, State({Edge(None, fn.entry)}, {}, {}, map[]), {}, {})
  {
    EntryIsReachable(fn);
  }

  /** More pending instructions or edges only weaken the invariant. */
  lemma InvWeaken(fn: Func, s: State, X: set<InstId>, X': set<InstId>, PE: set<Edge>, PE': set<Edge>)
    requires Inv(fn, s, X, PE) && X <= X' && PE <= PE'
    ensures Inv(fn, s, X', PE')
  {
  }

  /** Growing the executable edges keeps the edges sound. */
  lemma EdgesGrow(fn: Func, s: State, s': State)
    requires EdgesSound(fn, s) && s.exec <= s'.exec
    requires forall e :: e in s'.cfg ==> e in s.cfg || e in s.exec || EdgeOk(fn, s'.exec, e)
    requires forall e :: e in s'.exec ==> e in s.cfg || e in s.exec || EdgeOk(fn, s'.exec, e)
    requires Edge(None, fn.entry) in s.cfg ==> Edge(None, fn.entry) in s'.cfg || Edge(None, fn.entry) in s'.exec
    requires Edge(None, fn.entry) in s.exec ==> Edge(None, fn.entry) in s'.exec
    ensures EdgesSound(fn, s')
  {
    forall e | e in s.cfg || e in s.exec ensures EdgeOk(fn, s'.exec, e) {
      assert EdgeOk(fn, s.exec, e);
      if e.from.Some? {
        var w :| w in s.exec && w.to == e.from.value;
        assert w in s'.exec;
      }
    }
  }

  /** Growing the executable edges with facts unchanged keeps them descending. */
  lemma DescendingGrow(fn: Func, s: State, exec': set<Edge>)
    requires Descending(fn, s) && s.exec <= exec'
    ensures Descending(fn, s.(exec := exec'))
  {
    FactsBelowReflexive(s.facts);
    forall i | i in s.facts && i in fn.insts
      ensures OutBelow(Transfer(fn, fn.insts[i], exec', s.facts), Computed(s.facts[i]))
    {
      TransferMonotone(fn, fn.insts[i], s.exec, exec', s.facts, s.facts);
      OutBelowTransitive(Transfer(fn, fn.insts[i], exec', s.facts),
        Transfer(fn, fn.insts[i], s.exec, s.facts), Computed(s.facts[i]));
    }
  }

  lemma ExecReachableGrow(fn: Func, exec: set<Edge>, exec': set<Edge>, b: BlockId)
    requires ExecReachable(fn, exec, b) && exec <= exec'
    ensures ExecReachable(fn, exec', b)
  {
    var p :| ExecPath(fn, exec, p) && p[|p| - 1] == b;
    assert ExecPath(fn, exec', p);
  }

  /** An executable edge out of a block reached along executable edges extends the path. */
  lemma ExecReachableStep(fn: Func, exec: set<Edge>, b: BlockId, c: BlockId)
    requires ExecReachable(fn, exec, b) && Edge(Some(b), c) in exec
    ensures ExecReachable(fn, exec, c)
  {
    var p :| ExecPath(fn, exec, p) && p[|p| - 1] == b;
    var q := p + [c];
    forall k | 0 <= k < |q| - 1 ensures Edge(Some(q[k]), q[k + 1]) in exec {
      if k < |p| - 1 {
        assert q[k] == p[k] && q[k + 1] == p[k + 1];
      }
    }
    assert ExecPath(fn, exec, q) && q[|q| - 1] == c;
  }

  /**
   * Marking an edge executable keeps every executable block reached along
   * executable edges, when the new edge is the entry edge or leaves a block
   * that is already executable.
   */
  lemma ExecConnectedAdd(fn: Func, exec: set<Edge>, e: Edge)
    requires ExecConnected(fn, exec)
    requires e.from.None? ==> e.to == fn.entry
    requires e.from.Some? ==> ExecutableBlock(exec, e.from.value)
    ensures ExecConnected(fn, exec + {e})
  {
    var exec' := exec + {e};
    forall w | w in exec' ensures ExecReachable(fn, exec', w.to) {
      if w in exec {
        ExecReachableGrow(fn, exec, exec', w.to);
      } else if e.from.None? {
        assert ExecPath(fn, exec', [fn.entry]);
      } else {
        var u :| u in exec && u.to == e.from.value;
        ExecReachableGrow(fn, exec, exec', u.to);
        ExecReachableStep(fn, exec', e.from.value, e.to);
      }
    }
  }

  /**
   * A processed edge stays processed when facts are only added and the
   * executable edges only grow.
   */
  lemma EdgeCoveredGrow(fn: Func, s: State, s': State, e: Edge)
    requires EdgeCovered(fn, s, e) && e in s.exec
    requires s.exec <= s'.exec && s.facts.Keys <= s'.facts.Keys
    ensures EdgeCovered(fn, s', e)
  {
    if e.to in fn.body && InEdges(s'.exec, e.to) == {e} {
      assert InEdges(s.exec, e.to) <= InEdges(s'.exec, e.to);
      assert e in InEdges(s.exec, e.to);
      assert InEdges(s.exec, e.to) == {e};
    }
  }

  /** Recording one more instruction extends a recorded prefix by one. */
  lemma RecordedExtend(f: Facts, f': Facts, ids: seq<InstId>, k: nat)
    requires k < |ids| && Recorded(f, ids[..k]) && f.Keys <= f'.Keys && ids[k] in f'
    ensures Recorded(f', ids[..k + 1])
  {
    assert ids[..k + 1] == ids[..k] + [ids[k]];
  }

  /** A phi of block b is recorded once all the phis listed for b are. */
  lemma PhiOfBlockRecorded(fn: Func, f: Facts, f': Facts, b: BlockId, id: InstId)
    requires Wf(fn) && b in fn.body && id in fn.body[b] && IsPhi(fn, id)
    requires Recorded(f, Phis(fn, b)) && f.Keys <= f'.Keys
    ensures id in f'
  {
    assert fn.insts[id].parent == b;
    PhiIsLeading(fn, id);
  }

  /**
   * Skipping a phi in the walk over a block's body keeps the invariant and
   * keeps the walked prefix recorded: the phi loop has already visited it.
   */
  lemma SkipPhiStep(fn: Func, s: State, b: BlockId, k: nat, e: Edge, s0: State)
    requires b in fn.body && k < |fn.body[b]| && IsPhi(fn, fn.body[b][k])
    requires Inv(fn, s, NonPhiSuffix(fn, fn.body[b], k), {e})
    requires s0.facts.Keys <= s.facts.Keys && Recorded(s0.facts, Phis(fn, b))
    requires Recorded(s.facts, fn.body[b][..k])
    ensures Inv(fn, s, NonPhiSuffix(fn, fn.body[b], k + 1), {e})
    ensures Recorded(s.facts, fn.body[b][..k + 1])
  {
    var insts := fn.body[b];
    assert NonPhiSuffix(fn, insts, k) == NonPhiSuffix(fn, insts, k + 1);
    PhiOfBlockRecorded(fn, s0.facts, s.facts, b, insts[k]);
    RecordedExtend(s.facts, s.facts, insts, k);
  }

  /** A visit records a fact for the visited instruction and keeps every other recorded one. */
  lemma VisitRecords(fn: Func, s: State, id: InstId)
    requires id in fn.insts && Transfer(fn, fn.insts[id], s.exec, s.facts).Computed?
    ensures VisitState(fn, s, id).facts.Keys == s.facts.Keys + {id}
  {
  }

  /** A visit leaves processed edges processed: it only adds facts and queues edges. */
  lemma VisitCovered(fn: Func, s: State, id: InstId, PE: set<Edge>)
    requires Covered(fn, s, PE) && id in fn.insts && Transfer(fn, fn.insts[id], s.exec, s.facts).Computed?
    ensures Covered(fn, VisitState(fn, s, id), PE)
  {
    var s' := VisitState(fn, s, id);
    VisitRecords(fn, s, id);
    forall e | e in s'.exec && e !in s'.cfg && e !in PE ensures EdgeCovered(fn, s', e) {
      EdgeCoveredGrow(fn, s, s', e);
    }
  }

  /**
   * Taking edge e from CFGWorkset and marking it executable keeps the
   * invariant, with the phis of e's block now pending and e in process.
   */
  lemma PopEdgeInv(fn: Func, s: State, e: Edge)
    requires Inv(fn, s, {}, {}) && e in s.cfg
    ensures Inv(fn, State(s.cfg - {e}, s.ssa, s.exec + {e}, s.facts), Suffix(Phis(fn, e.to), 0), {e})
  {
    var s' := State(s.cfg - {e}, s.ssa, s.exec + {e}, s.facts);
    var X := Suffix(Phis(fn, e.to), 0);
    PhisOfBlockPending(fn, e.to);
    PopEdgeCovered(fn, s, e);
    EdgesGrow(fn, s, s');
    DescendingGrow(fn, s, s'.exec);
    forall i | i in s.facts && i in fn.insts && !Pending(fn, s', X, i)
      ensures !Pending(fn, s, {}, i)
      ensures Transfer(fn, fn.insts[i], s'.exec, s.facts) == Transfer(fn, fn.insts[i], s.exec, s.facts)
    {
      PopEdgeSettled(fn, s, e, i);
    }
  }

  /**
   * An instruction left settled by taking edge e was settled before, and
   * its transfer does not see the new edge: a phi outside e's block reads
   * no edge into that block.
   */
  lemma PopEdgeSettled(fn: Func, s: State, e: Edge, i: InstId)
    requires Wf(fn) && i in fn.insts
    requires !Pending(fn, State(s.cfg - {e}, s.ssa, s.exec + {e}, s.facts), Suffix(Phis(fn, e.to), 0), i)
    ensures !Pending(fn, s, {}, i)
    ensures Transfer(fn, fn.insts[i], s.exec + {e}, s.facts) == Transfer(fn, fn.insts[i], s.exec, s.facts)
  {
    if IsPhi(fn, i) {
      PhisOfBlockPending(fn, e.to);
      assert fn.insts[i].parent != e.to;
      QueuedIntoKept(s.cfg, s.cfg - {e}, fn.insts[i].parent);
    }
    AgreeOnItself(s.facts, OperandIds(fn.insts[i].kind));
    TransferLocal(fn, fn.insts[i], s.exec + {e}, s.exec, s.facts, s.facts);
  }

  /**
   * Taking edge e keeps every executable edge reached from the entry, and
   * every processed edge other than e processed.
   */
  lemma PopEdgeCovered(fn: Func, s: State, e: Edge)
    requires EdgesSound(fn, s) && ExecConnected(fn, s.exec) && Covered(fn, s, {}) && e in s.cfg
    ensures ExecConnected(fn, s.exec + {e})
    ensures Covered(fn, State(s.cfg - {e}, s.ssa, s.exec + {e}, s.facts), {e})
  {
    var s' := State(s.cfg - {e}, s.ssa, s.exec + {e}, s.facts);
    assert EdgeOk(fn, s.exec, e);
    ExecConnectedAdd(fn, s.exec, e);
    forall w | w in s'.exec && w !in s'.cfg && w !in {e} ensures EdgeCovered(fn, s', w) {
      EdgeCoveredGrow(fn, s, s', w);
    }
  }

  /** Every phi whose parent is b is among the phis listed for b. */
  lemma PhisOfBlockPending(fn: Func, b: BlockId)
    requires Wf(fn)
    ensures forall i :: IsPhi(fn, i) && fn.insts[i].parent == b ==> i in Suffix(Phis(fn, b), 0)
  {
    forall i | IsPhi(fn, i) && fn.insts[i].parent == b ensures i in Suffix(Phis(fn, b), 0) {
      PhiIsLeading(fn, i);
      var ps := Phis(fn, b);
      var j :| 0 <= j < |ps| && ps[j] == i;
    }
  }

  /** A queued edge into p stays queued when the queue keeps every edge into p. */
  lemma QueuedIntoKept(a: set<Edge>, b: set<Edge>, p: BlockId)
    requires forall e :: e in a && e.to == p ==> e in b
    ensures (exists e :: e in a && e.to == p) ==> (exists e :: e in b && e.to == p)
  {
    if exists e :: e in a && e.to == p {
      var e :| e in a && e.to == p;
      assert e in b;
    }
  }

  lemma AgreeOnItself(f: Facts, ids: set<InstId>)
    ensures AgreeOn(f, f, ids)
  {
  }

  /** Visiting an instruction lowers (or keeps) its fact, so all facts descend. */
  lemma VisitFactsDescend(fn: Func, s: State, id: InstId)
    requires Descending(fn, s) && id in fn.insts
    requires Transfer(fn, fn.insts[id], s.exec, s.facts).Computed?
    ensures FactsBelow(VisitState(fn, s, id).facts, s.facts)
  {
    var nv := Transfer(fn, fn.insts[id], s.exec, s.facts).cv;
    var f' := VisitState(fn, s, id).facts;
    forall k ensures Below(Fact(f', k), Fact(s.facts, k)) {
      if k == id && Changes(s, id, nv) {
        BelowIsPartialOrder(nv, nv, nv);
      }
    }
  }

  lemma VisitDescending(fn: Func, s: State, id: InstId)
    requires Bounded(fn, s) && Descending(fn, s) && id in fn.insts
    requires Transfer(fn, fn.insts[id], s.exec, s.facts).Computed?
    ensures Descending(fn, VisitState(fn, s, id))
  {
    var s' := VisitState(fn, s, id);
    VisitFactsDescend(fn, s, id);
    forall i | i in s'.facts && i in fn.insts
      ensures OutBelow(Transfer(fn, fn.insts[i], s'.exec, s'.facts), Computed(s'.facts[i]))
    {
      TransferMonotone(fn, fn.insts[i], s.exec, s.exec, s.facts, s'.facts);
      if i != id || !Changes(s, id, Transfer(fn, fn.insts[id], s.exec, s.facts).cv) {
        OutBelowTransitive(Transfer(fn, fn.insts[i], s'.exec, s'.facts),
          Transfer(fn, fn.insts[i], s.exec, s.facts), Computed(s.facts[i]));
      }
    }
  }

  /**
   * After a visit, an instruction that is not pending reads the same
   * operand facts as before, so its transfer and its enabled edges are
   * unchanged.
   */
  lemma VisitKeepsOthers(fn: Func, s: State, id: InstId, X: set<InstId>, i: InstId)
    requires Bounded(fn, s) && id in fn.insts && i in fn.insts
    requires Transfer(fn, fn.insts[id], s.exec, s.facts).Computed?
    requires !Pending(fn, VisitState(fn, s, id), X - {id}, i)
    ensures i != id ==> !Pending(fn, s, X, i)
    ensures Transfer(fn, fn.insts[i], s.exec, VisitState(fn, s, id).facts) == Transfer(fn, fn.insts[i], s.exec, s.facts)
    ensures BranchTargets(fn.insts[i], VisitState(fn, s, id).facts) == BranchTargets(fn.insts[i], s.facts)
  {
    var s' := VisitState(fn, s, id);
    var inst := fn.insts[i];
    QueuedIntoKept(s.cfg, s'.cfg, inst.parent);
    if Changes(s, id, Transfer(fn, fn.insts[id], s.exec, s.facts).cv) {
      NonUserUnaffected(fn, id, i, s.exec, s.facts, Transfer(fn, fn.insts[id], s.exec, s.facts).cv);
    }
  }

  lemma VisitFresh(fn: Func, s: State, id: InstId, X: set<InstId>)
    requires Bounded(fn, s) && Fresh(fn, s, X) && BranchesClosed(fn, s, X) && id in fn.insts
    requires Transfer(fn, fn.insts[id], s.exec, s.facts).Computed?
    ensures Fresh(fn, VisitState(fn, s, id), X - {id})
    ensures BranchesClosed(fn, VisitState(fn, s, id), X - {id})
  {
    var s' := VisitState(fn, s, id);
    forall i | i in s'.facts && i in fn.insts && !Pending(fn, s', X - {id}, i)
      ensures Transfer(fn, fn.insts[i], s'.exec, s'.facts) == Computed(s'.facts[i])
      ensures fn.insts[i].kind.Br? ==> BranchTargets(fn.insts[i], s'.facts) <= s'.exec + s'.cfg
    {
      VisitKeepsOthers(fn, s, id, X, i);
    }
  }

  /** A phi in a block no executable edge enters computes Top. */
  lemma DeadPhiIsTop(fn: Func, inst: Inst, exec: set<Edge>, facts: Facts)
    requires inst.kind.Phi? && !ExecutableBlock(exec, inst.parent)
    ensures Transfer(fn, inst, exec, facts) == Computed(Top)
  {
    var inc := inst.kind.incoming;
    forall k | 0 <= k < |inc| ensures !Contributes(fn, inst.parent, exec, inc[k].value) {
    }
    PhiWithoutContributionIsTop(fn, inst.parent, exec, facts, inc);
  }

  lemma VisitEdges(fn: Func, s: State, id: InstId)
    requires Wf(fn) && EdgesSound(fn, s) && id in fn.insts
    requires IsPhi(fn, id) || ExecutableBlock(s.exec, fn.insts[id].parent)
    requires Transfer(fn, fn.insts[id], s.exec, s.facts).Computed?
    ensures EdgesSound(fn, VisitState(fn, s, id))
  {
    var inst := fn.insts[id];
    var s' := VisitState(fn, s, id);
    BranchTargetsAreSuccessorEdges(inst, s.facts);
    if inst.kind.Br? {
      BranchIsTerminator(fn, id);
      SuccsAreBlocks(fn, inst.parent);
      var w :| w in s.exec && w.to == inst.parent;
      assert EdgeOk(fn, s.exec, w);
      forall e | e in Queued(inst, s.exec, s.facts) ensures EdgeOk(fn, s.exec, e) {
        ReachableStep(fn, inst.parent, e.to);
      }
    }
  }

  /** visit keeps the invariant, with the visited instruction no longer pending. */
  lemma VisitInv(fn: Func, s: State, id: InstId, X: set<InstId>, PE: set<Edge>)
    requires Inv(fn, s, X, PE) && id in fn.insts
    requires IsPhi(fn, id) || ExecutableBlock(s.exec, fn.insts[id].parent)
    requires Transfer(fn, fn.insts[id], s.exec, s.facts).Computed?
    ensures Inv(fn, VisitState(fn, s, id), X - {id}, PE)
    ensures FactsBelow(VisitState(fn, s, id).facts, s.facts)
  {
    var s' := VisitState(fn, s, id);
    VisitFactsDescend(fn, s, id);
    VisitDescending(fn, s, id);
    VisitFresh(fn, s, id, X);
    VisitEdges(fn, s, id);
    VisitCovered(fn, s, id, PE);
    if !ExecutableBlock(s.exec, fn.insts[id].parent) {
      DeadPhiIsTop(fn, fn.insts[id], s.exec, s.facts);
    }
  }

  /**
   * The end of a step on edge e: when e's block has exactly one successor,
   * the edge to it is made executable and queued (line 277-283), and the
   * invariant holds with nothing in process.
   */
  function JumpState(fn: Func, s: State, b: BlockId): State
  {
    if |Succs(fn, b)| == 1 then
      var ne := Edge(Some(b), Succs(fn, b)[0]);
      State(s.cfg + {ne}, s.ssa, s.exec + {ne}, s.facts)
    else s
  }

  lemma JumpInv(fn: Func, s: State, e: Edge)
    requires Inv(fn, s, {}, {e}) && e in s.exec && EdgeCovered(fn, s, e)
    ensures Inv(fn, JumpState(fn, s, e.to), {}, {})
  {
    var b := e.to;
    var s' := JumpState(fn, s, b);
    JumpCovered(fn, s, e);
    if |Succs(fn, b)| == 1 {
      var ne := Edge(Some(b), Succs(fn, b)[0]);
      assert EdgeOk(fn, s.exec, e);
      SuccsAreBlocks(fn, b);
      ReachableStep(fn, b, ne.to);
      assert EdgeOk(fn, s'.exec, ne);
      EdgesGrow(fn, s, s');
      DescendingGrow(fn, s, s'.exec);
      forall i | i in s.facts && i in fn.insts && !Pending(fn, s', {}, i)
        ensures !Pending(fn, s, {}, i)
        ensures Transfer(fn, fn.insts[i], s'.exec, s.facts) == Transfer(fn, fn.insts[i], s.exec, s.facts)
      {
        QueuedIntoKept(s.cfg, s'.cfg, fn.insts[i].parent);
        AgreeOnItself(s.facts, OperandIds(fn.insts[i].kind));
        TransferLocal(fn, fn.insts[i], s'.exec, s.exec, s.facts, s.facts);
      }
    }
  }

  /**
   * The jump leaves the executable block e.to, so every executable edge
   * stays reachable from the entry along executable edges; and with e's
   * block recorded, every executable edge out of the work set is processed.
   */
  lemma JumpCovered(fn: Func, s: State, e: Edge)
    requires ExecConnected(fn, s.exec) && Covered(fn, s, {e}) && e in s.exec && EdgeCovered(fn, s, e)
    ensures ExecConnected(fn, JumpState(fn, s, e.to).exec)
    ensures Covered(fn, JumpState(fn, s, e.to), {})
  {
    var s' := JumpState(fn, s, e.to);
    forall w | w in s'.exec && w !in s'.cfg ensures EdgeCovered(fn, s', w) {
      EdgeCoveredGrow(fn, s, s', w);
    }
    if |Succs(fn, e.to)| == 1 {
      ExecConnectedAdd(fn, s.exec, Edge(Some(e.to), Succs(fn, e.to)[0]));
    }
  }

  /** Taking an instruction from SSAWorkset moves it from the workset to the visit in process. */
  lemma PopInstInv(fn: Func, s: State, i: InstId)
    requires Inv(fn, s, {}, {}) && i in s.ssa
    ensures Inv(fn, s.(ssa := s.ssa - {i}), {i}, {})
  {
    var s' := s.(ssa := s.ssa - {i});
    forall j | !Pending(fn, s', {i}, j) ensures !Pending(fn, s, {}, j) {
    }
  }

  /** A non-phi in a dead block has no fact, so dropping it from the visit in process is harmless. */
  lemma SkipInv(fn: Func, s: State, i: InstId)
    requires Inv(fn, s, {i}, {}) && i in fn.insts
    requires !IsPhi(fn, i) && !ExecutableBlock(s.exec, fn.insts[i].parent)
    ensures Inv(fn, s, {}, {})
  {
    DropUnrecorded(fn, s, i);
  }

  lemma DropUnrecorded(fn: Func, s: State, i: InstId)
    requires Fresh(fn, s, {i}) && BranchesClosed(fn, s, {i}) && i !in s.facts
    ensures Fresh(fn, s, {}) && BranchesClosed(fn, s, {})
  {
    forall j | j in s.facts && j in fn.insts && !Pending(fn, s, {}, j) ensures !Pending(fn, s, {i}, j) {
      assert j != i;
    }
  }

  /** With both worksets empty and nothing in process, the invariant is a fixpoint. */
  lemma DrainedIsFixpoint(fn: Func, s: State)
    requires Inv(fn, s, {}, {}) && s.cfg == {} && s.ssa == {}
    ensures IsFixpoint(fn, s)
  {
    forall i | i in s.facts && i in fn.insts ensures !Pending(fn, s, {}, i) {
    }
  }

  // ----------------------------------------------------------------------
  // the engine

  class SCCPAnalysis {
    var cfgWorkset: set<Edge>
    var ssaWorkset: set<InstId>
    var executableEdges: set<Edge>
    var dataflowFacts: Facts

    /** The current values of the four members. */
    function St(): State
      reads this
    {
      State(cfgWorkset, ssaWorkset, executableEdges, dataflowFacts)
    }

    constructor ()
      ensures St() == State({}, {}, {}, map[])
    {
      cfgWorkset := {};
      ssaWorkset := {};
      executableEdges := {};
      dataflowFacts := map[];
    }

    /** isExecutableEdge. */
    method IsExecutableEdge(e: Edge) returns (r: bool)
      ensures r <==> e in executableEdges
    {
      r := e in executableEdges;
    }

    /** isExecutableBlock: scan the executable edges for one entering b. */
    method IsExecutableBlock(b: BlockId) returns (r: bool)
      ensures r <==> ExecutableBlock(executableEdges, b)
    {
      var rest := executableEdges;
      while rest != {}
        invariant rest <= executableEdges
        invariant forall e :: e in executableEdges && e !in rest ==> e.to != b
        decreases |rest|
      {
        var e :| e in rest;
        if e.to == b {
          return true;
        }
        rest := rest - {e};
      }
      return false;
    }

    /**
     * isFirstVisit: count the executable edges entering b, stopping at the
     * second; true exactly when one executable edge enters b.
     */
    method IsFirstVisit(b: BlockId) returns (r: bool)
      ensures r <==> |InEdges(executableEdges, b)| == 1
    {
      var count := 0;
      var rest := executableEdges;
      while rest != {}
        invariant rest <= executableEdges
        invariant count == |InEdges(executableEdges, b) - rest| && count <= 1
        decreases |rest|
      {
        var e :| e in rest;
        var seen := InEdges(executableEdges, b) - rest;
        if e.to == b {
          assert InEdges(executableEdges, b) - (rest - {e}) == seen + {e};
          count := count + 1;
          if count > 1 {
            SubsetCardinality(seen + {e}, InEdges(executableEdges, b));
            return false;
          }
        } else {
          assert InEdges(executableEdges, b) - (rest - {e}) == seen;
        }
        rest := rest - {e};
      }
      assert InEdges(executableEdges, b) - rest == InEdges(executableEdges, b);
      if count != 1 {
        return false;
      }
      return true;
    }

    /** appendExecutableSuccessors: queue each successor edge of the branch that is not yet executable. */
    method AppendExecutableSuccessors(inst: Inst)
      requires inst.kind.Br?
      modifies this
      ensures cfgWorkset == old(cfgWorkset) + (SuccEdges(inst.parent, inst.kind.succs) - executableEdges)
      ensures ssaWorkset == old(ssaWorkset) && executableEdges == old(executableEdges)
      ensures dataflowFacts == old(dataflowFacts)
    {
      var s := inst.kind.succs;
      for k := 0 to |s|
        invariant cfgWorkset == old(cfgWorkset) + (SuccEdges(inst.parent, s[..k]) - executableEdges)
        invariant ssaWorkset == old(ssaWorkset) && executableEdges == old(executableEdges)
        invariant dataflowFacts == old(dataflowFacts)
      {
        var candidate := Edge(Some(inst.parent), s[k]);
        assert s[..k + 1] == s[..k] + [s[k]];
        var known := IsExecutableEdge(candidate);
        if !known {
          cfgWorkset := cfgWorkset + {candidate};
        }
      }
      assert s[..|s|] == s;
    }

    /**
     * visitBranchInst: a condition with a constant fact queues the edge to
     * successor 0 (nonzero) or to successor 1 (zero), executable or not;
     * otherwise, and for an unconditional branch, the successors not yet
     * executable are queued. The branch itself is Bottom.
     */
    method VisitBranch(inst: Inst) returns (r: ConstantValue)
      requires inst.kind.Br? && (inst.kind.cond.Some? ==> |inst.kind.succs| == 2)
      modifies this
      ensures r == Bottom
      ensures cfgWorkset == old(cfgWorkset) + Queued(inst, old(executableEdges), old(dataflowFacts))
      ensures ssaWorkset == old(ssaWorkset) && executableEdges == old(executableEdges)
      ensures dataflowFacts == old(dataflowFacts)
    {
      var cond := inst.kind.cond;
      if cond.Some? {
        var c := ConstantOf(cond.value, dataflowFacts);
        if c.Const? {
          if c.value != 0 {
            cfgWorkset := cfgWorkset + {Edge(Some(inst.parent), inst.kind.succs[0])};
          } else {
            cfgWorkset := cfgWorkset + {Edge(Some(inst.parent), inst.kind.succs[1])};
          }
        } else {
          AppendExecutableSuccessors(inst);
        }
      } else {
        AppendExecutableSuccessors(inst);
      }
      r := Bottom;
    }

    /**
     * visitPHINode: meet, in order, the facts of the incoming instructions
     * whose defining block has an executable edge into the phi's block.
     */
    method VisitPhi(fn: Func, inst: Inst) returns (r: ConstantValue)
      requires inst.kind.Phi?
      ensures r == PhiMeet(fn, inst.parent, executableEdges, dataflowFacts, inst.kind.incoming)
    {
      var inc := inst.kind.incoming;
      r := Top;
      for k := 0 to |inc|
        invariant r == PhiMeet(fn, inst.parent, executableEdges, dataflowFacts, inc[..k])
      {
        assert inc[..k + 1][..k] == inc[..k];
        var v := inc[k].value;
        if v.InstV? && v.id in fn.insts {
          var edge := Edge(Some(fn.insts[v.id].parent), inst.parent);
          var executable := IsExecutableEdge(edge);
          if executable {
            r := Meet(r, ConstantOf(v, dataflowFacts));
          }
        }
      }
      assert inc[..|inc|] == inc;
    }

    /** InstructionVisitor::visit: dispatch on the kind of instruction. */
    method Evaluate(fn: Func, inst: Inst) returns (o: Outcome)
      requires inst.kind.Br? && inst.kind.cond.Some? ==> |inst.kind.succs| == 2
      modifies this
      ensures o == Transfer(fn, inst, old(executableEdges), old(dataflowFacts))
      ensures cfgWorkset == old(cfgWorkset) + Queued(inst, old(executableEdges), old(dataflowFacts))
      ensures ssaWorkset == old(ssaWorkset) && executableEdges == old(executableEdges)
      ensures dataflowFacts == old(dataflowFacts)
    {
      match inst.kind
      case Phi(_) =>
        var r := VisitPhi(fn, inst);
        o := Computed(r);
      case Br(_, _) =>
        var r := VisitBranch(inst);
        o := Computed(r);
      case ICmp(p, a, b) =>
        o := Computed(EvalICmp(p, ConstantOf(a, dataflowFacts), ConstantOf(b, dataflowFacts)));
      case BinOp(op, a, b) =>
        o := EvalBinOp(op, ConstantOf(a, dataflowFacts), ConstantOf(b, dataflowFacts));
      case Other(_, _) =>
        o := Computed(Bottom);
    }

    /**
     * SimpleSCCPAnalysis::visit: evaluate the instruction and store the
     * result; its users are queued exactly when there was no fact or the
     * fact changed. A trapping division stops before anything is stored.
     */
    method Visit(fn: Func, id: InstId) returns (trapped: bool)
      requires Wf(fn) && id in fn.insts
      modifies this
      ensures trapped <==> Transfer(fn, fn.insts[id], old(executableEdges), old(dataflowFacts)).Trap?
      ensures trapped ==> St() == old(St())
      ensures !trapped ==> St() == VisitState(fn, old(St()), id)
    {
      var o := Evaluate(fn, fn.insts[id]);
      if o.Trap? {
        return true;
      }
      var nv := o.cv;
      if id in dataflowFacts {
        var previous := dataflowFacts[id];
        if NotEqual(nv, previous) {
          dataflowFacts := dataflowFacts[id := nv];
          ssaWorkset := ssaWorkset + Users(fn, id);
        }
      } else {
        dataflowFacts := dataflowFacts[id := nv];
        ssaWorkset := ssaWorkset + Users(fn, id);
      }
      trapped := false;
    }

    /** Visit, seen through the invariant: the visited instruction stops being pending. */
    method VisitPending(fn: Func, id: InstId, ghost X: set<InstId>, ghost X': set<InstId>, ghost PE: set<Edge>)
      returns (trapped: bool)
      requires Inv(fn, St(), X, PE) && id in fn.insts && X - {id} <= X'
      requires IsPhi(fn, id) || ExecutableBlock(executableEdges, fn.insts[id].parent)
      modifies this
      ensures Progress(St(), trapped) == VisitStep(fn, old(St()), id)
      ensures executableEdges == old(executableEdges)
      ensures !trapped ==> Inv(fn, St(), X', PE) && FactsBelow(dataflowFacts, old(dataflowFacts))
      ensures !trapped ==> id in dataflowFacts && old(dataflowFacts).Keys <= dataflowFacts.Keys
    {
      ghost var s := St();
      trapped := Visit(fn, id);
      if !trapped {
        VisitRecords(fn, s, id);
        VisitInv(fn, s, id, X, PE);
        InvWeaken(fn, St(), X - {id}, X', PE, PE);
      }
    }

    /** Visit the phis of block b (line 260-262), the edge e being in process. */
    method VisitPhis(fn: Func, b: BlockId, ghost e: Edge) returns (trapped: bool)
      requires Inv(fn, St(), Suffix(Phis(fn, b), 0), {e})
      modifies this
      ensures Progress(St(), trapped) == VisitAll(fn, old(St()), Phis(fn, b), false)
      ensures executableEdges == old(executableEdges)
      ensures !trapped ==> Inv(fn, St(), {}, {e}) && FactsBelow(dataflowFacts, old(dataflowFacts))
      ensures !trapped ==> Recorded(dataflowFacts, Phis(fn, b)) && old(dataflowFacts).Keys <= dataflowFacts.Keys
    {
      var phis := Phis(fn, b);
      ghost var s0 := St();
      FactsBelowReflexive(dataflowFacts);
      for k := 0 to |phis|
        invariant Inv(fn, St(), Suffix(phis, k), {e})
        invariant executableEdges == s0.exec
        invariant FactsBelow(dataflowFacts, s0.facts)
        invariant Recorded(dataflowFacts, phis[..k]) && s0.facts.Keys <= dataflowFacts.Keys
        invariant VisitAll(fn, s0, phis[..k], false) == Progress(St(), false)
      {
        trapped := VisitPhiAt(fn, b, k, e, s0);
        if trapped {
          VisitAllTrapSticks(fn, s0, phis, k + 1, false);
          return;
        }
      }
      assert phis[..|phis|] == phis;
      assert Suffix(phis, |phis|) == {};
      trapped := false;
    }

    /**
     * The phi at position k of block b, in the loop of VisitPhis (line
     * 260-262): the visits from s0 extend by this one.
     */
    method VisitPhiAt(fn: Func, b: BlockId, k: nat, ghost e: Edge, ghost s0: State) returns (trapped: bool)
      requires k < |Phis(fn, b)| && Inv(fn, St(), Suffix(Phis(fn, b), k), {e})
      requires VisitAll(fn, s0, Phis(fn, b)[..k], false) == Progress(St(), false)
      requires FactsBelow(dataflowFacts, s0.facts) && s0.facts.Keys <= dataflowFacts.Keys
      requires Recorded(dataflowFacts, Phis(fn, b)[..k])
      modifies this
      ensures VisitAll(fn, s0, Phis(fn, b)[..k + 1], false) == Progress(St(), trapped)
      ensures executableEdges == old(executableEdges)
      ensures !trapped ==> Inv(fn, St(), Suffix(Phis(fn, b), k + 1), {e})
      ensures !trapped ==> FactsBelow(dataflowFacts, s0.facts) && s0.facts.Keys <= dataflowFacts.Keys
      ensures !trapped ==> Recorded(dataflowFacts, Phis(fn, b)[..k + 1])
    {
      var phis := Phis(fn, b);
      ghost var f := dataflowFacts;
      SuffixStep(fn, phis, k);
      VisitAllStep(fn, s0, phis, k, false);
      trapped := VisitPending(fn, phis[k], Suffix(phis, k), Suffix(phis, k + 1), {e});
      if !trapped {
        FactsBelowTransitive(dataflowFacts, f, s0.facts);
        RecordedExtend(f, dataflowFacts, phis, k);
      }
    }

    /** Visit the non-phi instructions of block b in order (line 265-273), the edge e being in process. */
    method VisitBody(fn: Func, b: BlockId, ghost e: Edge) returns (trapped: bool)
      requires Inv(fn, St(), {}, {e}) && e in executableEdges && e.to == b && b in fn.body
      requires Recorded(dataflowFacts, Phis(fn, b))
      modifies this
      ensures Progress(St(), trapped) == VisitAll(fn, old(St()), fn.body[b], true)
      ensures executableEdges == old(executableEdges)
      ensures !trapped ==> Inv(fn, St(), {}, {e}) && FactsBelow(dataflowFacts, old(dataflowFacts))
      ensures !trapped ==> Recorded(dataflowFacts, fn.body[b]) && old(dataflowFacts).Keys <= dataflowFacts.Keys
    {
      var insts := fn.body[b];
      ghost var s0 := St();
      FactsBelowReflexive(dataflowFacts);
      InvWeaken(fn, St(), {}, NonPhiSuffix(fn, insts, 0), {e}, {e});
      for k := 0 to |insts|
        invariant Inv(fn, St(), NonPhiSuffix(fn, insts, k), {e})
        invariant executableEdges == s0.exec
        invariant FactsBelow(dataflowFacts, s0.facts)
        invariant Recorded(dataflowFacts, insts[..k]) && s0.facts.Keys <= dataflowFacts.Keys
        invariant VisitAll(fn, s0, insts[..k], true) == Progress(St(), false)
      {
        trapped := VisitBodyAt(fn, b, k, e, s0);
        if trapped {
          VisitAllTrapSticks(fn, s0, insts, k + 1, true);
          return;
        }
      }
      assert insts[..|insts|] == insts;
      assert NonPhiSuffix(fn, insts, |insts|) == {};
      trapped := false;
    }

    /**
     * The instruction at position k of block b, in the loop of VisitBody
     * (line 266-272): visited unless it is a phi, which the block's phi
     * loop has already visited; the visits from s0 extend by this one.
     */
    method VisitBodyAt(fn: Func, b: BlockId, k: nat, ghost e: Edge, ghost s0: State) returns (trapped: bool)
      requires b in fn.body && k < |fn.body[b]| && e in executableEdges && e.to == b
      requires Inv(fn, St(), NonPhiSuffix(fn, fn.body[b], k), {e})
      requires VisitAll(fn, s0, fn.body[b][..k], true) == Progress(St(), false)
      requires FactsBelow(dataflowFacts, s0.facts) && s0.facts.Keys <= dataflowFacts.Keys
      requires Recorded(s0.facts, Phis(fn, b)) && Recorded(dataflowFacts, fn.body[b][..k])
      modifies this
      ensures VisitAll(fn, s0, fn.body[b][..k + 1], true) == Progress(St(), trapped)
      ensures executableEdges == old(executableEdges)
      ensures !trapped ==> Inv(fn, St(), NonPhiSuffix(fn, fn.body[b], k + 1), {e})
      ensures !trapped ==> FactsBelow(dataflowFacts, s0.facts) && s0.facts.Keys <= dataflowFacts.Keys
      ensures !trapped ==> Recorded(dataflowFacts, fn.body[b][..k + 1])
      ensures IsPhi(fn, fn.body[b][k]) ==> !trapped && St() == old(St())
    {
      var insts := fn.body[b];
      var id := insts[k];
      VisitAllStep(fn, s0, insts, k, true);
      if IsPhi(fn, id) {
        SkipPhiStep(fn, St(), b, k, e, s0);
        trapped := false;
      } else {
        ghost var f := dataflowFacts;
        SuffixStep(fn, insts, k);
        assert fn.insts[id].parent == b;
        trapped := VisitPending(fn, id, NonPhiSuffix(fn, insts, k), NonPhiSuffix(fn, insts, k + 1), {e});
        if !trapped {
          FactsBelowTransitive(dataflowFacts, f, s0.facts);
          RecordedExtend(f, dataflowFacts, insts, k);
        }
      }
    }

    /**
     * One iteration of analyze on a queued edge (line 253-283): mark it
     * executable, visit the phis of its block, the rest of the block when
     * this is the only executable edge into it, and make the edge to a
     * single successor executable and queue it.
     */
    method ProcessEdge(fn: Func) returns (e: Edge, ranBody: bool, trapped: bool)
      requires Inv(fn, St(), {}, {}) && cfgWorkset != {}
      modifies this
      ensures e in old(cfgWorkset) && e.to in fn.body
      ensures Progress(St(), trapped) == EdgeRun(fn, old(St()), e)
      ensures executableEdges == old(executableEdges) + {e} +
        (if !trapped && |Succs(fn, e.to)| == 1 then {Edge(Some(e.to), Succs(fn, e.to)[0])} else {})
      ensures !trapped ==> (ranBody <==> |InEdges(old(executableEdges) + {e}, e.to)| == 1)
      ensures !trapped ==> Inv(fn, St(), {}, {}) && FactsBelow(dataflowFacts, old(dataflowFacts))
      ensures !trapped ==> e.to in fn.body && Recorded(dataflowFacts, Phis(fn, e.to))
      ensures !trapped ==> old(dataflowFacts).Keys <= dataflowFacts.Keys
      ensures !trapped && ranBody ==> Recorded(dataflowFacts, fn.body[e.to])
    {
      e := TakeEdge(fn);
      EdgeRunExec(fn, old(St()), e);
      var b := e.to;
      ranBody := false;
      trapped := VisitPhis(fn, b, e);
      if trapped {
        return;
      }
      var first := IsFirstVisit(b);
      if first {
        ghost var f1 := dataflowFacts;
        trapped := VisitBody(fn, b, e);
        ranBody := true;
        if trapped {
          return;
        }
        FactsBelowTransitive(dataflowFacts, f1, old(dataflowFacts));
      } else {
        assert e in InEdges(executableEdges, b);
        assert InEdges(executableEdges, b) != {e};
      }
      QueueJump(fn, b, e);
    }

    /** Take any edge from CFGWorkset and mark it executable (line 254-257). */
    method TakeEdge(fn: Func) returns (e: Edge)
      requires Inv(fn, St(), {}, {}) && cfgWorkset != {}
      modifies this
      ensures e in old(cfgWorkset) && e.to in fn.body
      ensures St() == State(old(cfgWorkset) - {e}, old(ssaWorkset), old(executableEdges) + {e}, old(dataflowFacts))
      ensures Inv(fn, St(), Suffix(Phis(fn, e.to), 0), {e})
    {
      e :| e in cfgWorkset;
      ghost var s0 := St();
      assert EdgeOk(fn, s0.exec, e);
      cfgWorkset := cfgWorkset - {e};
      executableEdges := executableEdges + {e};
      PopEdgeInv(fn, s0, e);
    }

    /**
     * The end of a step on edge e into b (line 276-283): when b's terminator
     * has exactly one successor, the edge to it is made executable and
     * queued, whether or not it was executable already.
     */
    method QueueJump(fn: Func, b: BlockId, ghost e: Edge)
      requires Inv(fn, St(), {}, {e}) && e in executableEdges && e.to == b && EdgeCovered(fn, St(), e)
      modifies this
      ensures St() == JumpState(fn, old(St()), b)
      ensures old(executableEdges) <= executableEdges && dataflowFacts == old(dataflowFacts)
      ensures Inv(fn, St(), {}, {})
    {
      ghost var s1 := St();
      var succs := Succs(fn, b);
      if |succs| == 1 {
        var next := Edge(Some(b), succs[0]);
        var known := IsExecutableEdge(next);
        if !known {
          executableEdges := executableEdges + {next};
        } else {
          assert executableEdges == s1.exec + {next};
        }
        cfgWorkset := cfgWorkset + {next};
        assert St() == State(s1.cfg + {next}, s1.ssa, s1.exec + {next}, s1.facts);
      }
      JumpInv(fn, s1, e);
    }

    /**
     * One iteration of analyze on a queued instruction (line 285-291): a
     * phi is always re-evaluated, any other instruction only when its block
     * is executable.
     */
    method ProcessInst(fn: Func) returns (i: InstId, visited: bool, trapped: bool)
      requires Inv(fn, St(), {}, {}) && ssaWorkset != {}
      modifies this
      ensures i in old(ssaWorkset) && i in fn.insts
      ensures visited <==> IsPhi(fn, i) || ExecutableBlock(old(executableEdges), fn.insts[i].parent)
      ensures Progress(St(), trapped) ==
        if visited then VisitStep(fn, old(St()).(ssa := old(ssaWorkset) - {i}), i)
        else Progress(old(St()).(ssa := old(ssaWorkset) - {i}), false)
      ensures executableEdges == old(executableEdges)
      ensures !trapped ==> Inv(fn, St(), {}, {}) && FactsBelow(dataflowFacts, old(dataflowFacts))
      ensures !trapped ==> (visited ==> i in dataflowFacts) && old(dataflowFacts).Keys <= dataflowFacts.Keys
    {
      i :| i in ssaWorkset;
      ghost var s0 := St();
      ssaWorkset := ssaWorkset - {i};
      PopInstInv(fn, s0, i);
      ghost var s1 := St();
      if IsPhi(fn, i) {
        visited := true;
      } else {
        visited := IsExecutableBlock(fn.insts[i].parent);
      }
      if visited {
        trapped := VisitPending(fn, i, {i}, {}, {});
      } else {
        trapped := false;
        SkipInv(fn, s1, i);
        FactsBelowReflexive(dataflowFacts);
      }
    }

    /**
     * analyze: start from the edge into the entry block and take queued
     * edges before queued instructions until both worksets are empty. The
     * C++ loop need not terminate, so the model runs for at most fuel
     * iterations; a division that traps ends the run.
     */
    method Analyze(fn: Func, fuel: nat) returns (r: RunResult)
      requires Wf(fn)
      modifies this
      ensures r == Fixpoint ==> cfgWorkset == {} && ssaWorkset == {} && IsFixpoint(fn, St())
      ensures r == OutOfFuel ==> Inv(fn, St(), {}, {})
    {
      cfgWorkset := {Edge(None, fn.entry)};
      ssaWorkset := {};
      executableEdges := {};
      dataflowFacts := map[];
      InitInv(fn);
      var n := fuel;
      while cfgWorkset != {} || ssaWorkset != {}
        invariant Inv(fn, St(), {}, {})
        decreases n
      {
        if n == 0 {
          return OutOfFuel;
        }
        n := n - 1;
        var trapped;
        if cfgWorkset != {} {
          var _, _, t := ProcessEdge(fn);
          trapped := t;
        } else {
          var _, _, t := ProcessInst(fn);
          trapped := t;
        }
        if trapped {
          return DivisionTrap;
        }
      }
      DrainedIsFixpoint(fn, St());
      return Fixpoint;
    }
  }
}
