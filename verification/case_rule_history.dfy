/**
 The case-rule command as the history runs it: execute over the whole
 selection, undo, and what the two do in sequence.
 */
module CaseRuleHistory {
  import opened Options
  import opened ProofTree
  import opened CaseRuleValidation
  import opened CaseRuleCommand

  /**
   Execute: for each selected transition in selection order, record its
   rule, assign the case rule, make sure it has a child and reverify the
   children of its first parent. The new selection lists the children.
   */
  method Execute(c: Command, t: Tree, verify: Verifier) returns (r: ExecResult)
    requires Executable(c, t)
    ensures |r.newSelection| == |c.selection|
    ensures AllIn(t, TransIds(c.selection)) && ExecShape(c, t, r)
    ensures var ks := TransIds(c.selection);
      && ExecAssigns(c, t, ks, |ks|, r) && ExecOrigins(c, t, ks, |ks|, r)
      && ExecKept(t, ks, |ks|, r) && ExecUntouched(t, ks, |ks|, r)
      && ExecRecords(c, t, ks, |ks|, r) && ExecOldKeys(c, ks, |ks|, r)
      && ExecOnceRules(t, ks, |ks|, r) && ExecTwiceRules(c, ks, |ks|, r)
      && ExecReverified(t, ks, |ks|, verify, r)
      && r.events == Additions(t, ks, r.newSelection)
      && ExecFresh(c, t, r) && FreshChildren(c, t, ks, r)
      && ExecArena(c, t, r) && CreatedExactly(c, t, ks, r)
    ensures RecordsNodes(r.cmd, r.tree)
  {
    ExecutableSelection(c, t);
    var ks := TransIds(c.selection);
    r := ExecuteLoop(c, t, ks, verify);
    AnnouncedAll(t, ks, r);
    FreshChildrenHold(c, t, ks, r);
    CreatedExactlyHolds(c, t, ks, r);
  }

  /** The execute loop over `ks`, one `ExecuteStep` per element. */
  method ExecuteLoop(c: Command, t: Tree, ks: seq<TransId>, verify: Verifier) returns (r: ExecResult)
    requires WellFormed(t) && AllIn(t, ks) && RecordsNodes(c, t)
    ensures ExecInv(c, t, ks, |ks|, verify, r)
  {
    r := ExecResult(c, t, [], []);
    ExecInvInit(c, t, ks, verify);
    var n := 0;
    while n < |ks|
      invariant 0 <= n <= |ks| && ExecInv(c, t, ks, n, verify, r)
    {
      r := ExecutePass(c, t, ks, n, verify, r);
      n := n + 1;
    }
  }

  /** Pass `n` of the execute loop, on the state the first `n` passes left. */
  method ExecutePass(c: Command, t: Tree, ks: seq<TransId>, n: nat, verify: Verifier, r: ExecResult)
      returns (r': ExecResult)
    requires WellFormed(t) && AllIn(t, ks) && n < |ks| && ExecInv(c, t, ks, n, verify, r)
    ensures ExecInv(c, t, ks, n + 1, verify, r')
  {
    var c', t', child, ev := ExecuteStep(r.cmd, r.tree, ks[n], verify);
    ExecInvNext(c, t, ks, n, verify, r, c', t', child, ev);
    r' := Advance(r, c', t', child, ev);
  }

  /**
   Undo: for each selected transition in selection order, give back the
   recorded rule, announce the removal of its child when the command created
   one, and reverify the children of its first parent; then the command's
   copy of the selection is the selection again.
   */
  method Undo(c: Command, t: Tree, verify: Verifier) returns (r: UndoResult)
    requires TransitionSelection(c, t)
    ensures AllIn(t, TransIds(c.selection)) && UndoShape(t, r)
    ensures var ks := TransIds(c.selection);
      && UndoRestored(c, t, ks, |ks|, r)
      && UndoUntouched(t, ks, |ks|, r)
      && UndoReverified(t, ks, |ks|, verify, r)
      && r.events == Removals(c, t, ks)
    ensures r.selection == c.selection
  {
    var ks := TransIds(c.selection);
    var l := UndoLoop(c, t, ks, verify);
    RemovedAll(c, t, ks, l);
    r := l.(selection := c.selection);
  }

  /** The undo loop over `ks`, one `UndoStep` per element. */
  method UndoLoop(c: Command, t: Tree, ks: seq<TransId>, verify: Verifier) returns (r: UndoResult)
    requires WellFormed(t) && AllIn(t, ks)
    ensures UndoInv(c, t, ks, |ks|, verify, r)
  {
    r := UndoResult(t, [], []);
    UndoInvInit(c, t, ks, verify);
    var n := 0;
    while n < |ks|
      invariant 0 <= n <= |ks| && UndoInv(c, t, ks, n, verify, r)
    {
      r := UndoPass(c, t, ks, n, verify, r);
      n := n + 1;
    }
  }

  /** Pass `n` of the undo loop, on the state the first `n` passes left. */
  method UndoPass(c: Command, t: Tree, ks: seq<TransId>, n: nat, verify: Verifier, r: UndoResult)
      returns (r': UndoResult)
    requires WellFormed(t) && AllIn(t, ks) && n < |ks| && UndoInv(c, t, ks, n, verify, r)
    ensures UndoInv(c, t, ks, n + 1, verify, r')
  {
    var t', ev := UndoStep(c, r.tree, ks[n], verify);
    UndoInvNext(c, t, ks, n, verify, r, t', ev);
    r' := UndoResult(t', r.events + ev, r.selection);
  }

  /** The selection stays valid for undo after execute, which keeps its shape. */
  lemma UndoableAfterExecute(c: Command, t: Tree, e: ExecResult)
    requires Executable(c, t) && ExecShape(c, t, e)
    ensures TransitionSelection(e.cmd, e.tree)
  {
  }

  /** Undo after execute leaves the command executable again, so redo may run. */
  lemma ExecutableAfterUndo(c: Command, t: Tree, e: ExecResult, u: UndoResult)
    requires Executable(c, t) && ExecShape(c, t, e) && RecordsNodes(e.cmd, e.tree) && UndoShape(e.tree, u)
    ensures Executable(e.cmd, u.tree)
  {
    SameShapeTrans(t, e.tree, u.tree);
    ErrorStringSameShape(t, u.tree, c.selection);
  }

  /** Trees of the same shape reverify the same transitions. */
  lemma ReverifiedSameShape(t: Tree, u: Tree, ks: seq<TransId>, n: nat)
    requires WellFormed(t) && WellFormed(u) && SameShape(t, u) && AllIn(t, ks) && n <= |ks|
    ensures AllIn(u, ks)
    ensures forall j :: ReverifiedBy(u, ks, n, j) <==> ReverifiedBy(t, ks, n, j)
  {
    forall i | 0 <= i < n {
      SameShapeSiblings(t, u, ks[i]);
    }
  }

  /** A selected transition is among the siblings of itself, so it is reverified. */
  lemma SelectedReverified(t: Tree, ks: seq<TransId>, n: nat, j: TransId)
    requires WellFormed(t) && AllIn(t, ks) && n <= |ks| && Selected(ks, n, j)
    ensures ReverifiedBy(t, ks, n, j)
  {
    var i :| 0 <= i < n && ks[i] == j;
    assert j in Siblings(t, ks[i]);
  }

  /**
   What execute followed by undo of a selection without repeats gives back:
   every transition has its original rule, those whose status was recomputed
   carry the status the verifier gives that rule, and all others are exactly
   as before.
   */
  predicate RulesRestored(t: Tree, ks: seq<TransId>, verify: Verifier, u: Tree)
    requires WellFormed(t) && AllIn(t, ks) && SameShape(t, u)
  {
    forall j :: j in t.transitions ==>
      && u.transitions[j].rule == t.transitions[j].rule
      && (ReverifiedBy(t, ks, |ks|, j) ==> u.transitions[j].status == verify(j, t.transitions[j].rule))
      && (!ReverifiedBy(t, ks, |ks|, j) ==> u.transitions[j] == t.transitions[j])
  }

  /** Undo gives back every rule: the recorded one for each selected
      transition, met once, and the untouched one for the others. */
  lemma UndoRestoresRules(c: Command, t: Tree, ks: seq<TransId>, e: ExecResult, u: UndoResult)
    requires WellFormed(t) && AllIn(t, ks) && NoDuplicates(ks) && ExecShape(c, t, e)
    requires ExecKept(t, ks, |ks|, e) && ExecOldKeys(c, ks, |ks|, e) && ExecOnceRules(t, ks, |ks|, e)
    requires UndoShape(e.tree, u) && UndoRestored(e.cmd, e.tree, ks, |ks|, u)
    ensures forall j :: j in t.transitions ==> u.tree.transitions[j].rule == t.transitions[j].rule
  {
    forall j | j in t.transitions ensures u.tree.transitions[j].rule == t.transitions[j].rule {
      if Selected(ks, |ks|, j) {
        var i :| 0 <= i < |ks| && ks[i] == j;
        assert OnlyAt(ks, |ks|, i);
      }
    }
  }

  /** With a transition selected twice, its second pass records the case rule
      the first pass gave it, so undo leaves the case rule in place. */
  lemma UndoAfterRepeatKeepsCaseRule(c: Command, t: Tree, ks: seq<TransId>, e: ExecResult, u: UndoResult, i: int, j: int)
    requires WellFormed(t) && AllIn(t, ks) && ExecShape(c, t, e)
    requires ExecOldKeys(c, ks, |ks|, e) && ExecTwiceRules(c, ks, |ks|, e)
    requires UndoShape(e.tree, u) && UndoRestored(e.cmd, e.tree, ks, |ks|, u)
    requires 0 <= i < j < |ks| && ks[i] == ks[j]
    ensures u.tree.transitions[ks[i]].rule == Some(c.caseRule)
  {
    assert u.tree.transitions[ks[j]].rule == RecordedRule(e.cmd, ks[j]);
  }

  /** Statuses after execute and undo: recomputed ones follow the current
      rule, and a transition neither loop touched is as it was. */
  lemma UndoStatuses(c: Command, t: Tree, ks: seq<TransId>, verify: Verifier, e: ExecResult, u: UndoResult)
    requires WellFormed(t) && AllIn(t, ks) && ExecShape(c, t, e) && ExecUntouched(t, ks, |ks|, e)
    requires UndoShape(e.tree, u) && UndoUntouched(e.tree, ks, |ks|, u) && UndoReverified(e.tree, ks, |ks|, verify, u)
    requires forall j :: j in t.transitions ==> u.tree.transitions[j].rule == t.transitions[j].rule
    ensures SameShape(t, u.tree) && RulesRestored(t, ks, verify, u.tree)
  {
    SameShapeTrans(t, e.tree, u.tree);
    ReverifiedSameShape(t, e.tree, ks, |ks|);
    forall j | j in t.transitions && !ReverifiedBy(t, ks, |ks|, j)
      ensures u.tree.transitions[j] == t.transitions[j]
    {
      if Selected(ks, |ks|, j) {
        SelectedReverified(t, ks, |ks|, j);
      }
    }
  }

  /** Undo does not detach anything: children present before execute and the
      children execute reported for the selection all still hang. */
  predicate ChildrenLeft(t: Tree, ks: seq<TransId>, e: ExecResult, u: Tree)
    requires AllIn(t, ks) && SameShape(t, u)
  {
    && (forall j :: j in t.transitions && t.transitions[j].child.Some? ==>
          u.transitions[j].child == t.transitions[j].child)
    && |e.newSelection| == |ks|
    && (forall i :: 0 <= i < |ks| ==> u.transitions[ks[i]].child == Some(e.newSelection[i]))
  }

  /** Each notification of `removed` retracts the matching addition of `added`. */
  predicate Mirrors(added: seq<Event>, removed: seq<Event>) {
    && |removed| == |added|
    && forall m :: 0 <= m < |added| ==> added[m].Added? && removed[m] == Removed(Some(added[m].node))
  }

  /** When exactly the childless transitions have a recorded node and each now
      hangs its reported child, undo's removals retract execute's additions
      one for one. */
  lemma {:induction false} RemovalsMirrorAdditions(c: Command, t: Tree, t': Tree, ks: seq<TransId>, ns: seq<NodeId>)
    requires AllIn(t, ks) && AllIn(t', ks) && |ns| == |ks| && NoDuplicates(ks)
    requires forall i :: 0 <= i < |ks| ==> (ks[i] in c.addNode <==> t.transitions[ks[i]].child.None?)
    requires forall i :: 0 <= i < |ks| ==> t'.transitions[ks[i]].child == Some(ns[i])
    ensures Mirrors(Additions(t, ks, ns), Removals(c, t', ks))
  {
    if |ks| > 0 {
      var n := |ks| - 1;
      RemovalsMirrorAdditions(c, t, t', ks[..n], ns[..n]);
      assert !Selected(ks, n, ks[n]);
    }
  }

  /** For a fresh command, execute records a node exactly for the selected
      transitions that had no child, and it is the child reported for them. */
  lemma RecordedIffChildless(c: Command, t: Tree, ks: seq<TransId>, e: ExecResult)
    requires WellFormed(t) && AllIn(t, ks) && c.addNode == map[]
    requires ExecRecords(c, t, ks, |ks|, e) && ExecOrigins(c, t, ks, |ks|, e)
    ensures forall i :: 0 <= i < |ks| ==> (ks[i] in e.cmd.addNode <==> t.transitions[ks[i]].child.None?)
    ensures forall i :: 0 <= i < |ks| && ks[i] in e.cmd.addNode ==> e.cmd.addNode[ks[i]] == e.newSelection[i]
  {
    forall i | 0 <= i < |ks|
      ensures ks[i] in e.cmd.addNode <==> t.transitions[ks[i]].child.None?
      ensures ks[i] in e.cmd.addNode ==> e.cmd.addNode[ks[i]] == e.newSelection[i]
    {
      assert ChildOrigin(c, t, e.cmd, ks[i], e.newSelection[i]);
    }
  }

  /**
   Execute, then undo, as the history does. For a selection without repeats
   the rules come back, statuses follow them and untouched transitions are as
   before, but every child stays attached. For a fresh command, undo announces
   the removal of exactly the nodes execute announced, in the same order.
   */
  method ExecuteThenUndo(c: Command, t: Tree, verify: Verifier) returns (e: ExecResult, u: UndoResult)
    requires Executable(c, t) && NoDuplicates(TransIds(c.selection))
    ensures u.selection == c.selection && |e.newSelection| == |c.selection|
    ensures AllIn(t, TransIds(c.selection)) && SameShape(t, u.tree) && u.tree.nodes == e.tree.nodes
    ensures RulesRestored(t, TransIds(c.selection), verify, u.tree)
    ensures ChildrenLeft(t, TransIds(c.selection), e, u.tree)
    ensures c.addNode == map[] ==> Mirrors(e.events, u.events)
  {
    var ks := TransIds(c.selection);
    e := Execute(c, t, verify);
    UndoableAfterExecute(c, t, e);
    u := Undo(e.cmd, e.tree, verify);
    UndoRestoresRules(c, t, ks, e, u);
    UndoStatuses(c, t, ks, verify, e, u);
    if c.addNode == map[] {
      RecordedIffChildless(c, t, ks, e);
      RemovalsMirrorAdditions(e.cmd, t, e.tree, ks, e.newSelection);
    }
  }

  /** After execute and undo each selected transition still hangs the child
      execute reported for it. */
  lemma SelectedChildrenLeft(c: Command, t: Tree, ks: seq<TransId>, e: ExecResult, u: UndoResult)
    requires WellFormed(t) && AllIn(t, ks) && ExecShape(c, t, e) && ExecAssigns(c, t, ks, |ks|, e)
    requires UndoShape(e.tree, u)
    ensures AllIn(u.tree, ks) && |e.newSelection| == |ks|
    ensures forall i :: 0 <= i < |ks| ==> u.tree.transitions[ks[i]].child == Some(e.newSelection[i])
  {
    assert forall j :: j in e.tree.transitions ==> u.tree.transitions[j].child == e.tree.transitions[j].child;
    forall i | 0 <= i < |ks| ensures u.tree.transitions[ks[i]].child == Some(e.newSelection[i]) {
      assert ks[i] in e.tree.transitions;
    }
  }

  /** Once the recorded children are unhooked, each selected transition either
      hangs its reported child or has none and a recorded node that is it. */
  lemma DetachedPremise(c: Command, t: Tree, u: Tree, ks: seq<TransId>, ns: seq<NodeId>)
    requires AllIn(t, ks) && AllIn(u, ks) && |ns| == |ks|
    requires forall i :: 0 <= i < |ks| ==> u.transitions[ks[i]].child == Some(ns[i])
    requires forall i :: 0 <= i < |ks| ==> (ks[i] in c.addNode <==> t.transitions[ks[i]].child.None?)
    requires forall i :: 0 <= i < |ks| && ks[i] in c.addNode ==> c.addNode[ks[i]] == ns[i]
    ensures var d := DetachChildren(u, c.addNode.Keys);
      && AllIn(d, ks)
      && (forall i :: 0 <= i < |ks| ==> (d.transitions[ks[i]].child.None? <==> t.transitions[ks[i]].child.None?))
      && (forall i :: 0 <= i < |ks| ==>
            || d.transitions[ks[i]].child == Some(ns[i])
            || (d.transitions[ks[i]].child.None? && ks[i] in c.addNode && c.addNode[ks[i]] == ns[i]))
  {
  }

  /** Every transition of `ks` has a child: execute announces nothing. */
  lemma {:induction false} AdditionsNone(t: Tree, ks: seq<TransId>, ns: seq<NodeId>)
    requires AllIn(t, ks) && |ns| == |ks|
    requires forall i :: 0 <= i < |ks| ==> t.transitions[ks[i]].child.Some?
    ensures Additions(t, ks, ns) == []
  {
    if |ks| > 0 {
      AdditionsNone(t, ks[..|ks| - 1], ns[..|ks| - 1]);
    }
  }

  /** The additions depend only on which selected transitions lack a child. */
  lemma {:induction false} AdditionsAgree(t: Tree, u: Tree, ks: seq<TransId>, ns: seq<NodeId>)
    requires AllIn(t, ks) && AllIn(u, ks) && |ns| == |ks|
    requires forall i :: 0 <= i < |ks| ==> (t.transitions[ks[i]].child.None? <==> u.transitions[ks[i]].child.None?)
    ensures Additions(u, ks, ns) == Additions(t, ks, ns)
  {
    if |ks| > 0 {
      AdditionsAgree(t, u, ks[..|ks| - 1], ns[..|ks| - 1]);
    }
  }

  /**
   Redo reuses: when each selected transition either hangs `ns[i]` or has no
   child but the recorded node `ns[i]`, execute reports `ns` again, records
   nothing new and creates no node.
   */
  lemma RedoReuses(c: Command, t: Tree, ks: seq<TransId>, ns: seq<NodeId>, e: ExecResult)
    requires WellFormed(t) && AllIn(t, ks) && |ns| == |ks|
    requires forall i :: 0 <= i < |ks| ==>
      || t.transitions[ks[i]].child == Some(ns[i])
      || (t.transitions[ks[i]].child.None? && ks[i] in c.addNode && c.addNode[ks[i]] == ns[i])
    requires ExecRecords(c, t, ks, |ks|, e) && ExecOrigins(c, t, ks, |ks|, e)
    ensures e.newSelection == ns
    ensures e.cmd.addNode == c.addNode && e.tree.nodes == t.nodes && e.tree.next == t.next
  {
    forall i | 0 <= i < |ks| ensures e.newSelection[i] == ns[i] {
      assert ChildOrigin(c, t, e.cmd, ks[i], e.newSelection[i]);
    }
    forall j | j in e.cmd.addNode ensures j in c.addNode {
    }
    forall j | j in c.addNode ensures j in e.cmd.addNode && e.cmd.addNode[j] == c.addNode[j] {
    }
    assert e.cmd.addNode.Keys == c.addNode.Keys;
  }

  /** The tree redo starts from agrees with the tree after execute on the
      rule and child of every unselected transition, and entirely on those
      that were not reverified either. */
  predicate RedoStart(t: Tree, ks: seq<TransId>, e: Tree, t2: Tree)
    requires WellFormed(t) && AllIn(t, ks) && SameShape(t, e) && SameShape(t, t2)
  {
    forall j :: j in t.transitions && !Selected(ks, |ks|, j) ==>
      && t2.transitions[j].rule == e.transitions[j].rule
      && t2.transitions[j].child == e.transitions[j].child
      && (!ReverifiedBy(t, ks, |ks|, j) ==> t2.transitions[j] == e.transitions[j])
  }

  /** Undo leaves a tree redo can start from. */
  lemma UndoRedoStart(c: Command, t: Tree, ks: seq<TransId>, e: ExecResult, u: UndoResult)
    requires WellFormed(t) && AllIn(t, ks) && ExecShape(c, t, e)
    requires UndoShape(e.tree, u) && UndoRestored(e.cmd, e.tree, ks, |ks|, u) && UndoUntouched(e.tree, ks, |ks|, u)
    ensures SameShape(t, u.tree) && RedoStart(t, ks, e.tree, u.tree)
  {
    SameShapeTrans(t, e.tree, u.tree);
    ReverifiedSameShape(t, e.tree, ks, |ks|);
  }

  /** Unhooking only selected transitions keeps a tree redo can start from. */
  lemma DetachRedoStart(t: Tree, ks: seq<TransId>, e: Tree, u: Tree, ds: set<TransId>)
    requires WellFormed(t) && AllIn(t, ks) && SameShape(t, e) && SameShape(t, u) && RedoStart(t, ks, e, u)
    requires forall j :: j in ds ==> Selected(ks, |ks|, j)
    ensures SameShape(t, DetachChildren(u, ds)) && RedoStart(t, ks, e, DetachChildren(u, ds))
  {
  }

  /**
   Redo rebuilds the very tree execute built: from a tree that agrees with it
   off the selection, execute assigns the same rule, hangs the same children
   and recomputes the same statuses.
   */
  lemma RedoSameTree(c: Command, t: Tree, ks: seq<TransId>, verify: Verifier, e: ExecResult,
                     c2: Command, t2: Tree, e2: ExecResult)
    requires WellFormed(t) && AllIn(t, ks)
    requires ExecShape(c, t, e) && ExecAssigns(c, t, ks, |ks|, e) && ExecReverified(t, ks, |ks|, verify, e)
    requires WellFormed(t2) && SameShape(t, t2) && AllIn(t2, ks) && RedoStart(t, ks, e.tree, t2)
    requires ExecShape(c2, t2, e2) && c2.caseRule == c.caseRule
    requires ExecAssigns(c2, t2, ks, |ks|, e2) && ExecKept(t2, ks, |ks|, e2)
    requires ExecUntouched(t2, ks, |ks|, e2) && ExecReverified(t2, ks, |ks|, verify, e2)
    requires e2.newSelection == e.newSelection && e2.tree.nodes == e.tree.nodes && e2.tree.next == e.tree.next
    ensures e2.tree == e.tree
  {
    ReverifiedSameShape(t, t2, ks, |ks|);
    forall j | j in t.transitions ensures e2.tree.transitions[j] == e.tree.transitions[j] {
      if Selected(ks, |ks|, j) {
        SelectedReverified(t, ks, |ks|, j);
        var i :| 0 <= i < |ks| && ks[i] == j;
        assert e2.tree.transitions[j].child == e.tree.transitions[j].child;
      }
    }
    assert e2.tree.transitions == e.tree.transitions;
  }

  /**
   Redo straight after undo: the children are still attached, so execute
   hangs the same children, creates no node, records nothing new and
   announces nothing.
   */
  method ExecuteUndoRedo(c: Command, t: Tree, verify: Verifier) returns (e: ExecResult, u: UndoResult, e': ExecResult)
    requires Executable(c, t)
    ensures Executable(e.cmd, u.tree)
    ensures e'.newSelection == e.newSelection
    ensures e'.cmd.addNode == e.cmd.addNode && e'.tree.nodes == e.tree.nodes && e'.tree.next == e.tree.next
    ensures e'.events == []
    ensures e'.tree == e.tree
  {
    var ks := TransIds(c.selection);
    e := Execute(c, t, verify);
    UndoableAfterExecute(c, t, e);
    u := Undo(e.cmd, e.tree, verify);
    ExecutableAfterUndo(c, t, e, u);
    e' := Execute(e.cmd, u.tree, verify);
    SelectedChildrenLeft(c, t, ks, e, u);
    RedoReuses(e.cmd, u.tree, ks, e.newSelection, e');
    AdditionsNone(u.tree, ks, e.newSelection);
    UndoRedoStart(c, t, ks, e, u);
    RedoSameTree(c, t, ks, verify, e, e.cmd, u.tree, e');
  }

  /** What redo may rely on once the recorded children are unhooked: the
      command is executable, each selected transition hangs its reported child
      or has none and that child recorded, childlessness is as before execute,
      and the tree agrees with execute's off the selection. */
  lemma DetachReady(c: Command, t: Tree, ks: seq<TransId>, e: ExecResult, u: UndoResult)
    requires Executable(c, t) && c.addNode == map[] && ks == TransIds(c.selection)
    requires AllIn(t, ks) && ExecShape(c, t, e) && ExecAssigns(c, t, ks, |ks|, e) && RecordsNodes(e.cmd, e.tree)
    requires ExecRecords(c, t, ks, |ks|, e) && ExecOrigins(c, t, ks, |ks|, e)
    requires UndoShape(e.tree, u) && UndoRestored(e.cmd, e.tree, ks, |ks|, u) && UndoUntouched(e.tree, ks, |ks|, u)
    ensures var d := DetachChildren(u.tree, e.cmd.addNode.Keys);
      && Executable(e.cmd, d) && SameShape(t, d) && AllIn(d, ks)
      && (forall i :: 0 <= i < |ks| ==>
            || d.transitions[ks[i]].child == Some(e.newSelection[i])
            || (d.transitions[ks[i]].child.None? && ks[i] in e.cmd.addNode && e.cmd.addNode[ks[i]] == e.newSelection[i]))
      && (forall i :: 0 <= i < |ks| ==> (d.transitions[ks[i]].child.None? <==> t.transitions[ks[i]].child.None?))
      && RedoStart(t, ks, e.tree, d)
  {
    var d := DetachChildren(u.tree, e.cmd.addNode.Keys);
    ExecutableAfterUndo(c, t, e, u);
    ErrorStringSameShape(u.tree, d, c.selection);
    SelectedChildrenLeft(c, t, ks, e, u);
    RecordedIffChildless(c, t, ks, e);
    DetachedPremise(e.cmd, t, u.tree, ks, e.newSelection);
    UndoRedoStart(c, t, ks, e, u);
    DetachRedoStart(t, ks, e.tree, u.tree, e.cmd.addNode.Keys);
    SameShapeTrans(t, u.tree, d);
  }

  /**
   Redo after a tree listener acting on undo's removals has unhooked the
   recorded children: execute hangs the very same nodes back, creates none
   and announces the same additions as the first execute.
   */
  method ExecuteUndoDetachRedo(c: Command, t: Tree, verify: Verifier)
      returns (e: ExecResult, u: UndoResult, d: Tree, e': ExecResult)
    requires Executable(c, t) && c.addNode == map[]
    ensures d == DetachChildren(u.tree, e.cmd.addNode.Keys)
    ensures Executable(e.cmd, d)
    ensures e'.newSelection == e.newSelection
    ensures e'.cmd.addNode == e.cmd.addNode && e'.tree.nodes == e.tree.nodes && e'.tree.next == e.tree.next
    ensures e'.events == e.events
    ensures e'.tree == e.tree
  {
    var ks := TransIds(c.selection);
    e := Execute(c, t, verify);
    UndoableAfterExecute(c, t, e);
    u := Undo(e.cmd, e.tree, verify);
    d := DetachChildren(u.tree, e.cmd.addNode.Keys);
    DetachReady(c, t, ks, e, u);
    e' := Execute(e.cmd, d, verify);
    RedoReuses(e.cmd, d, ks, e.newSelection, e');
    AdditionsAgree(t, d, ks, e.newSelection);
    RedoSameTree(c, t, ks, verify, e, e.cmd, d, e');
  }

}
