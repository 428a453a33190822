/**
 The case-rule command: applies one case rule to every selected transition,
 hanging a child node under each that lacks one, and undoes that by restoring
 the recorded rules. Listener notifications that change the tree view are
 returned as an event log.
 */
module CaseRuleCommand {
  import opened Options
  import opened ProofTree
  import opened CaseRuleValidation

  /**
   Structural notifications sent to tree listeners while the command runs.
   A removal carries the transition's child at undo time, which may be absent.
   */
  datatype Event = Added(node: NodeId) | Removed(removed: Option<NodeId>)

  /**
   The command: a copy of the selection, the case rule, the rule each
   transition had before the last execute (`oldRule`) and the node the command
   created for a transition (`addNode`), kept so that redo reuses that node.
   */
  datatype Command = Command(
    selection: seq<ElemRef>,
    caseRule: RuleId,
    oldRule: map<TransId, Option<RuleId>>,
    addNode: map<TransId, NodeId>)

  /** A command as it is built: it keeps its own copy of the selection and
      the case rule, and has recorded no rule and no node yet. */
  function NewCommand(selection: seq<ElemRef>, caseRule: RuleId): (c: Command)
    ensures c.selection == selection && c.caseRule == caseRule
    ensures c.addNode == map[] && forall t :: RecordsNodes(c, t)
    ensures forall k :: RecordedRule(c, k) == None
  {
    Command(selection, caseRule, map[], map[])
  }

  /** The rule recorded for `k`, absent when none was recorded. */
  function RecordedRule(c: Command, k: TransId): Option<RuleId> {
    if k in c.oldRule then c.oldRule[k] else None
  }

  /** Handles of an all-transition selection. */
  function TransIds(sel: seq<ElemRef>): (ks: seq<TransId>)
    requires forall i :: 0 <= i < |sel| ==> sel[i].TransElem?
    ensures |ks| == |sel|
    ensures forall i :: 0 <= i < |sel| ==> ks[i] == sel[i].trans
  {
    if |sel| == 0 then [] else [sel[0].trans] + TransIds(sel[1..])
  }

  predicate AllIn(t: Tree, ks: seq<TransId>) {
    forall i :: 0 <= i < |ks| ==> ks[i] in t.transitions
  }

  /** `j` is among the first `n` transitions of `ks`. */
  predicate Selected(ks: seq<TransId>, n: nat, j: TransId)
    requires n <= |ks|
  {
    exists i :: 0 <= i < n && ks[i] == j
  }

  /** `j` leaves the first parent of one of the first `n` transitions of `ks`,
      so the loop over them reverifies it. */
  predicate ReverifiedBy(t: Tree, ks: seq<TransId>, n: nat, j: TransId)
    requires WellFormed(t) && AllIn(t, ks) && n <= |ks|
  {
    exists i :: 0 <= i < n && j in Siblings(t, ks[i])
  }

  /** No transition is selected twice. */
  predicate NoDuplicates(ks: seq<TransId>) {
    forall i, j :: 0 <= i < j < |ks| ==> ks[i] != ks[j]
  }

  /**
   Where the child reported for `k` comes from: the child `k` already had in
   `t`; else the node `c` recorded for it; else a node that did not exist in
   `t`, which `after` records for `k`.
   */
  predicate ChildOrigin(c: Command, t: Tree, after: Command, k: TransId, child: NodeId)
    requires k in t.transitions
  {
    match t.transitions[k].child
    case Some(n) => child == n
    case None =>
      if k in c.addNode then child == c.addNode[k]
      else child !in t.nodes && k in after.addNode && after.addNode[k] == child
  }

  /** Every node the command recorded is a node of `t`: the tree created
      each of them, and nodes are never dropped from the tree. */
  predicate RecordsNodes(c: Command, t: Tree) {
    forall j :: j in c.addNode ==> c.addNode[j] in t.nodes
  }

  /** Execute creates a node for `k`: it has no child and the command
      recorded none for it. */
  predicate CreatesChild(c: Command, t: Tree, k: TransId)
    requires k in t.transitions
  {
    t.transitions[k].child.None? && k !in c.addNode
  }

  /** `Selected` grows by exactly the transition at position `n`. */
  lemma SelectedNext(ks: seq<TransId>, n: nat)
    requires n < |ks|
    ensures forall j :: Selected(ks, n + 1, j) <==> Selected(ks, n, j) || j == ks[n]
  {
    forall j | Selected(ks, n + 1, j) && j != ks[n] ensures Selected(ks, n, j) {
      var i :| 0 <= i < n + 1 && ks[i] == j;
    }
  }

  /** `ReverifiedBy` grows by exactly the siblings of the transition at `n`. */
  lemma ReverifiedNext(t: Tree, ks: seq<TransId>, n: nat)
    requires WellFormed(t) && AllIn(t, ks) && n < |ks|
    ensures forall j :: ReverifiedBy(t, ks, n + 1, j) <==> ReverifiedBy(t, ks, n, j) || j in Siblings(t, ks[n])
  {
    forall j | ReverifiedBy(t, ks, n + 1, j) && j !in Siblings(t, ks[n]) ensures ReverifiedBy(t, ks, n, j) {
      var i :| 0 <= i < n + 1 && j in Siblings(t, ks[i]);
    }
  }

  /**
   What giving `k` a child does, between command and tree before (`c`, `t`)
   and after (`c'`, `t'`): `k` hangs `child`, which comes from where
   `ChildOrigin` says; `addNode` only gains `k`, and only when `k` had no
   child; a node it gains is a node of `t'` that is neither a child in `t`
   nor a node `c` recorded; the tree gains that node, with no transitions
   leaving it, and no other; nothing else changes.
   */
  predicate ChildEnsured(c: Command, t: Tree, k: TransId, c': Command, t': Tree, child: NodeId)
    requires WellFormed(t) && k in t.transitions
  {
    && WellFormed(t') && SameShape(t, t') && t'.next >= t.next
    && c' == c.(addNode := c'.addNode)
    && t'.transitions[k] == t.transitions[k].(child := Some(child))
    && ChildOrigin(c, t, c', k, child)
    && (forall j :: j in c.addNode ==> j in c'.addNode && c'.addNode[j] == c.addNode[j])
    && (forall j :: j in c'.addNode && j !in c.addNode ==> j == k && t.transitions[k].child.None?)
    && (forall j :: j in c'.addNode && j !in c.addNode ==> c'.addNode[j] in t'.nodes)
    && (k in c'.addNode && k !in c.addNode ==>
          && (forall j :: j in t.transitions ==> t.transitions[j].child != Some(child))
          && (forall j :: j in c.addNode ==> c.addNode[j] != child))
    && RecordsNodes(c', t')
    && t'.nodes == (if k in c'.addNode && k !in c.addNode then t.nodes[child := Node([])] else t.nodes)
    && (c'.addNode.Keys == c.addNode.Keys ==> t'.nodes == t.nodes && t'.next == t.next)
    && (forall j :: j in t.transitions && j != k ==> t'.transitions[j] == t.transitions[j])
  }

  /** Gives `k` a child when it has none. */
  method EnsureChild(c: Command, t: Tree, k: TransId) returns (c': Command, t': Tree, child: NodeId)
    requires WellFormed(t) && k in t.transitions && RecordsNodes(c, t)
    ensures ChildEnsured(c, t, k, c', t', child)
  {
    c', t' := c, t;
    match t.transitions[k].child {
      case Some(n) =>
        child := n;
      case None =>
        if k in c.addNode {
          child := c.addNode[k];
          t' := AttachTreeElement(t, k, child);
        } else {
          child := t.next;
          t' := AddTreeElement(t, k);
          c' := c.(addNode := c.addNode[k := child]);
        }
    }
  }

  /** The shape part of a pass: the tree stays well formed and keeps its
      shape, and the command records the old rule of `k`. */
  predicate StepShape(c: Command, t: Tree, k: TransId, c': Command, t': Tree)
    requires k in t.transitions
  {
    && WellFormed(t') && SameShape(t, t') && t'.next >= t.next
    && c'.selection == c.selection && c'.caseRule == c.caseRule
    && c'.oldRule == c.oldRule[k := t.transitions[k].rule]
  }

  /** The part of a pass about `k` itself: it carries the case rule and hangs
      `child`; an addition is announced exactly when `k` had no child;
      `addNode` only gains `k`, with a node of `t'`; the tree gains that node,
      with no transitions leaving it, and no other. */
  predicate StepOwn(c: Command, t: Tree, k: TransId, c': Command, t': Tree, child: NodeId, events: seq<Event>)
    requires k in t.transitions && SameShape(t, t')
  {
    && t'.transitions[k].rule == Some(c.caseRule)
    && t'.transitions[k].child == Some(child)
    && ChildOrigin(c, t, c', k, child)
    && events == (if t.transitions[k].child.None? then [Added(child)] else [])
    && (forall j :: j in c.addNode ==> j in c'.addNode && c'.addNode[j] == c.addNode[j])
    && (forall j :: j in c'.addNode && j !in c.addNode ==> j == k && t.transitions[k].child.None?)
    && (forall j :: j in c'.addNode && j !in c.addNode ==> c'.addNode[j] in t'.nodes)
    && t'.nodes == (if k in c'.addNode && k !in c.addNode then t.nodes[child := Node([])] else t.nodes)
    && (c'.addNode.Keys == c.addNode.Keys ==> t'.nodes == t.nodes && t'.next == t.next)
  }

  /** The part of a pass about other transitions: they keep rule and child,
      and only the siblings of `k` change, each to the status the verifier
      gives its rule. */
  predicate StepFrame(t: Tree, k: TransId, verify: Verifier, t': Tree)
    requires WellFormed(t) && k in t.transitions && SameShape(t, t')
  {
    && (forall j :: j in t.transitions && j != k ==>
          t'.transitions[j].rule == t.transitions[j].rule && t'.transitions[j].child == t.transitions[j].child)
    && (forall j :: j in t.transitions && j !in Siblings(t, k) ==> t'.transitions[j] == t.transitions[j])
    && (forall j :: j in t.transitions && j in Siblings(t, k) ==>
          t'.transitions[j].status == verify(j, t'.transitions[j].rule))
  }

  /** What one pass of the execute loop does to transition `k`. */
  predicate StepDone(c: Command, t: Tree, k: TransId, verify: Verifier,
                     c': Command, t': Tree, child: NodeId, events: seq<Event>)
    requires WellFormed(t) && k in t.transitions
  {
    && StepShape(c, t, k, c', t')
    && StepOwn(c, t, k, c', t', child, events)
    && StepFrame(t, k, verify, t')
  }

  /** The intermediate states of one pass, as `ExecuteStep` computes them. */
  predicate StepTrace(c: Command, t: Tree, k: TransId, verify: Verifier,
                      t1: Tree, c2: Command, t2: Tree, child: NodeId, c': Command, t': Tree, events: seq<Event>)
    requires WellFormed(t) && k in t.transitions
  {
    && t1 == SetRule(t, k, Some(c.caseRule))
    && ChildEnsured(c.(oldRule := c.oldRule[k := t.transitions[k].rule]), t1, k, c2, t2, child)
    && c' == c2
    && events == (if t.transitions[k].child.None? then [Added(child)] else [])
    && t' == Reverify(t2, Siblings(t2, k), verify)
  }

  lemma StepShapeHolds(c: Command, t: Tree, k: TransId, verify: Verifier,
                       t1: Tree, c2: Command, t2: Tree, child: NodeId, c': Command, t': Tree, events: seq<Event>)
    requires WellFormed(t) && k in t.transitions
    requires StepTrace(c, t, k, verify, t1, c2, t2, child, c', t', events)
    ensures StepShape(c, t, k, c', t')
  {
  }

  lemma StepOwnHolds(c: Command, t: Tree, k: TransId, verify: Verifier,
                     t1: Tree, c2: Command, t2: Tree, child: NodeId, c': Command, t': Tree, events: seq<Event>)
    requires WellFormed(t) && k in t.transitions
    requires StepTrace(c, t, k, verify, t1, c2, t2, child, c', t', events)
    ensures SameShape(t, t') && StepOwn(c, t, k, c', t', child, events)
  {
  }

  lemma StepFrameHolds(c: Command, t: Tree, k: TransId, verify: Verifier,
                       t1: Tree, c2: Command, t2: Tree, child: NodeId, c': Command, t': Tree, events: seq<Event>)
    requires WellFormed(t) && k in t.transitions
    requires StepTrace(c, t, k, verify, t1, c2, t2, child, c', t', events)
    ensures SameShape(t, t') && StepFrame(t, k, verify, t')
  {
    SameShapeSiblings(t, t2, k);
  }

  /** One pass of the execute loop for transition `k`: record its rule,
      assign the case rule, make sure it has a child, reverify its siblings. */
  method ExecuteStep(c: Command, t: Tree, k: TransId, verify: Verifier)
      returns (c': Command, t': Tree, child: NodeId, events: seq<Event>)
    requires WellFormed(t) && k in t.transitions && RecordsNodes(c, t)
    ensures StepDone(c, t, k, verify, c', t', child, events)
  {
    var t1 := SetRule(t, k, Some(c.caseRule));
    var c2, t2;
    c2, t2, child := EnsureChild(c.(oldRule := c.oldRule[k := t.transitions[k].rule]), t1, k);
    c' := c2;
    events := if t.transitions[k].child.None? then [Added(child)] else [];
    t' := Reverify(t2, Siblings(t2, k), verify);
    StepShapeHolds(c, t, k, verify, t1, c2, t2, child, c', t', events);
    StepOwnHolds(c, t, k, verify, t1, c2, t2, child, c', t', events);
    StepFrameHolds(c, t, k, verify, t1, c2, t2, child, c', t', events);
  }

  /**
   The additions execute announces, in loop order: one for each transition
   met for the first time that had no child in `t`, naming its new child.
   */
  function Additions(t: Tree, ks: seq<TransId>, children: seq<NodeId>): seq<Event>
    requires AllIn(t, ks) && |children| == |ks|
  {
    if |ks| == 0 then []
    else
      var n := |ks| - 1;
      Additions(t, ks[..n], children[..n])
        + (if !Selected(ks, n, ks[n]) && t.transitions[ks[n]].child.None? then [Added(children[n])] else [])
  }

  /** Position `i` holds the only occurrence of its transition among the first `n`. */
  predicate OnlyAt(ks: seq<TransId>, n: nat, i: nat)
    requires i < n <= |ks|
  {
    forall j :: 0 <= j < n && j != i ==> ks[j] != ks[i]
  }

  /**
   The result of execute, also the state of its loop: the updated command and
   tree, the child node of each selected transition so far, which becomes the
   new selection, and the structural notifications sent so far. After the
   loop, listeners are also told that the first new child changed and that
   the selection is now `newSelection`.
   */
  datatype ExecResult = ExecResult(cmd: Command, tree: Tree, newSelection: seq<NodeId>, events: seq<Event>)

  /** The state after one more pass, which gave `child` and `ev`. */
  function Advance(p: ExecResult, c': Command, t': Tree, child: NodeId, ev: seq<Event>): ExecResult {
    ExecResult(c', t', p.newSelection + [child], p.events + ev)
  }

  /** The tree stays well formed with the shape of `t`; the command keeps
      its selection and case rule. */
  predicate ExecShape(c: Command, t: Tree, p: ExecResult) {
    && WellFormed(p.tree) && SameShape(t, p.tree) && p.tree.next >= t.next
    && p.cmd.selection == c.selection && p.cmd.caseRule == c.caseRule
  }

  /** `addNode` only grows, by selected transitions that had no child, and
      no node is created unless it grows. */
  predicate ExecRecords(c: Command, t: Tree, ks: seq<TransId>, n: nat, p: ExecResult)
    requires AllIn(t, ks) && n <= |ks|
  {
    && (forall j :: j in c.addNode ==> j in p.cmd.addNode && p.cmd.addNode[j] == c.addNode[j])
    && (forall j :: j in p.cmd.addNode && j !in c.addNode ==>
          Selected(ks, n, j) && j in t.transitions && t.transitions[j].child.None?)
    && (p.cmd.addNode.Keys == c.addNode.Keys ==> p.tree.nodes == t.nodes && p.tree.next == t.next)
  }

  /** Unselected transitions keep rule and child, and no existing child is
      replaced. */
  predicate ExecKept(t: Tree, ks: seq<TransId>, n: nat, p: ExecResult)
    requires AllIn(t, ks) && n <= |ks| && SameShape(t, p.tree)
  {
    && (forall j :: j in t.transitions && !Selected(ks, n, j) ==>
          p.tree.transitions[j].rule == t.transitions[j].rule && p.tree.transitions[j].child == t.transitions[j].child)
    && (forall j :: j in t.transitions && t.transitions[j].child.Some? ==>
          p.tree.transitions[j].child == t.transitions[j].child)
  }

  /** A transition neither selected nor reverified is untouched. */
  predicate ExecUntouched(t: Tree, ks: seq<TransId>, n: nat, p: ExecResult)
    requires WellFormed(t) && AllIn(t, ks) && n <= |ks| && SameShape(t, p.tree)
  {
    forall j :: j in t.transitions && !Selected(ks, n, j) && !ReverifiedBy(t, ks, n, j) ==>
      p.tree.transitions[j] == t.transitions[j]
  }

  /** Every processed transition carries the case rule and hangs the child
      reported for it. */
  predicate ExecAssigns(c: Command, t: Tree, ks: seq<TransId>, n: nat, p: ExecResult)
    requires AllIn(t, ks) && n <= |ks| && SameShape(t, p.tree)
  {
    && |p.newSelection| == n
    && forall i :: 0 <= i < n ==>
         && p.tree.transitions[ks[i]].rule == Some(c.caseRule)
         && p.tree.transitions[ks[i]].child == Some(p.newSelection[i])
  }

  /** The child reported for every processed transition comes from where
      `ChildOrigin` says. */
  predicate ExecOrigins(c: Command, t: Tree, ks: seq<TransId>, n: nat, p: ExecResult)
    requires AllIn(t, ks) && n <= |ks|
  {
    && |p.newSelection| == n
    && forall i :: 0 <= i < n ==> ChildOrigin(c, t, p.cmd, ks[i], p.newSelection[i])
  }

  /** The announcements so far are the additions of the processed prefix. */
  predicate ExecAnnounced(t: Tree, ks: seq<TransId>, n: nat, p: ExecResult)
    requires AllIn(t, ks) && n <= |ks|
  {
    |p.newSelection| == n && p.events == Additions(t, ks[..n], p.newSelection)
  }

  /** Exactly the selected transitions gain an entry in `oldRule`; the
      others keep theirs. */
  ghost predicate ExecOldKeys(c: Command, ks: seq<TransId>, n: nat, p: ExecResult)
    requires n <= |ks|
  {
    && (forall j :: j in p.cmd.oldRule <==> j in c.oldRule || Selected(ks, n, j))
    && (forall j :: j in c.oldRule && !Selected(ks, n, j) ==> p.cmd.oldRule[j] == c.oldRule[j])
  }

  /** A transition met once among the first `n` records the rule it had in `t`. */
  predicate ExecOnceRules(t: Tree, ks: seq<TransId>, n: nat, p: ExecResult)
    requires AllIn(t, ks) && n <= |ks| && (forall i :: 0 <= i < n ==> ks[i] in p.cmd.oldRule)
  {
    forall i :: 0 <= i < n && OnlyAt(ks, n, i) ==> p.cmd.oldRule[ks[i]] == t.transitions[ks[i]].rule
  }

  /** A transition met twice records the case rule its first pass gave it,
      so the rule it had before is lost. */
  predicate ExecTwiceRules(c: Command, ks: seq<TransId>, n: nat, p: ExecResult)
    requires n <= |ks| && (forall i :: 0 <= i < n ==> ks[i] in p.cmd.oldRule)
  {
    forall i, j :: 0 <= i < j < n && ks[i] == ks[j] ==> p.cmd.oldRule[ks[j]] == Some(c.caseRule)
  }

  /** Every transition reverified so far has the status the verifier gives
      its current rule. */
  predicate ExecReverified(t: Tree, ks: seq<TransId>, n: nat, verify: Verifier, p: ExecResult)
    requires WellFormed(t) && AllIn(t, ks) && n <= |ks| && SameShape(t, p.tree)
  {
    forall j :: j in t.transitions && ReverifiedBy(t, ks, n, j) ==>
      p.tree.transitions[j].status == verify(j, p.tree.transitions[j].rule)
  }

  /** Every node `addNode` gained is a node of the tree now that was not one
      of `t`, and no two transitions gained the same node. */
  predicate ExecFresh(c: Command, t: Tree, p: ExecResult) {
    && (forall j :: j in p.cmd.addNode && j !in c.addNode ==>
          p.cmd.addNode[j] in p.tree.nodes && p.cmd.addNode[j] !in t.nodes)
    && (forall j, j' :: j in p.cmd.addNode && j' in p.cmd.addNode && j !in c.addNode && j' !in c.addNode && j != j' ==>
          p.cmd.addNode[j] != p.cmd.addNode[j'])
  }

  lemma ExecShapeNext(c: Command, t: Tree, ks: seq<TransId>, n: nat,
                      p: ExecResult, c': Command, t': Tree, child: NodeId, ev: seq<Event>)
    requires WellFormed(t) && AllIn(t, ks) && n < |ks| && ExecShape(c, t, p)
    requires StepShape(p.cmd, p.tree, ks[n], c', t')
    ensures ExecShape(c, t, Advance(p, c', t', child, ev))
  {
  }

  lemma ExecKeptNext(c: Command, t: Tree, ks: seq<TransId>, n: nat, verify: Verifier,
                      p: ExecResult, c': Command, t': Tree, child: NodeId, ev: seq<Event>)
    requires WellFormed(t) && AllIn(t, ks) && n < |ks| && ExecShape(c, t, p)
    requires ExecKept(t, ks, n, p)
    requires SameShape(p.tree, t')
    requires StepOwn(p.cmd, p.tree, ks[n], c', t', child, ev)
    requires StepFrame(p.tree, ks[n], verify, t')
    ensures SameShape(t, t') && ExecKept(t, ks, n + 1, Advance(p, c', t', child, ev))
  {
    SelectedNext(ks, n);
  }

  lemma ExecUntouchedNext(c: Command, t: Tree, ks: seq<TransId>, n: nat, verify: Verifier,
                          p: ExecResult, c': Command, t': Tree, child: NodeId, ev: seq<Event>)
    requires WellFormed(t) && AllIn(t, ks) && n < |ks| && ExecShape(c, t, p)
    requires ExecUntouched(t, ks, n, p)
    requires SameShape(p.tree, t')
    requires StepFrame(p.tree, ks[n], verify, t')
    ensures SameShape(t, t') && ExecUntouched(t, ks, n + 1, Advance(p, c', t', child, ev))
  {
    SelectedNext(ks, n);
    ReverifiedNext(t, ks, n);
    SameShapeSiblings(t, p.tree, ks[n]);
  }

  lemma ExecRecordsNext(c: Command, t: Tree, ks: seq<TransId>, n: nat,
                        p: ExecResult, c': Command, t': Tree, child: NodeId, ev: seq<Event>)
    requires WellFormed(t) && AllIn(t, ks) && n < |ks| && ExecShape(c, t, p)
    requires ExecRecords(c, t, ks, n, p) && ExecKept(t, ks, n, p) && ExecAssigns(c, t, ks, n, p)
    requires SameShape(p.tree, t')
    requires StepOwn(p.cmd, p.tree, ks[n], c', t', child, ev)
    ensures ExecRecords(c, t, ks, n + 1, Advance(p, c', t', child, ev))
  {
    var k := ks[n];
    SelectedNext(ks, n);
    if k in c'.addNode && k !in p.cmd.addNode {
      assert !Selected(ks, n, k);
    }
    if c'.addNode.Keys == c.addNode.Keys {
      forall j | j in p.cmd.addNode ensures j in c.addNode {
        assert j in c'.addNode;
        assert j in c'.addNode.Keys;
      }
      forall j | j in c.addNode ensures j in p.cmd.addNode {
      }
      assert p.cmd.addNode.Keys == c.addNode.Keys;
    }
  }

  lemma ExecAssignsNext(c: Command, t: Tree, ks: seq<TransId>, n: nat, verify: Verifier,
                        p: ExecResult, c': Command, t': Tree, child: NodeId, ev: seq<Event>)
    requires WellFormed(t) && AllIn(t, ks) && n < |ks| && ExecShape(c, t, p)
    requires ExecAssigns(c, t, ks, n, p)
    requires SameShape(p.tree, t')
    requires StepOwn(p.cmd, p.tree, ks[n], c', t', child, ev)
    requires StepFrame(p.tree, ks[n], verify, t')
    ensures SameShape(t, t') && ExecAssigns(c, t, ks, n + 1, Advance(p, c', t', child, ev))
  {
    var k := ks[n];
    var q := Advance(p, c', t', child, ev);
    forall i | 0 <= i < n + 1
      ensures t'.transitions[ks[i]].rule == Some(c.caseRule)
      ensures t'.transitions[ks[i]].child == Some(q.newSelection[i])
    {
      if i < n && ks[i] == k {
        assert child == p.newSelection[i];
      }
    }
  }

  lemma ExecOriginsNext(c: Command, t: Tree, ks: seq<TransId>, n: nat,
                        p: ExecResult, c': Command, t': Tree, child: NodeId, ev: seq<Event>)
    requires WellFormed(t) && AllIn(t, ks) && n < |ks| && ExecShape(c, t, p)
    requires ExecRecords(c, t, ks, n, p) && ExecKept(t, ks, n, p) && ExecAssigns(c, t, ks, n, p)
    requires ExecOrigins(c, t, ks, n, p)
    requires SameShape(p.tree, t')
    requires StepOwn(p.cmd, p.tree, ks[n], c', t', child, ev)
    ensures ExecOrigins(c, t, ks, n + 1, Advance(p, c', t', child, ev))
  {
    var k := ks[n];
    var q := Advance(p, c', t', child, ev);
    forall i | 0 <= i < n + 1
      ensures ChildOrigin(c, t, c', ks[i], q.newSelection[i])
    {
      if i < n {
        assert ChildOrigin(c, t, p.cmd, ks[i], p.newSelection[i]);
      } else if Selected(ks, n, k) {
        var i0 :| 0 <= i0 < n && ks[i0] == k;
        assert child == p.newSelection[i0];
        assert ChildOrigin(c, t, p.cmd, ks[i0], p.newSelection[i0]);
      } else {
        assert p.tree.transitions[k].child == t.transitions[k].child;
        assert k in p.cmd.addNode <==> k in c.addNode;
      }
    }
  }

  lemma ExecAnnouncedNext(c: Command, t: Tree, ks: seq<TransId>, n: nat,
                          p: ExecResult, c': Command, t': Tree, child: NodeId, ev: seq<Event>)
    requires WellFormed(t) && AllIn(t, ks) && n < |ks| && ExecShape(c, t, p)
    requires ExecKept(t, ks, n, p) && ExecAssigns(c, t, ks, n, p) && ExecAnnounced(t, ks, n, p)
    requires ev == (if p.tree.transitions[ks[n]].child.None? then [Added(child)] else [])
    ensures ExecAnnounced(t, ks, n + 1, Advance(p, c', t', child, ev))
  {
    var k := ks[n];
    var q := Advance(p, c', t', child, ev);
    assert ks[..n + 1][..n] == ks[..n];
    assert q.newSelection[..n] == p.newSelection;
    if Selected(ks, n, k) {
      var i :| 0 <= i < n && ks[i] == k;
      assert Selected(ks[..n + 1], n, k) by {
        assert ks[..n + 1][i] == k;
      }
    }
  }

  lemma ExecOldKeysNext(c: Command, t: Tree, ks: seq<TransId>, n: nat,
                        p: ExecResult, c': Command, t': Tree, child: NodeId, ev: seq<Event>)
    requires WellFormed(t) && AllIn(t, ks) && n < |ks| && ExecShape(c, t, p)
    requires ExecOldKeys(c, ks, n, p)
    requires StepShape(p.cmd, p.tree, ks[n], c', t')
    ensures ExecOldKeys(c, ks, n + 1, Advance(p, c', t', child, ev))
  {
    SelectedNext(ks, n);
  }

  lemma ExecOnceRulesNext(c: Command, t: Tree, ks: seq<TransId>, n: nat,
                          p: ExecResult, c': Command, t': Tree, child: NodeId, ev: seq<Event>)
    requires WellFormed(t) && AllIn(t, ks) && n < |ks| && ExecShape(c, t, p)
    requires ExecKept(t, ks, n, p)
    requires ExecOldKeys(c, ks, n, p) && ExecOldKeys(c, ks, n + 1, Advance(p, c', t', child, ev))
    requires ExecOnceRules(t, ks, n, p)
    requires StepShape(p.cmd, p.tree, ks[n], c', t')
    ensures ExecOnceRules(t, ks, n + 1, Advance(p, c', t', child, ev))
  {
    var k := ks[n];
    forall i | 0 <= i < n + 1 && OnlyAt(ks, n + 1, i)
      ensures c'.oldRule[ks[i]] == t.transitions[ks[i]].rule
    {
      if i < n {
        assert ks[n] != ks[i];
        assert OnlyAt(ks, n, i);
      } else {
        assert !Selected(ks, n, k);
      }
    }
  }

  lemma ExecTwiceRulesNext(c: Command, t: Tree, ks: seq<TransId>, n: nat,
                           p: ExecResult, c': Command, t': Tree, child: NodeId, ev: seq<Event>)
    requires WellFormed(t) && AllIn(t, ks) && n < |ks| && ExecShape(c, t, p)
    requires ExecAssigns(c, t, ks, n, p)
    requires ExecOldKeys(c, ks, n, p) && ExecOldKeys(c, ks, n + 1, Advance(p, c', t', child, ev))
    requires ExecTwiceRules(c, ks, n, p)
    requires StepShape(p.cmd, p.tree, ks[n], c', t')
    ensures ExecTwiceRules(c, ks, n + 1, Advance(p, c', t', child, ev))
  {
    var k := ks[n];
    forall i, j | 0 <= i < j < n + 1 && ks[i] == ks[j]
      ensures c'.oldRule[ks[j]] == Some(c.caseRule)
    {
      if ks[j] == k {
        assert p.tree.transitions[ks[i]].rule == Some(c.caseRule);
        assert c'.oldRule[k] == p.tree.transitions[k].rule;
      } else {
        assert j < n && 0 <= i < j;
        assert p.cmd.oldRule[ks[j]] == Some(c.caseRule);
        assert c'.oldRule[ks[j]] == p.cmd.oldRule[ks[j]];
      }
    }
  }

  lemma ExecReverifiedNext(c: Command, t: Tree, ks: seq<TransId>, n: nat, verify: Verifier,
                           p: ExecResult, c': Command, t': Tree, child: NodeId, ev: seq<Event>)
    requires WellFormed(t) && AllIn(t, ks) && n < |ks| && ExecShape(c, t, p)
    requires ExecReverified(t, ks, n, verify, p)
    requires SameShape(p.tree, t')
    requires StepFrame(p.tree, ks[n], verify, t')
    ensures SameShape(t, t') && ExecReverified(t, ks, n + 1, verify, Advance(p, c', t', child, ev))
  {
    ReverifiedNext(t, ks, n);
    SameShapeSiblings(t, p.tree, ks[n]);
  }

  /** The nodes the command recorded beyond those `c` had: the nodes
      execute created so far. */
  function Created(c: Command, after: Command): set<NodeId> {
    set j | j in after.addNode && j !in c.addNode :: after.addNode[j]
  }

  /** The tree holds the nodes of `t` and the created ones and no other;
      no transition leaves a created node. */
  predicate ExecArena(c: Command, t: Tree, p: ExecResult) {
    && p.tree.nodes.Keys == t.nodes.Keys + Created(c, p.cmd)
    && (forall j :: j in p.cmd.addNode && j !in c.addNode ==>
          p.cmd.addNode[j] in p.tree.nodes && p.tree.nodes[p.cmd.addNode[j]] == Node([]))
  }

  /** Execute adds to the tree exactly the children it created, and no
      transition leaves any of them. */
  predicate CreatedExactly(c: Command, t: Tree, ks: seq<TransId>, r: ExecResult)
    requires AllIn(t, ks) && |r.newSelection| == |ks|
  {
    && r.tree.nodes.Keys == t.nodes.Keys + (set i | 0 <= i < |ks| && CreatesChild(c, t, ks[i]) :: r.newSelection[i])
    && (forall i :: 0 <= i < |ks| && CreatesChild(c, t, ks[i]) ==>
          r.newSelection[i] in r.tree.nodes && r.tree.nodes[r.newSelection[i]] == Node([]))
  }

  /** The created nodes are the children reported for the transitions
      execute created a child for. */
  lemma CreatedExactlyHolds(c: Command, t: Tree, ks: seq<TransId>, r: ExecResult)
    requires WellFormed(t) && AllIn(t, ks)
    requires ExecRecords(c, t, ks, |ks|, r) && ExecOrigins(c, t, ks, |ks|, r) && ExecArena(c, t, r)
    ensures CreatedExactly(c, t, ks, r)
  {
    var s := set i | 0 <= i < |ks| && CreatesChild(c, t, ks[i]) :: r.newSelection[i];
    forall x | x in Created(c, r.cmd) ensures x in s {
      var j :| j in r.cmd.addNode && j !in c.addNode && r.cmd.addNode[j] == x;
      var i :| 0 <= i < |ks| && ks[i] == j;
      assert ChildOrigin(c, t, r.cmd, ks[i], r.newSelection[i]);
    }
    forall x | x in s ensures x in Created(c, r.cmd) {
      var i :| 0 <= i < |ks| && CreatesChild(c, t, ks[i]) && r.newSelection[i] == x;
      assert ChildOrigin(c, t, r.cmd, ks[i], r.newSelection[i]);
    }
    assert Created(c, r.cmd) == s;
    forall i | 0 <= i < |ks| && CreatesChild(c, t, ks[i])
      ensures ks[i] in r.cmd.addNode && r.cmd.addNode[ks[i]] == r.newSelection[i]
    {
      assert ChildOrigin(c, t, r.cmd, ks[i], r.newSelection[i]);
    }
  }

  /** The children execute created are nodes of its tree that were not
      nodes of `t`, none of them a node `c` recorded, and each hangs under
      its own transition only: no other transition of the resulting tree,
      selected or not, has it as child. */
  predicate FreshChildren(c: Command, t: Tree, ks: seq<TransId>, r: ExecResult)
    requires AllIn(t, ks) && |r.newSelection| == |ks| && SameShape(t, r.tree)
  {
    && (forall i :: 0 <= i < |ks| && CreatesChild(c, t, ks[i]) ==>
          r.newSelection[i] in r.tree.nodes && r.newSelection[i] !in t.nodes)
    && (forall i, i' ::
          0 <= i < |ks| && 0 <= i' < |ks| && ks[i] != ks[i'] && CreatesChild(c, t, ks[i]) && CreatesChild(c, t, ks[i'])
          ==> r.newSelection[i] != r.newSelection[i'])
    && (forall i, j :: 0 <= i < |ks| && CreatesChild(c, t, ks[i]) && j in c.addNode ==>
          c.addNode[j] != r.newSelection[i])
    && (forall i, j :: 0 <= i < |ks| && CreatesChild(c, t, ks[i]) && j in t.transitions && j != ks[i] ==>
          r.tree.transitions[j].child != Some(r.newSelection[i]))
  }

  /** The origin of each child and the freshness of the recorded nodes give
      `FreshChildren`. */
  lemma FreshChildrenHold(c: Command, t: Tree, ks: seq<TransId>, r: ExecResult)
    requires WellFormed(t) && AllIn(t, ks) && RecordsNodes(c, t) && ExecShape(c, t, r)
    requires ExecOrigins(c, t, ks, |ks|, r) && ExecFresh(c, t, r)
    requires ExecKept(t, ks, |ks|, r) && ExecAssigns(c, t, ks, |ks|, r)
    ensures FreshChildren(c, t, ks, r)
  {
    forall i | 0 <= i < |ks| && CreatesChild(c, t, ks[i])
      ensures ks[i] in r.cmd.addNode && r.newSelection[i] == r.cmd.addNode[ks[i]]
    {
      assert ChildOrigin(c, t, r.cmd, ks[i], r.newSelection[i]);
    }
    forall i, j | 0 <= i < |ks| && CreatesChild(c, t, ks[i]) && j in t.transitions && j != ks[i]
      ensures r.tree.transitions[j].child != Some(r.newSelection[i])
    {
      if Selected(ks, |ks|, j) {
        var i' :| 0 <= i' < |ks| && ks[i'] == j;
        assert ChildOrigin(c, t, r.cmd, ks[i'], r.newSelection[i']);
      }
    }
  }

  lemma ExecFreshNext(c: Command, t: Tree, ks: seq<TransId>, n: nat,
                      p: ExecResult, c': Command, t': Tree, child: NodeId, ev: seq<Event>)
    requires WellFormed(t) && AllIn(t, ks) && n < |ks| && ExecShape(c, t, p)
    requires ExecRecords(c, t, ks, n, p) && ExecFresh(c, t, p)
    requires SameShape(p.tree, t')
    requires StepOwn(p.cmd, p.tree, ks[n], c', t', child, ev)
    ensures ExecFresh(c, t, Advance(p, c', t', child, ev))
  {
    var k := ks[n];
    if k in c'.addNode && k !in p.cmd.addNode {
      assert c'.addNode[k] == child && child !in p.tree.nodes;
    }
  }

  /** `Created` grows by the node recorded for `k` when `addNode` gains `k`,
      and not at all otherwise. */
  lemma CreatedNext(c: Command, before: Command, after: Command, k: TransId)
    requires forall j :: j in c.addNode ==> j in before.addNode
    requires forall j :: j in before.addNode ==> j in after.addNode && after.addNode[j] == before.addNode[j]
    requires forall j :: j in after.addNode && j !in before.addNode ==> j == k
    ensures Created(c, after) ==
      Created(c, before) + (if k in after.addNode && k !in before.addNode then {after.addNode[k]} else {})
  {
    forall x | x in Created(c, after)
      ensures x in Created(c, before) || (k in after.addNode && k !in before.addNode && x == after.addNode[k])
    {
      var j :| j in after.addNode && j !in c.addNode && after.addNode[j] == x;
    }
    if k in after.addNode && k !in before.addNode {
      assert k !in c.addNode;
    }
  }

  lemma ExecArenaNext(c: Command, t: Tree, k: TransId,
                      p: ExecResult, c': Command, t': Tree, child: NodeId, ev: seq<Event>)
    requires k in p.tree.transitions && ExecArena(c, t, p)
    requires forall j :: j in c.addNode ==> j in p.cmd.addNode
    requires SameShape(p.tree, t')
    requires StepOwn(p.cmd, p.tree, k, c', t', child, ev)
    ensures ExecArena(c, t, Advance(p, c', t', child, ev))
  {
    CreatedNext(c, p.cmd, c', k);
    if k in c'.addNode && k !in p.cmd.addNode {
      assert c'.addNode[k] == child;
    }
  }

  /** A pass keeps every recorded node in the tree. */
  lemma RecordsNodesNext(c: Command, t: Tree, k: TransId, c': Command, t': Tree, child: NodeId, ev: seq<Event>)
    requires k in t.transitions && SameShape(t, t') && RecordsNodes(c, t)
    requires StepOwn(c, t, k, c', t', child, ev)
    ensures RecordsNodes(c', t')
  {
  }

  /** Everything the execute loop keeps after its first `n` passes. */
  ghost predicate ExecInv(c: Command, t: Tree, ks: seq<TransId>, n: nat, verify: Verifier, r: ExecResult)
    requires WellFormed(t) && AllIn(t, ks) && n <= |ks|
  {
    && ExecShape(c, t, r)
    && ExecAssigns(c, t, ks, n, r) && ExecOrigins(c, t, ks, n, r)
    && ExecKept(t, ks, n, r) && ExecUntouched(t, ks, n, r)
    && ExecRecords(c, t, ks, n, r) && ExecOldKeys(c, ks, n, r)
    && ExecOnceRules(t, ks, n, r) && ExecTwiceRules(c, ks, n, r)
    && ExecReverified(t, ks, n, verify, r) && ExecAnnounced(t, ks, n, r)
    && ExecFresh(c, t, r) && RecordsNodes(r.cmd, r.tree) && ExecArena(c, t, r)
  }

  lemma ExecInvInit(c: Command, t: Tree, ks: seq<TransId>, verify: Verifier)
    requires WellFormed(t) && AllIn(t, ks) && RecordsNodes(c, t)
    ensures ExecInv(c, t, ks, 0, verify, ExecResult(c, t, [], []))
  {
    assert ks[..0] == [];
  }

  lemma ExecInvNext(c: Command, t: Tree, ks: seq<TransId>, n: nat, verify: Verifier,
                    r: ExecResult, c': Command, t': Tree, child: NodeId, ev: seq<Event>)
    requires WellFormed(t) && AllIn(t, ks) && n < |ks| && ExecInv(c, t, ks, n, verify, r)
    requires StepDone(r.cmd, r.tree, ks[n], verify, c', t', child, ev)
    ensures ExecInv(c, t, ks, n + 1, verify, Advance(r, c', t', child, ev))
  {
    ExecShapeNext(c, t, ks, n, r, c', t', child, ev);
    ExecAssignsNext(c, t, ks, n, verify, r, c', t', child, ev);
    ExecOriginsNext(c, t, ks, n, r, c', t', child, ev);
    ExecKeptNext(c, t, ks, n, verify, r, c', t', child, ev);
    ExecUntouchedNext(c, t, ks, n, verify, r, c', t', child, ev);
    ExecRecordsNext(c, t, ks, n, r, c', t', child, ev);
    ExecOldKeysNext(c, t, ks, n, r, c', t', child, ev);
    ExecOnceRulesNext(c, t, ks, n, r, c', t', child, ev);
    ExecTwiceRulesNext(c, t, ks, n, r, c', t', child, ev);
    ExecReverifiedNext(c, t, ks, n, verify, r, c', t', child, ev);
    ExecAnnouncedNext(c, t, ks, n, r, c', t', child, ev);
    ExecFreshNext(c, t, ks, n, r, c', t', child, ev);
    RecordsNodesNext(r.cmd, r.tree, ks[n], c', t', child, ev);
    ExecArenaNext(c, t, ks[n], r, c', t', child, ev);
  }

  /**
   What one pass of the undo loop does to transition `k`: it gets back the
   rule recorded for it (none when nothing was recorded), a removal of its
   child is announced exactly when the command recorded a node for it, no
   child link and no other rule changes, and only the siblings of `k` change,
   each to the status the verifier gives its rule.
   */
  predicate UndoDone(c: Command, t: Tree, k: TransId, verify: Verifier, t': Tree, events: seq<Event>)
    requires WellFormed(t) && k in t.transitions
  {
    && WellFormed(t') && SameShape(t, t') && t'.nodes == t.nodes && t'.next == t.next
    && t'.transitions[k].rule == RecordedRule(c, k)
    && events == (if k in c.addNode then [Removed(t.transitions[k].child)] else [])
    && (forall j :: j in t.transitions ==> t'.transitions[j].child == t.transitions[j].child)
    && (forall j :: j in t.transitions && j != k ==> t'.transitions[j].rule == t.transitions[j].rule)
    && (forall j :: j in t.transitions && j !in Siblings(t, k) ==> t'.transitions[j] == t.transitions[j])
    && (forall j :: j in t.transitions && j in Siblings(t, k) ==>
          t'.transitions[j].status == verify(j, t'.transitions[j].rule))
  }

  /** One pass of the undo loop for transition `k`. */
  method UndoStep(c: Command, t: Tree, k: TransId, verify: Verifier) returns (t': Tree, events: seq<Event>)
    requires WellFormed(t) && k in t.transitions
    ensures UndoDone(c, t, k, verify, t', events)
  {
    var t1 := SetRule(t, k, RecordedRule(c, k));
    events := if k in c.addNode then [Removed(t.transitions[k].child)] else [];
    SameShapeSiblings(t, t1, k);
    t' := Reverify(t1, Siblings(t1, k), verify);
  }

  /**
   The removals undo announces, in loop order: one for each transition the
   command recorded a node for, naming the child it has in `t`.
   */
  function Removals(c: Command, t: Tree, ks: seq<TransId>): seq<Event>
    requires AllIn(t, ks)
  {
    if |ks| == 0 then []
    else
      var n := |ks| - 1;
      Removals(c, t, ks[..n]) + (if ks[n] in c.addNode then [Removed(t.transitions[ks[n]].child)] else [])
  }

  /** The state of the undo loop, and its result: the tree and the removals
      announced. After the loop the command's own copy of the selection is
      announced as the selection again. */
  datatype UndoResult = UndoResult(tree: Tree, events: seq<Event>, selection: seq<ElemRef>)

  /** The tree stays well formed with the shape, nodes and child links of `t`. */
  predicate UndoShape(t: Tree, r: UndoResult) {
    && WellFormed(r.tree) && SameShape(t, r.tree) && r.tree.nodes == t.nodes && r.tree.next == t.next
    && (forall j :: j in t.transitions ==> r.tree.transitions[j].child == t.transitions[j].child)
  }

  /** Every processed transition carries its recorded rule; the others keep theirs. */
  ghost predicate UndoRestored(c: Command, t: Tree, ks: seq<TransId>, n: nat, r: UndoResult)
    requires AllIn(t, ks) && n <= |ks| && SameShape(t, r.tree)
  {
    && (forall i :: 0 <= i < n ==> r.tree.transitions[ks[i]].rule == RecordedRule(c, ks[i]))
    && (forall j :: j in t.transitions && !Selected(ks, n, j) ==> r.tree.transitions[j].rule == t.transitions[j].rule)
  }

  /** A transition neither processed nor reverified is untouched. */
  predicate UndoUntouched(t: Tree, ks: seq<TransId>, n: nat, r: UndoResult)
    requires WellFormed(t) && AllIn(t, ks) && n <= |ks| && SameShape(t, r.tree)
  {
    forall j :: j in t.transitions && !Selected(ks, n, j) && !ReverifiedBy(t, ks, n, j) ==>
      r.tree.transitions[j] == t.transitions[j]
  }

  /** Every transition reverified so far has the status the verifier gives
      its current rule. */
  predicate UndoReverified(t: Tree, ks: seq<TransId>, n: nat, verify: Verifier, r: UndoResult)
    requires WellFormed(t) && AllIn(t, ks) && n <= |ks| && SameShape(t, r.tree)
  {
    forall j :: j in t.transitions && ReverifiedBy(t, ks, n, j) ==>
      r.tree.transitions[j].status == verify(j, r.tree.transitions[j].rule)
  }

  /** Everything the undo loop keeps after its first `n` passes. */
  ghost predicate UndoInv(c: Command, t: Tree, ks: seq<TransId>, n: nat, verify: Verifier, r: UndoResult)
    requires WellFormed(t) && AllIn(t, ks) && n <= |ks|
  {
    && UndoShape(t, r)
    && UndoRestored(c, t, ks, n, r)
    && UndoUntouched(t, ks, n, r)
    && UndoReverified(t, ks, n, verify, r)
    && r.events == Removals(c, t, ks[..n])
  }

  lemma UndoInvInit(c: Command, t: Tree, ks: seq<TransId>, verify: Verifier)
    requires WellFormed(t) && AllIn(t, ks)
    ensures UndoInv(c, t, ks, 0, verify, UndoResult(t, [], []))
  {
    assert ks[..0] == [];
  }

  lemma UndoShapeNext(c: Command, t: Tree, ks: seq<TransId>, n: nat, verify: Verifier,
                      r: UndoResult, t': Tree, ev: seq<Event>)
    requires WellFormed(t) && AllIn(t, ks) && n < |ks| && UndoShape(t, r)
    requires UndoDone(c, r.tree, ks[n], verify, t', ev)
    ensures UndoShape(t, UndoResult(t', r.events + ev, r.selection))
  {
  }

  lemma UndoRestoredNext(c: Command, t: Tree, ks: seq<TransId>, n: nat, verify: Verifier,
                         r: UndoResult, t': Tree, ev: seq<Event>)
    requires WellFormed(t) && AllIn(t, ks) && n < |ks| && UndoShape(t, r) && UndoRestored(c, t, ks, n, r)
    requires UndoDone(c, r.tree, ks[n], verify, t', ev)
    ensures SameShape(t, t') && UndoRestored(c, t, ks, n + 1, UndoResult(t', r.events + ev, r.selection))
  {
    SelectedNext(ks, n);
  }

  lemma UndoUntouchedNext(c: Command, t: Tree, ks: seq<TransId>, n: nat, verify: Verifier,
                          r: UndoResult, t': Tree, ev: seq<Event>)
    requires WellFormed(t) && AllIn(t, ks) && n < |ks| && UndoShape(t, r) && UndoUntouched(t, ks, n, r)
    requires UndoDone(c, r.tree, ks[n], verify, t', ev)
    ensures SameShape(t, t') && UndoUntouched(t, ks, n + 1, UndoResult(t', r.events + ev, r.selection))
  {
    SelectedNext(ks, n);
    ReverifiedNext(t, ks, n);
    SameShapeSiblings(t, r.tree, ks[n]);
  }

  lemma UndoReverifiedNext(c: Command, t: Tree, ks: seq<TransId>, n: nat, verify: Verifier,
                           r: UndoResult, t': Tree, ev: seq<Event>)
    requires WellFormed(t) && AllIn(t, ks) && n < |ks| && UndoShape(t, r) && UndoReverified(t, ks, n, verify, r)
    requires UndoDone(c, r.tree, ks[n], verify, t', ev)
    ensures SameShape(t, t') && UndoReverified(t, ks, n + 1, verify, UndoResult(t', r.events + ev, r.selection))
  {
    ReverifiedNext(t, ks, n);
    SameShapeSiblings(t, r.tree, ks[n]);
  }

  lemma UndoAnnouncedNext(c: Command, t: Tree, ks: seq<TransId>, n: nat, verify: Verifier,
                          r: UndoResult, t': Tree, ev: seq<Event>)
    requires WellFormed(t) && AllIn(t, ks) && n < |ks| && UndoShape(t, r) && r.events == Removals(c, t, ks[..n])
    requires UndoDone(c, r.tree, ks[n], verify, t', ev)
    ensures r.events + ev == Removals(c, t, ks[..n + 1])
  {
    assert ks[..n + 1][..n] == ks[..n];
  }

  lemma UndoInvNext(c: Command, t: Tree, ks: seq<TransId>, n: nat, verify: Verifier,
                    r: UndoResult, t': Tree, ev: seq<Event>)
    requires WellFormed(t) && AllIn(t, ks) && n < |ks| && UndoInv(c, t, ks, n, verify, r)
    requires UndoDone(c, r.tree, ks[n], verify, t', ev)
    ensures UndoInv(c, t, ks, n + 1, verify, UndoResult(t', r.events + ev, r.selection))
  {
    UndoShapeNext(c, t, ks, n, verify, r, t', ev);
    UndoRestoredNext(c, t, ks, n, verify, r, t', ev);
    UndoUntouchedNext(c, t, ks, n, verify, r, t', ev);
    UndoReverifiedNext(c, t, ks, n, verify, r, t', ev);
    UndoAnnouncedNext(c, t, ks, n, verify, r, t', ev);
  }

  /** After the last pass the removals are those of all of `ks`. */
  lemma RemovedAll(c: Command, t: Tree, ks: seq<TransId>, r: UndoResult)
    requires AllIn(t, ks) && r.events == Removals(c, t, ks[..|ks|])
    ensures r.events == Removals(c, t, ks)
  {
    assert ks[..|ks|] == ks;
  }

  /** The command may run: the validator reports no error, and the nodes
      the command recorded are in the tree. */
  predicate Executable(c: Command, t: Tree) {
    && WellFormed(t)
    && InTree(t, c.selection)
    && ErrorString(t, c.selection).None?
    && RecordsNodes(c, t)
  }

  /** The shape the validator establishes: a non-empty selection of transitions. */
  predicate TransitionSelection(c: Command, t: Tree) {
    && WellFormed(t)
    && |c.selection| > 0
    && (forall i :: 0 <= i < |c.selection| ==> c.selection[i].TransElem?)
    && InTree(t, c.selection)
  }

  lemma ExecutableSelection(c: Command, t: Tree)
    requires Executable(c, t)
    ensures TransitionSelection(c, t) && AllIn(t, TransIds(c.selection))
  {
  }

  /** After the last pass the announcements are the additions of all of `ks`. */
  lemma AnnouncedAll(t: Tree, ks: seq<TransId>, r: ExecResult)
    requires AllIn(t, ks) && ExecAnnounced(t, ks, |ks|, r)
    ensures r.events == Additions(t, ks, r.newSelection)
  {
    assert ks[..|ks|] == ks;
  }

}
