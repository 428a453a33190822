/**
 A proof tree as an arena of integer handles. Nodes hold board states (left
 opaque) and transitions are rule-justified edges. A transition carries an
 optional rule, an optional child node, its parent nodes (more than one means a
 merge) and a verification status. Nodes list their outgoing transitions.
 */
module ProofTree {
  import opened Options

  type NodeId = int
  type TransId = int
  /** Handle of a rule; rules themselves are opaque strategies. */
  type RuleId = int

  datatype Status = Unjustified | Correct | Incorrect

  datatype Transition = Transition(
    rule: Option<RuleId>,
    child: Option<NodeId>,
    parents: seq<NodeId>,
    status: Status)

  datatype Node = Node(children: seq<TransId>)

  /** `next` is the handle the next freshly created node receives. */
  datatype Tree = Tree(
    transitions: map<TransId, Transition>,
    nodes: map<NodeId, Node>,
    next: NodeId)

  /** A selected tree element: either a node or a transition. */
  datatype ElemRef = NodeElem(node: NodeId) | TransElem(trans: TransId)

  /**
   Re-checking a transition's rule against its boards. The boards are not
   modelled, so the outcome is an uninterpreted function of the transition's
   handle (standing for its boards) and the rule currently assigned to it.
   */
  type Verifier = (TransId, Option<RuleId>) -> Status

  /** Structural invariant of a tree: every transition has a first parent,
      which is a node of the tree listing the transition among its children,
      and a child, if any, that is a node of the tree; every node handle was
      issued before `next`. */
  predicate WellFormed(t: Tree) {
    && (forall k :: k in t.transitions ==>
          && |t.transitions[k].parents| >= 1
          && t.transitions[k].parents[0] in t.nodes
          && k in t.nodes[t.transitions[k].parents[0]].children
          && (t.transitions[k].child.Some? ==> t.transitions[k].child.value in t.nodes))
    && (forall n :: n in t.nodes ==> n < t.next)
  }

  /** The first parent of a transition, the node whose children get reverified. */
  function FirstParent(t: Tree, k: TransId): NodeId
    requires WellFormed(t) && k in t.transitions
  {
    t.transitions[k].parents[0]
  }

  /** All transitions leaving the first parent of `k`; `k` is one of them. */
  function Siblings(t: Tree, k: TransId): (s: seq<TransId>)
    requires WellFormed(t) && k in t.transitions
    ensures k in s
  {
    t.nodes[FirstParent(t, k)].children
  }

  /** True when two trees agree on every node and on every transition's
      parents: exactly what rule assignment, attachment and reverification keep. */
  predicate SameShape(t: Tree, u: Tree) {
    && t.transitions.Keys == u.transitions.Keys
    && (forall n :: n in t.nodes ==> n in u.nodes && u.nodes[n] == t.nodes[n])
    && (forall k :: k in t.transitions ==> u.transitions[k].parents == t.transitions[k].parents)
  }

  lemma SameShapeSiblings(t: Tree, u: Tree, k: TransId)
    requires WellFormed(t) && WellFormed(u) && SameShape(t, u) && k in t.transitions
    ensures Siblings(u, k) == Siblings(t, k)
  {
  }

  /** Assigns a rule (or none) to transition `k`. */
  function SetRule(t: Tree, k: TransId, rule: Option<RuleId>): (r: Tree)
    requires k in t.transitions
    ensures WellFormed(t) ==> WellFormed(r)
    ensures SameShape(t, r) && r.next == t.next
    ensures r.transitions[k].rule == rule
    ensures r.transitions[k].child == t.transitions[k].child
    ensures forall j :: j in t.transitions && j != k ==> r.transitions[j] == t.transitions[j]
  {
    t.(transitions := t.transitions[k := t.transitions[k].(rule := rule)])
  }

  /** Creates a fresh node and hangs it under `k`, which has no child yet.
      The new node is no transition's child before. */
  function AddTreeElement(t: Tree, k: TransId): (r: Tree)
    requires WellFormed(t) && k in t.transitions && t.transitions[k].child.None?
    ensures WellFormed(r)
    ensures t.next !in t.nodes && r.nodes == t.nodes[t.next := Node([])]
    ensures forall j :: j in t.transitions ==> t.transitions[j].child != Some(t.next)
    ensures SameShape(t, r) && r.next > t.next
    ensures r.transitions[k].child == Some(t.next)
    ensures r.transitions[k].rule == t.transitions[k].rule
    ensures forall j :: j in t.transitions && j != k ==> r.transitions[j] == t.transitions[j]
  {
    Tree(t.transitions[k := t.transitions[k].(child := Some(t.next))],
         t.nodes[t.next := Node([])],
         t.next + 1)
  }

  /** Hangs an existing node `n` back under `k`, which has no child. */
  function AttachTreeElement(t: Tree, k: TransId, n: NodeId): (r: Tree)
    requires k in t.transitions && t.transitions[k].child.None? && n in t.nodes
    ensures WellFormed(t) ==> WellFormed(r)
    ensures SameShape(t, r) && r.nodes == t.nodes && r.next == t.next
    ensures r.transitions[k].child == Some(n)
    ensures r.transitions[k].rule == t.transitions[k].rule
    ensures forall j :: j in t.transitions && j != k ==> r.transitions[j] == t.transitions[j]
  {
    t.(transitions := t.transitions[k := t.transitions[k].(child := Some(n))])
  }

  /** Recomputes the status of every transition listed in `ks` from its
      current rule; nothing else about any transition changes. */
  function Reverify(t: Tree, ks: seq<TransId>, verify: Verifier): (r: Tree)
    ensures WellFormed(t) ==> WellFormed(r)
    ensures SameShape(t, r) && r.nodes == t.nodes && r.next == t.next
    ensures forall j :: j in t.transitions ==>
      && r.transitions[j].rule == t.transitions[j].rule
      && r.transitions[j].child == t.transitions[j].child
      && r.transitions[j].status == (if j in ks then verify(j, t.transitions[j].rule) else t.transitions[j].status)
  {
    t.(transitions := map j | j in t.transitions ::
         if j in ks then t.transitions[j].(status := verify(j, t.transitions[j].rule))
         else t.transitions[j])
  }

  /** Unhooks the child of every transition in `ds`. The nodes stay in the
      arena, so a command that kept their handles can hang them back. */
  function DetachChildren(t: Tree, ds: set<TransId>): (r: Tree)
    ensures WellFormed(t) ==> WellFormed(r)
    ensures SameShape(t, r) && r.nodes == t.nodes && r.next == t.next
    ensures forall j :: j in t.transitions ==>
      r.transitions[j] == (if j in ds then t.transitions[j].(child := None) else t.transitions[j])
  {
    t.(transitions := map j | j in t.transitions ::
         if j in ds then t.transitions[j].(child := None) else t.transitions[j])
  }

  lemma SameShapeTrans(t: Tree, u: Tree, v: Tree)
    requires SameShape(t, u) && SameShape(u, v)
    ensures SameShape(t, v)
  {
  }

}
