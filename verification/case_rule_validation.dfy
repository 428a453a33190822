/**
 The precondition check of the case-rule command: the selection is examined in
 order and the first problem found is reported, or none when the command may run.
 */
module CaseRuleValidation {
  import opened Options
  import opened ProofTree

  datatype CommandError = NoSelectedViews | SelectionContainsNode | ContainsMerge

  /** Every selected transition is a transition of the tree. */
  predicate InTree(t: Tree, sel: seq<ElemRef>) {
    forall i :: 0 <= i < |sel| && sel[i].TransElem? ==> sel[i].trans in t.transitions
  }

  /** A selected element the command cannot work on: a node, or a merge transition. */
  predicate Offends(t: Tree, v: ElemRef)
    requires v.TransElem? ==> v.trans in t.transitions
  {
    v.NodeElem? || |t.transitions[v.trans].parents| > 1
  }

  /** The error an offending element is reported with. */
  function ErrorFor(v: ElemRef): CommandError {
    if v.NodeElem? then SelectionContainsNode else ContainsMerge
  }

  /** `i` is the position of the first offending element of `sel`. */
  predicate FirstOffender(t: Tree, sel: seq<ElemRef>, i: int)
    requires InTree(t, sel)
  {
    && 0 <= i < |sel|
    && Offends(t, sel[i])
    && forall j :: 0 <= j < i ==> !Offends(t, sel[j])
  }

  /** Scans the selection front to back and reports the first offending element. */
  function Scan(t: Tree, sel: seq<ElemRef>): (r: Option<CommandError>)
    requires InTree(t, sel)
    ensures r.None? <==> forall i :: 0 <= i < |sel| ==> !Offends(t, sel[i])
    ensures r.Some? ==> exists i :: FirstOffender(t, sel, i) && r.value == ErrorFor(sel[i])
  {
    if |sel| == 0 then None
    else if Offends(t, sel[0]) then
      assert FirstOffender(t, sel, 0);
      Some(ErrorFor(sel[0]))
    else
      var rest := Scan(t, sel[1..]);
      assert forall i :: 1 <= i < |sel| ==> sel[i] == sel[1..][i - 1];
      if rest.Some? then
        var i :| FirstOffender(t, sel[1..], i) && rest.value == ErrorFor(sel[1..][i]);
        assert FirstOffender(t, sel, i + 1);
        rest
      else rest
  }

  /** The error string of the command: the selection must be non-empty and
      every element must be a transition with at most one parent. */
  function ErrorString(t: Tree, sel: seq<ElemRef>): (r: Option<CommandError>)
    requires InTree(t, sel)
    ensures |sel| == 0 ==> r == Some(NoSelectedViews)
    ensures |sel| > 0 ==> (r.None? <==> forall i :: 0 <= i < |sel| ==> sel[i].TransElem? && |t.transitions[sel[i].trans].parents| <= 1)
    ensures |sel| > 0 && r.Some? ==> exists i :: FirstOffender(t, sel, i) && r.value == ErrorFor(sel[i])
  {
    if |sel| == 0 then Some(NoSelectedViews) else Scan(t, sel)
  }

  /** The first offender is unique, so it alone decides the error. */
  lemma {:induction false} FirstOffenderDecides(t: Tree, sel: seq<ElemRef>, i: int)
    requires InTree(t, sel) && FirstOffender(t, sel, i)
    ensures ErrorString(t, sel) == Some(ErrorFor(sel[i]))
  {
    var r := ErrorString(t, sel);
    var j :| FirstOffender(t, sel, j) && r.value == ErrorFor(sel[j]);
    if j < i {
      assert false;
    } else if i < j {
      assert false;
    }
  }

  /** The scan reads only the selection and the parents of transitions, so
      trees of the same shape give the same answer. */
  lemma {:induction false} ScanSameShape(t: Tree, u: Tree, sel: seq<ElemRef>)
    requires SameShape(t, u) && InTree(t, sel)
    ensures InTree(u, sel) && Scan(u, sel) == Scan(t, sel)
  {
    if |sel| > 0 {
      assert InTree(t, sel[1..]) by {
        forall i | 0 <= i < |sel[1..]| && sel[1..][i].TransElem? ensures sel[1..][i].trans in t.transitions {
          assert sel[1..][i] == sel[i + 1];
        }
      }
      ScanSameShape(t, u, sel[1..]);
    }
  }

  /** Rule assignment, attachment and reverification leave the validator's
      verdict on a selection unchanged. */
  lemma ErrorStringSameShape(t: Tree, u: Tree, sel: seq<ElemRef>)
    requires SameShape(t, u) && InTree(t, sel)
    ensures InTree(u, sel) && ErrorString(u, sel) == ErrorString(t, sel)
  {
    ScanSameShape(t, u, sel);
  }

  /** `getErrorString` as written: an early-return loop over the selection. */
  method GetErrorString(t: Tree, sel: seq<ElemRef>) returns (r: Option<CommandError>)
    requires InTree(t, sel)
    ensures r == ErrorString(t, sel)
  {
    if |sel| == 0 {
      return Some(NoSelectedViews);
    }
    var i := 0;
    while i < |sel|
      invariant 0 <= i <= |sel|
      invariant forall j :: 0 <= j < i ==> !Offends(t, sel[j])
    {
      if sel[i].NodeElem? {
        FirstOffenderDecides(t, sel, i);
        return Some(SelectionContainsNode);
      } else if |t.transitions[sel[i].trans].parents| > 1 {
        FirstOffenderDecides(t, sel, i);
        return Some(ContainsMerge);
      }
      i := i + 1;
    }
    return None;
  }

}
