# LEGUP case-rule command and Binary unbalanced-line rule, in Dafny

This project models two pieces of the LEGUP logic-puzzle proof assistant and
proves properties of them.

**The case-rule command (`ValidateCaseRuleCommand`).** This is a reversible edit of the
proof tree. The tree is an arena of integer handles:
- A transition carries an optional rule, an optional child node, its parent
  nodes and a verification status.
- A node lists its outgoing transitions.
- A counter hands out fresh node handles.

A well-formed tree hangs only its own nodes as children. The command's
recorded nodes are nodes of the tree too, so the node that execute creates
differs from every child and every recorded node.

The command keeps two maps: `oldRule`, the rule each transition had before
execute, and `addNode`, the node the command created for a transition.

- The *validator* (`getErrorString`) reports `NO_SELECTED_VIEWS` for an empty
  selection. Otherwise the first offending element in selection order decides:
  a node gives `SELECTION_CONTAINS_NODE` and a merge transition (more than one
  parent) gives `CONTAINS_MERGE`. With no offender it reports nothing.
- *Execute* visits the selected transitions in order. For each one it:
  - records the old rule and assigns the case rule;
  - gives the transition a child if it has none, reusing the node recorded in
    `addNode` when there is one and creating and recording a fresh node
    otherwise;
  - reverifies every transition leaving the transition's first parent.

  The new selection is the list of children.
- *Undo* visits the selection again. For each transition it:
  - restores the recorded rule (none when nothing was recorded);
  - announces the removal of the current child when `addNode` holds the
    transition;
  - reverifies the siblings.

  It then restores the command's copy of the selection.

Rule checking is left abstract. The outcome of reverifying a transition is an
uninterpreted function (`Verifier`) of the transition and its current rule.
Listener notifications that change the tree view (added and removed nodes)
are returned as an event log.

Proved about the command:
- the validator's precedence, and a loop version equal to it;
- what execute and undo do to every transition, selected or not;
- the children execute creates are new nodes of the tree: none was a child
  or a recorded node before, and each hangs under one transition only;
- execute adds exactly those nodes to the tree, with no transitions leaving
  them;
- execute then undo on a selection without repeats:
  - every rule comes back;
  - recomputed statuses follow the restored rules;
  - everything else is untouched;
  - every child stays attached;
  - for a fresh command, undo announces the removal of exactly the nodes
    execute announced, in order;
- redo right after undo:
  - hangs the same children;
  - creates no node and records nothing new;
  - announces nothing;
  - rebuilds exactly the tree of the first execute;
- redo after a listener has unhooked the announced children:
  - reattaches the very same nodes;
  - repeats the same announcements;
  - again rebuilds the same tree.

`undoCommand` is documented as "restoring the previous state"
(ValidateCaseRuleCommand.java:112). For the children execute created it does
less: it only notifies tree listeners of their removal
(ValidateCaseRuleCommand.java:125-127) and leaves each child attached in the
tree. The model follows the code. A listener that unhooks the announced
children is a separate, explicit step (`DetachChildren`), and redo is proved
both with and without it.

**The Binary rule "Unbalanced Row/Column" (`checkContradictionAt`).** A board
is a rectangular `seq<seq<Cell>>` with cells `Zero`, `One` or `Unknown`. At
cell `(x, y)` the rule reports a contradiction (no message) when row `y`, or
failing that column `x`, holds more zeros or more ones than half its size,
rounded down. Empty cells count toward the size only. Otherwise it returns
the base no-contradiction message, then `": "`, then `"Does not contain a
contradiction at this index"`.

Proved about the rule:
- the contradiction is genuine: an over-full line has no balanced completion;
- on boards of even size the rule is exact: it reports a contradiction
  precisely when the row or the column cannot be completed into a balanced
  line;
- empty lines never give a contradiction;
- the verdict depends only on the cell's row and column;
- a loop version that tallies like the source equals the function.

Files: `options.dfy` (option type), `proof_tree.dfy` (tree and its
primitives), `case_rule_validation.dfy` (validator),
`case_rule_command.dfy` (one pass of execute and undo, loop invariants),
`case_rule_history.dfy` (execute, undo, and their compositions),
`binary_board.dfy` (board, lines, counting), `unbalanced_row_column.dfy`
(the rule).

## Model

| member | source | states |
|---|---|---|
| CaseRuleValidation.ErrorString | src/main/java/edu/rpi/legup/history/ValidateCaseRuleCommand.java:93-110 | An empty selection gives NO_SELECTED_VIEWS. Otherwise no error exactly when every element is a transition with at most one parent, and an error is the one of the first offending element |
| CaseRuleValidation.FirstOffenderDecides | src/main/java/edu/rpi/legup/history/ValidateCaseRuleCommand.java:99-108 | The first offending element alone decides the error: a node before a merge gives SELECTION_CONTAINS_NODE, and a merge before a node gives CONTAINS_MERGE |
| CaseRuleValidation.GetErrorString | src/main/java/edu/rpi/legup/history/ValidateCaseRuleCommand.java:93-110 | The early-return loop over the selection computes exactly the validator's verdict |
| CaseRuleValidation.ErrorStringSameShape | src/main/java/edu/rpi/legup/history/ValidateCaseRuleCommand.java:99-108 | The verdict depends only on the selection and on transitions' parents, so rule, child and status changes keep it |
| ProofTree.Siblings | src/main/java/edu/rpi/legup/history/ValidateCaseRuleCommand.java:69 | The transitions reverified for `k` (children of its first parent) include `k` itself |
| ProofTree.SetRule | src/main/java/edu/rpi/legup/history/ValidateCaseRuleCommand.java:54 | Assigning a rule changes that transition's rule only; shape, nodes and other transitions are kept |
| ProofTree.AddTreeElement | src/main/java/edu/rpi/legup/history/ValidateCaseRuleCommand.java:60 | Creating a child hangs a node handle that did not exist before, under that transition only. The handle becomes a node of the tree and was no transition's child before |
| ProofTree.AttachTreeElement | src/main/java/edu/rpi/legup/history/ValidateCaseRuleCommand.java:63 | Reattaching hangs the given existing node and creates nothing |
| ProofTree.Reverify | src/main/java/edu/rpi/legup/history/ValidateCaseRuleCommand.java:69 | Listed transitions get the verifier's status for their current rule; no rule, child or unlisted status changes |
| ProofTree.DetachChildren | src/main/java/edu/rpi/legup/history/ValidateCaseRuleCommand.java:126 | A listener acting on a removal notice unhooks the child but keeps the node, so its handle can be hung back |
| CaseRuleCommand.NewCommand | src/main/java/edu/rpi/legup/history/ValidateCaseRuleCommand.java:33-38 | A new command holds the selection and case rule and has recorded no rule and no node, so its recorded nodes are trivially in any tree. This is the fresh-command premise of `ExecuteThenUndo`'s mirror clause and of `ExecuteUndoDetachRedo` |
| CaseRuleCommand.TransIds | src/main/java/edu/rpi/legup/history/ValidateCaseRuleCommand.java:48-51 | The selected views read as transitions, one per view, in selection order |
| CaseRuleCommand.EnsureChild | src/main/java/edu/rpi/legup/history/ValidateCaseRuleCommand.java:56-65 | The child is the existing one, else the recorded one, else a fresh node, which joins the tree's nodes and is recorded. A fresh node was no transition's child and no node the command recorded. The recorded nodes stay nodes of the tree. The tree gains exactly that fresh node, with no transitions leaving it, and no node when `addNode` does not grow |
| CaseRuleCommand.ExecuteStep | src/main/java/edu/rpi/legup/history/ValidateCaseRuleCommand.java:50-70 | One pass records the old rule, assigns the case rule, ensures a child, announces an addition only for a childless transition, and changes only the siblings' statuses. The tree gains exactly the node created for the transition, with no transitions leaving it, and no other |
| CaseRuleCommand.UndoStep | src/main/java/edu/rpi/legup/history/ValidateCaseRuleCommand.java:119-128 | One pass gives back the recorded rule (none if unrecorded), announces a removal exactly when `addNode` holds the transition, and keeps every child |
| CaseRuleHistory.Execute | src/main/java/edu/rpi/legup/history/ValidateCaseRuleCommand.java:42-84 | Each selected transition ends with the case rule and a child that was existing, recorded, or fresh and then recorded; the new selection lists those children in order. Unselected rules and children are kept, and transitions neither selected nor reverified are untouched. `oldRule` gains exactly the selected transitions, reverified statuses follow the verifier, and one addition is announced per first-met childless transition. A child it creates is a node of the resulting tree that was not one before and not a node the command had recorded. No other transition, selected or not, hangs it afterwards. The tree gains exactly the created children, one per transition that had neither a child nor a recorded node, and no transition leaves any of them. The recorded nodes stay nodes of the tree |
| CaseRuleCommand.CreatedExactlyHolds | src/main/java/edu/rpi/legup/history/ValidateCaseRuleCommand.java:57-61 | The nodes the command recorded beyond those it had are exactly the children reported for the transitions it created a child for, so the tree's nodes after execute are the old ones plus those children |
| CaseRuleCommand.FreshChildrenHold | src/main/java/edu/rpi/legup/history/ValidateCaseRuleCommand.java:57-61 | Since each created child is the fresh node recorded for its transition, created children are new nodes of the tree, differ from the recorded nodes, and hang under their own transition only |
| CaseRuleHistory.ExecuteLoop | src/main/java/edu/rpi/legup/history/ValidateCaseRuleCommand.java:48-71 | After the loop over all selected transitions, every per-prefix invariant of execute holds for the whole selection |
| CaseRuleHistory.Undo | src/main/java/edu/rpi/legup/history/ValidateCaseRuleCommand.java:114-134 | Every selected transition carries its recorded rule and unselected rules are kept. No child changes, untouched transitions stay equal, and reverified ones follow their rule. The removals are one per recorded transition, and the selection is the command's copy |
| CaseRuleHistory.UndoLoop | src/main/java/edu/rpi/legup/history/ValidateCaseRuleCommand.java:117-129 | After the loop over the selection, every per-prefix invariant of undo holds for the whole selection |
| CaseRuleHistory.UndoRestoresRules | src/main/java/edu/rpi/legup/history/ValidateCaseRuleCommand.java:122 | On a selection without repeats, undo after execute gives every transition the rule it had before execute |
| CaseRuleHistory.UndoAfterRepeatKeepsCaseRule | src/main/java/edu/rpi/legup/history/ValidateCaseRuleCommand.java:52 | A transition selected twice has the case rule recorded by its second pass, so undo leaves the case rule on it |
| CaseRuleHistory.UndoStatuses | src/main/java/edu/rpi/legup/history/ValidateCaseRuleCommand.java:128 | After execute and undo, a recomputed status follows the restored rule, and a transition neither loop reverified is exactly as before |
| CaseRuleHistory.SelectedChildrenLeft | src/main/java/edu/rpi/legup/history/ValidateCaseRuleCommand.java:124-126 | Undo detaches nothing: each selected transition still hangs the child execute reported |
| CaseRuleHistory.RecordedIffChildless | src/main/java/edu/rpi/legup/history/ValidateCaseRuleCommand.java:56-62 | For a fresh command, execute records a node exactly for the selected transitions that had no child, and that node is the reported child |
| CaseRuleHistory.RemovalsMirrorAdditions | src/main/java/edu/rpi/legup/history/ValidateCaseRuleCommand.java:125-126 | When exactly the childless transitions are recorded, undo's removal notices retract execute's addition notices one for one, in order |
| CaseRuleHistory.ExecuteThenUndo | src/main/java/edu/rpi/legup/history/ValidateCaseRuleCommand.java:49-128 | Execute then undo without repeats: rules come back, statuses follow them, others are untouched, every child stays attached, and a fresh command's removals mirror its additions |
| CaseRuleHistory.ExecutableAfterUndo | src/main/java/edu/rpi/legup/history/ValidateCaseRuleCommand.java:93-110 | After execute and undo the validator still accepts the selection and the recorded nodes are still in the tree, so redo may run |
| CaseRuleHistory.AdditionsNone | src/main/java/edu/rpi/legup/history/ValidateCaseRuleCommand.java:57-68 | When every selected transition has a child, execute announces nothing |
| CaseRuleHistory.AdditionsAgree | src/main/java/edu/rpi/legup/history/ValidateCaseRuleCommand.java:57-68 | Execute's announcements depend only on which selected transitions lack a child |
| CaseRuleHistory.RedoReuses | src/main/java/edu/rpi/legup/history/ValidateCaseRuleCommand.java:56-64 | When each selected transition hangs its old child or has it recorded, redo reports the same children, records nothing new and creates no node |
| CaseRuleHistory.RedoSameTree | src/main/java/edu/rpi/legup/history/ValidateCaseRuleCommand.java:50-70 | Redo from a tree that agrees with execute's off the selection rebuilds exactly execute's tree |
| CaseRuleHistory.ExecuteUndoRedo | src/main/java/edu/rpi/legup/history/ValidateCaseRuleCommand.java:56-65 | Execute, undo, execute: same new selection, same `addNode`, no new node, no announcement, and the same tree as after the first execute |
| CaseRuleHistory.ExecuteUndoDetachRedo | src/main/java/edu/rpi/legup/history/ValidateCaseRuleCommand.java:58-63 | With the announced children unhooked in between, redo reattaches the same recorded nodes, creates none, repeats the first announcements and rebuilds the same tree |
| BinaryBoard.Row | src/main/java/edu/rpi/legup/puzzle/binary/rules/UnbalancedRowColumnContradictionRule.java:39 | The row of `y` has the board's width and holds that row's cells in order |
| BinaryBoard.RowColumnCross | src/main/java/edu/rpi/legup/puzzle/binary/rules/UnbalancedRowColumnContradictionRule.java:39-58 | The row and the column the rule reads both pass through the cell `(x, y)` |
| BinaryBoard.Column | src/main/java/edu/rpi/legup/puzzle/binary/rules/UnbalancedRowColumnContradictionRule.java:58 | The column of `x` has one cell per row, namely that row's cell at `x` |
| BinaryBoard.Count | src/main/java/edu/rpi/legup/puzzle/binary/rules/UnbalancedRowColumnContradictionRule.java:45-51 | The tally of one value never exceeds the line's size |
| BinaryBoard.CountIsMultiplicity | src/main/java/edu/rpi/legup/puzzle/binary/rules/UnbalancedRowColumnContradictionRule.java:45-51 | The tally of a value is its multiplicity in the line, independent of visiting order (the source iterates a set) |
| BinaryBoard.CountsPartition | src/main/java/edu/rpi/legup/puzzle/binary/rules/UnbalancedRowColumnContradictionRule.java:41-51 | Zeros, ones and empty cells together make up the line's size |
| UnbalancedRowColumn.CheckContradictionAt | src/main/java/edu/rpi/legup/puzzle/binary/rules/UnbalancedRowColumnContradictionRule.java:35-78 | No message exactly when the row or the column holds more than size/2 zeros or ones; otherwise the base message, ": " and the rule's explanation |
| UnbalancedRowColumn.Tally | src/main/java/edu/rpi/legup/puzzle/binary/rules/UnbalancedRowColumnContradictionRule.java:45-51 | The counting loop yields the number of zeros and the number of ones and skips empty cells |
| UnbalancedRowColumn.CheckContradictionAtLoops | src/main/java/edu/rpi/legup/puzzle/binary/rules/UnbalancedRowColumnContradictionRule.java:35-78 | Tallying the row, returning early, then tallying the column gives exactly the rule's verdict |
| UnbalancedRowColumn.OverFullNotCompletable | src/main/java/edu/rpi/legup/puzzle/binary/rules/UnbalancedRowColumnContradictionRule.java:53-56 | A line over the size/2 bound has no completion with as many zeros as ones: the contradiction is genuine |
| UnbalancedRowColumn.NotOverFullCompletable | src/main/java/edu/rpi/legup/puzzle/binary/rules/UnbalancedRowColumnContradictionRule.java:72-75 | An even-length line within the bound can be completed into a balanced line |
| UnbalancedRowColumn.ContradictionExact | src/main/java/edu/rpi/legup/puzzle/binary/rules/UnbalancedRowColumnContradictionRule.java:18-22 | On an even-sized board, the rule reports a contradiction exactly when the row or column has no balanced completion |
| UnbalancedRowColumn.FullLineBalance | src/main/java/edu/rpi/legup/puzzle/binary/rules/UnbalancedRowColumnContradictionRule.java:54 | A line with no empty cell is within the bound exactly when it has even length and as many zeros as ones |
| UnbalancedRowColumn.EmptyLineNotOverFull | src/main/java/edu/rpi/legup/puzzle/binary/rules/UnbalancedRowColumnContradictionRule.java:45-56 | A line of empty cells tallies no zero and no one, so it is never over the bound |
| UnbalancedRowColumn.EmptyRowColumnDecides | src/main/java/edu/rpi/legup/puzzle/binary/rules/UnbalancedRowColumnContradictionRule.java:53-75 | When the cell's row is empty, the rule reports a contradiction exactly when the column is over the bound |
| UnbalancedRowColumn.EmptyLinesNoContradiction | src/main/java/edu/rpi/legup/puzzle/binary/rules/UnbalancedRowColumnContradictionRule.java:41-51 | Empty cells count toward size only, so a cell whose row and column are empty gets the no-contradiction message |
| UnbalancedRowColumn.Locality | src/main/java/edu/rpi/legup/puzzle/binary/rules/UnbalancedRowColumnContradictionRule.java:38-58 | The verdict reads only row `y` and column `x`: boards equal there get the same verdict |

What `CaseRuleHistory.Execute` guarantees:
- every selected transition ends with the case rule and the child reported
  for it;
- the new selection lists those children in selection order;
- each child was existing, recorded, or freshly created and then recorded;
- unselected transitions keep their rule and child, and existing children are
  kept;
- transitions that were neither selected nor reverified are untouched;
- `oldRule` gains exactly the selected transitions: a transition met once
  records its old rule, one met twice records the case rule;
- reverified transitions carry the verifier's status;
- one addition is announced per first-met childless transition;
- a child it creates is a node of the resulting tree that was not one
  before and not a recorded node, and no other transition hangs it;
- the tree gains exactly the created children, each with no transitions
  leaving it.

## Left out

- src/main/java/edu/rpi/legup/controller/RuleController.java is a Swing
  dispatcher. It routes user actions through singletons and does not compile
  as written, so it is not part of this model.
- src/main/java/puzzles/sudoku/Sudoku.java holds stubs only, so it is not part
  of this model.
- src/main/java/edu/rpi/legup/puzzle/thermometer/rules/FinishWithBlockedDirectRule.java
  is an unimplemented stub, so it is not part of this model.
- src/main/java/edu/rpi/legup/puzzle/fillapix/elements/NumberTile.java is a
  getter/setter with no behaviour, so it is not part of this model.
- Singletons and the tree view (ValidateCaseRuleCommand.java:43-46, 70) are
  left out. The tree is a parameter, and the new selection is a list of node
  handles rather than views.
- The changed-element and selection-changed notifications after each loop
  (ValidateCaseRuleCommand.java:73-83, 131-133) are not in the event log.
  - After execute, the changed element is the child of the first selected
    transition, `newSelection[0]`, and the selection-changed payload is
    `newSelection`.
  - After undo, the changed element is the first selected element, and the
    selection-changed payload is `selection`.
- The branch at ValidateCaseRuleCommand.java:75-77 handles a node as the
  first selected element. It is unreachable once the validator has accepted
  the selection, so it is not modelled.
- ProofTree.Reverify: the model assumes that reverifying a transition
  changes only that transition's status, and that the status is a function
  (`Verifier`) of the transition's handle and current rule.
  `TreeTransition.reverify` is not part of this model. Any effect it has on
  the child node or below is not modelled.
- The validator counts the parents of a transition's view
  (ValidateCaseRuleCommand.java:104). The model counts the transition's own
  `parents`, which assumes the view's parents mirror them. The tree view is
  not part of this model.
- `CaseRule` is opaque: rules are `RuleId` handles.
- `Tree.addTreeElement` is modelled only as far as the command relies on it:
  a fresh handle, or reattachment of a given node.
- Tree well-formedness links a transition only to its first parent, the one
  the command uses. The other parents are not constrained.
- The history stack itself (pushing, popping, clearing redo) is not modelled.
  The composite methods run execute, undo and redo in sequence directly.
- `TreeViewSelection` is a plain sequence, so a repeated element is possible
  in the model. The source's class is not part of this model.
- CaseRuleHistory.ExecuteThenUndo: rule restoration is stated for selections
  without repeats only. With a repeat, the source records the case rule over
  the old one (ValidateCaseRuleCommand.java:52), and
  `UndoAfterRepeatKeepsCaseRule` states what happens then.
- UnbalancedRowColumn.ContradictionExact: the converse direction (not
  over-full implies completable) holds for even sizes only. A line of odd
  size never balances, yet the rule does not flag one that is within the
  bound.
- `getNoContradictionMessage` of the contradiction-rule superclass is not
  part of this model. The base message is a parameter.
- Cell lookup through `getPuzzleElement` and cell locations is replaced by
  the coordinates `(x, y)` of a cell on the board.
- `getRowCells` and `getColCells` return sets of cells. The model uses the
  row and column as sequences. This assumes each cell of a line is a
  distinct element of the set, so that the set and the sequence have the same
  counts. `BinaryCell` equality is not part of this model.
- Java `int` overflow is not modelled: tallies are bounded by the line size.
