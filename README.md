# Backtrackable state and small solver pieces of choco-solver, in Dafny

This project models the part of the choco-solver constraint solver that keeps
search state undoable, together with a few small self-contained pieces of the
solver. Each core Java file becomes one Dafny module.

- `VectorTrail` (`vector_trail.dfy`) models `StoredDoubleVectorTrail`. It is the undo log of
  the stored `double` vectors: four parallel arrays (vector, index, former value,
  former stamp) that grow by half when full. `worldPush` records where a world
  starts, and `worldPop` replays the world's entries last-first through `_set`.
  `worldCommit` merges the current world into its parent with a stable in-place
  compaction. The stored vectors are a map from (vector, index) to
  (value, stamp). A `double` is only copied, so it is its 64-bit pattern.
  Spec functions `Undo`, `Compact` and `Restamp` state what pop and commit
  compute. Lemmas prove the round trip: writes in a fresh world, then a pop,
  give the cells back as they were. The commit law is proved too: writes made
  in a world and then committed leave the same entries and cells as the same
  writes made directly in the parent world, also when the parent wrote before
  the inner world was pushed, so a later pop of the parent still restores
  correctly.
- `Trailing` (`trailing.dfy`) models `IStateInt`. It is a backtrackable Java `int`
  cell with a value and a world stamp. `set` is the trailing write: it saves the
  former (value, stamp) on the environment's trail once per world. `add` wraps
  around on 32 bits.
- `Copying` (`copying.dfy`) models `RcObject`, the object cell of the copying
  environment. It registers itself in the environment's object list when it is
  created, and each write stamps it with the current world.
- `NotEqual` (`not_equal.dfy`) models `PropNotEqualXY_C`, the propagator for X + Y != C.
  It covers the propagation conditions, filtering, passivity and the
  three-valued entailment check. A domain is the increasing sequence of its
  values.
- `Nogoods` (`nogoods.dfy`) models `NogoodFromRestarts`, which learns nogoods
  from the decision path at each restart. The spec function `Extract` reads
  the path root first; `Drain` processes the queue as the code polls it.
- `Indices` (`indices.dfy`) models `IndexFactory`, a per-instance counter that
  starts at 33.
- `Distance` (`distance.dfy`) models the `DistanceXYC` constructor: its operator
  check and its fields.

## Model

| member | source | states |
|---|---|---|
| VectorTrail.StoredDoubleVectorTrail.constructor | choco-solver/src/main/java/org/chocosolver/memory/trailing/trail/StoredDoubleVectorTrail.java:99-108 | The trail starts empty with capacity `nUpdates`, and all `nWorlds` world starts are 0. |
| VectorTrail.StoredDoubleVectorTrail.SavePreviousState | choco-solver/src/main/java/org/chocosolver/memory/trailing/trail/StoredDoubleVectorTrail.java:115-124 | Appends exactly one entry (cell, former value, former stamp). The capacity grows to `(max*3)/2` exactly when the trail becomes full, and the trail invariant is kept. |
| VectorTrail.StoredDoubleVectorTrail.ResizeUpdateCapacity | choco-solver/src/main/java/org/chocosolver/memory/trailing/trail/StoredDoubleVectorTrail.java:126-147 | The four arrays are replaced by fresh ones of capacity `(max*3)/2`, and every entry is kept. |
| VectorTrail.CopyOf | choco-solver/src/main/java/org/chocosolver/memory/trailing/trail/StoredDoubleVectorTrail.java:129-130 | A fresh array of the new length holds the old contents as its prefix and the default value after them. |
| VectorTrail.StoredDoubleVectorTrail.ResizeWorldCapacity | choco-solver/src/main/java/org/chocosolver/memory/trailing/trail/StoredDoubleVectorTrail.java:149-153 | Recorded world starts are kept, new slots are 0, and no entry changes. |
| VectorTrail.StoredDoubleVectorTrail.WorldPush | choco-solver/src/main/java/org/chocosolver/memory/trailing/trail/StoredDoubleVectorTrail.java:161-163 | Only the start of world `w` changes, and it becomes the current level. |
| VectorTrail.StoredDoubleVectorTrail.WorldPop | choco-solver/src/main/java/org/chocosolver/memory/trailing/trail/StoredDoubleVectorTrail.java:172-179 | The level drops to the world's start (when it is above it), the entries are truncated there, and the cells equal `Undo` of the dropped entries, replayed last-first. |
| VectorTrail.StoredDoubleVectorTrail.WorldCommit | choco-solver/src/main/java/org/chocosolver/memory/trailing/trail/StoredDoubleVectorTrail.java:186-213 | Entries below the world's start stay. From the start on, the entries become `Compact` (those whose saved stamp is not the parent world, in order), and the cells become `Restamp` (every mentioned cell stamped with the parent world). |
| VectorTrail.StoredDoubleVectorTrail.ScanWorld | choco-solver/src/main/java/org/chocosolver/memory/trailing/trail/StoredDoubleVectorTrail.java:194-211 | The scan loop leaves the kept entries, in order, at `[start, writeIdx)`, and the cells restamped. |
| VectorTrail.StoredDoubleVectorTrail.ScanEntry | choco-solver/src/main/java/org/chocosolver/memory/trailing/trail/StoredDoubleVectorTrail.java:196-210 | One iteration restamps the entry's cell with the parent world and then performs the compaction step. |
| VectorTrail.StoredDoubleVectorTrail.KeepEntry | choco-solver/src/main/java/org/chocosolver/memory/trailing/trail/StoredDoubleVectorTrail.java:201-210 | The compaction step moves the entry down to `writeIdx` and advances it exactly when the saved stamp differs from the parent world. The kept entries stay in order. |
| VectorTrail.StoredDoubleVectorTrail.MoveEntry | choco-solver/src/main/java/org/chocosolver/memory/trailing/trail/StoredDoubleVectorTrail.java:201-206 | Entry `dst` of the four arrays becomes what entry `src` was, and every other entry stays as it was. |
| VectorTrail.StoredDoubleVectorTrail.GetSize | choco-solver/src/main/java/org/chocosolver/memory/trailing/trail/StoredDoubleVectorTrail.java:220-222 | The size is the number of entries on the trail. |
| VectorTrail.DoubleVectorStore.RawSet | choco-solver/src/main/java/org/chocosolver/memory/trailing/trail/StoredDoubleVectorTrail.java:177 | Only the given element changes, and it gets exactly the given value and stamp. |
| VectorTrail.DoubleVectorStore.SetStamp | choco-solver/src/main/java/org/chocosolver/memory/trailing/trail/StoredDoubleVectorTrail.java:200 | Only the element's stamp changes; its value is kept. |
| VectorTrail.UndoUntouched | choco-solver/src/main/java/org/chocosolver/memory/trailing/trail/StoredDoubleVectorTrail.java:172-179 | Popping leaves a cell no entry mentions unchanged. |
| VectorTrail.UndoRestoresEarliest | choco-solver/src/main/java/org/chocosolver/memory/trailing/trail/StoredDoubleVectorTrail.java:172-179 | Popping gives a mentioned cell the state saved by its earliest entry. |
| VectorTrail.UndoKeys | choco-solver/src/main/java/org/chocosolver/memory/trailing/trail/StoredDoubleVectorTrail.java:172-179 | Popping adds exactly the mentioned cells. |
| VectorTrail.FirstOccurrence | choco-solver/src/main/java/org/chocosolver/memory/trailing/trail/StoredDoubleVectorTrail.java:172-179 | Every mentioned cell has an earliest entry. |
| VectorTrail.CommitStep | choco-solver/src/main/java/org/chocosolver/memory/trailing/trail/StoredDoubleVectorTrail.java:195-211 | Scanning one more entry extends the kept entries and the restamping by that entry alone. |
| VectorTrail.CompactAppend | choco-solver/src/main/java/org/chocosolver/memory/trailing/trail/StoredDoubleVectorTrail.java:195-211 | Compaction is stable: compacting a concatenation concatenates the compactions. |
| VectorTrail.CompactSingle | choco-solver/src/main/java/org/chocosolver/memory/trailing/trail/StoredDoubleVectorTrail.java:201-210 | An entry is kept exactly when its saved stamp is not the parent world. |
| VectorTrail.CompactShrinks | choco-solver/src/main/java/org/chocosolver/memory/trailing/trail/StoredDoubleVectorTrail.java:195-212 | A commit never adds entries, and every kept entry has a saved stamp other than the parent world. |
| VectorTrail.CompactKeepsOthers | choco-solver/src/main/java/org/chocosolver/memory/trailing/trail/StoredDoubleVectorTrail.java:195-212 | When no saved stamp is the parent world, every entry is kept. |
| VectorTrail.RestampSpec | choco-solver/src/main/java/org/chocosolver/memory/trailing/trail/StoredDoubleVectorTrail.java:195-200 | Restamping stamps exactly the mentioned cells with the parent world, and leaves every other cell and every value as it was. |
| VectorTrail.CommitKeepsValues | choco-solver/src/main/java/org/chocosolver/memory/trailing/trail/StoredDoubleVectorTrail.java:195-200 | A commit never changes a value, only stamps. |
| VectorTrail.WritesInvariantStep | choco-solver/src/main/java/org/chocosolver/memory/trailing/trail/StoredDoubleVectorTrail.java:115-124 | A trailed write in the new world keeps the invariant relating the cells, the new entries and the cells at the world's start. |
| VectorTrail.WritesInvariantAll | choco-solver/src/main/java/org/chocosolver/memory/trailing/trail/StoredDoubleVectorTrail.java:115-124 | Any sequence of trailed writes in the new world keeps that invariant. |
| VectorTrail.UndoWrites | choco-solver/src/main/java/org/chocosolver/memory/trailing/trail/StoredDoubleVectorTrail.java:172-179 | Under the invariant, undoing the new entries gives back the cells at the world's start. |
| VectorTrail.PushWritesPopRestores | choco-solver/src/main/java/org/chocosolver/memory/trailing/trail/StoredDoubleVectorTrail.java:161-179 | Round trip: push a world, make any trailed writes, pop, and every cell is back to its state at the push. |
| VectorTrail.CommitRelatedTrail | choco-solver/src/main/java/org/chocosolver/memory/trailing/trail/StoredDoubleVectorTrail.java:195-208 | The entry a write in the inner world trails is kept by a commit exactly when the same write in the parent world would trail it. |
| VectorTrail.CommitRelatedStep | choco-solver/src/main/java/org/chocosolver/memory/trailing/trail/StoredDoubleVectorTrail.java:186-213 | One write made in the inner world, then committed, gives the entries and cells of the same write made in the parent world. |
| VectorTrail.CommitRelatedAll | choco-solver/src/main/java/org/chocosolver/memory/trailing/trail/StoredDoubleVectorTrail.java:186-213 | The same for any sequence of writes, by induction on the writes. |
| VectorTrail.CommitAsIfNeverPushed | choco-solver/src/main/java/org/chocosolver/memory/trailing/trail/StoredDoubleVectorTrail.java:184-213 | Commit law: when no cell is stamped with the inner world, writes made there and then committed leave exactly the entries and the cells (values and stamps) that the same writes made directly in the parent world leave. |
| VectorTrail.TrailedWritesAppend | choco-solver/src/main/java/org/chocosolver/memory/trailing/trail/StoredDoubleVectorTrail.java:115-124 | Trailed writes only append to the trail they start from. |
| VectorTrail.TrailedWritesConcat | choco-solver/src/main/java/org/chocosolver/memory/trailing/trail/StoredDoubleVectorTrail.java:115-124 | Making two sequences of writes one after the other is making their concatenation. |
| VectorTrail.ParentWritesStamps | choco-solver/src/main/java/org/chocosolver/memory/trailing/trail/StoredDoubleVectorTrail.java:115-124 | Writes in the parent world never stamp a cell with the inner world, so the inner world starts with no cell stamped with it. |
| VectorTrail.CommitThenPopRestores | choco-solver/src/main/java/org/chocosolver/memory/trailing/trail/StoredDoubleVectorTrail.java:161-213 | The parent world writes, the inner world is pushed and writes, and it is committed. The result has the trail and the cells of making all the writes directly in the parent world. Popping the parent afterwards gives back the cells as they were before either world was entered. |
| Trailing.Wrap32 | choco-solver/src/main/java/org/chocosolver/memory/IStateInt.java:76 | The wrapped sum is congruent to the exact sum modulo 2^32 and equals it when it fits in an `int`. |
| Trailing.StateInt.constructor | choco-solver/src/main/java/org/chocosolver/memory/IStateInt.java:48-52 | A new cell holds `i`, stamped with the current world. |
| Trailing.StateInt.Get | choco-solver/src/main/java/org/chocosolver/memory/IStateInt.java:57-59 | Returns the current value and changes nothing. |
| Trailing.StateInt.Set | choco-solver/src/main/java/org/chocosolver/memory/IStateInt.java:62-67 | The cell holds `y` stamped with the current world. The former (value, stamp) goes on the trail exactly when the cell was not yet written in this world. |
| Trailing.StateInt.Add | choco-solver/src/main/java/org/chocosolver/memory/IStateInt.java:75-79 | Returns the 32-bit wrapped sum and writes it through the trailing write. |
| Trailing.StateInt.RawSet | choco-solver/src/main/java/org/chocosolver/memory/IStateInt.java:88-91 | Installs exactly the given value and stamp, and leaves the trail alone. |
| Trailing.StateInt.DeepCopy | choco-solver/src/main/java/org/chocosolver/memory/IStateInt.java:98-100 | The copy is the current value. |
| Trailing.StateInt.GetTimeStamp | choco-solver/src/main/java/org/chocosolver/memory/IStateInt.java:102-104 | Returns the last installed stamp. |
| Trailing.StateInt.OverrideTimeStamp | choco-solver/src/main/java/org/chocosolver/memory/IStateInt.java:106-108 | Only the stamp changes; the value is kept. |
| Trailing.AddThenSubtract | choco-solver/src/main/java/org/chocosolver/memory/IStateInt.java:75-79 | Adding `delta` and then `-delta` with wrap-around gives the value back. |
| Copying.RcObject.constructor | choco-solver/src/main/java/org/chocosolver/memory/copy/RcObject.java:49-54 | Stores the object, appends the cell exactly once to the environment's object list, and stamps it with the current world. |
| Copying.RcObject.Get | choco-solver/src/main/java/org/chocosolver/memory/copy/RcObject.java:56-58 | Returns the object held. |
| Copying.RcObject.Set | choco-solver/src/main/java/org/chocosolver/memory/copy/RcObject.java:60-63 | The cell holds `y`, stamped with the current world. |
| Copying.RcObject.RawSet | choco-solver/src/main/java/org/chocosolver/memory/copy/RcObject.java:72-75 | Installs exactly `y` and `wstamp`, whatever the current world. |
| Copying.RcObject.DeepCopy | choco-solver/src/main/java/org/chocosolver/memory/copy/RcObject.java:81-83 | Returns the reference held (a shallow copy). |
| Copying.RcObject.GetType | choco-solver/src/main/java/org/chocosolver/memory/copy/RcObject.java:85-87 | Always the object tag. |
| Copying.RcObject.GetTimeStamp | choco-solver/src/main/java/org/chocosolver/memory/copy/RcObject.java:89-91 | Returns the last installed stamp. |
| NotEqual.RemoveFrom | choco-solver/src/main/java/org/chocosolver/solver/constraints/binary/PropNotEqualXY_C.java:98-99 | Removal fails exactly on the domain `{v}` and then changes nothing. It reports a change exactly when `v` is gone. It removes at most `v`, always removes it from an enumerated domain, removes it from a bounded domain when it is a bound (and not the only value), and keeps a bounded domain without holes. |
| NotEqual.PropNotEqualXYC.constructor | choco-solver/src/main/java/org/chocosolver/solver/constraints/binary/PropNotEqualXY_C.java:66-71 | X is the first variable of the scope, Y the second, the constant is `c`, and the propagator starts active. |
| NotEqual.PropNotEqualXYC.GetPropagationConditions | choco-solver/src/main/java/org/chocosolver/solver/constraints/binary/PropNotEqualXY_C.java:74-79 | Instantiation always wakes the propagator. Bound events wake it exactly when the variable's domain is bounded. |
| NotEqual.PropNotEqualXYC.Propagate | choco-solver/src/main/java/org/chocosolver/solver/constraints/binary/PropNotEqualXY_C.java:82-90 | The domains, the failure and the passive flag are those `Propagation` computes, and both domains stay well formed. |
| NotEqual.PropNotEqualXYC.PropagateOnEvent | choco-solver/src/main/java/org/chocosolver/solver/constraints/binary/PropNotEqualXY_C.java:93-95 | Behaves exactly as a full propagation. |
| NotEqual.PropNotEqualXYC.RemoveValV0 | choco-solver/src/main/java/org/chocosolver/solver/constraints/binary/PropNotEqualXY_C.java:97-102 | With Y instantiated: removes `c - y` from X, and goes passive when the value was removed or is absent. |
| NotEqual.PropNotEqualXYC.RemoveValV1 | choco-solver/src/main/java/org/chocosolver/solver/constraints/binary/PropNotEqualXY_C.java:104-109 | With X instantiated: removes `c - x` from Y (X is unchanged, even when X and Y are the same variable), and goes passive when the value was removed or is absent. |
| NotEqual.PropNotEqualXYC.IsEntailed | choco-solver/src/main/java/org/chocosolver/solver/constraints/binary/PropNotEqualXY_C.java:112-122 | TRUE exactly when the sum of the upper bounds is below `c` or the sum of the lower bounds is above it, and then no pair of values sums to `c`. FALSE exactly when every pair sums to `c`. |
| NotEqual.PropagationSound | choco-solver/src/main/java/org/chocosolver/solver/constraints/binary/PropNotEqualXY_C.java:82-109 | Propagation only removes values and keeps every value that has a support. It fails only when no pair has a support. |
| NotEqual.PassiveIsEntailed | choco-solver/src/main/java/org/chocosolver/solver/constraints/binary/PropNotEqualXY_C.java:82-109 | When the propagator goes passive, no remaining pair of values sums to `c`. |
| NotEqual.EnumeratedIsFiltered | choco-solver/src/main/java/org/chocosolver/solver/constraints/binary/PropNotEqualXY_C.java:104-109 | Once X is instantiated, an enumerated Y always leads to passive or failed. |
| NotEqual.NoFilteringWithoutInstantiation | choco-solver/src/main/java/org/chocosolver/solver/constraints/binary/PropNotEqualXY_C.java:83-89 | With neither variable instantiated, no domain changes and propagation never fails, so instantiation events are enough for filtering. |
| NotEqual.PropagationKeepsIntervals | choco-solver/src/main/java/org/chocosolver/solver/constraints/binary/PropNotEqualXY_C.java:82-109 | Bounded domains stay without holes. |
| NotEqual.RemoveAgain | choco-solver/src/main/java/org/chocosolver/solver/constraints/binary/PropNotEqualXY_C.java:98-99 | Removing the same value again after a removal that did not fail changes nothing and does not fail, so repeated filtering is stable. |
| NotEqual.IntervalSums | choco-solver/src/main/java/org/chocosolver/solver/constraints/binary/PropNotEqualXY_C.java:113-114 | On domains without holes, every value between the sum of the lower bounds and the sum of the upper bounds is a sum of two values. |
| NotEqual.EntailedOnIntervals | choco-solver/src/main/java/org/chocosolver/solver/constraints/binary/PropNotEqualXY_C.java:112-115 | On two bounded domains, TRUE is complete: it is returned whenever no pair sums to `c`. |
| Nogoods.Extract | choco-solver/src/main/java/org/chocosolver/solver/search/loop/monitors/NogoodFromRestarts.java:96-130 | The prefix never outgrows the decisions processed. Without an abort the whole path is processed. An abort stops right after an unsupported decision. |
| Nogoods.Drain | choco-solver/src/main/java/org/chocosolver/solver/search/loop/monitors/NogoodFromRestarts.java:96-97 | Polling the queue from its back processes at most its length, and all of it without an abort. |
| Nogoods.Reversed | choco-solver/src/main/java/org/chocosolver/solver/search/loop/monitors/NogoodFromRestarts.java:90-97 | Element `i` is element `n-1-i` of the input. |
| Nogoods.PropNogoods.AddLearnt | choco-solver/src/main/java/org/chocosolver/solver/search/loop/monitors/NogoodFromRestarts.java:106-109 | Appends exactly the given clause to the learnt clauses. |
| Nogoods.NogoodFromRestarts.constructor | choco-solver/src/main/java/org/chocosolver/solver/search/loop/monitors/NogoodFromRestarts.java:72-75 | The monitor holds the solver's nogood store and starts with an empty decision queue. |
| Nogoods.NogoodFromRestarts.BeforeRestart | choco-solver/src/main/java/org/chocosolver/solver/search/loop/monitors/NogoodFromRestarts.java:77-80 | Performs the extraction. |
| Nogoods.NogoodFromRestarts.AfterRestart | choco-solver/src/main/java/org/chocosolver/solver/search/loop/monitors/NogoodFromRestarts.java:82-85 | Changes nothing. |
| Nogoods.NogoodFromRestarts.EnqueueBranch | choco-solver/src/main/java/org/chocosolver/solver/search/loop/monitors/NogoodFromRestarts.java:89-93 | The queue gets the branch appended, from the last decision back to the root. |
| Nogoods.NogoodFromRestarts.ProcessLast | choco-solver/src/main/java/org/chocosolver/solver/search/loop/monitors/NogoodFromRestarts.java:97-129 | Polls one decision and advances the buffer and the learnt clauses by one `Step`, or reports the abort. |
| Nogoods.NogoodFromRestarts.DrainQueue | choco-solver/src/main/java/org/chocosolver/solver/search/loop/monitors/NogoodFromRestarts.java:96-130 | The polling loop advances the learnt clauses exactly as `Drain` of the queue does, reports its abort, and leaves exactly the decisions not polled. |
| Nogoods.NogoodFromRestarts.ExtractNogoodFromPath | choco-solver/src/main/java/org/chocosolver/solver/search/loop/monitors/NogoodFromRestarts.java:87-131 | The learnt clauses grow by those of `Extract` on the path read root first. The result reports an abort. The queue keeps exactly the decisions not polled, so it is empty without an abort. |
| Nogoods.LitOfRefutes | choco-solver/src/main/java/org/chocosolver/solver/search/loop/monitors/NogoodFromRestarts.java:100-120 | The literal of an `=` decision is its negation, and that of a `!=` decision is the positive literal: each holds exactly when its decision does not. |
| Nogoods.DrainIsExtract | choco-solver/src/main/java/org/chocosolver/solver/search/loop/monitors/NogoodFromRestarts.java:89-97 | Polling the leaf-first queue from its back is the root-first extraction. |
| Nogoods.DrainFailureSticks | choco-solver/src/main/java/org/chocosolver/solver/search/loop/monitors/NogoodFromRestarts.java:124-129 | After an abort, decisions left in the queue change nothing. |
| Nogoods.FailureSticks | choco-solver/src/main/java/org/chocosolver/solver/search/loop/monitors/NogoodFromRestarts.java:124-129 | After an abort, the rest of the path changes nothing. |
| Nogoods.FailsAtFirstUnsupported | choco-solver/src/main/java/org/chocosolver/solver/search/loop/monitors/NogoodFromRestarts.java:98-129 | The extraction aborts exactly when the path holds a decision that is not an `=` or `!=` integer decision, and then at the first such decision. |
| Nogoods.PrefixIsOpenLits | choco-solver/src/main/java/org/chocosolver/solver/search/loop/monitors/NogoodFromRestarts.java:100-114 | The prefix is exactly the literals of the decisions that still had an alternative, in path order. |
| Nogoods.LearntClauses | choco-solver/src/main/java/org/chocosolver/solver/search/loop/monitors/NogoodFromRestarts.java:103-122 | A clause is learnt exactly when it is the open literals above an exhausted decision, followed by that decision's literal. |
| Nogoods.LearntStep | choco-solver/src/main/java/org/chocosolver/solver/search/loop/monitors/NogoodFromRestarts.java:103-122 | One more decision adds one learnt clause when it is exhausted, and none when it is open; the prefix is not extended by a clause. |
| Nogoods.OpenLitsMembers | choco-solver/src/main/java/org/chocosolver/solver/search/loop/monitors/NogoodFromRestarts.java:101-102 | A literal is in the prefix exactly when it refutes an open decision of the path. |
| Nogoods.ClauseForbidsBranch | choco-solver/src/main/java/org/chocosolver/solver/search/loop/monitors/NogoodFromRestarts.java:103-122 | A learnt clause is a nogood. An assignment violates it exactly when it satisfies the exhausted decision and every open decision above it. |
| Indices.IndexFactory.constructor | choco-solver/src/main/java/org/chocosolver/util/IndexFactory.java:43 | The counter starts at 33, with nothing issued. |
| Indices.IndexFactory.GetIndex | choco-solver/src/main/java/org/chocosolver/util/IndexFactory.java:50-52 | Returns one more than the previous counter and keeps it as the counter. The result differs from every index issued before, and issued indices stay strictly increasing. |
| Indices.FirstIndices | choco-solver/src/main/java/org/chocosolver/util/IndexFactory.java:43-52 | A fresh factory hands out 34, then 35. |
| Distance.New | choco-solver/src/main/java/org/chocosolver/solver/constraints/binary/DistanceXYC.java:54-63 | Construction succeeds exactly for EQ, GT, LT and NQ, and then stores X, Y, C and the operator unchanged, with the name "DistanceXYC " followed by the operator's name. Any other operator gives `SolverException("Unexpected operator for distance")`. |
| Distance.NameInjective | choco-solver/src/main/java/org/chocosolver/solver/constraints/binary/DistanceXYC.java:55 | A fact about the model, which the source does not state: the name built at line 55 differs for different operators. |
| Distance.NameDeterminesOperator | choco-solver/src/main/java/org/chocosolver/solver/constraints/binary/DistanceXYC.java:55-62 | A fact about the model, which the source does not state: a constructed constraint's name tells which operator it was built with. |

## Left out

- The `StoredDoubleVector` class, whose `_set` and `worldStamps` the trail uses, is not part of this model. The vectors are a map from (vector, index) to (value, stamp), and the writes that fill the trail are modelled as `TrailedWrite`, the protocol every backtrackable cell follows.
- `double` values are opaque 64-bit patterns: the trail only copies them.
- VectorTrail.StoredDoubleVectorTrail.constructor: requires `nUpdates >= 2`. With 0 or 1, the growth `(max*3)/2` does not grow the arrays, and the next `savePreviousState` indexes past them.
- VectorTrail.StoredDoubleVectorTrail.SavePreviousState: integer overflow of `maxUpdates * 3` is not modelled; capacities are unbounded integers.
- VectorTrail.StoredDoubleVectorTrail.WorldCommit: the `worldIndex` parameter is dropped, because the code ignores it and reads the environment's world index.
- VectorTrail.StoredDoubleVectorTrail.WorldCommit: requires the current world's start to be at most the current level, and every cell an entry mentions to exist. The code does not check either; both hold in every reachable state, since worlds are pushed at the current level and entries are only made by writes to existing elements.
- VectorTrail.StoredDoubleVectorTrail.WorldPush: `worldIndex` must be within the array of world starts; the Java index error is not modelled.
- VectorTrail.StoredDoubleVectorTrail.ResizeWorldCapacity: the new capacity must be at least the old one; the error `System.arraycopy` raises for a smaller one is not modelled.
- VectorTrail.StoredDoubleVectorTrail.WorldPop: `worldIndex` and the world start must be within the arrays; a Java index error is not modelled.
- `IStateInt.set` is abstract. `Trailing.StateInt.Set` models the trailing write that its Javadoc describes; subclasses other than the trailing one are not modelled.
- The environments (`EnvironmentTrailing`, `EnvironmentCopying`) are reduced to their world index, the int trail and the object-copy list.
- The numeric element-type codes of `RecomputableElement` are not modelled. `getType` returns the constructor `Object` of a datatype.
- `RcObject.getEnvironment` and `toString` are not modelled.
- The `IntVar` implementations are not part of this model. Their `removeValue`, bounds and instantiation behave as `NotEqual.RemoveFrom` states: an enumerated domain loses any value; a bounded one loses only a bound; removing the last value is a contradiction and leaves the domain unchanged.
- NotEqual.PropNotEqualXYC.Propagate: Java `int` overflow in `cste - value` and in the bound sums is not modelled. Sums are exact.
- NotEqual.PropNotEqualXYC.IsEntailed: the same holds for the bound sums of `isEntailed`.
- `IntEventType` masks are modelled as sets of event kinds, not bit masks.
- NotEqual.PropNotEqualXYC.constructor: the scope array is given as its two variables; the `BINARY` priority and the fine-event flag passed to `Propagator` are not modelled, since the propagation engine is outside the model.
- Nogoods.NogoodFromRestarts.constructor: the solver is reduced to its nogood store, passed in directly; the initial capacity 16 of the circular queue is not modelled, since the queue is an unbounded sequence.
- `PropNotEqualXY_C.why` is left out: it belongs to the explanation rule store.
- `ContradictionException` is the `ok` result being false. The engine's handling of it (backtracking) is outside the model.
- Nogoods.NogoodFromRestarts.ExtractNogoodFromPath: requires the node count to be at least the number of queued decisions, so that the literal buffer is large enough; the Java cast of the `long` node count to `int` is not modelled. `png.Literal`, `SatSolver.negated` and `addLearnt` are modelled by the `Lit` datatype and a list of clauses. The solver's last decision and `getPrevious` chain is passed in as a sequence.
- Indices.IndexFactory.GetIndex: the `long` counter does not wrap at 2^63. The static `getId` is left out: it reads the wall clock and is synchronised.
- `PropDistanceXYC`, the propagator behind `DistanceXYC`, is not part of this model. Neither is the `Operator` enumeration, whose constants are taken to be NONE, EQ, LT, GT, NQ, LE, GE, PL and MN.
- The sample programs, the tests, `CPProfiler`, `IPropagationEngine` and `OnDemandIntStrategy` are left out: they are I/O, search scripts or thin wrappers over code that is not shown.
