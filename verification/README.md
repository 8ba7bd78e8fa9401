# A Dafny model of the KLEE symbolic execution engine

KLEE explores a program path by path. A path is a set of constraints over
symbolic arrays together with a memory whose bytes are expressions, and the
engine is right only if every rewrite, split and merge keeps the set of concrete
inputs each path stands for. This project models the parts of the engine on which
that depends, and proves for all inputs, all assignments of the arrays and all
runs that they do.

An assignment gives every array a value at every index. Expressions have a value
under every assignment; divisions by zero take the values of the SMT-LIB theory
of bit-vectors, and a shift by the width or more gives zero. A condition *holds*
when its value is one, and the *models* of a path are the assignments in which
all its constraints hold. The main results:

- **Expressions.** Every simplifying constructor keeps the value of the node it
  replaces (`CreateMeaning`), and sums come out in canonical form (`CreateForm`).
  Where a constructor does not keep the value (division and arithmetic shift at
  width one, equality with a read of a constant array) the exact condition and a
  failing input are given. For the first two it is the run-time checks inserted by
  `klee/lib/Module/Checks.cpp` (lines 37 and 93) that keep such inputs away. Every
  constructor keeps the documented canonicalisation rules (`FoldedForm`). The
  constant-folding builder (`FoldingBuilder`) and the memoising visitor
  (`Visitors`) are proved against the same meaning.
- **Constraints.** Adding a condition, however it is split and rewritten through
  the set, leaves exactly the models in which it holds (`Constraints`).
- **Memory.** An object caches each byte in up to three places. Reads, writes,
  flushes and the lazy creation of the root array are proved against one view of
  the bytes (`MemoryLog`, `Memory`). Forked address spaces share objects, and no
  operation on one space changes what another shows (`AddressSpaces`).
- **Pointers.** Resolution finds exactly the objects a pointer can point to
  (`Resolution`), and a memory operation partitions the models of the state
  (`MemoryAccess`). Together with its transfers it refines a flat memory: in every
  model each successor has the bytes of one memory accessed at the concrete address
  (`FlatMemory`).
- **Paths.** Fork, branch and switch partition the models (`Executor`). Merging
  two states gives the union of their models, each with the memory and locals it
  had (`StateMerge`). The pause and release protocol around merging keeps its
  invariant over all runs and never deadlocks (`MergeProtocol`).
- **Distances, trees, files.** The fixpoint over call graphs gives exact shortest
  distances (`MinDistance`); random path selection can reach every live state
  (`ProcessTree`); call-path summaries count each node once (`CallPaths`); test
  files of every version read back and truncated ones are rejected (`KTestFile`).
- **Solver interface.** Printed SMT-LIB queries, nested lets included, are
  well-sorted and are satisfied exactly by the counterexamples (`SmtLib`,
  `SmtLets`). Patching a seed always succeeds (`Seeds`).

`Bits`, `Sequences`, `Logic` and `Exprs` hold the arithmetic, sequence and
expression vocabulary; `BitVectorLaws` says what the operations on values mean, bit
by bit and as arithmetic. `Solvers` models the solver as an oracle: a query may time
out, and an answer that arrives is exact. Claims that need every query answered
say so (`Prompt`). Random numbers, timers, the byte order, the pointer width and
the outcome of merging two states inside the protocol are parameters.

Where comments and code disagree, or a comment says too little, the model follows
the code:

- In `klee/lib/Expr/ExprBuilder.cpp` the comments on the rules for a constant
  minus (X plus a constant) and for X minus (Y plus a constant) name sums where the
  code, rightly, builds differences (lines 798-800 and 851-853).
- In `klee/include/klee/Expr/Expr.h` the canonicalisation rules put constants on the
  left (line 72), which conjunctions and disjunctions do not; allow no one-bit operands
  in concatenations (lines 60-63), which occur; and unbalance chains to the right (line
  78), which the constructors do not attempt.
- In `klee/lib/Core/AddressSpace.h` the stated invariant bounds owner keys by the
  space's own key. What keeps spaces apart is stronger, and is `Isolated`: an object
  a space owns is bound by no other space.
- In `klee/lib/Basic/KTest.cpp` empty strings and objects look representable, but
  a transfer of size zero counts as a failure in both directions, so the writer and
  the reader reject them.

## Model

| member | source | states |
|---|---|---|
| `Exprs.EvalBound` | `klee/include/klee/Expr/Expr.h:97-98` | Every well-formed expression has a value that fits its width, under every assignment of the arrays. |
| `Create.ReadCreate` | `klee/lib/Expr/Expr.cpp:533-581` | The update-list walk of the read constructor, as a loop, computes `CreateRead`, which drops decided updates and stops at the first one whose index it cannot decide. |
| `CreateMeaning.RollBackMeaning` | `klee/lib/Expr/Expr.cpp:533-569` | Dropping or hitting the decided updates of a write log does not change what is read behind it. |
| `CreateMeaning.ReadMeaning` | `klee/lib/Expr/Expr.cpp:533-581` | The simplified read (constant hit, constant array, shortened log) has the value of reading the whole log. |
| `CreateMeaning.SelectMeaning` | `klee/lib/Expr/Expr.cpp:587-615` | All if-then-else shortcuts keep the value, including the Boolean ones turned into and/or/implication. |
| `CreateMeaning.ConcatMeaning` | `klee/lib/Expr/Expr.cpp:618-640` | Fusing adjacent extracts and constants keeps the concatenated bits. |
| `CreateMeaning.ExtractMeaning` | `klee/lib/Expr/Expr.cpp:670-697` | Pushing an extract into either or both sides of a concatenation, however deep it recurses, selects the same bits. |
| `CreateMeaning.ZExtMeaning` | `klee/lib/Expr/Expr.cpp:710-721` | Zero extension (or truncation) yields the low bits of the value. |
| `CreateMeaning.SExtMeaning` | `klee/lib/Expr/Expr.cpp:723-735` | Sign extension (or truncation) yields the sign-extended value. |
| `CreateMeaning.AddMeaning` | `klee/lib/Expr/Expr.cpp:746-792` | The reassociating sum constructor computes addition modulo 2^width through every chain of rewrites, Boolean xor included. |
| `CreateMeaning.SubMeaning` | `klee/lib/Expr/Expr.cpp:794-842` | The same for subtraction. |
| `CreateMeaning.MulMeaning` | `klee/lib/Expr/Expr.cpp:844-868` | The same for multiplication. |
| `CreateMeaning.AndMeaning` | `klee/lib/Expr/Expr.cpp:870-884` | Conjunction shortcuts on all-zero and all-one constants keep the bitwise value. |
| `CreateMeaning.OrMeaning` | `klee/lib/Expr/Expr.cpp:886-900` | Disjunction shortcuts keep the bitwise value. |
| `CreateMeaning.XorMeaning` | `klee/lib/Expr/Expr.cpp:902-917` | Exclusive-or shortcuts, including the rewrite to a negated equality at width one, keep the bitwise value. |
| `CreateMeaning.DivisionMeaning` | `klee/lib/Expr/Expr.cpp:919-949` | At every width above one the division and remainder constructors keep the value. At width one, where the code drops the divisor, they do so exactly when the divisor is one or the two sides happen to agree. |
| `CreateMeaning.DivisionCounterexample` | `klee/lib/Expr/Expr.cpp:919-925` | Two width-one reads and an assignment with a zero divisor for which the quotient constructor changes the value. |
| `CreateMeaning.ShiftMeaning` | `klee/lib/Expr/Expr.cpp:951-973` | Shifts keep the value, except that the width-one arithmetic shift does so exactly when the shift amount is below the width or the operand is zero. |
| `CreateMeaning.ShiftCounterexample` | `klee/lib/Expr/Expr.cpp:967-973` | Two width-one reads and an assignment that shifts by the width for which the arithmetic shift constructor changes the value. |
| `CreateMeaning.EqMeaning` | `klee/lib/Expr/Expr.cpp:1020-1045` | The equality constructor means equality of values on all operands of one width. |
| `CreateMeaning.EqPartialRMeaning` | `klee/lib/Expr/Expr.cpp:1075-1150` | Equality with a constant, rewritten through negations, or-nodes, sums, differences and casts (range checks included), still compares the two values. |
| `CreateMeaning.CompareMeaning` | `klee/lib/Expr/Expr.cpp:1156-1173` | The derived comparisons (not-equal, greater-than, greater-or-equal) relate the values as their names say. |
| `CreateMeaning.OrderMeaning` | `klee/lib/Expr/Expr.cpp:1175-1212` | The ordering constructors keep their meaning, including the Boolean forms, where true is minus one in the signed orders. |
| `CreateMeaning.IsZeroMeaning` | `klee/lib/Expr/Expr.cpp:319-321` | The zero test is one exactly when the value is zero. |
| `Visitors.NotMeaning` | `klee/lib/Expr/Expr.cpp:700-708` | Bitwise negation of constants is folded without changing the value. |
| `CreateForm.AddForm` | `klee/lib/Expr/Expr.cpp:746-792` | From canonical operands the sum constructor builds a canonical sum (a constant only at the left head, none zero, constants gathered) with no more nodes than the plain node has: the linear-formula rule documented in klee/include/klee/Expr/Expr.h, at every width above one. |
| `CreateForm.SubForm` | `klee/lib/Expr/Expr.cpp:794-842` | The same for differences. |
| `FoldedForm.FoldedRebuild` | `klee/include/klee/Expr/Expr.h:55-73` | Whatever node a constructor builds from arguments that keep the canonicalisation rules keeps them too: no node has only constant arguments; not-equal and the four greater-than comparisons are never used; one-bit operands occur only in gates, equality, selection, casts and concatenation, beside no constant but the `false` of a negation; and a constant stands on the left, except in conjunctions and disjunctions, where it stands on the right. |
| `FoldedForm.FoldedAdd` | `klee/lib/Expr/Expr.cpp:746-792` | The sum constructor keeps these rules through every chain of rewrites. |
| `FoldedForm.FoldedSub` | `klee/lib/Expr/Expr.cpp:794-842` | The difference constructor keeps them too, cancellation to zero included. |
| `FoldedForm.FoldedEqPartialR` | `klee/lib/Expr/Expr.cpp:1075-1150` | Equality with a constant keeps them through negations, or-nodes, sums, differences and casts. |
| `FoldedForm.SymbolicSums` | `klee/lib/Expr/Expr.cpp:746-815` | A constant added to or subtracted from a symbolic expression that keeps the rules never folds to a constant. |
| `BitVectorLaws.UnsignedDivision` | `klee/lib/Expr/Expr.cpp:410-420` | Unsigned quotient and remainder satisfy the division equation with a remainder below the divisor; division by zero has the values of the theory of bit-vectors. |
| `BitVectorLaws.TruncatedDivision` | `klee/lib/Expr/Expr.cpp:414-424` | Division toward zero: the division equation, a remainder smaller than the divisor and with the sign of the dividend. |
| `BitVectorLaws.SignedDivision` | `klee/lib/Expr/Expr.cpp:414-424` | Signed quotient and remainder of bit vectors are the truncated ones of their signed readings. |
| `BitVectorLaws.SignExtendKeeps` | `klee/lib/Expr/Expr.cpp:390-392` | Sign extension keeps the signed reading. |
| `BitVectorLaws.BitwiseBits` | `klee/lib/Expr/Expr.cpp:426-436` | Each bit of a conjunction, disjunction or exclusive-or is that connective of the two bits. |
| `BitVectorLaws.LogicalShifts` | `klee/lib/Expr/Expr.cpp:438-444` | Logical shifts move every bit by the amount and fill with zeroes. |
| `BitVectorLaws.ArithmeticShift` | `klee/lib/Expr/Expr.cpp:446-448` | Within the width an arithmetic shift divides the signed reading, rounding down; from the width on it gives zero. |
| `BitVectorLaws.SignFilledShift` | `klee/lib/Expr/Expr.cpp:446-448` | A shift that fills with the sign agrees with this one exactly when the amount is below the width or the operand is not negative. |
| `ConstArrayEq.TryConstArrayOpt` | `klee/lib/Expr/Expr.cpp:1048-1073` | The scan of a constant array replaces an equality by the disjunction over matching indices. Its result keeps the meaning of the equality where the rewriting does not apply, and where it does exactly when the index is in range or the cell outside does not hold the constant. |
| `ConstArrayEq.EqualInModels` | `klee/lib/Expr/Expr.cpp:1048-1073` | If the constraints keep the index in range, the result and the equality agree in every model of them. |
| `ConstArrayEq.OutsideCounterexample` | `klee/lib/Expr/Expr.cpp:1048-1073` | An array, an index, a constant and an assignment for which the equality holds and the result of the scan does not. |
| `FoldingBuilder.FoldingAddMeaning` | `klee/lib/Expr/ExprBuilder.cpp:699-784` | The constant-folding builder, which reassociates every sum to the right, still computes addition modulo 2^width, and its mutual recursion ends. |
| `FoldingBuilder.FoldingSubMeaning` | `klee/lib/Expr/ExprBuilder.cpp:786-865` | The same for subtraction. |
| `Visitors.RebuildMeaning` | `klee/lib/Expr/ExprVisitor.cpp:109-119` | Rebuilding a node from new kids through the constructors has the value of the plain node over those kids. |
| `Visitors.RewriteMeaning` | `klee/lib/Expr/ExprVisitor.cpp:42-127` | Rewriting with any replacement map keeps the value of every expression under every assignment that satisfies the replacements. |
| `Visitors.ChangedIff` | `klee/lib/Expr/ExprVisitor.cpp:100-119` | Rewriting returns the expression itself exactly when none of its parts is replaced. |
| `Visitors.NothingToReplace` | `klee/lib/Expr/ExprVisitor.cpp:42-127` | With the second pass over rebuilt nodes, nothing replaceable is left anywhere in the result. |
| `Visitors.ReplacedOutright` | `klee/lib/Expr/Constraints.cpp:39-75` | An expression that is replaced, and whose kids are not, becomes its replacement, in both replacing visitors. |
| `Visitors.NestedCounterexample` | `klee/lib/Expr/Constraints.cpp:56-75` | The condition on the kids is needed: an expression in the replacement map that the late visitor does not replace, because a kid is replaced first. |
| `Visitors.ExprVisitor.Visit` | `klee/lib/Expr/ExprVisitor.cpp:26-40` | The memoising visitor returns what the memo-free rewrite returns, whatever it has cached, remembers it, and its recursion through rebuilt nodes ends. |
| `Visitors.ExprVisitor.VisitActual` | `klee/lib/Expr/ExprVisitor.cpp:42-127` | The same for one node: early replacement, kids, rebuild, optional second pass, late replacement. |
| `Visitors.ExprVisitor.VisitKids` | `klee/lib/Expr/ExprVisitor.cpp:100-108` | Each kid is replaced by its rewriting. |
| `Constraints.EqualityIsSound` | `klee/lib/Expr/Constraints.cpp:144-159` | An equality with a constant justifies replacing one side by the other in exactly the models in which it holds. |
| `Constraints.ConstraintManager.RewriteConstraints` | `klee/lib/Expr/Constraints.cpp:77-96` | Rewriting the set keeps exactly its models among those that justify the replacements. It reports a change exactly when some constraint has a part that is replaced, and then the set is strictly lighter; otherwise nothing changed. |
| `Constraints.ConstraintManager.AddConstraintInternal` | `klee/lib/Expr/Constraints.cpp:127-165` | The models become exactly those of the old set in which the new condition holds, and the mutual recursion with the rewriting ends. Constants are dropped, conjunctions split (no constraint is a constant or a conjunction), a plain condition is appended, and an equality with a constant that rewrites the set makes it strictly lighter. |
| `Constraints.ConstraintManager.AddConstraint` | `klee/lib/Expr/Constraints.cpp:167-170` | The exact set of models after adding a condition. Without equality rewriting the old constraints stay a prefix, and what is added has no part the old ones would replace; a condition they already teach to be true adds nothing. |
| `Constraints.ConstraintManager.SimplifyExpr` | `klee/lib/Expr/Constraints.cpp:102-125` | The simplified expression has the value of the original in every model of the set, is no heavier, and has no part the set teaches a replacement for; without such a part the expression is returned as it is, and one that is itself taught becomes what it is taught to be. |
| `Constraints.TaughtBy` | `klee/lib/Expr/Constraints.cpp:106-123` | What a set teaches: an equality with a constant replaces its other side by the constant, any other condition is replaced by true, and of two lessons about one expression the first counts. |
| `MemoryLog.LoadAfterStore` | `klee/lib/Core/Memory.cpp:429-556` | Loading what was just stored gives the value back in either byte order, and bytes before and after stay. |
| `MemoryLog.StoredLayout` | `klee/lib/Core/Memory.cpp:474-556` | Which byte goes where: byte i of a stored value is bits 8i to 8i+7 in little-endian order, and the same counted from the other end in big-endian order; all other bytes stay. |
| `MemoryLog.LoadedLayout` | `klee/lib/Core/Memory.cpp:429-472` | Which byte comes from where: bits 8i to 8i+7 of a loaded value are byte i, or byte i from the other end. |
| `MemoryLog.ExtendedOldestFirst` | `klee/lib/Core/Memory.cpp:151-157` | Replaying a log oldest write first rebuilds the same log. |
| `MemoryLog.FoldedReads` | `klee/lib/Core/Memory.cpp:143-192` | Folding any prefix of constant writes into a constant array and replaying the rest reads the same at every index. |
| `Memory.ObjectState.Concrete` | `klee/lib/Core/Memory.cpp:75-92` | A new object holds zeroes. |
| `Memory.ObjectState.Symbolic` | `klee/lib/Core/Memory.cpp:95-107` | A new symbolic object holds the cells of its array. |
| `Memory.ObjectState.Copy` | `klee/lib/Core/Memory.cpp:109-127` | A copy holds the same bytes in fresh storage and is owned by nobody. |
| `Memory.ObjectState.GetUpdates` | `klee/lib/Core/Memory.cpp:143-192` | Materialising the root array changes no byte under any assignment. |
| `Memory.Materialise` | `klee/lib/Core/Memory.cpp:143-192` | The two loops that fold the constant writes and push the rest give a log that reads as before. |
| `Memory.ObjectState.MakeConcrete` | `klee/lib/Core/Memory.cpp:210-217` | The contents become the concrete store. |
| `Memory.ObjectState.MakeSymbolic` | `klee/lib/Core/Memory.cpp:219-229` | The contents become the cells of the root array. |
| `Memory.ObjectState.InitializeToZero` | `klee/lib/Core/Memory.cpp:231-234` | Every byte becomes zero. |
| `Memory.ObjectState.InitializeToRandom` | `klee/lib/Core/Memory.cpp:236-242` | Every byte becomes 0xAB. |
| `Memory.ObjectState.FlushRangeForRead` | `klee/lib/Core/Memory.cpp:259-277` | Every byte of the range is in the log afterwards and no byte has changed. |
| `Memory.ObjectState.FlushRangeForWrite` | `klee/lib/Core/Memory.cpp:279-307` | Every byte of the range is in the log and no longer cached, and no byte has changed. |
| `Memory.ObjectState.MarkByteConcrete` | `klee/lib/Core/Memory.cpp:321-324` | Exactly that byte becomes concrete; the other two masks stay. |
| `Memory.ObjectState.MarkByteSymbolic` | `klee/lib/Core/Memory.cpp:326-330` | Exactly that byte stops being concrete; the other two masks stay. |
| `Memory.ObjectState.MarkByteUnflushed` | `klee/lib/Core/Memory.cpp:332-335` | Exactly that byte becomes unflushed; the other two masks stay. |
| `Memory.ObjectState.MarkByteFlushed` | `klee/lib/Core/Memory.cpp:337-343` | The byte becomes flushed; creating the mask makes all bytes flushed, as the source does. |
| `Memory.ObjectState.SetKnownSymbolic` | `klee/lib/Core/Memory.cpp:345-355` | Exactly that cached expression changes; the masks stay. |
| `Memory.ObjectState.Read8` | `klee/lib/Core/Memory.cpp:359-370` | The byte expression has the value of that byte under every assignment, and reading changes no byte. |
| `Memory.ObjectState.Read8Symbolic` | `klee/lib/Core/Memory.cpp:372-387` | The same at a symbolic offset, for every assignment that keeps it in the object. |
| `Memory.ObjectState.Write8Concrete` | `klee/lib/Core/Memory.cpp:389-396` | Exactly that byte changes, to the given constant. |
| `Memory.ObjectState.Write8` | `klee/lib/Core/Memory.cpp:398-408` | Exactly that byte changes, to the value of the given expression. |
| `Memory.ObjectState.Write8Symbolic` | `klee/lib/Core/Memory.cpp:410-425` | Under every assignment, exactly the byte the offset denotes changes. |
| `Memory.ObjectState.Read` | `klee/lib/Core/Memory.cpp:429-454` | A multi-byte read joins the bytes in the given order, under every assignment that keeps it inside; of the offset it requires exactly what the source asserts. |
| `Memory.ObjectState.ReadAt` | `klee/lib/Core/Memory.cpp:456-472` | The same at a constant offset, without exception. |
| `Memory.ObjectState.Write` | `klee/lib/Core/Memory.cpp:474-499` | A multi-byte write replaces exactly those bytes by the fields of the value; of the offset it requires exactly what the source asserts. |
| `Memory.ObjectState.WriteAt` | `klee/lib/Core/Memory.cpp:501-556` | The same at a constant offset, through both the constant and the symbolic path. |
| `Memory.LoadedAfterStored` | `klee/lib/Core/Memory.cpp:429-556` | Reading a stored value back returns it, for every offset, order and access width, width one included. |
| `Memory.FoldedAddressable` | `klee/lib/Core/Memory.cpp:372-425` | An offset that keeps the rule meets what symbolic reads and writes assert: no byte position reached through it folds to a constant. |
| `AddressSpaces.AddressSpace.constructor` | `klee/lib/Core/AddressSpace.h:66` | An empty space shows no bytes of any object, joins any isolated world without breaking the isolation, and changes no view of the others. |
| `AddressSpaces.AddressSpace.Fork` | `klee/lib/Core/AddressSpace.h:67` | The copy shows the same bytes; every space of the world keeps its own view and the sharing invariant holds with the copy added. |
| `AddressSpaces.AddressSpace.BindObject` | `klee/lib/Core/AddressSpace.cpp:22-26` | Exactly that binding changes; no other space or object is affected. |
| `AddressSpaces.AddressSpace.UnbindObject` | `klee/lib/Core/AddressSpace.cpp:28-30` | Exactly that binding goes; no other space or object is affected. |
| `AddressSpaces.AddressSpace.GetWriteable` | `klee/lib/Core/AddressSpace.cpp:37-50` | The returned object shows the same bytes, is owned by this space alone, and no view of any space changes. |
| `AddressSpaces.AddressSpace.Load` | `klee/lib/Core/Memory.cpp:429-472` | Reading through a space, though it flushes caches of a shared object, changes no view of any space. |
| `AddressSpaces.AddressSpace.Store` | `klee/lib/Core/AddressSpace.cpp:37-50` | Writing after obtaining a writeable copy changes this object in this space only: all other spaces of the world keep every byte. |
| `Resolution.OffsetMeaning` | `klee/lib/Core/Memory.h:120-122` | The offset expression is the wrapped difference of pointer and base. |
| `Resolution.BoundsCheckMeaning` | `klee/lib/Core/Memory.h:123-137` | The one-pointer bounds check holds exactly when the address lies in the object, zero-sized objects included. |
| `Resolution.BoundsCheckBytesMeaning` | `klee/lib/Core/Memory.h:126-146` | The n-byte bounds check holds exactly when all n bytes lie in the object, with no wrap-around error. |
| `Resolution.UpperBound` | `klee/lib/Core/AddressSpace.cpp:231-233` | The position in address order before which all bases are at most the address and after which all are above it. |
| `Resolution.ResolveConstant` | `klee/lib/Core/AddressSpace.cpp:54-72` | A constant address resolves to the object containing it, and to none exactly when no object does. |
| `Resolution.ResolveOne` | `klee/lib/Core/AddressSpace.cpp:74-165` | The object found can be pointed to; reporting none means the pointer can point to no object at all; without timeouts there is an answer. |
| `Resolution.CheckPointerInObject` | `klee/lib/Core/AddressSpace.cpp:167-199` | An object is added exactly when it can be pointed to, and the search is declared complete only if the pointer always lies in it, and incomplete, unless a query timed out, only when the list has reached the limit. |
| `Resolution.OutOfReach` | `klee/lib/Core/AddressSpace.cpp:237-283` | Why the walks may stop: objects beyond one the pointer can never pass cannot be pointed to. |
| `Resolution.ResolveAddress` | `klee/lib/Core/AddressSpace.cpp:204-208` | A constant pointer resolves to exactly the objects that can hold it, at most one. |
| `Resolution.Resolve` | `klee/lib/Core/AddressSpace.cpp:201-284` | The list is sound; unless incomplete it is exactly the objects the pointer can point to, each once. If every query is answered in time, it is incomplete only when it has reached a limit of two or more, exactly. |
| `MergeProtocol.MergingSearcher.ReleaseStates` | `klee/lib/Core/MergeHandler.cpp:122-130` | Exactly the states waiting at this handler become schedulable and the handler forgets its close points; the pause invariants hold. |
| `MergeProtocol.MergingSearcher.Destroy` | `klee/lib/Core/MergeHandler.cpp:143-152` | The handler leaves the merge groups and releases exactly its waiting states. |
| `MergeProtocol.MergingSearcher.DropReference` | `klee/lib/Core/SpecialFunctionHandler.cpp:369` | The handler survives exactly when some stack still holds it; if not, its waiting states and no others are released. |
| `MergeProtocol.MergingSearcher.DeleteState` | `klee/lib/Core/ExecutionState.cpp:85-91` | Deleting a state keeps the protocol, and what stops waiting becomes schedulable. |
| `MergeProtocol.MergingSearcher.LeaveOpenStates` | `klee/lib/Core/ExecutionState.cpp:86-89` | The deleted state leaves the open states of every handler on its stack. |
| `MergeProtocol.MergingSearcher.OpenMerge` | `klee/lib/Core/SpecialFunctionHandler.cpp:332-345` | Opening a region creates one fresh handler, opened at the current instruction count with only this state open, adds it to the merge groups, pushes it on this stack alone and keeps the protocol. |
| `MergeProtocol.MergingSearcher.Branch` | `klee/lib/Core/ExecutionState.cpp:93-129` | The fork inherits the whole stack, joins every handler on it and keeps the protocol. |
| `MergeProtocol.MergingSearcher.AddOpenStates` | `klee/lib/Core/ExecutionState.cpp:117-118` | The new state joins the open states of each handler of its stack. |
| `MergeProtocol.MergingSearcher.AddClosedState` | `klee/lib/Core/MergeHandler.cpp:81-120` | Merged away exactly when a state that arrived at the same point accepts it; otherwise it is paused at that point; the mean moves by this distance. |
| `MergeProtocol.MeanStep` | `klee/lib/Core/MergeHandler.cpp:83-89` | The incremental mean stays the mean of all distances recorded. |
| `MergeProtocol.MergingSearcher.CloseMerge` | `klee/lib/Core/SpecialFunctionHandler.cpp:347-371` | Closing without an open region changes nothing; otherwise the top handler is left, the state waits or is merged, and the protocol holds even if that was the last reference. |
| `MergeProtocol.MergingSearcher.CloseRegion` | `klee/lib/Core/SpecialFunctionHandler.cpp:363-370` | The non-empty case: exact new stacks, waits and removal. |
| `MergeProtocol.MergingSearcher.LeaveRegion` | `klee/lib/Core/SpecialFunctionHandler.cpp:367-369` | Registering at the close point and popping the stack, before the reference is dropped. |
| `MergeProtocol.TopHandler` | `klee/lib/Core/SpecialFunctionHandler.cpp:363-369` | The top of a stack is live, has the state open, and every state waiting there owes exactly the closes below it. |
| `MergeProtocol.MergingSearcher.TerminateState` | `klee/lib/Core/Executor.cpp:3024-3048` | A state the searcher has not seen is deleted at once, with its stack, any other is queued for removal; no other stack changes. |
| `MergeProtocol.MergingSearcher.UpdateStates` | `klee/lib/Core/Executor.cpp:2732-2755` | All added states arrive and all removed ones go, with their stacks and no others; afterwards base searcher and paused list partition the states. |
| `MergeProtocol.MergingSearcher.GetPrioritizeState` | `klee/lib/Core/MergeHandler.cpp:56-67` | Returns an open, unpaused state whose distance is below twice the mean, or there is none. |
| `MergeProtocol.ReachIsTwiceMean` | `klee/lib/Core/MergeHandler.cpp:45-67` | The bound the distances are compared with is twice the mean, and zero before any state has arrived. |
| `MergeProtocol.MergingSearcher.TryHandler` | `klee/lib/Core/Searcher.cpp:317-333` | One handler of the loop: one where nobody waits is skipped, one with a state worth waiting for gives that state, any other is released. |
| `MergeProtocol.MergingSearcher.SelectState` | `klee/lib/Core/Searcher.cpp:311-338` | Returns a live, unpaused state. Without incomplete merging nothing else changes. With it, the handlers are visited in order up to the first one at which states wait and an open, unpaused state is below twice the mean distance: that state is returned, and exactly the states waiting at the handlers before it are released. If there is no such handler, all waiting states are released and the base searcher chooses. |
| `MergeProtocol.MergingSearcher.Release` | `klee/lib/Core/MergeHandler.cpp:122-130` | Releasing a handler between steps keeps the protocol and only adds to the schedulable states. |
| `MergeProtocol.SomeUnpaused` | `klee/lib/Core/MergeHandler.cpp:81-152` | In every state of the protocol with a live state there is one that is not waiting: follow the wait chain to ever newer handlers. |
| `MergeProtocol.MergingSearcher.DeadlockFree` | `klee/lib/Core/Searcher.h:251` | Between steps the base searcher is empty exactly when no state is left: merging never deadlocks. |
| `MergeProtocol.MergingSearcher.Step` | `klee/lib/Core/Executor.cpp:2732-2755` | One whole scheduling step keeps the protocol: select, then open, close or any sequence of forks and terminations, then update. The scheduled state has stepped once, and every stack and instruction count is what the event says. |
| `MergeProtocol.MergingSearcher.Perform` | `klee/lib/Core/Executor.cpp:3024-3048` | Any sequence of forks and terminations of the scheduled state and of states forked in the same step keeps the protocol, never pauses the scheduled state, and leaves exactly the stacks and instruction counts the sequence describes: copies for forks, none for what is deleted. |
| `MergeProtocol.MergingSearcher.RunAll` | `klee/lib/Core/Searcher.cpp:311-338` | Over every run, whatever each step does, the protocol holds, and the run stops early only when no state is left. |
| `StateMerge.Conjoin` | `klee/lib/Core/ExecutionState.cpp:268-275` | The conjunction of a suffix holds exactly when all its conditions do, in whatever order they are taken. |
| `StateMerge.Suffixes` | `klee/lib/Core/ExecutionState.cpp:189-201` | Each path condition is equivalent to the shared part together with its own suffix. |
| `StateMerge.JoinedModels` | `klee/lib/Core/ExecutionState.cpp:277-319` | The joined path condition has the union of the models, and within it the first suffix alone tells which state a model came from. |
| `StateMerge.CompareFrames` | `klee/lib/Core/ExecutionState.cpp:175-187` | The walk down both stacks accepts exactly stacks of one height with the same call and function in every frame. |
| `StateMerge.MergeFrame` | `klee/lib/Core/ExecutionState.cpp:284-295` | Each local defined on both sides becomes the selection of the two values; any other keeps what it was. |
| `StateMerge.MergeStack` | `klee/lib/Core/ExecutionState.cpp:281-296` | The same for every frame of the stack. |
| `StateMerge.MergeByte` | `klee/lib/Core/ExecutionState.cpp:309-311` | One byte becomes the selection, both objects staying valid. |
| `StateMerge.MergeBytes` | `klee/lib/Core/ExecutionState.cpp:308-312` | Under every assignment the merged object holds the bytes of whichever side the assignment is on; the other object is unchanged. |
| `StateMerge.MergeObject` | `klee/lib/Core/ExecutionState.cpp:300-312` | The same through copy-on-write, with no other object or space affected. |
| `StateMerge.MergeObjects` | `klee/lib/Core/ExecutionState.cpp:298-313` | The same for the whole address space. |
| `StateMerge.MergeConstraints` | `klee/lib/Core/ExecutionState.cpp:315-319` | The new path condition holds exactly in the models of the shared part and one of the suffixes. |
| `StateMerge.ExecutionState.Merge` | `klee/lib/Core/ExecutionState.cpp:162-322` | Merging succeeds exactly when program counter, symbolics, call frames and bound objects agree. Then the models are the union of the two states' models, and in each model every byte and every commonly defined local has the value it had in the state that model came from. On failure nothing changes, and no other state is ever affected. |
| `StateMerge.ExecutionState.MergeSame` | `klee/lib/Core/ExecutionState.cpp:189-321` | The body once the states are comparable, in terms of the condition that tells the first state's models from the second's. |
| `Executor.PathState.Branch` | `klee/lib/Core/ExecutionState.cpp:121-129` | The copy has the same constraints, and both get one deeper. |
| `Executor.PathExecutor.AddConstraint` | `klee/lib/Core/Executor.cpp:1128-1161` | The models become exactly those in which the condition also holds. |
| `Executor.PathExecutor.Fork` | `klee/lib/Core/Executor.cpp:903-1126` | The two successors are exactly the models with the condition true and false, a missing one is empty unless forking was inhibited, when the coin decides; the true side reuses the state, both successors of a split are one deeper and stay at the block, and a timeout leaves the constraints alone. |
| `Executor.PathExecutor.Branch` | `klee/lib/Core/Executor.cpp:821-901` | One distinct state per condition, each with exactly the models of its condition; with the fork cap, exactly the chosen one. |
| `Executor.PathExecutor.Copies` | `klee/lib/Core/Executor.cpp:841-848` | Repeatedly branching a randomly picked earlier state gives distinct states with the original constraints. |
| `Executor.PathExecutor.ToUnique` | `klee/lib/Core/Executor.cpp:1191-1210` | The returned expression has the value of the original in every model and is a constant or the original; if queries are answered it is a constant exactly when the original is one or has a single value in all models. |
| `Executor.PathExecutor.ToConstant` | `klee/lib/Core/Executor.cpp:1215-1242` | Through the simplification and the query, the state keeps exactly the models in which the expression has the returned value, and some remain. |
| `Executor.PathExecutor.ExpressionOrder` | `klee/lib/Core/Executor.cpp:1818-1826` | The ordered map of cases sends each value to the block a first-match scan selects. |
| `Executor.PathExecutor.AddCase` | `klee/lib/Core/Executor.cpp:1832-1870` | One case keeps the invariant that the recorded targets describe the cases handled so far. |
| `Executor.PathExecutor.AddDefault` | `klee/lib/Core/Executor.cpp:1872-1895` | After the default is added, the target conditions are possible, exclusive and exhaustive. |
| `Executor.PathExecutor.SwitchTargets` | `klee/lib/Core/Executor.cpp:1815-1895` | The targets are distinct, each condition is possible and holds exactly when its target is the selected one, and none is missing. |
| `Executor.PathExecutor.ExecuteSwitch` | `klee/lib/Core/Executor.cpp:1791-1909` | The successors partition the models of the state by selected block, one state per block. |
| `Executor.PathExecutor.SwitchSymbolic` | `klee/lib/Core/Executor.cpp:1808-1908` | The symbolic case of the same. |
| `Executor.PathExecutor.Transfer` | `klee/lib/Core/Executor.cpp:1899-1907` | Each successor is sent to its own target. |
| `MemoryAccess.AccessIsGood` | `klee/lib/Core/Executor.cpp:3619-3634` | The access reached in a bound state names the object that serves the address, at the offset of the address in it. |
| `MemoryAccess.SplitOne` | `klee/lib/Core/Executor.cpp:3614-3638` | One fork on a bounds check divides the models by whether this object serves the access. |
| `MemoryAccess.SplitOver` | `klee/lib/Core/Executor.cpp:3609-3639` | Over the resolution list every outcome is exact and every model is covered; the state left over has exactly the models that no object dealt with serves, also when a query times out. |
| `MemoryAccess.SplitNext` | `klee/lib/Core/Executor.cpp:3611-3639` | One round of the loop: the outcomes stay exact and cover the longer prefix, and the state that goes on has exactly the models no object so far serves. |
| `MemoryAccess.UnservedOutside` | `klee/lib/Core/Executor.cpp:3604-3649` | With an exact resolution, being served by no listed object is being served by no object. |
| `MemoryAccess.AllSplit` | `klee/lib/Core/Executor.cpp:3609-3649` | These pieces form a partition, with the rest out of bounds or given up early. |
| `MemoryAccess.SplitResolved` | `klee/lib/Core/Executor.cpp:3598-3650` | The same from the resolution query on: whatever times out, every model is in exactly one successor, and only a successor given up early is inexact. |
| `MemoryAccess.Narrow` | `klee/lib/Core/Executor.cpp:3544-3560` | The address is pinned to one value it can have, and the models to exactly those in which it has it, or nothing changes. Without timeouts it is pinned only if the pointer can reach an object of at least the large-array size, and certainly if it reaches some object and only such. |
| `MemoryAccess.ExecuteMemoryOperation` | `klee/lib/Core/Executor.cpp:3526-3650` | The outcomes (access to one object at its offset, write to a read-only object, out of bounds, given up early) always partition the models of the state: no two overlap, none is missed, and all but the early ones are exact. Without timeouts there is no early one. The models are narrowed to one value of the address or not at all: without timeouts only if the pointer can reach an object of at least the large-array size, and certainly if it reaches only such. |
| `FlatMemory.SomeMemory` | `klee/lib/Core/AddressSpace.h:55-64` | Every address space is some flat memory under every assignment, because objects do not overlap. |
| `FlatMemory.FlatStored` | `klee/lib/Core/Memory.cpp:474-556` | Storing into the serving object is storing into the flat memory at the address, in either byte order. |
| `FlatMemory.FlatElsewhere` | `klee/lib/Core/Memory.cpp:474-556` | No other object sees a byte of that store. |
| `FlatMemory.FlatLoaded` | `klee/lib/Core/Memory.cpp:429-472` | Loading from the serving object is loading from the flat memory at the address. |
| `FlatMemory.AccessAddressable` | `klee/lib/Core/Memory.h:120-122` | The offset built by subtracting the base from an address that keeps the rule can be used for the access, and is where the address lies in the object, in every model. |
| `FlatMemory.TransferStore` | `klee/lib/Core/Executor.cpp:3626-3628` | A store through the space of an outcome turns each flat memory the space was into that memory updated at the value of the address; no other space changes. |
| `FlatMemory.TransferLoad` | `klee/lib/Core/Executor.cpp:3630-3631` | A load finds what a flat load at the value of the address finds, and no space changes. |
| `FlatMemory.TransferAll` | `klee/lib/Core/Executor.cpp:3609-3639` | Each outcome works on its own copy, made before its access: all do to their spaces what the request does to the original flat memory, and all other states keep every byte. |
| `FlatMemory.AccessMemory` | `klee/lib/Core/Executor.cpp:3526-3650` | The whole operation refines a flat memory: the models are partitioned, and in each model of an outcome its space is the original memory stored to, or its result the value loaded from it, at the concrete address. No other state sees a difference. |
| `MinDistance.Instructions` | `klee/lib/Core/StatsTracker.cpp:831-861` | The collected list is exactly the instructions of the module. |
| `MinDistance.Successors` | `klee/lib/Core/StatsTracker.cpp:746-758` | The successors of an instruction are exactly the edges of the flow graph: the next instruction inside a block, and after its last one the first instruction of each successor block. |
| `MinDistance.StatsTracker.BestThrough` | `klee/lib/Core/StatsTracker.cpp:870-885` | The least cost of getting past an instruction, zero exactly when no callee is known to return. |
| `MinDistance.StatsTracker.BestDistance` | `klee/lib/Core/StatsTracker.cpp:889-900` | The least of the current distance and those through the successors. |
| `MinDistance.StatsTracker.Relax` | `klee/lib/Core/StatsTracker.cpp:869-915` | A change is progress (something becomes known or smaller); no change means the instruction is settled. The invariant that every known distance is the length of a real path is kept. |
| `MinDistance.StatsTracker.Pass` | `klee/lib/Core/StatsTracker.cpp:866-916` | The same for a whole pass. |
| `MinDistance.UpdateProgress` | `klee/lib/Core/StatsTracker.cpp:906-914` | Why each change is progress, the single-return function included. |
| `MinDistance.UpdateInvariant` | `klee/lib/Core/StatsTracker.cpp:906-914` | Each update is attained by a path through the program, calls included. |
| `MinDistance.BestIsAttained` | `klee/lib/Core/StatsTracker.cpp:889-900` | The best distance is the length of some interprocedural path. |
| `MinDistance.NoShorterPath` | `klee/lib/Core/StatsTracker.cpp:864-917` | At a fixpoint no path to a return is shorter than the distance, calls nested to any depth. |
| `MinDistance.NoShorterInside` | `klee/lib/Core/StatsTracker.cpp:864-917` | The same for paths through a called function. |
| `MinDistance.FixpointIsShortest` | `klee/lib/Core/StatsTracker.cpp:864-917` | At a fixpoint all distances are exactly the shortest path lengths, and zero exactly where no return is reachable. |
| `MinDistance.StatsTracker.ComputeMinDistToReturn` | `klee/lib/Core/StatsTracker.cpp:829-918` | The iteration ends, with the exact shortest distance to a return for every instruction and function. |
| `SmtLib.SortWidth` | `klee/lib/Expr/ExprSMTLIBPrinter.cpp:935-966` | Only width-one expressions have Boolean sort. |
| `SmtLib.PrintSorted` | `klee/lib/Expr/ExprSMTLIBPrinter.cpp:169-208` | The printed term is well-sorted, of the requested sort, whatever subterms are abbreviated. |
| `SmtLib.FullSorted` | `klee/lib/Expr/ExprSMTLIBPrinter.cpp:210-273` | The same for the unabbreviated printing of each kind of node. |
| `SmtLib.ArrayIsSorted` | `klee/lib/Expr/ExprSMTLIBPrinter.cpp:478-504` | The printed stores are well-sorted. |
| `SmtLib.PrintMeaning` | `klee/lib/Expr/ExprSMTLIBPrinter.cpp:169-208` | Under the theory of bit-vectors and arrays the printed term has the value of the expression, casts between Boolean and one-bit sort included. |
| `SmtLib.FullMeaning` | `klee/lib/Expr/ExprSMTLIBPrinter.cpp:210-273` | The same for the unabbreviated printing of each kind of node. |
| `SmtLib.ArrayMeaning` | `klee/lib/Expr/ExprSMTLIBPrinter.cpp:478-504` | The printed stores read as the write log does. |
| `SmtLib.ShiftGuard` | `klee/lib/Expr/ExprSMTLIBPrinter.cpp:342-407` | The guarded arithmetic shift gives zero from the width on, where the theory operator would give the sign. |
| `SmtLib.GuardMeaning` | `klee/lib/Expr/ExprSMTLIBPrinter.cpp:342-407` | The printed guard evaluates to that choice. |
| `SmtLib.GateMeaning` | `klee/lib/Expr/ExprSMTLIBPrinter.cpp:1069-1107` | Logical connectives at Boolean sort and bitwise ones at bit-vector sort agree. |
| `SmtLib.EqualMeaning` | `klee/lib/Expr/ExprSMTLIBPrinter.cpp:221-247` | Comparing the operands at either sort is the comparison of the values. |
| `SmtLets.CollectDeps` | `klee/lib/Expr/ExprSMTLIBPrinter.cpp:757-778` | The stack walk finds exactly the nearest shared subexpressions below a binding. |
| `SmtLets.DepsOfParts` | `klee/lib/Expr/ExprSMTLIBPrinter.cpp:757-778` | A dependency is a shared proper part, and every other shared part lies inside a dependency. |
| `SmtLets.PrintAbbreviates` | `klee/lib/Expr/ExprSMTLIBPrinter.cpp:169-208` | A bound expression is printed as its name, and any other with the names of everything it depends on. |
| `SmtLets.VisitKids` | `klee/lib/Expr/ExprSMTLIBPrinter.cpp:766-777` | One step of that walk loses and adds nothing and shrinks the stack. |
| `SmtLets.DepMaps` | `klee/lib/Expr/ExprSMTLIBPrinter.cpp:757-783` | The two maps are inverse, and the first ready set is the bindings that use none. |
| `SmtLets.Release` | `klee/lib/Expr/ExprSMTLIBPrinter.cpp:797-816` | Placing a binding frees exactly the users waiting for nothing else. |
| `SmtLets.Place` | `klee/lib/Expr/ExprSMTLIBPrinter.cpp:793-817` | One placement keeps the invariant of the topological walk. |
| `SmtLets.UnrollLevel` | `klee/lib/Expr/ExprSMTLIBPrinter.cpp:789-820` | One level holds exactly the ready bindings, numbered consecutively, each using only earlier levels. |
| `SmtLets.NothingLeft` | `klee/lib/Expr/ExprSMTLIBPrinter.cpp:785-820` | When nothing is ready, every binding has been placed. |
| `SmtLets.Printer.ScanBindingExprDeps` | `klee/lib/Expr/ExprSMTLIBPrinter.cpp:731-821` | All bindings are ordered into levels that use only earlier levels, each binding exactly once. |
| `SmtLets.PartsEarlier` | `klee/lib/Expr/ExprSMTLIBPrinter.cpp:731-821` | In such an order every shared part of a binding, however deep, is bound on an earlier level. |
| `SmtLets.LevelMeaning` | `klee/lib/Expr/ExprSMTLIBPrinter.cpp:883-898` | The values a printed level binds are those of its expressions. |
| `SmtLets.LevelSorting` | `klee/lib/Expr/ExprSMTLIBPrinter.cpp:883-898` | Likewise for the sorts. |
| `SmtLets.DeeperScope` | `klee/lib/Expr/ExprSMTLIBPrinter.cpp:883-915` | Nesting one more level keeps names, sorts and values right. |
| `SmtLets.BodyMeaning` | `klee/lib/Expr/ExprSMTLIBPrinter.cpp:917` | In that scope the abbreviated body means the condition. |
| `SmtLets.Printer.PrintAssert` | `klee/lib/Expr/ExprSMTLIBPrinter.cpp:864-933` | The asserted term, with its nested lets, is a closed Boolean term that is true exactly when the condition holds, under every assignment; every let has its binding's number and refers to all it depends on by name. |
| `SmtLets.Printer.PrintQuery` | `klee/lib/Expr/ExprSMTLIBPrinter.cpp:656-670` | The printed query is satisfied exactly by the counterexamples: the constraints hold and the query does not. |
| `Seeds.EvaluateMeaning` | `klee/lib/Expr/ExprEvaluator.cpp:39-108` | Evaluating with a partial assignment keeps the value under every completion of it. |
| `Seeds.EvaluateReadMeaning` | `klee/lib/Expr/ExprEvaluator.cpp:14-37` | Likewise for a read behind a log whose indices may stay symbolic. |
| `Seeds.EvaluateDetermined` | `klee/lib/Expr/ExprEvaluator.cpp:39-108` | An expression whose value the assignment determines (all cells it reads have bytes, no divisor is zero, no constant is behind a barrier) evaluates to the constant it is worth. |
| `Seeds.RebuiltConstant` | `klee/lib/Expr/Expr.cpp:587-1212` | Every constructor but the read and the barrier folds constant arguments. |
| `Seeds.DirectReadsOf` | `klee/lib/Expr/ExprUtil.cpp:19-64` | The direct reads are the constant cells of exactly the read nodes among the parts of the expression. |
| `Seeds.IsByteAtMeaning` | `klee/lib/Core/SeedInfo.cpp:95-97` | The byte constraint holds exactly when the cell has that value. |
| `Seeds.SeedInfo.PatchByte` | `klee/lib/Core/SeedInfo.cpp:95-113` | The byte changes only if its old value was impossible, and the working constraints gain exactly the byte's value. |
| `Seeds.SeedInfo.PatchDirectReads` | `klee/lib/Core/SeedInfo.cpp:73-115` | Exactly the bound bytes read directly by the condition are fixed, and no other byte changes. |
| `Seeds.SeedInfo.PatchAll` | `klee/lib/Core/SeedInfo.cpp:126-153` | Every byte of every object is fixed, keeping the constraints satisfiable. |
| `Seeds.Patched` | `klee/lib/Core/SeedInfo.cpp:155-163` | Once all bytes are fixed, the condition can hold under the seed. |
| `Seeds.SeedInfo.PatchSeed` | `klee/lib/Core/SeedInfo.cpp:60-164` | The final check never fails: the patched seed admits the condition. Bytes other than the direct reads change only if patching those was not enough, and a seed that already admitted the condition is unchanged. |
| `CallPaths.CallPathManager.ComputeCallPath` | `klee/lib/Core/CallPathManager.cpp:61-72` | Either the nearest enclosing node of the same call, or one fresh child. |
| `CallPaths.CallPathManager.GetCallPath` | `klee/lib/Core/CallPathManager.cpp:74-89` | The child found is cached and the tree stays one in which no path repeats a call; a cached call changes nothing. |
| `CallPaths.CallPathManager.Record` | `klee/lib/Core/StatsTracker.cpp:384-389` | Counting a call or a statistic at a node changes that node only. |
| `CallPaths.OneOfACall` | `klee/lib/Core/CallPathManager.cpp:61-72` | Two nodes of one call never lie on one path. |
| `CallPaths.DepthIsCalls` | `klee/lib/Core/CallPathManager.cpp:61-72` | The depth of a node is the number of distinct calls on its path: recursion is bounded by the number of calls. |
| `CallPaths.GatheredStep` | `klee/lib/Core/CallPathManager.cpp:50-58` | Adding a node to its parent extends the summarised part by exactly its subtree, disjointly. |
| `CallPaths.CoveredStep` | `klee/lib/Core/CallPathManager.cpp:50-58` | Adding it to the table extends what the call covers by exactly that subtree, disjointly. |
| `CallPaths.CallPathManager.ResetSummaries` | `klee/lib/Core/CallPathManager.cpp:47-48` | Each summary starts as the node's own statistics. |
| `CallPaths.CallPathManager.GetSummaryStatistics` | `klee/lib/Core/CallPathManager.cpp:44-59` | Each summary is the sum over its subtree, and each call reports every node below any of its nodes exactly once. |
| `ProcessTree.PTree.constructor` | `klee/lib/Core/PTree.cpp:20-22` | A tree of one leaf. |
| `ProcessTree.PTree.Attach` | `klee/lib/Core/PTree.cpp:24-30` | The leaf becomes an inner node with two leaves; all other states keep their leaf and the tree invariant holds. |
| `ProcessTree.PTree.Detach` | `klee/lib/Core/PTree.cpp:37-44` | One step of pruning removes a childless node, leaving at most its parent to prune. |
| `ProcessTree.PTree.Remove` | `klee/lib/Core/PTree.cpp:32-46` | Exactly that state goes; while states remain the tree stays one in which every childless node is the leaf of a state. |
| `ProcessTree.PTree.OnlyRoot` | `klee/lib/Core/PTree.cpp:32-46` | Pruning reaches the root only when no state is left. |
| `ProcessTree.PTree.SelectState` | `klee/lib/Core/Searcher.cpp:271-290` | The random walk ends at the leaf of a live state, spending a coin only where there is a choice. |
| `ProcessTree.PTree.FlipsTo` | `klee/lib/Core/Searcher.cpp:271-290` | For every node on the way to another there are coins that lead there. |
| `ProcessTree.PTree.EveryStateIsReached` | `klee/lib/Core/Searcher.cpp:271-290` | Every live state is selected by some coins. |
| `KTestFile.Uint32RoundTrip` | `klee/lib/Basic/KTest.cpp:34-49` | Numbers read back. |
| `KTestFile.Uint32Layout` | `klee/lib/Basic/KTest.cpp:42-49` | A number is written most significant byte first. |
| `KTestFile.ParsedUint32` | `klee/lib/Basic/KTest.cpp:34-40` | And read so: four bytes give the number with those digits in base 256, and what follows is left. |
| `KTestFile.StringRoundTrip` | `klee/lib/Basic/KTest.cpp:51-71` | Non-empty strings read back. |
| `KTestFile.RoundTrip` | `klee/lib/Basic/KTest.cpp:103-233` | Everything the writer accepts reads back in every format the reader knows, whatever follows it; old formats lose only the two argument counters. |
| `KTestFile.FileLayout` | `klee/lib/Basic/KTest.cpp:187-233` | Where everything is in an encoded test: magic, version, argument count, each argument, the two counters of version 2 on, object count, each name and contents, every number big-endian, every string after its length, and nothing else. |
| `KTestFile.HeaderBytes` | `klee/lib/Basic/KTest.cpp:187-200` | The first bytes of a written file are those of the magic KTEST, followed by 0, 0, 0, 3. |
| `KTestFile.ReadableIff` | `klee/lib/Basic/KTest.cpp:103-185` | An encoded test is readable exactly when the writer accepts it: the reader too rejects every empty argument, name and contents. |
| `KTestFile.ParseExtends` | `klee/lib/Basic/KTest.cpp:103-185` | More bytes after a readable file change nothing about what is read. |
| `KTestFile.TruncatedIsRejected` | `klee/lib/Basic/KTest.cpp:103-185` | No proper prefix of an encoded test is accepted, in any format. |
| `KTestFile.ParseBack` | `klee/lib/Basic/KTest.cpp:103-185` | Every file that is read, of either header and any version, is the encoding in that format of what was read, followed by what was left. |
| `KTestFile.File.ReadString` | `klee/lib/Basic/KTest.cpp:51-62` | The cursor-based reader is the parser. |
| `KTestFile.File.WriteString` | `klee/lib/Basic/KTest.cpp:64-71` | The writer appends the encoding, and fails exactly on the empty string. |
| `KTestFile.File.ReadObjects` | `klee/lib/Basic/KTest.cpp:147-156` | The object loop is the parser. |
| `KTestFile.File.WriteObjects` | `klee/lib/Basic/KTest.cpp:213-221` | The object loop appends the encodings, and fails exactly on an empty name or contents. |
| `KTestFile.ToFile` | `klee/lib/Basic/KTest.cpp:187-233` | Succeeds exactly when no argument, name or contents is empty, and then has written the encoding. |
| `KTestFile.FromFile` | `klee/lib/Basic/KTest.cpp:103-185` | Rejects exactly what the parser rejects and otherwise returns what it parses. |

## Left out

- `Executor.PathExecutor.Fork`: does not model seeding, path replay, the static fork
  percentages or the depth limit; `inhibited` stands for every reason not to fork.
- `Executor.PathExecutor.Branch`: does not redistribute seeds over the new states.
- `Executor.PathExecutor.SwitchSymbolic`: as for `Executor.PathExecutor.ExecuteSwitch`.
- `Executor.PathExecutor.ExecuteSwitch`: does not model reaching the fork limit, and
  requires the feasibility queries to be answered, which the source asserts.
- `MemoryAccess.ExecuteMemoryOperation`: names the object and offset of each access and
  leaves the transfer itself to `FlatMemory.AccessMemory`; forking is not inhibited;
  index simplification and the array optimiser are identities.
- `MemoryAccess.SplitResolved`: does not say which models a successor given up early has,
  beyond that they are models of the state that no other successor has.
- `FlatMemory.AccessMemory`: requires the address to keep the rule against all-constant
  nodes, which every constructor keeps; binding a loaded value to a register is left out.
- `CreateMeaning.EqPartialRMeaning`: leaves the constant-array option to `ConstArrayEq`.
- `Resolution.Resolve`: bounds the list for limits of two and more; with a limit of one the
  source never compares the list with it, so no bound holds there.
- `Resolution.ResolveOne`: does not say which of several possible objects is returned.
- `Memory.ObjectState.Read`: requires what the source asserts: a constant offset in bounds,
  and a symbolic one whose byte positions do not fold to constants.
- `Memory.ObjectState.Write`: as for `Memory.ObjectState.Read`.
- `AddressSpaces.AddressSpace.Load`: as for `Memory.ObjectState.Read`.
- `AddressSpaces.AddressSpace.Store`: as for `Memory.ObjectState.Read`.
- `Memory.ObjectState.GetUpdates`: the name given to the constant array is not modelled;
  equal contents give equal arrays.
- `StateMerge.ExecutionState.Merge`: requires that registers of one function have one
  type and that differing objects are writable, which the source relies on or asserts.
- `MergeProtocol.MergingSearcher.AddClosedState`: whether two states merge is a
  parameter; what merging does is `StateMerge`.
- `MergeProtocol.MergingSearcher.Step`: does not model killing states at the memory cap,
  or a close in the same step as a fork.
- `MergeProtocol.MergingSearcher.RunAll`: as for `MergeProtocol.MergingSearcher.Step`.
- `MergeProtocol.MergingSearcher.SelectState`: which state the base searcher prefers is
  left open.
- `MinDistance.StatsTracker.ComputeMinDistToReturn`: does not model 32-bit or 64-bit
  overflow of the counters; the distance to uncovered code is not modelled.
- `SmtLets.Printer.PrintAssert`: terms are trees, not text; layout, named
  abbreviations and array declarations are not modelled.
- `SmtLets.Printer.ScanBindingExprDeps`: which expressions are shared is a parameter;
  the order within a level is left open.
- `Seeds.SeedInfo.PatchSeed`: requires direct reads to lie inside their objects and all
  queries to be answered, as the source assumes.
- `CallPaths.CallPathManager.GetSummaryStatistics`: a statistics record is one number;
  the summary of the root, which the source never resets, is left open.
- `KTestFile.ToFile`: does not model allocation failure, the open time log or strings
  with embedded zero bytes.
- `KTestFile.FromFile`: does not model allocation failure or freeing.
- `Visitors.ExprVisitor.Visit`: visitors other than the two replacing ones are not
  modelled.
- Constants are folded with the meaning given to the nodes. The source leaves that to
  LLVM's integers, which are not part of this model: they fill arithmetic shifts by the
  width or more with the sign (`BitVectorLaws.SignFilledShift` has the exact difference),
  and leave division by a constant zero undefined.
- Reference counting, hashing and the ordering of expressions; expressions are compared
  as values, and sets and maps are walked in an arbitrary order.
- The other expression builders, the textual expression language and its parser,
  implied values and the array optimiser.
- The solver chain (caches, independence, backends).
- LLVM instructions other than switch and memory access, floating point, external calls
  and copying concrete memory in and out.
- The weighted searchers, statistics files, and the learned search heuristics of this
  variant.
