# Kernel data structures and algorithms of Lean 4, modelled and proved

This project models the parts of the Lean 4 C++ kernel and library where a mutable, shared or
lossy implementation has to behave like a simple mathematical object, and proves that it does.
To verify: `dafny verify dfyconfig.toml`

## What is modelled

**Persistent arrays** (`VersionGraph`, `VersionMemory`, `PersistentArray`, `ArrayRuns`). The heap
of `parray` is an object of class `Memory` whose fields map addresses to cells, addresses to raw
arrays, and array variables to the cell they point to. Cells are overwritten exactly as in the
source: a chain of Set/PushBack/PopBack differences ends in one Root, reading an old version
reverses the chain, long chains may be split and half of them copied, and a reference count of
one allows writing in place. `VersionGraph` is the proof-only abstraction: which record each cell
holds, which sequence it denotes, how many references it has; `VersionMemory` says what each
single write does to that abstraction. The result: `Contents()` maps every live variable to an
immutable sequence, each operation changes the entry of the acting variable only, reference
counts are exact, and when no variable is left no cell and no raw array is left.

**Hash table** (`ProbeTable`, `HashTable`, `TableRuns`). Open addressing with tombstones, early
freeing and rebuilds, on top of the arrays above. Insertion, look-up and erasure are proved
against a set with one datum per key; over any history a look-up finds what was last inserted
under its key and not erased since. `found_deleted` is never set in the source, so a tombstone is
never reused; the model does the same.

**Universe levels** (`Names`, `Levels`, `LevelNormalize`, `LevelCompare`, `LevelRules`,
`LevelComplete`, `LevelCanonical`, `LevelInstantiate`). Levels denote naturals under an assignment.
`normalize` keeps the value; it never makes a level larger in the measure that makes `is_geq`
terminate. The answers of `is_geq` are those of a system of rules. On levels without imax it decides
the order and `is_equivalent` decides equality. With an imax, `is_geq` reads it as its second argument
on the left and as the max of both on the right, and finds all comparisons that hold in this reading
if no succ is put on an imax; others it may deny. One branch of `normalize` depends on pointer
equality; `Untouched` says when the result is the object that was passed in.

**Substitution** (`Exprs`, `Instantiate`, `Beta`, `InferApp`, `LocalContexts`). Locally nameless
expressions, the textbook operations, and the kernel's pruned, simultaneous and delayed versions
of them.

**Nested inductive types** (`Renaming`, `NestedApps`, `NestedRestore`, `NestedRecursors`,
`NestedElim`, `NestedTypes`, `NestedClosed`, `NestedInductive`, `NestedRoundTrip`). The elimination
of nested applications by auxiliary types, with its state and its queue, and its inverse: exactly the
nested applications are replaced, and after the whole queue the declaration can be restored from the
final table; so can what has been made of it since, such as the types of recursors. Terms are
compared as `operator==` does, up to binder names and infos: that is what `Erase` forgets. Types of
the environment are taken to be closed, and so are those of a declaration, in which the names to come
of the generator do not occur: the kernel has checked both before.

**Congruence cache** (`UnionFind`, `EquivManager`). Union by rank without path compression, and
the structural comparison that merges classes as it goes. The least congruence is what holds in
all congruences that contain the added pairs. The hash code is any function; with hashing, pairs with
different codes are not compared.

**Caches over shared terms** (`Subterms`, `Dag`, `DirectCache`, `CacheStack`, `CachedReplace`,
`Preorder`, `CachedForEach`, `Finding`, `Traversals`, `CachedEq`, `MaxSharing`). Expressions are
nodes of a store, children before parents, and pointers are node numbers. All caches of the source are one class
with direct-mapped slots that are overwritten on collisions. Whether a node is shared
(`is_shared`) is a free choice each time it is asked.

## Model

| member | source | states |
|---|---|---|
| `VersionGraph.RotateInv` | src/library/parray.h:175-248 | reversing one link of a chain (the old Root becomes a difference, its predecessor the Root) keeps the graph sound and every denotation |
| `VersionGraph.RelinkInv` | src/library/parray.h:318-341 | making the middle of a chain point to a copied Root that denotes the same sequence keeps the graph sound |
| `VersionGraph.SoleOwner` | src/library/parray.h:404-408 | a Root with one reference, held by a variable, has no other version that reads through it |
| `VersionGraph.NoHandlesNoCells` | src/library/parray.h:94-122 | with exact positive counts and no variable, there is no cell: nothing is leaked and there is no cycle |
| `VersionGraph.DenIsDenotation` | src/library/parray.h:175-248 | the sequence recorded for a cell is the one its chain of differences denotes |
| `PersistentArray.Memory.DeallocateCell` | src/library/parray.h:94-122 | freeing a cell nobody refers to frees what it kept alive, raw arrays included (those left belong to Roots that are left), and leaves every version with a reference as it was |
| `PersistentArray.Memory.DecRef` | src/library/parray.h:139-152 | one reference less; the cell is freed when it was the last |
| `PersistentArray.Memory.RerootPath` | src/library/parray.h:175-248 | after the reversal the requested cell is the Root and no variable denotes another sequence |
| `PersistentArray.Memory.Copy` | src/library/parray.h:252-291 | the copy of half a chain is a new Root that denotes the sequence of the cell it was made from |
| `PersistentArray.Memory.Reroot` | src/library/parray.h:313-346 | with or without the split, the requested cell becomes a Root and every variable keeps its sequence |
| `PersistentArray.Memory.Write` | src/library/parray.h:400-440 | in place or with a new cell, the acting variable gets the updated sequence and no other version changes |
| `PersistentArray.Memory.Push` | src/library/parray.h:442-485 | the same for push_back |
| `PersistentArray.Memory.Pop` | src/library/parray.h:487-531 | the same for pop_back |
| `PersistentArray.Memory.SetAt` | src/library/parray.h:590-592 | exactly the entry of the acting variable changes, to its sequence with one element replaced |
| `PersistentArray.Memory.PushBackTo` | src/library/parray.h:594-596 | exactly the entry of the acting variable changes, to its sequence with one element more |
| `PersistentArray.Memory.PopBackFrom` | src/library/parray.h:598-600 | exactly the entry of the acting variable changes, to its sequence without the last element |
| `PersistentArray.Memory.Read` | src/library/parray.h:365-383 | reading may reroot, but gives the element of the sequence and changes no sequence |
| `PersistentArray.Memory.Size` | src/library/parray.h:385-398 | the length of the sequence; no sequence changes |
| `PersistentArray.Memory.CreateFilled` | src/library/parray.h:554-559 | a new variable with n copies of a value; nothing else changes |
| `PersistentArray.Memory.CopyFrom` | src/library/parray.h:560 | a new variable with the sequence of another; nothing else changes |
| `PersistentArray.Memory.Destroy` | src/library/parray.h:562 | exactly this variable goes; every other sequence stays |
| `PersistentArray.Memory.Assign` | src/library/parray.h:564-572 | the assigned variable gets the sequence of the other; self-assignment included |
| `PersistentArray.Memory.EnsureUnshared` | src/library/parray.h:348-363 | no sequence changes, and afterwards the variable holds the only reference to a Root |
| `PersistentArray.Memory.OpenAccess` | src/library/parray.h:639-645 | beginning an exclusive access may reroot; no sequence changes, and the variable holds a Root |
| `PersistentArray.Memory.AccessAt` | src/library/parray.h:657-661 | the element read from the raw array is that of the sequence |
| `PersistentArray.Memory.AccessSize` | src/library/parray.h:652-655 | the size of the Root is the length of the sequence |
| `PersistentArray.Memory.AccessSet` | src/library/parray.h:663-668 | exactly the entry of the accessed variable changes, at one index, and it still holds a Root |
| `PersistentArray.Memory.NoLeak` | src/library/parray.h:94-152 | when the last variable is gone every cell and every raw array has been freed |
| `PersistentArray.Memory.MeaningOf` | src/library/parray.h:60-86 | a Root denotes its elements, a Set, PushBack or PopBack cell the sequence of the next cell with one element set, added or removed, and a variable what its cell denotes |
| `PersistentArray.Memory.CountsExact` | src/library/parray.h:124-152 | in every reachable state a reference count is the number of variables and of difference cells that refer to the cell, and positive |
| `PersistentArray.Memory.NoDangling` | src/library/parray.h:94-122 | no variable and no difference cell refers to a freed cell |
| `ArrayRuns.Run` | src/library/parray.h:365-612 | any interleaving of operations on any number of arrays gives the answers and the end state of independent immutable sequences; when no variable is left all memory has been freed |
| `ProbeTable.PassedToFree` | src/library/phashtable.h:162-203 | a probing that ends at a Free slot proves that the key is absent |
| `ProbeTable.InsertFree` | src/library/phashtable.h:162-203 | writing into the first Free slot of the probe path keeps the table proper and adds exactly the datum |
| `ProbeTable.InsertFound` | src/library/phashtable.h:162-171 | writing over the entry with the key keeps the table proper and replaces exactly that datum |
| `ProbeTable.EraseFree` | src/library/phashtable.h:304-311 | freeing a slot whose successor is Free keeps every probe path free of Free slots and removes exactly the key |
| `ProbeTable.EraseTomb` | src/library/phashtable.h:312-320 | so does leaving a tombstone |
| `ProbeTable.PathAvoids` | src/library/phashtable.h:304-311 | no probe path of another entry goes through a slot whose successor is Free |
| `HashTable.Probe` | src/library/phashtable.h:162-321 | the probing loops find the entry with the key if there is one, and otherwise the first Free slot or the end |
| `HashTable.FreeSlot` | src/library/phashtable.h:93-110 | the loops of copy_table always find a Free slot for an entry with a new key, so no entry is lost |
| `HashTable.HashTable.constructor` | src/library/phashtable.h:136-145 | a new table is empty; other arrays stay as they are |
| `HashTable.HashTable.Copy` | src/library/phashtable.h:147-150 | the copy stores the same data, sharing the array |
| `HashTable.HashTable.Insert` | src/library/phashtable.h:186-203 | what was stored under the key is replaced by the datum, nothing else changes, and the end of the probing is not reached |
| `HashTable.HashTable.Contains` | src/library/phashtable.h:228-242 | true if and only if a datum with the key is stored |
| `HashTable.HashTable.Find` | src/library/phashtable.h:258-272 | the datum stored under the key, or none if there is none |
| `HashTable.HashTable.EraseAux` | src/library/phashtable.h:289-321 | exactly the datum with the key is removed, its slot becomes Free if the next one is, else a tombstone; a rebuild is asked for exactly when a new tombstone makes them prevail |
| `HashTable.HashTable.Erase` | src/library/phashtable.h:326-330 | the same, rebuild included: a new array without tombstones takes over exactly when a new tombstone makes them prevail, otherwise only the slot of the key changes |
| `HashTable.HashTable.Rebuild` | src/library/phashtable.h:113-130 | a larger or equal new array without tombstones holds the same data |
| `HashTable.HashTable.ExpandTableIfNeeded` | src/library/phashtable.h:120-123 | the data stay; beyond a load of three quarters the capacity doubles, otherwise nothing changes, and some slot is Free afterwards |
| `HashTable.HashTable.CheckInvariant` | src/library/phashtable.h:357-374 | its assertions on m_size and m_num_deleted hold in every reachable state |
| `HashTable.HashTable.SizeCounts` | src/library/phashtable.h:152 | m_size is the number of data stored |
| `TableRuns.Run` | src/library/phashtable.h:186-330 | over any history, a look-up finds the datum last inserted under its key and not erased since |
| `TableRuns.Apart` | src/library/phashtable.h:147-203 | an operation on one table is not seen through a copy that shares its array |
| `Names.LessTotal` | src/util/name.cpp:243-272 | the order of names is irreflexive, asymmetric and total |
| `Names.LessTransitive` | src/util/name.cpp:243-272 | the order of names is transitive |
| `Names.LessMeans` | src/util/name.cpp:243-272 | two names are ordered as the first limbs in which they differ, a proper prefix comes first; numerals come before strings, strings are compared where they differ first |
| `Levels.ToOffset` | src/kernel/level.cpp:176-183 | the loop takes off all succs and counts them |
| `Levels.MkSucc` | src/kernel/level.cpp:585-591 | the loop adds k succs |
| `Levels.MkMax` | src/kernel/level.cpp:190-213 | however it simplifies, the value is the maximum of the two values |
| `Levels.MaxLaws` | src/kernel/level.cpp:190-213 | mk_max simplifies: zero is neutral, an argument of a max is absorbed, of two levels with one base the higher stays; otherwise the result is one of the arguments or their max |
| `Levels.SameBase` | src/kernel/level.cpp:207-209 | the assertion in mk_max: different levels with one base have different offsets |
| `Levels.MkIMax` | src/kernel/level.cpp:215-226 | however it simplifies, the value is that of imax |
| `Levels.IMaxLaws` | src/kernel/level.cpp:215-226 | mk_imax gives an imax exactly when the second argument may be zero but is not, the first is not zero and both differ; with a positive second argument it is mk_max |
| `Levels.NotZeroExact` | src/kernel/level.cpp:261-273 | is_not_zero holds if and only if the level is nonzero under every assignment |
| `Levels.NormLessOrder` | src/kernel/level.cpp:530-557 | is_norm_lt is a strict total order, zero is minimal, succ(l) is the immediate successor of l; numerals come first, then max, imax, parameters and metavariables |
| `LevelNormalize.SortUnique` | src/kernel/level.cpp:616 | sorting with is_norm_lt has one possible result, whatever the algorithm |
| `LevelNormalize.DropSubsumed` | src/kernel/level.cpp:617-652 | the loops over the sorted entries keep exactly those not subsumed by another, one of each |
| `LevelNormalize.KeptValue` | src/kernel/level.cpp:617-652 | dropping subsumed entries does not change the maximum |
| `LevelNormalize.MkMaxAll` | src/kernel/level.cpp:568-583 | the loop from the end computes the nested mk_max |
| `LevelNormalize.Normalize` | src/kernel/level.cpp:593-658 | the imperative normalization computes `Norm`, and hands back the object it was given exactly where `Untouched` says so |
| `LevelNormalize.UntouchedSame` | src/kernel/level.cpp:600-610 | where normalize hands back the object it was given, nothing was to be normalized |
| `LevelNormalize.NormPreserves` | src/kernel/level.cpp:593-658 | normalize keeps the value (and with imax read as its second argument, or as the max of both, does not make it smaller, or larger), never adds leaves, and with as many leaves never adds succs on the outside |
| `LevelCompare.EquivalentSound` | src/kernel/level.cpp:660-663 | levels reported equivalent have equal values under every assignment |
| `LevelCanonical.EquivalentExact` | src/kernel/level.cpp:593-663 | without imax, levels are reported equivalent if and only if they have the same value under every assignment: normalize is canonical |
| `LevelCompare.GeqSound` | src/kernel/level.cpp:665-686 | a true is_geq means a greater or equal value under every assignment of parameters and metavariables |
| `LevelRules.GeqIsDerivable` | src/kernel/level.cpp:665-686 | is_geq answers true if and only if the answer is in the least relation closed under the rules for zero, max, imax and succ, in whatever order these are applied |
| `LevelComplete.NormTree` | src/kernel/level.cpp:593-658 | if no succ is put on an imax, normalize gives a max of numerals, parameters and metavariables with succs, and of imax |
| `LevelComplete.GeqComplete` | src/kernel/level.cpp:665-686 | if no succ is put on an imax, is_geq holds whenever the left value, with imax read as its second argument, is always at least the right value, with imax read as the max of both |
| `LevelComplete.GeqExact` | src/kernel/level.cpp:665-686 | on levels without imax, is_geq holds if and only if the value is greater or equal under every assignment |
| `LevelComplete.GeqIncomplete` | src/kernel/level.cpp:665-686 | an imax on the left alone, on the right alone or on both sides can make the answer false although the value is never smaller |
| `LevelComplete.SuccOnIMax` | src/kernel/level.cpp:673-686 | a succ on an imax, or an imax on both sides, can make the answer false although that is so, or although the values are ordered |
| `LevelInstantiate.FindParam` | src/kernel/level.cpp:410-418 | the loop over both lists finds the level of the first matching name |
| `LevelInstantiate.UpdateMax` | src/kernel/level.cpp:394-401 | rebuilding a max or imax has the value of the new arguments; the old object comes back only for unchanged arguments |
| `LevelInstantiate.Instantiate` | src/kernel/level.cpp:347-363 | instantiating parameters is evaluating under the assignment updated with the values of the levels; the result is the level with every max and imax above a parameter rebuilt, or kept when its arguments are what they were |
| `Exprs.RangeExact` | src/kernel/expr.cpp:236-258 | the cached loose range is one more than the largest loose index, 0 if there is none |
| `Subterms.LooseMeans` | src/kernel/expr.cpp:745-763 | a variable occurs loose if and only if at some position, under d binders, there stands the variable with index larger by d |
| `Exprs.SomeFVar` | src/kernel/expr.cpp:448-460 | if the has_fvar flag is set some free variable occurs |
| `Exprs.NoFVar` | src/kernel/expr.cpp:448-460 | if it is not set none does |
| `Exprs.ReplacedShift` | src/kernel/instantiate.cpp:37-62 | substituting for variables that a lift has skipped cancels that much of the lift, for open terms |
| `Exprs.ReplacedSplit` | src/kernel/instantiate.cpp:37-62 | substituting two lists at once is substituting the outer one first, under the variables of the other |
| `Instantiate.LiftIsShift` | src/kernel/expr.cpp:788-803 | pruned lifting is textbook lifting |
| `Instantiate.LowerIsUnshift` | src/kernel/expr.cpp:765-782 | pruned lowering is textbook lowering |
| `Instantiate.LowerLift` | src/kernel/expr.cpp:765-807 | lowering undoes lifting |
| `Instantiate.FindLooseExact` | src/kernel/expr.cpp:745-763 | the pruned search finds a loose variable if and only if it occurs |
| `Instantiate.EasyReplaced` | src/kernel/instantiate.cpp:19-35 | when the short cut applies it gives the textbook result |
| `Instantiate.InstIsReplaced` | src/kernel/instantiate.cpp:37-62 | instantiate, from any index, is textbook capture-avoiding substitution |
| `Instantiate.InstRevIsReplaced` | src/kernel/instantiate.cpp:69-90 | instantiate_rev is textbook substitution of the reversed terms |
| `Instantiate.InstAtOnce` | src/kernel/instantiate.cpp:37-64 | substituting n terms at once is n calls with one term each, open terms included |
| `Instantiate.InstLift` | src/kernel/instantiate.cpp:37-64 | instantiating a lifted term gives the term back |
| `Instantiate.FindLast` | src/kernel/abstract.cpp:22-27 | the search loop finds the last variable with the name |
| `Instantiate.AbstractIsBound` | src/kernel/abstract.cpp:14-32 | pruned abstraction is textbook abstraction |
| `Instantiate.OpenClose` | src/kernel/abstract.cpp:14-32 | instantiating what was abstracted gives back a closed term |
| `Instantiate.CloseOpen` | src/kernel/instantiate.cpp:69-90 | abstracting distinct fresh variables that were instantiated gives the term back |
| `Beta.MkApp` | src/kernel/expr.cpp:529-534 | the loop applies the function to the arguments in order |
| `Beta.MkRevApp` | src/kernel/expr.cpp:547-555 | the loop applies it to the reversed arguments |
| `Beta.GetAppArgs` | src/kernel/expr.cpp:562-571 | the head and the arguments |
| `Beta.ApplyArgs` | src/kernel/expr.cpp:529-571 | applying the head to the arguments gives the application back |
| `Beta.StepsAtOnce` | src/kernel/instantiate.cpp:96-110 | n head beta steps are one simultaneous substitution |
| `Beta.ApplyBeta` | src/kernel/instantiate.cpp:96-110 | the result is that of as many single head beta steps as there are lambdas and arguments |
| `Beta.CheapBetaReduce` | src/kernel/instantiate.cpp:123-142 | all beta steps when the body is closed or a variable, otherwise nothing |
| `Beta.ClosedCheap` | src/kernel/instantiate.cpp:137-139 | the assertion in cheap_beta_reduce holds of closed terms |
| `InferApp.PendingBinder` | src/kernel/type_checker.cpp:150-155 | going below a binder whose pending arguments are not yet substituted |
| `InferApp.InferTypeOfApp` | src/kernel/type_checker.cpp:145-162 | the delayed substitution gives the result, or the error, of the argument-by-argument loop, for any whnf |
| `LocalContexts.LocalContext.MkLocalDecl` | src/kernel/local_ctx.cpp:49-65 | the declaration is added under the next index |
| `LocalContexts.LocalContext.MkBinding` | src/kernel/local_ctx.cpp:95-112 | the loop puts the binders of the declarations around the abstracted term, or fails on an unknown variable |
| `LocalContexts.LocalContext.Open` | src/kernel/type_checker.cpp:94-110 | opening a telescope with fresh variables and binding them again gives the term |
| `LocalContexts.LocalContext.OpenAndClose` | src/kernel/local_ctx.cpp:95-112 | opening and closing lambdas, pis or lets gives back the same closed term, binder names and infos included |
| `Renaming.Reopened` | src/kernel/inductive.cpp:833-836 | abstracting one set of parameters and instantiating another is renaming |
| `NestedRestore.RestoreEncoded` | src/kernel/inductive.cpp:760-792 | restoring a body in which nested applications were replaced gives the body, up to binder names |
| `NestedRestore.EncodesMore` | src/kernel/inductive.cpp:886-951 | later auxiliary types do not invalidate earlier replacements, and what is not nested stays so for fewer types |
| `NestedRestore.EncodesRange` | src/kernel/inductive.cpp:886-956 | replacing makes no loose variables |
| `NestedRestore.ReplacePrefixMeans` | src/util/name.cpp:426-438 | replace_prefix changes exactly the names with the prefix |
| `NestedRecursors.NameBack` | src/kernel/inductive.cpp:743-749 | the name of a constructor comes back from that of its copy if and only if it begins with the name of its type, or not with that of the auxiliary type |
| `NestedRecursors.RestoreReads` | src/kernel/inductive.cpp:760-792 | a term of the auxiliary environment is restored to what it stands for: auxiliary types for nested applications, their constructors for those of the original type with its levels and parameters, recursors for the renamed ones |
| `NestedRecursors.RestoreExact` | src/kernel/inductive.cpp:760-792 | a term that meets the assertions of restore_nested stands for exactly one term, the result |
| `NestedElim.GetParams` | src/kernel/inductive.cpp:958-966 | opening n binders one by one succeeds if and only if there are n, and gives their body over fresh variables |
| `NestedElim.DigitsMean` | src/util/name.cpp:400-405 | the number appended to a name is written in decimal, without zeros in front |
| `NestedElim.AppendDiffer` | src/util/name.cpp:400-405 | names numbered differently are different, whatever they were |
| `NestedTypes.FamilyAdded` | src/kernel/inductive.cpp:918-946 | adding the whole mutual family of a new nested type keeps the table injective |
| `NestedApps.NotNestedFn` | src/kernel/inductive.cpp:843-875 | the head of an application that is not nested is not nested |
| `NestedApps.MentionsMeans` | src/kernel/inductive.cpp:858-866 | the search in an argument succeeds if and only if at some position there is a constant that names one of the types |
| `NestedApps.NestedMeans` | src/kernel/inductive.cpp:843-875 | a term is nested if and only if it is an inductive type applied to its parameters and possibly more, and one of the types stands in some parameter |
| `NestedInductive.ElimNested.MkUniqueName` | src/kernel/inductive.cpp:821-827 | the loop ends with the first number from the next one on that gives a name outside the environment |
| `NestedInductive.ElimNested.IsNestedInductiveApp` | src/kernel/inductive.cpp:843-875 | nested, not nested, or the error for parameters with loose variables |
| `NestedInductive.AppliedParams` | src/kernel/inductive.cpp:877-883 | instantiate_pi_params gives the type that inference, argument by argument, gives to what has the type applied to the parameters |
| `NestedInductive.SpecialOpened` | src/kernel/inductive.cpp:926-944 | opened with the parameters of the constructor at hand, the copy of a type or constructor has the type of that type or constructor applied to the parameters of the nested application |
| `NestedInductive.ElimNested.AddMember` | src/kernel/inductive.cpp:918-946 | a type of the family gets a fresh name, an entry, and a copy: its type and constructors are those of J and its constructors for the given levels, applied to the parameters, argument by argument |
| `NestedInductive.ElimNested.AddFamily` | src/kernel/inductive.cpp:916-949 | the whole mutual family gets entries and such copies of its types and constructors; the table stays injective |
| `NestedInductive.ElimNested.ReplaceIfNested` | src/kernel/inductive.cpp:886-951 | an application is replaced if and only if it is nested, by its auxiliary type; what is added are copies of the family with its constructors |
| `NestedInductive.ElimNested.OnlyNested` | src/kernel/inductive.cpp:886-951 | in every state only applications that are nested have an entry to be replaced by |
| `NestedInductive.ElimNested.ReplaceAllNested` | src/kernel/inductive.cpp:954-956 | every application that was nested at the start is replaced, and what stays was not nested |
| `NestedInductive.ElimNested.ElimConstructor` | src/kernel/inductive.cpp:983-993 | parameters are opened, all nested applications replaced, parameters bound again |
| `NestedInductive.ElimNested.ElimType` | src/kernel/inductive.cpp:979-996 | all constructors of a type are freed of nested applications, in order and under their names; only copies are added to the queue |
| `NestedInductive.ElimNested.ElimQueue` | src/kernel/inductive.cpp:976-998 | when the queue ends every type in it has been processed, the copies included, and each copy was made for a nested application in an earlier type |
| `NestedInductive.ElimNested.CopyGood` | src/kernel/inductive.cpp:918-946 | the copy of a type of the environment is closed and can be processed in its turn |
| `NestedInductive.ElimNested.AuxToNested` | src/kernel/inductive.cpp:725-730 | the map holds exactly the entries of the table, closed nested applications; different auxiliary types stand for different ones, also up to binder names |
| `NestedClosed.EncodesFresh` | src/kernel/inductive.cpp:886-956 | replacing nested applications brings in no free variables but the parameters |
| `NestedRoundTrip.RestoreNested` | src/kernel/inductive.cpp:751-794 | for types and for lambda terms, as the rules of recursors are: below the binders for the parameters the body is replaced by what it stands for |
| `NestedRoundTrip.CopyRestored` | src/kernel/inductive.cpp:764-790 | with the names and entries that the elimination makes, an auxiliary type is restored to `J Ds` and each constructor of it to the constructor of J with the levels of J, applied to Ds and the remaining arguments |
| `NestedRoundTrip.RoundTrip` | src/kernel/inductive.cpp:751-795 | for a closed constructor type that mentions no replaced name, restoring gives back the original up to binder names, whichever fresh parameters are used |
| `NestedRoundTrip.EliminateNested` | src/kernel/inductive.cpp:968-1001 | the parameters are those of the first type; then the whole queue is processed |
| `NestedRoundTrip.ElimAndRestore` | src/kernel/inductive.cpp:968-1109 | after eliminating a whole declaration, restoring its constructors with the final map gives back all types, names and constructor types, up to binder names |
| `UnionFind.Find` | src/kernel/equiv_manager.cpp:21-28 | the root is found within the logarithm of the number of nodes |
| `UnionFind.Link` | src/kernel/equiv_manager.cpp:30-45 | exactly two classes become one; ranks grow along links and a root of rank r has 2^r members |
| `UnionFind.AddNode` | src/kernel/equiv_manager.cpp:12-19 | a new node is a class of its own |
| `EquivManager.EntailedParts` | src/kernel/equiv_manager.cpp:73-117 | terms whose compared parts are equal are equal |
| `EquivManager.EntailedTransitive` | src/kernel/equiv_manager.cpp:56-66 | the least congruence is transitive |
| `EquivManager.CongruentClosed` | src/kernel/equiv_manager.cpp:73-117 | what comparing the structure finds goes through every constructor, whatever binder names, mdata and structure names, and holds of the added pairs, two bound variables aside |
| `EquivManager.EquivManager.Merge` | src/kernel/equiv_manager.cpp:30-45 | the classes of two equal terms are joined, no class is split |
| `EquivManager.EquivManager.ToNode` | src/kernel/equiv_manager.cpp:47-54 | each term, up to binder names, has one node |
| `EquivManager.EquivManager.IsEquivCore` | src/kernel/equiv_manager.cpp:56-119 | a true answer is in the least congruence of the added pairs, whatever failed comparisons have left behind, and is remembered; terms are reported when their classes, their structure up to binder names, or their parts are the same and, with hashing, the hash codes agree at every pair compared; different codes are never reported; classes only grow |
| `EquivManager.EquivManager.IsEquiv` | src/kernel/equiv_manager.cpp:121-124 | with and without hashing, everything is reported that comparing the structure finds on top of the added pairs as long as hash codes agree, and terms that are the same up to binder names if the hash code does not see these; two bound variables are equal by index |
| `EquivManager.EquivManager.AddEquiv` | src/kernel/equiv_manager.cpp:126-130 | the two terms are in one class from now on |
| `EquivManager.Run` | src/kernel/equiv_manager.cpp:121-130 | over any run every answer is right with respect to the pairs added before it: a true one is entailed, what comparing the structure finds on top of them is reported, with hashing where the codes agree, and different codes are not |
| `DirectCache.DirectCache.Clear` | src/kernel/replace_fn.cpp:46-52 | resetting the used slots leaves no entry |
| `DirectCache.DirectCache.Find` | src/kernel/replace_fn.cpp:29-35 | an entry is found exactly when its slot holds the key |
| `DirectCache.DirectCache.Insert` | src/kernel/replace_fn.cpp:37-44 | the entry takes its slot, every other slot stays |
| `CacheStack.CacheStack.Acquire` | src/kernel/cache_stack.h:26-32 | the cache taken is empty and not in use |
| `CacheStack.Traverse` | src/kernel/cache_stack.h:16-41 | however traversals are nested, the caches of the outer ones stay as they are |
| `CachedReplace.ReplaceFn.Apply` | src/kernel/replace_fn.cpp:69-119 | with a lossy cache the result is that of the recursion without one |
| `Preorder.PositionsReached` | src/kernel/for_each_fn.cpp:84-117 | the positions listed are exactly those above which the callback always goes on |
| `Preorder.PositionsOrdered` | src/kernel/for_each_fn.cpp:87-117 | they are listed from left to right, a term before its parts |
| `Preorder.VisitsPositions` | src/kernel/for_each_fn.cpp:84-117 | the recursion shows the callback what stands at these positions, one after the other, each with the number of binders passed |
| `CachedForEach.Apply` | src/kernel/for_each_fn.cpp:58-119 | however the lossy cache hits, the first visits of the explicit stack are those of the recursion without a cache, in the same order, up to where the callback has found what it looks for; if it never does, the same pairs are visited |
| `Traversals.Replace` | src/kernel/replace_fn.cpp:128-130 | the same for replace with a cache from the stack |
| `Traversals.ForEach` | src/kernel/for_each_fn.cpp:127-129 | the same for for_each with a cache from the stack |
| `Traversals.Find` | src/kernel/find_fn.h:13-26 | find gives what stands at the first position, from left to right, that has the property, or none if there is no such position |
| `Traversals.HasLooseBVar` | src/kernel/expr.cpp:745-763 | has_loose_bvar, run with the cache, holds if and only if the variable occurs loose |
| `CachedEq.ClosedEqual` | src/kernel/expr_eq_fn.cpp:65-123 | pairs entered before they were compared are equal once all comparisons have ended well |
| `CachedEq.ExprEq.Apply` | src/kernel/expr_eq_fn.cpp:65-123 | a false answer is right; a true one is right if the pairs still being compared are |
| `CachedEq.ExprEq.Compare` | src/kernel/expr_eq_fn.cpp:124-135 | is_equal and is_bi_equal hold if and only if the terms are equal, without or with binder names and infos; the cache is left empty |
| `MaxSharing.MaximallyShared` | src/library/max_sharing.cpp:49-103 | equal subterms of any results are the same node |
| `MaxSharing.MaxSharingFn.Apply` | src/library/max_sharing.cpp:49-103 | the result is the same term, built from nodes of the cache only; it is the node itself when that represents its term, or when its children do and the term is new |
| `MaxSharing.MaxSharingFn.AlreadyProcessed` | src/library/max_sharing.cpp:109-112 | true exactly of the nodes that represent their term |
| `MaxSharing.ShareAll` | src/library/max_sharing.cpp:49-107 | over any calls on one object all results hold their terms, and equal subterms of any two results are one node |

## Left out

- Locks, mutexes and threads of `parray`: operations are atomic; the thread-safe variant only disables the split.
- Move construction and move assignment of `parray`, and `clear` of the hash table: the latter two do not compile when instantiated.
- The order in which the split updates links and counts (src/library/parray.h:332-341): both happen within one step of the model.
- `for_each` of arrays and tables with a callback, and `swap` of two array objects: exchanging two names is used instead.
- Machine words: indices, sizes, hash codes, ranks, weights and depths are unbounded; loose ranges do not saturate.
- Memory layout and scalar offsets: addresses are map keys.
- The types stored inside free variables (legacy): a free variable is its name.
- `whnf` in `infer_app` is any function that may fail; `is_def_eq`, lazy delta reduction and the checking branch of `infer_app` are not modelled, nor are the inferred types in `infer_lambda`, `infer_pi` and `infer_let`, only their open and close loops.
- `head_beta_reduce` as a whole: it need not terminate on untyped terms.
- LevelCompare.GeqSound: what a false answer of `is_geq` means for the values is stated for levels without a succ on an imax (`GeqComplete`, `GeqExact`); with an imax it may be given although the values are ordered (`GeqIncomplete`, `SuccOnIMax`).
- Canonicity of `normalize` on levels with imax: its pointer test keeps some imax as they are.
- `is_lt`, `occurs`, `get_undef_param` and printing of levels.
- LevelInstantiate.Instantiate: whether a max with unchanged arguments is kept or rebuilt is left open, because it depends on pointers.
- `instantiate_lparams`: any function in the nested elimination; the per-constant cache of instantiated types is left out.
- Termination of the queue of `elim_nested_inductive_fn`: it need not end, so `ElimQueue` takes a number of rounds; every result is stated for any number of them.
- NestedRoundTrip.RoundTrip: constructor types only; how the recursors of the auxiliary environment are made is not modelled, so for their types and rules it is stated what each term is restored to (`RestoreReads`), not a round trip.
- CachedForEach.Apply: the state of a callback is only whether it has found what it looks for.
- Exceptions in the middle of `replace_if_nested` leave partial entries in the source; nothing is said about that state.
- Levels inside `max_sharing` are atoms: `update_max` might simplify them.
- Resource checks, options, attributes, serialization and all other modules of the repository.
