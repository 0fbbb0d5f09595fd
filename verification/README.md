# Models of the algorithms inside the latino front end

These modules model the self-contained algorithms of the front end and prove what they compute. Each
operation that the program carries out step by step is a method (often of a class with the program's own
fields) that is proved equal to a function of its inputs or of the old state; the lemmas are about those
functions.

* **The C++ inheritance lattice.** `Hierarchy` defines base specifiers, inheritance paths and subobjects: a
  subobject is a most derived class or virtual base together with the non-virtual steps below it (sections
  10.1, 10.2 and 10.3 of ISO/IEC 14882:2011); `Containment` is the order of subobjects by containment and has
  the outermost subobjects whose class has a property. `BasePathSearch` is the depth-first search with its
  counters and scratch path, `SubobjectCounting`, `RecordedPaths` and `PathNumbers` say what it counts, finds
  and records, `Derivation` has the derived-from queries, `MemberLookup` the lookup on top of the search and
  what it finds. `Overriders` and `FinalOverriders` collect the final overriders of a class,
  `SubobjectNumbers` follows the numbers given to subobjects meanwhile, `OverriderMeaning` says which overriders
  are listed for which subobject, and `FinalOverriderLookup` weeds them and proves which remain. `HiddenWeeding`
  is the removal of hidden entries by a test that reads the sequence while it is being compacted.
* **Delta debugging.** `DeltaMinimizer` is the minimiser of `utils/token-delta.py` with its memo of failures.
* **The edit merger.** `EditMerge` has removals and insertions, `CapturedDiagnostics` the list of diagnostics,
  `Transactions` the all-or-nothing transactions over both; `ActionEffects` says of every action which positions
  it removes and at which location its text appears.
* **Types and layout.** `TypeTable` is the table of uniqued types with canonical nodes, `ObjectRepresentation`
  the check for unique object representations and `AcceptedTypes` which types pass it, `BuiltinDescriptor` the
  decoder of builtin type strings and `BuiltinTypeNames` how every type is written in them, `Alignment` the
  alignment arithmetic.
* **Template differences.** `TemplateArguments` is the iterator that expands parameter packs, `DiffTree` the
  index-linked tree, how it is built by one cursor and printed by another, and `DiffMarks` says which arguments
  are left out of the text.
* **The remap table.** `FileRemapper` has the two maps and their file format.

Two results say what the language standard asks for of the whole computation, not of one function. The final
overriders of a virtual method in a subobject are exactly those declared in the outermost subobjects around it
whose class overrides the method (`FinalOverridersAreOutermost`), and a lookup by class finds exactly the
matching subobjects that lie in no other matching subobject (`LookupFindsOutermost`).

Where the program is not exact, the model keeps the program and states the exact condition:

* the number of non-virtual subobjects has 31 bits, so `isAmbiguous` overlooks an ambiguity exactly when that
  number wraps around to too small a value (`AmbiguityUpToWrapAround`; a hierarchy of 94 classes does it), and
  the numbers on recorded paths tell subobjects apart exactly when there are fewer than 2^31 besides the
  virtual base, or 2^31 and no virtual base (`NumbersIdentifySubobjects`; `LadderNumbersRepeat` has 2^32);
* the numbers of subobjects in the map of final overriders have 32 bits, with the same condition for 2^32
  (`NumbersDifferExactlyWhen`; `LadderNumbersAgree` has 2^33);
* an rvalue reference formed over an lvalue reference is given the canonical type of an rvalue reference, and
  canonical types decide equality exactly when there is none (`CanonicalsDecideExactlyWhen`);
* `hasUniqueObjectRepresentations` accepts types whose padding is an unnamed bit-field, or lies beside a
  bit-field member of a union or beside the value of an `_ExtInt` type, and is right exactly for the others
  (`UniqueMeansNoPadding`). In turn a type all of whose bits lie under exactly one integer, pointer, reference
  or unpadded member pointer is accepted exactly when it is trivially copyable and its parts lie one after the
  other (`AcceptedExactlyWhen`): an overlapping empty member and an unnamed bit-field beside the members of a
  union are refused without need (`OverlappingMemberIsRejected`, `UnnamedBitFieldInUnionIsRejected`);
* the alignment of a vector is no power of two exactly when the low 32 bits of its width are zero or exceed
  2^31 (`AlignIsPow2ExactlyWhen`). In the second case, and for an array of such vectors, the program rounds a
  width up to a multiple of zero, which divides by zero (`VectorsThatDivideByZero`); `DefinedExactlyWhen` says
  for which types it does not.
  An empty vector is rejected when it is declared (`lib/Sema/SemaType.cpp:2501-2503` and `2560-2562`), so that
  only a vector whose width is a multiple of 2^32 bits comes out with alignment zero;
* the two maps of the remapper stay inverse to one another exactly when no two files are replaced by the same
  one (`InverseKeptExactlyWhen`), and reading back what was written restores the first map exactly when every
  buffer was given a temporary file that could be opened (`RestoresExactlyWhen`): otherwise a line is left out,
  and reading pairs the wrong files (`LostLineMispairs`). The second map is restored too exactly when it led
  every replacement back to the last of its originals in the order of writing (`RestoresBothExactlyWhen`);
* an `I` before a vector or complex type is lost (`NoConstantVectors`);
* the comment that asks whether reading the sequence in the middle of its compaction works
  (`lib/AST/CXXInheritance.cpp:751`) is answered: it does, because hiding is a strict partial order.

## Model

| member | source | states |
|---|---|---|
| Hierarchy.SubobjectListMembers | include/latino/AST/CXXInheritance.h:130-137 | the enumeration of subobjects by most derived class or virtual base and non-virtual steps lists exactly what inheritance paths denote |
| Hierarchy.SubobjectListDistinct | include/latino/AST/CXXInheritance.h:130-137 | no subobject is listed twice, so the length of the list is their number |
| Hierarchy.DenoteShape | include/latino/AST/CXXInheritance.h:130-137 | what a path denotes starts at the most derived class or at one of its virtual bases and goes on by non-virtual steps |
| Hierarchy.NVCountIsLength | include/latino/AST/CXXInheritance.h:130-137 | the recursive count of non-virtual paths is the number of such paths |
| BasePathSearch.BasePaths.LookupInBases | lib/AST/CXXInheritance.cpp:181-328 | the loop over mutable counters, scratch path and path list computes the search function, with the early return when ambiguities are not sought |
| BasePathSearch.BasePaths.VisitBase | lib/AST/CXXInheritance.cpp:191-322 | one iteration: count, extend the path, match or descend, step back |
| BasePathSearch.BasePaths.EnterBase | lib/AST/CXXInheritance.cpp:205-253 | a virtual base is to be entered only if its flag was not set before; the 31-bit number of a non-virtual one is incremented; the path grows by the step with its top-down access |
| BasePathSearch.BasePaths.IsAmbiguous | lib/AST/CXXInheritance.cpp:63-67 | answers whether flag plus number exceed one, and leaves every counter as it was |
| SubobjectCounting.SearchIsExact | lib/AST/CXXInheritance.cpp:181-328 | the search succeeds exactly when some base specifier below the class matches, although each virtual base is entered once |
| SubobjectCounting.MatchBelowIsPath | lib/AST/CXXInheritance.cpp:181-328 | that is the case exactly when an inheritance path ends in a matching step |
| SubobjectCounting.SearchCounts | lib/AST/CXXInheritance.cpp:205-221 | a search adds to the number of a class one for each non-virtual path to it from the origin or from a virtual base seen for the first time |
| SubobjectCounting.CountersAreExact | lib/AST/CXXInheritance.cpp:205-221 | after an exhaustive search, the flag of every class that is not hidden says whether it is a virtual base, and its number is that of its other subobjects modulo 2^31 |
| SubobjectCounting.AmbiguityIsExact | lib/AST/CXXInheritance.cpp:59-67 | after a search for a base class, it is called ambiguous exactly when it has two different subobjects, if there are fewer than 2^31 |
| SubobjectCounting.AmbiguityUpToWrapAround | lib/AST/CXXInheritance.cpp:63-67 | without that bound: the answer is right exactly when the 31-bit number has not wrapped around to hide the ambiguity |
| SubobjectCounting.LadderHidesAmbiguity | lib/AST/CXXInheritance.cpp:219-220 | 31 levels of two bases each give 2^31 subobjects, and the base is called unambiguous |
| RecordedPaths.SearchRestores | lib/AST/CXXInheritance.cpp:312-325 | an exhaustive or unsuccessful search leaves the scratch path and its access as they were, and only appends to the paths |
| RecordedPaths.SearchRecordsMatches | lib/AST/CXXInheritance.cpp:222-263 | every path recorded leads down from the origin to a base that matches, the first on the path to do so |
| RecordedPaths.RecordedPathsDenoteFirstMatches | lib/AST/CXXInheritance.cpp:181-328 | for a criterion on classes the recorded paths denote exactly the subobjects at the first match on some path, although each virtual base is searched once |
| RecordedPaths.RecordedPathsDenoteSubobjects | lib/AST/CXXInheritance.cpp:181-328 | the paths recorded for a base class denote exactly its subobjects |
| PathNumbers.SearchInStep | lib/AST/CXXInheritance.cpp:219-231 | every path recorded for a base class carries 0 after a virtual last step and otherwise its place among the paths that end non-virtually |
| PathNumbers.SearchApart | lib/AST/CXXInheritance.cpp:181-328 | no two recorded paths that end by a non-virtual step denote the same subobject |
| PathNumbers.NumbersIdentifySubobjects | lib/AST/CXXInheritance.cpp:222-231 | recorded paths end with the same subobject number exactly when they denote the same subobject, if and only if there are fewer than 2^31 subobjects besides the virtual base, or 2^31 and no virtual base |
| PathNumbers.LadderNumbersRepeat | lib/AST/CXXInheritance.cpp:219-231 | in a hierarchy of 97 classes with 2^32 subobjects of the lowest one, the numbers do not tell them apart |
| PathNumbers.OrdinaryIsExact | lib/AST/CXXInheritance.cpp:219-231 | if no two paths that end non-virtually denote the same subobject, there are as many of them as subobjects besides the virtual base |
| Containment.CleanContainedVirtually | lib/AST/CXXInheritance.cpp:343-381 | a subobject reached by a path on which no class before its end has a property can lie in another subobject of such a class only through a virtual base of that class |
| Containment.OutermostAbove | lib/AST/CXXInheritance.cpp:343-381 | every subobject of a class with a property is, or lies in, an outermost one |
| RecordedPaths.SearchAccess | lib/AST/CXXInheritance.cpp:233-252 | the access recorded with a path is the top-down access of its base specifiers |
| RecordedPaths.TopDownIsTheRule | lib/AST/CXXInheritance.cpp:233-252 | merging from the top is the rule in the comment: private anywhere but first denies access, otherwise the most restrictive access counts |
| Derivation.IsDerivedFrom | lib/AST/CXXInheritance.cpp:97-110 | holds exactly when the base is reached by one or more steps |
| Derivation.IsVirtuallyDerivedFrom | lib/AST/CXXInheritance.cpp:112-130 | holds exactly when it is reached by a path whose last step is virtual, in spite of the shortcut for classes without virtual bases |
| Derivation.DerivesIsReachability | lib/AST/CXXInheritance.cpp:97-130 | the recursive predicates are reachability by paths |
| Derivation.ForallBases | lib/AST/CXXInheritance.cpp:150-179 | the worklist terminates and answers whether every base below is defined, not dependent, and satisfies the predicate |
| Derivation.IsProvablyNotDerivedFrom | lib/AST/CXXInheritance.cpp:132-137 | if it holds the class is not derived from the base; where all bases are defined and not dependent it is the exact negation |
| HiddenWeeding.RemoveHidden | lib/AST/CXXInheritance.cpp:751-755 | the in-place compaction, whose test reads the half-compacted array, leaves exactly the plain filter of the original contents, and never nothing |
| HiddenWeeding.CompactingKeepsTest | lib/AST/CXXInheritance.cpp:734-755 | at every moment of the compaction the test gives the same answer as on the original |
| HiddenWeeding.EraseHidden | lib/AST/CXXInheritance.cpp:353-381 | the same for a list whose elements are erased one by one while the test reads the list |
| HiddenWeeding.SomethingSurvives | lib/AST/CXXInheritance.cpp:725-757 | under a strict partial order a nonempty sequence keeps an element |
| HiddenWeeding.PartialViewSuffices | lib/AST/CXXInheritance.cpp:734-749 | a view that lacks only hidden elements hides the same elements |
| MemberLookup.LookupInBases | lib/AST/CXXInheritance.cpp:330-384 | succeeds exactly when a match lies below; with both modes on it keeps exactly the recorded paths that no recorded path hides, at least one |
| MemberLookup.PathHidingIsStrict | lib/AST/CXXInheritance.cpp:343-381 | hiding between recorded paths is irreflexive and transitive |
| MemberLookup.RecordedPathsAreValid | lib/AST/CXXInheritance.cpp:222-263 | every recorded path is an inheritance path from the origin whose last step matches |
| MemberLookup.BaseLookupHidesNothing | lib/AST/CXXInheritance.cpp:343-381 | when the lookup is for a base class, nothing is hidden |
| MemberLookup.LookupFindsOutermost | lib/AST/CXXInheritance.cpp:330-384 | for a criterion on classes the surviving paths denote exactly the matching subobjects that are not base subobjects of another matching one |
| Overriders.MergeIntoEmpty | lib/AST/CXXInheritance.cpp:605-610 | merging what was collected into an empty map gives what was collected |
| Overriders.MergeLists | lib/AST/CXXInheritance.cpp:543-559 | and in every slot the overriders listed |
| FinalOverriders.FinalOverriderCollector.Collect | lib/AST/CXXInheritance.cpp:590-710 | the method over mutable counters modulo 2^32 and caches computes the collection function |
| FinalOverriders.FinalOverriderCollector.CollectBase | lib/AST/CXXInheritance.cpp:599-644 | one base: skipped if not polymorphic, filled in directly, taken from the cache of a virtual base, or collected and merged |
| FinalOverriders.FinalOverriderCollector.DeclareMethods | lib/AST/CXXInheritance.cpp:647-709 | the methods of the class itself: each replaces everything it overrides and is added to its own slot |
| FinalOverriders.ReplaceOverridden | lib/AST/CXXInheritance.cpp:676-702 | the data recursion over a stack replaces exactly the overriders of all methods overridden directly or indirectly |
| SubobjectNumbers.CollectedInStep | lib/AST/CXXInheritance.cpp:590-631 | the counters and the virtual bases cached are those of a tour of the hierarchy, the counters modulo 2^32 |
| SubobjectNumbers.EverySubobjectIsNamedOnce | lib/AST/CXXInheritance.cpp:590-631 | collecting numbers every subobject of a polymorphic class exactly once and nothing else: each virtual base is walked once and no subobject is missed |
| SubobjectNumbers.NumbersDifferExactlyWhen | lib/AST/CXXInheritance.cpp:594-597 | different subobjects of a class have different numbers exactly when there are fewer than 2^32 besides the virtual base, or 2^32 and no virtual base |
| SubobjectNumbers.LadderNumbersAgree | lib/AST/CXXInheritance.cpp:594-597 | in a hierarchy of 100 classes with 2^33 subobjects of the lowest one, different subobjects have the same number |
| SubobjectNumbers.CountIsExact | lib/AST/CXXInheritance.cpp:594-597 | as many subobjects are counted as there are besides the virtual base |
| OverriderMeaning.SlotsAreSubobjects | lib/AST/CXXInheritance.cpp:590-710 | the slots of a virtual method are exactly the numbers of the subobjects of its class, wrap-around included |
| OverriderMeaning.ListedExactlyWhenOverriding | lib/AST/CXXInheritance.cpp:670-709 | an overrider is listed in a slot exactly when it is declared in a subobject, around that of the slot or that one itself, to which some path leads on which no more derived class overrides the method |
| OverriderMeaning.DeclareFromLists | lib/AST/CXXInheritance.cpp:647-709 | after the methods of a class were declared, every slot of a method they override lists the last of these alone, and every other slot what it listed |
| OverriderMeaning.ShortcutChangesNothing | lib/AST/CXXInheritance.cpp:605-610 | letting a base fill in an empty map gives the same state and map as collecting separately and merging |
| FinalOverriderLookup.HidingIsStrict | lib/AST/CXXInheritance.cpp:734-749 | hiding between the overriders of one slot is a strict partial order, because each lies in the virtual base recorded for it |
| FinalOverriderLookup.GetFinalOverriders | lib/AST/CXXInheritance.cpp:720-758 | every slot keeps exactly the overriders that no other overrider of the slot hides, and at least one |
| FinalOverriderLookup.EverySubobjectIsOverridden | lib/AST/CXXInheritance.cpp:720-758 | the slots of the final map are the numbers of the subobjects of the class of a virtual method; each has final overriders, and they override the method |
| FinalOverriderLookup.FinalOverridersAreOutermost | lib/AST/CXXInheritance.cpp:720-758 | the final overriders of a method in a subobject are exactly the overriders declared in the outermost subobjects that contain it and whose class overrides the method, where its number is its own |
| DeltaMinimizer.DeltaAlgorithm.GetTestResult | utils/token-delta.py:21-32 | the set-keyed memo of failures agrees with the test on every subsequence of the input |
| DeltaMinimizer.DeltaAlgorithm.Run | utils/token-delta.py:34-47 | with the memo the result and the number of test results asked for are those of the algorithm without it |
| DeltaMinimizer.DeltaAlgorithm.Delta | utils/token-delta.py:64-81 | likewise for the minimiser, which terminates because the list gets shorter or its parts get more |
| DeltaMinimizer.DeltaAlgorithm.Search | utils/token-delta.py:83-94 | likewise for the search through subsets and complements |
| DeltaMinimizer.Split | utils/token-delta.py:49-62 | one or two pieces that make up the list, of half its length |
| DeltaMinimizer.SameElementsSameList | utils/token-delta.py:21-32 | a subsequence of a list without repetitions is determined by its elements |
| DeltaMinimizer.DeltaIsGood | utils/token-delta.py:64-94 | the minimiser returns a passing (or the given) subsequence that is 1-minimal |
| DeltaMinimizer.MinimizeIsGood | utils/token-delta.py:34-47 | the outcome passes, is a subsequence of the input, and fails when any single element is dropped |
| DeltaMinimizer.MinimizeCallsBound | utils/token-delta.py:34-94 | n changes need at most n^2+7n+2 test results, and never more than 3n^2+3n+2 |
| DeltaMinimizer.RefineParts | utils/token-delta.py:76-81 | splitting every part keeps their concatenation, and no part is added exactly when all are single |
| EditMerge.AddBackKeeps | lib/ARCMigrate/TransformActions.cpp:519-555 | merging a range into the list keeps it sorted, nonempty and with gaps, and adds exactly the positions of the range |
| EditMerge.NormalFormIsUnique | lib/ARCMigrate/TransformActions.cpp:519-555 | only one such list covers a given set of positions |
| EditMerge.RemovalsAreTheUnion | lib/ARCMigrate/TransformActions.cpp:519-555 | after any run the list is in normal form and covers exactly the union of the requested ranges |
| EditMerge.RequestOrderIsIrrelevant | lib/ARCMigrate/TransformActions.cpp:519-555 | runs that ask for the same positions end with the same list |
| EditMerge.InsertsAreTheSurvivors | lib/ARCMigrate/TransformActions.cpp:506-525 | the texts kept at a location are those of the surviving insertions, in request order |
| EditMerge.NoInsertionInsideARequest | lib/ARCMigrate/TransformActions.cpp:506-525 | no surviving insertion is strictly inside a single requested removal |
| EditMerge.OutsideEverythingSurvives | lib/ARCMigrate/TransformActions.cpp:506-525 | at a location not strictly inside the region finally removed every insertion survives |
| EditMerge.TouchingKeepsInsertion | lib/ARCMigrate/TransformActions.cpp:519-555 | where two removals touch, an earlier insertion is kept inside the merged one |
| EditMerge.EditList.AddRemoval | lib/ARCMigrate/TransformActions.cpp:519-555 | the backward walk over the list computes the merge and erases the insertions strictly inside the range |
| EditMerge.EditList.AddInsertion | lib/ARCMigrate/TransformActions.cpp:506-517 | the insertion is recorded unless it lies strictly inside a removal, which the early exit of the backward walk decides correctly |
| CapturedDiagnostics.CapturedDiagList.ClearDiagnostic | lib/ARCMigrate/ARCMT.cpp:29-57 | answers whether a diagnostic lies in the range, both ends included, and has one of the identifiers, if any are given, and leaves what clearing leaves |
| CapturedDiagnostics.ClearedExactly | lib/ARCMigrate/ARCMT.cpp:29-57 | what clearing leaves are, in order, exactly the entries that are neither in the range with an accepted identifier nor notes that follow one that is |
| CapturedDiagnostics.CapturedDiagList.HasDiagnostic | lib/ARCMigrate/ARCMT.cpp:59-79 | answers whether a diagnostic lies in the range, both ends included, and has one of the identifiers, if any are given |
| CapturedDiagnostics.AddedLater | lib/ARCMigrate/ARCMT.cpp:29-79 | a diagnostic added later does not change what is found and cleared of those before it; it is cleared itself if it matches or goes with the one it belongs to |
| CapturedDiagnostics.CapturedDiagList.PushBack | lib/ARCMigrate/Internals.h:31 | adds a diagnostic so that every query finds and clears of those before it what it did, and the new one if it matches or goes with the one it belongs to |
| CapturedDiagnostics.NothingIsLeft | lib/ARCMigrate/ARCMT.cpp:29-79 | after clearing, the same query finds nothing |
| CapturedDiagnostics.NothingToClear | lib/ARCMigrate/ARCMT.cpp:29-79 | if the query finds nothing, clearing changes nothing |
| CapturedDiagnostics.NotesKeepTheirParent | lib/ARCMigrate/ARCMT.cpp:40-50 | a note that stays belongs to the same diagnostic as before |
| CapturedDiagnostics.KeptBelowIsOrdered | lib/ARCMigrate/ARCMT.cpp:35-54 | the survivors keep their order |
| Transactions.RunIsFoldOfCommitted | lib/ARCMigrate/TransformActions.cpp:183-282 | in every run of start, record, clear, commit and abort, what has changed is the effect of exactly the transactions that committed with every action possible |
| Transactions.RunEdits | lib/ARCMigrate/TransformActions.cpp:183-282 | after such a run the removals are the normal form of what those transactions asked for, and the insertions their survivors |
| Transactions.CommitAllTwice | lib/ARCMigrate/TransformActions.cpp:189-276 | committing two lists of actions one after the other is committing their concatenation |
| Transactions.ReplaceRemovesTheRest | lib/ARCMigrate/TransformActions.cpp:464-479 | replacing a range by one of its parts removes exactly the rest |
| Transactions.TransformActions.StartTransaction | lib/ARCMigrate/TransformActions.cpp:183-187 | opens a transaction and changes nothing else |
| Transactions.TransformActions.CommitTransaction | lib/ARCMigrate/TransformActions.cpp:189-276 | carries out all recorded actions or, if one is impossible, none; the answer is true exactly in that case |
| Transactions.TransformActions.AbortTransaction | lib/ARCMigrate/TransformActions.cpp:278-282 | drops the recorded actions and changes nothing else |
| Transactions.TransformActions.CommitAction | lib/ARCMigrate/TransformActions.cpp:239-271 | carries out one action |
| Transactions.TransformActions.CommitRemoveStmt | lib/ARCMigrate/TransformActions.cpp:450-462 | removes a statement once; an expression leaves the macro name in its place |
| Transactions.TransformActions.CommitReplace | lib/ARCMigrate/TransformActions.cpp:464-479 | removes what is before and after the replacement, if that lies inside the range |
| Transactions.TransformActions.CommitReplaceText | lib/ARCMigrate/TransformActions.cpp:480-490 | the text at the location is removed and the replacement inserted there |
| Transactions.TransformActions.RemoveStatement | lib/ARCMigrate/TransformActions.cpp:312-320 | records the removal of the statement without its implicit wrappers |
| Transactions.TransformActions.ReplaceByText | lib/ARCMigrate/TransformActions.cpp:322-327 | records a removal and then an insertion |
| Transactions.TransformActions.ReplaceStatement | lib/ARCMigrate/TransformActions.cpp:351-356 | records an insertion and then a removal |
| Transactions.TransformActions.ClearDiagnostic | lib/ARCMigrate/TransformActions.cpp:369-381 | records the clearing only if there is something to clear |
| Transactions.TransformActions.ApplyRewrites | lib/ARCMigrate/TransformActions.cpp:557-579 | the calls to the receiver are first insertions by ascending location, which at every location carry its texts in order, then the indentations, then the removals |
| Transactions.Transaction.constructor | lib/ARCMigrate/Internals.h:129-131 | the scope object opens a transaction |
| Transactions.Transaction.Abort | lib/ARCMigrate/Internals.h:138-141 | aborts it |
| Transactions.Transaction.Close | lib/ARCMigrate/Internals.h:133-136 | commits it unless it was aborted |
| ActionEffects.InsertTextAppends | lib/ARCMigrate/TransformActions.cpp:437-439 | an insertion adds its text at the beginning of the token, after the texts there, unless both sides of that location were removed, and changes no other location and no removal |
| ActionEffects.InsertAfterTokenAppends | lib/ARCMigrate/TransformActions.cpp:441-444 | the same at the end of the token |
| ActionEffects.RemoveRangeRemoves | lib/ARCMigrate/TransformActions.cpp:446-448 | exactly the positions from the beginning of the first token to the end of the last become removed, and exactly the texts strictly between are lost |
| ActionEffects.RemoveStmtRemoves | lib/ARCMigrate/TransformActions.cpp:450-462 | the same for a statement, but only once |
| ActionEffects.RemoveExprLeavesMacro | lib/ARCMigrate/TransformActions.cpp:450-462 | an expression is removed once, and then the macro name is added where it began |
| ActionEffects.ReplaceRangeRemovesAround | lib/ARCMigrate/TransformActions.cpp:464-479 | of a range that contains its replacement the positions before and after the replacement become removed and the texts strictly inside them are lost; otherwise nothing happens |
| ActionEffects.ReplaceTextReplaces | lib/ARCMigrate/TransformActions.cpp:480-490 | as many positions as the text has characters become removed, and then the replacement is added where they began |
| ActionEffects.PossibleTogether | lib/ARCMigrate/TransformActions.cpp:383-416 | a range can be removed exactly when text can be inserted before its first and after its last token, and replaced exactly when both ranges can be removed |
| ActionEffects.BracketsSurvive | lib/ARCMigrate/TransformActions.cpp:437-448 | texts inserted before the first and after the last token of a range are kept at its two ends when the range is removed, in whatever order the three actions are committed |
| TypeTable.WithKeeps | lib/AST/ASTContext.cpp:3086-3110 | asking for a type keeps the table sound and every node in it, and finds or adds the node |
| TypeTable.NotInTheMap | lib/AST/ASTContext.cpp:3096-3105 | looking the shape up again after its canonical type was made still finds nothing |
| TypeTable.Run | lib/AST/ASTContext.cpp:3086-3110 | after any sequence of requests there is one node per shape, and the canonical type of every node is itself canonical |
| TypeTable.CanonicalMeaning | lib/AST/ASTContext.cpp:3220-3241 | the canonical type means the same as the type: sugar removed, references collapsed, qualifiers of array elements moved out |
| TypeTable.CanonicalNodesUnique | lib/AST/ASTContext.cpp:3086-3110 | canonical nodes that mean the same are the same node |
| TypeTable.SameCanonicalIffSameMeaning | lib/AST/ASTContext.cpp:3086-3110 | two types have the same canonical type exactly when they mean the same |
| TypeTable.CanonicalsDecideExactlyWhen | lib/AST/ASTContext.cpp:3245-3275 | that holds throughout a table exactly when no rvalue reference was formed over an lvalue reference |
| TypeTable.AfterAnyRun | lib/AST/ASTContext.cpp:3086-3110 | the same after any sequence of requests |
| TypeTable.RValueOverLValueFails | lib/AST/ASTContext.cpp:3245-3275 | `T& &&` is given a canonical type other than that of `T&` |
| TypeTable.ReferenceMeaning | include/latino/AST/Type.h:2774-2780 | following references to references ends at the type that the collapsed reference refers to |
| TypeTable.ASTContext.GetPointeeType | include/latino/AST/Type.h:2774-2780 | the loop through inner references finds that type |
| TypeTable.ASTContext.GetLeafType | lib/AST/ASTContext.cpp:4406-4417 | the type of a declaration is made once and found from then on |
| TypeTable.ASTContext.GetPointerType | lib/AST/ASTContext.cpp:3086-3110 | finds or makes the node, after its canonical node |
| TypeTable.ASTContext.GetLValueReferenceType | lib/AST/ASTContext.cpp:3205-3241 | likewise; it is its own canonical type only if spelled as an lvalue reference to a canonical type that is no reference |
| TypeTable.ASTContext.GetRValueReferenceType | lib/AST/ASTContext.cpp:3245-3275 | likewise for rvalue references |
| TypeTable.ASTContext.GetConstantArrayType | lib/AST/ASTContext.cpp:3309-3360 | likewise for arrays; the size is truncated and the qualifiers of the elements go to the canonical type |
| TypeTable.ASTContext.GetTypedefType | lib/AST/ASTContext.cpp:4392-4404 | finds or makes the node with the canonical type of the underlying type |
| TypeTable.ASTContext.GetParenType | lib/AST/ASTContext.cpp:4701-4723 | finds or makes the node with the canonical type of the inner type |
| ObjectRepresentation.UniqueMeansNoPadding | lib/AST/ASTContext.cpp:2512-2674 | for an accepted type, every bit lies under exactly one scalar leaf at every nesting level, whichever union members are active, exactly when no unnamed bit-field takes up bits, no bit-field of a union is narrower than it and no integer or bit-field is wider than its value |
| ObjectRepresentation.UniqueMeansNoOverlap | lib/AST/ASTContext.cpp:2512-2674 | for every accepted type no bit lies under two leaves and no leaf reaches outside |
| ObjectRepresentation.StructBound | lib/AST/ASTContext.cpp:2539-2603 | the bits computed for a structure are covered once each, bases in order of offset first, then fields |
| ObjectRepresentation.UnionBound | lib/AST/ASTContext.cpp:2512-2525 | whichever member of an accepted union is active, it covers no bit twice and, without hidden bits, all of them |
| ObjectRepresentation.SortHits | lib/AST/ASTContext.cpp:2563-2567 | sorting the bases by offset does not change what they cover |
| ObjectRepresentation.ChainHits | lib/AST/ASTContext.cpp:2569-2576 | parts that each begin where the one before ends cover every bit up to the end once |
| ObjectRepresentation.UnnamedBitFieldIsAccepted | lib/AST/ASTContext.cpp:2579-2600 | a structure half of which is an unnamed bit-field is accepted |
| ObjectRepresentation.NarrowUnionMemberIsAccepted | lib/AST/ASTContext.cpp:2517-2523 | a union whose only member is a narrow bit-field is accepted |
| ObjectRepresentation.ExtIntIsAccepted | lib/AST/ASTContext.cpp:2633-2635 | a 17-bit integer that takes up 32 bits is accepted and has padding |
| ObjectRepresentation.HasUniqueObjectRepresentations | lib/AST/ASTContext.cpp:2605-2674 | the method answers as the recursive definition |
| ObjectRepresentation.StructHasUniqueObjectRepresentations | lib/AST/ASTContext.cpp:2539-2603 | the loops over bases and fields with their running offset compute the size without padding |
| ObjectRepresentation.UnionHasUniqueObjectRepresentations | lib/AST/ASTContext.cpp:2512-2525 | the loop over the members answers as the definition |
| AcceptedTypes.NoUnfitLeaves | lib/AST/ASTContext.cpp:2625-2673 | no bit of an accepted type lies under a scalar that is no integer, pointer, reference or unpadded member pointer, at any nesting level and whichever union members are active |
| AcceptedTypes.AcceptedExactlyWhen | lib/AST/ASTContext.cpp:2512-2674 | a type is accepted and hides no bits exactly when every bit lies under exactly one scalar, never one of those, its classes are valid and trivially copyable, the parts of structures lie one after the other and no member of a union is larger than it |
| AcceptedTypes.SortInOrder | lib/AST/ASTContext.cpp:2563-2567 | sorting by offset puts each base after the end of the one before exactly when no two of them overlap |
| AcceptedTypes.UnnamedBitFieldInUnionIsRejected | lib/AST/ASTContext.cpp:2517-2523 | a union without padding is refused for an unnamed bit-field of a smaller type |
| AcceptedTypes.OverlappingMemberIsRejected | lib/AST/ASTContext.cpp:2579-2600 | a structure without padding is refused for an empty member at the same offset as the next one |
| AcceptedTypes.EmptyBaseIsAccepted | lib/AST/ASTContext.cpp:2552-2561 | an empty base at the same offset as another base is passed over |
| BuiltinDescriptor.DecodesPrinted | lib/AST/ASTContext.cpp:9923-10250 | decoding a printed descriptor followed by another, a dot or the end gives what it means and consumes exactly that descriptor |
| BuiltinDescriptor.DecodesElement | lib/AST/ASTContext.cpp:9932-10208 | the same for the part before the suffixed modifiers, whatever follows |
| BuiltinDescriptor.SignatureRoundTrip | lib/AST/ASTContext.cpp:10253-10296 | decoding a printed signature gives the result type, the decayed argument types, the set of constant arguments and variadicity, or the first error |
| BuiltinDescriptor.SamePrintSameSignature | lib/AST/ASTContext.cpp:9923-10296 | descriptor strings are uniquely decodable: two signatures are written alike exactly when they are the same |
| BuiltinDescriptor.NoConstantVectors | lib/AST/ASTContext.cpp:10126-10172 | a vector or complex type never demands a constant, whatever was written |
| BuiltinDescriptor.ReadsPrefixes | lib/AST/ASTContext.cpp:9932-10019 | the modifiers may come in any order: what they say depends on how often each occurs |
| BuiltinDescriptor.ReadsNumber | lib/AST/ASTContext.cpp:10128-10130 | a number is read exactly as it was printed |
| BuiltinDescriptor.Decode | lib/AST/ASTContext.cpp:9923-10250 | every call that decodes a type or misses a header advances the string |
| BuiltinDescriptor.DecodeTypeFromStr | lib/AST/ASTContext.cpp:9923-10250 | the loops over prefixed and suffixed modifiers compute the decoding function |
| BuiltinDescriptor.GetBuiltinType | lib/AST/ASTContext.cpp:10253-10296 | the loop over the arguments computes the decoding of a signature, and its bit mask has the bits of the constant arguments among the first 32 |
| BuiltinTypeNames.NameDecodes | lib/AST/ASTContext.cpp:9923-10250 | the string that spells a type out decodes to exactly that type and is consumed exactly, for every type that can be spelled |
| BuiltinTypeNames.DescribedExactlyWhen | lib/AST/ASTContext.cpp:9923-10250 | a type is the meaning of some string exactly when it can be spelled |
| BuiltinTypeNames.DecodedIsNameable | lib/AST/ASTContext.cpp:9923-10250 | whatever string is decoded, the type it gives can be spelled |
| BuiltinTypeNames.ConstantNameDecodes | lib/AST/ASTContext.cpp:10246-10247 | an I before the spelling of an integer type asks for a constant, and is refused before that of any other type made from a letter |
| BuiltinTypeNames.SignatureOfNames | lib/AST/ASTContext.cpp:10253-10296 | a signature spelled out by its types decodes to those types, with the arguments decayed and the constants marked |
| BuiltinTypeNames.ArgumentDecays | lib/AST/ASTContext.cpp:10283-10286 | an argument decays exactly when it is, under its qualifiers, a va_list or jump buffer that is an array |
| BuiltinTypeNames.WidthNames | lib/AST/ASTContext.cpp:9958-10018 | before i the letters W, Z, O and N stand for the integer types that the target has for 64 and 32 bits, long long, and long where that has 32 bits |
| BuiltinTypeNames.MissingHeaders | lib/AST/ASTContext.cpp:10177-10203 | FILE, jmp_buf, sigjmp_buf and ucontext_t are reported missing with the header that declares them |
| Alignment.AlignIsPow2ExactlyWhen | lib/AST/ASTContext.cpp:1878-2321 | an alignment is a power of two exactly when it does not come from a vector whose width has its low 32 bits zero or above 2^31 |
| Alignment.VectorAlign | lib/AST/ASTContext.cpp:1922-1939 | the same for a vector itself |
| Alignment.WideAndEmptyVectors | lib/AST/ASTContext.cpp:1922-1939 | a vector of 2^26 elements of 64 bits and an empty one are given alignment 0 |
| Alignment.DefinedExactlyWhen | lib/AST/ASTContext.cpp:1878-2321 | no width is rounded up to a multiple of zero exactly when no vector on the way is wider than 2^31 modulo 2^32 and no array has elements whose alignment comes from a vector that does not fit |
| Alignment.VectorsThatDivideByZero | lib/AST/ASTContext.cpp:1904-1939 | a vector of 2^25 + 1 elements of 64 bits, and an array of vectors of 2^26, have their widths rounded up to a multiple of zero, the array unless the target does not round |
| Alignment.ArrayWidth | lib/AST/ASTContext.cpp:1904-1919 | an array is as wide as its elements together, rounded up to the next multiple of their alignment unless the target does not round |
| Alignment.MatrixWidth | lib/AST/ASTContext.cpp:1941-1950 | a matrix and a complex type are as wide as their elements together |
| Alignment.VectorWidth | lib/AST/ASTContext.cpp:1922-1939 | a vector up to 2^31 bits wide is as wide as the next power of two and aligned to that or to the maximum of the target |
| Alignment.ExtIntWidth | lib/AST/ASTContext.cpp:2202-2210 | an integer of any bits is aligned to the next power of two between a character and long long and as wide as the next multiple of that |
| Alignment.AtomicWidth | lib/AST/ASTContext.cpp:2287-2309 | an atomic type is promoted to the next power of two in width and alignment up to the maximum of the target |
| Alignment.AndPredecessor | lib/AST/ASTContext.cpp:1928-1933 | the test with the predecessor finds exactly the powers of two |
| Alignment.LowBitDivides | lib/AST/ASTContext.cpp:1755-1757 | the number and its negative have in common the largest power of two that divides the number |
| Alignment.LowBitIsGcd | lib/AST/ASTContext.cpp:1752-1760 | for a power-of-two alignment the smaller of it and that power is the greatest common divisor |
| Alignment.FieldAlignment | lib/AST/ASTContext.cpp:1747-1762 | the method computes the greatest common divisor of the record alignment and the field offset, also for offset 0 |
| TemplateArguments.InternalIterator.constructor | lib/AST/ASTDiagnostic.cpp:947-969 | the iterator starts before the first argument, past leading empty packs |
| TemplateArguments.InternalIterator.Next | lib/AST/ASTDiagnostic.cpp:980-1014 | each increment passes exactly one argument of the flattened list and stays at the end |
| TemplateArguments.InternalIterator.Get | lib/AST/ASTDiagnostic.cpp:1016-1024 | it reads the argument of the flattened list at its position |
| TemplateArguments.InternalIterator.EndMeansAllPassed | lib/AST/ASTDiagnostic.cpp:974-978 | it is at the end exactly when all arguments were passed |
| TemplateArguments.TSTiterator.Next | lib/AST/ASTDiagnostic.cpp:1044-1050 | the sugared and the desugared iterator move in step |
| TemplateArguments.TSTiterator.Current | lib/AST/ASTDiagnostic.cpp:1419-1425 | the argument as written or, past the end, the default one |
| DiffTree.FlatTree.AddNode | lib/AST/ASTDiagnostic.cpp:743-764 | following the siblings to the last one and linking the new node keeps the layout of a tree with one more child |
| DiffTree.FlatTree.Up | lib/AST/ASTDiagnostic.cpp:736-741 | returns to the parent |
| DiffTree.FlatTree.AdvanceSibling | lib/AST/ASTDiagnostic.cpp:893-901 | moves to the next sibling if there is one |
| DiffTree.TemplateDiff.DiffTemplate | lib/AST/ASTDiagnostic.cpp:1314-1356 | the children of the node are the differences of as many argument pairs as the longer flattened list has, laid out in order |
| DiffTree.TemplateDiff.DiffArguments | lib/AST/ASTDiagnostic.cpp:1110-1158 | a node is a template node exactly for different types that are specializations of one template, and then has their differences below |
| DiffTree.KidsAt | lib/AST/ASTDiagnostic.cpp:1321-1355 | the difference at each position is that of the arguments at that position |
| DiffTree.LayoutAllAt | lib/AST/ASTDiagnostic.cpp:572-591 | each subtree lies in its place, linked to the next |
| DiffTree.TemplateDiff.Emit | lib/AST/ASTDiagnostic.cpp:2025-2063 | the flat tree is the layout of the tree of differences and the text its rendering |
| DiffTree.TemplateDiff.TreeToString | lib/AST/ASTDiagnostic.cpp:1456-1600 | prints the rendering of the subtree and leaves the read cursor where it was |
| DiffTree.TemplateDiff.PrintArguments | lib/AST/ASTDiagnostic.cpp:1567-1593 | the loop over the siblings prints each child once, or counts it as left out |
| DiffTree.ItemsAreAllKids | lib/AST/ASTDiagnostic.cpp:1567-1593 | printed and left out children together are all children, and those printed are those that differ, in order |
| DiffTree.RemainingIsJoin | lib/AST/ASTDiagnostic.cpp:1567-1593 | the text between the brackets is the items joined by commas |
| DiffTree.ListText | lib/AST/ASTDiagnostic.cpp:1567-1593 | or a single ellipsis if all children are left out |
| DiffMarks.LeftOutExactlyWhen | lib/AST/ASTDiagnostic.cpp:1110-1158 | the argument at a position is left out of the text exactly when the same arguments are to be elided and both are there and are the same type or value; a single ellipsis stands for the list exactly when all are |
| DiffMarks.KidSays | lib/AST/ASTDiagnostic.cpp:1321-1355 | a position is compared argument by argument exactly when both type arguments are different specializations of one template; otherwise the node holds the two arguments at that position and whether they are defaults |
| FileRemapper.AlwaysConsistent | lib/ARCMigrate/FileRemapper.cpp:207-254 | in every reachable state what the second map says is also in the first, so the assertion in getOriginalFile holds |
| FileRemapper.InverseKeptExactlyWhen | lib/ARCMigrate/FileRemapper.cpp:220-226 | a remapping keeps the two maps inverse exactly when no other file is already replaced by the new one |
| FileRemapper.BufferKeepsInverse | lib/ARCMigrate/FileRemapper.cpp:212-218 | remapping to a buffer always does |
| FileRemapper.SharedTargetIsForgotten | lib/ARCMigrate/FileRemapper.cpp:220-226 | with two originals for one file the second map knows only the later, and forgets it when the earlier is remapped |
| FileRemapper.ReadsWhatWasWritten | lib/ARCMigrate/FileRemapper.cpp:73-102 | reading back gives exactly the entries whose files are there and unmodified, or fails if changed ones are not to be ignored |
| FileRemapper.WriteThenRead | lib/ARCMigrate/FileRemapper.cpp:119-165 | writing the table in any order and reading it back restores the first map, and the second if they were inverse |
| FileRemapper.RestoresExactlyWhen | lib/ARCMigrate/FileRemapper.cpp:73-165 | for entries that can be written and whose files are unchanged, writing the table in any order and reading it back restores the first map exactly when every buffer was given a temporary file that could be opened |
| FileRemapper.RestoresBothExactlyWhen | lib/ARCMigrate/FileRemapper.cpp:73-165 | under the same conditions both maps are restored exactly when in addition the second one led every replacement back to the last of its originals in the order of writing |
| FileRemapper.LostLineMispairs | lib/ARCMigrate/FileRemapper.cpp:155-159 | a temporary file that cannot be opened makes reading pair the wrong files |
| FileRemapper.RemapAllRestores | lib/ARCMigrate/FileRemapper.cpp:104-105 | remapping the entries of a map in any order rebuilds it |
| FileRemapper.ChangeRetargets | lib/ARCMigrate/FileRemapper.cpp:207-226 | a remapping gives exactly one file its target, the original of the one found if it is found by path; the target leads back to it, the old target no longer does, and everything else in both maps stays |
| FileRemapper.FileRemapper.RemapToFile | lib/ARCMigrate/FileRemapper.cpp:220-226 | resets the old target, then sets both maps |
| FileRemapper.FileRemapper.RemapToBuffer | lib/ARCMigrate/FileRemapper.cpp:212-218 | resets the old target, then sets the first map |
| FileRemapper.FileRemapper.RemapPath | lib/ARCMigrate/FileRemapper.cpp:207-210 | updates the original of a file that replaces another |
| FileRemapper.FileRemapper.GetOriginalFile | lib/ARCMigrate/FileRemapper.cpp:228-241 | a path without a file has no original; otherwise the original is the file or what it replaces, which is then itself remapped |
| FileRemapper.FileRemapper.Clear | lib/ARCMigrate/FileRemapper.cpp:30-35 | resetting every target empties the second map |
| FileRemapper.FileRemapper.InitFromText | lib/ARCMigrate/FileRemapper.cpp:55-107 | remaps the entries read, and none if reading fails |
| FileRemapper.ReadPairs | lib/ARCMigrate/FileRemapper.cpp:73-102 | the loop over lines in threes collects the entries or fails |
| FileRemapper.FileRemapper.FlushToText | lib/ARCMigrate/FileRemapper.cpp:119-165 | writes the table and moves buffers to temporary files; fails exactly when the file cannot be opened or a temporary file cannot be created, and then has written and moved just what comes before |

## Left out

- Transactions.OpsOf: locations are integers in translation order and the source manager, preprocessor and lexer are functions; UniqueText, which only keeps strings alive, and the `isInvalid` shortcut of increaseIndentation are not part of this model.
- Transactions.TransformActions.ApplyRewrites: the calls to the receiver are the result; the rewriter's text buffer is not part of this model.
- BasePathSearch.Search: lookup in dependent bases and the bookkeeping of the detected virtual base are left out, and declarations are their own canonical declarations.
- SubobjectCounting.CountersAreExact: a class is hidden from counting when a class that matches derives from it; searches for one class hide none of its subobjects.
- RecordedPaths.SearchRecordsMatches: paths are followed with both modes on; the mode that records paths and stops at the first match leaves the scratch path as it is.
- FinalOverriders.FinalOverriderCollector.Collect: maps have no order; the caches are values, not pointers, so the reallocation that the source guards against cannot arise.
- FinalOverriderLookup.FinalOverridersAreOutermost: is about subobjects whose number is their own; `NumbersDifferExactlyWhen` says when all are.
- MemberLookup.LookupFindsOutermost: is about criteria that depend on the class a base specifier names; for one that also asks whether it is virtual, `LookupInBases` says what is kept.
- Derivation.ForallBases: which bases are defined and not dependent is a parameter.
- DeltaMinimizer.DeltaAlgorithm.Run: the changes are a list without repetitions, as the program's frozensets assume; subprocesses are replaced by an arbitrary deterministic test.
- CapturedDiagnostics.CapturedDiagList.ClearDiagnostic: diagnostics carry an identifier, a level, a location and a message; other contents are left out.
- TypeTable.ASTContext.GetConstantArrayType: dependent size expressions and address-space qualifiers are left out; the folding sets are one map from shapes to nodes.
- TypeTable.ASTContext.GetTypedefType: a declaration comes with its underlying type, and the canonical type is always computed from it.
- ObjectRepresentation.HasUniqueObjectRepresentations: the layout of a type is given with it; bases of equal offset are sorted stably, which matters only if one of them has no bits.
- AcceptedTypes.AcceptedExactlyWhen: is about types with storage; an array without elements is judged by its element type (`ZeroLengthArrayIsRejected`).
- BuiltinDescriptor.Decode: an assertion that fails, or an unknown letter, is the outcome Malformed; the commented-out letters are left out, and so is the one builtin for which no type is built.
- Alignment.AlignIsPow2ExactlyWhen: where the program would divide by zero the width is left as it is, and `DefinedExactlyWhen` says where that is; builtin types, pointers and records come with the width and alignment of the target or of their layout, and widths do not overflow 64 bits.
- BuiltinDescriptor.GetBuiltinType: a constant argument after the 32nd, for which the program shifts by more bits than there are, sets no bit.
- Alignment.FieldAlignment: the rest of getDeclAlign (attributes, large arrays, globals) only takes maxima and is left out.
- DiffTree.TemplateDiff.DiffArguments: what a leaf prints, and the comparison of values, expressions and declarations, are functions, which are not told the desugared argument; a type names at most one specialization, so the walk up a chain of template aliases is left out, and so is colour.
- DiffTree.TemplateDiff.Emit: which of the two types is printed first is left to the caller.
- FileRemapper.FileRemapper.InitFromText: the file system is a function from names to files, with modification times; overwriteOriginal and applyMappings are left out.
- FileRemapper.WriteThenRead: names are absolute, and a name leads back to its file.
- Comment caches, integer ranks, type merging, target tables, va_list builders, linkage and mangling are not modelled.
