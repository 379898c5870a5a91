# MCLinker's middle stages, modelled and proved in Dafny

MCLinker links ELF objects. Between reading its inputs and writing its output it runs a series of algorithms over
state held in memory. This project models those stages with the same loops over the same state, and proves what each
of them is for.

- **Symbol resolution** (`ResolveInfo`, `StaticResolver`, `ResolutionOrder`, `SurvivorOrigins`, `BindingOrder`,
  `CommonSizes`, `NamePool`): the packed attribute word and its setters, the 12 by 12 action table, every action, what a
  sequence of symbols leaves in whatever order it comes, and the pool that folds the resolver over the symbols of a
  name.
- **Archives and groups** (`GroupReader`, `ArchiveReferences`): the symbol map loop that pulls members in, the group
  loop around it that reads the archives again until nothing changes, and for which references that happens.
- **Identical code folding** (`FoldingCandidates`, `CodeFolding`, `FoldingCongruence`, `FoldingPasses`, `FoldingNames`,
  `FoldingChains`, `SelfReferences`): finding the candidates and their indices, and passes over the candidates that
  update the kept map while it is being read. A content is the pair of what never changes and the kept indices; the
  checksum is any function of it.
- **Exception frames** (`EhFrame`, `EhFrameMerge`, `EhFrameBytes`, `EhFrameSection`, `EhFrameRuns`, `EhFrameRoutines`,
  `EhFrameRelocs`, `EhFrameObject`, `EhFrameEmit`, `EhFrameRead`, `EhFrameWhole`): dropping discarded entries, merging
  CIEs by personality routine and re-parenting FDEs between fragment lists, laying out, patching CIE pointers, and
  reading the bytes back. The format is that of LSB Core Generic 4.1, sections 10.6.1 and 10.6.2.
- **The output symbol table** (`SymbolCategory`, `SymbolTableRuns`, `SymbolTableAttributes`): six regions in one array,
  moved by swaps at their boundaries, whole runs of calls on them, and where these leave a symbol by its attributes.
  That locals come first is required by the System V gABI, chapter 4, "Symbol Table".
- **Section garbage collection** (`GarbageCollection`): the reference map, the worklist and the stripping.
- **Layout and fragment references** (`Arithmetic`, `Layout`, `SectionData`): padding that depends on where it stands, references that
  follow their fragment, and moving whole sections.
- **Branch islands** (`BranchIslandFactory`, `BranchIslandReach`, `BranchIsland`): grouping by reach, finding the islands
  of a fragment, how far their stubs are from its branches, and the stubs inside one island.
- **Script expressions** (`Words`, `RpnEvaluator`, `ScriptOperators`): the stack machine whose operators are shared,
  mutable objects, and what each operator does to 64-bit numbers, which wrap around.
- **Merged debug strings** (`DebugString`) and **weak aliases** (`WeakAliases`).

What the linker updates in place is a class here, or an array or a list field that methods reassign; each such method
is proved equal to a function on values, and the properties are proved of those functions. Calls into the target and
choices that do not matter are parameters: the checksum, the order of a hash table, what a CIE parser accepts, the
target's extra references, the entry sections.

`dafny verify dfyconfig.toml` checks the whole project.

## What the proofs found

- The resolver's comment says that a common symbol that meets a weak common one adjusts its size
  (lib/LD/StaticResolver.cpp:57-58). Only a shared common symbol adjusts the size of a weak one; a strong one takes its
  place with its own size, and an incoming weak one changes nothing (`CommonSizes.WeakCommonMeets`).
  `CommonSizes.CommonAdjusts` says exactly when two common symbols leave the larger size, `StrongCommonSize` and
  `WeakCommonSize` which sizes count over a whole sequence.
- A common symbol, or a second definition, that meets a definition is dropped with its visibility, so the result is not
  always the most constrained one. `ResolutionOrder.VisibilityKept` says exactly when one resolution keeps it,
  `ResolutionOrder.StrictestVisibilitySurvives` exactly when a whole sequence does.
- The order of the symbols can decide the binding: a weak reference and a shared definition leave a weak or a global
  symbol (`ResolutionOrder.BindingDependsOnOrder`), and so do some sets without any definition, such as a weak and a
  shared reference. `BindingOrder.BindingOrderFree` says exactly for which sets of symbols the order does not matter.
- A group's archives are read again only if the first pass has read an object or a member. A reference from a shared
  object alone is left unanswered: `GroupReaders.SharedReferenceIsMissed`. `GroupReaders.ClosedExactly` says, from the
  inputs and what was in the pool before, exactly when no wanted name is left.
- Folding with more than one pass, which is the default, can leave a section folded onto one that is folded itself.
  `FoldingChains.FlatExactlyForOnePass` proves that one pass never does, and that every larger number can, whatever the
  checksum, if it does not confuse the few contents involved. A function symbol then needs as many visits as there are
  foldings in a row to get to the section that is kept: `CodeFolding.SymbolLeavesFolded`.
- The loop over passes stops when a pass matches nothing, but folded sections match again in the next one. It stops early
  exactly if no two candidates are copies of each other, and then folds nothing: `FoldingPasses.StopsEarlyExactly`.
- Folding never joins sections but by the least congruence of the program (`FoldingCongruence.FoldsOnlyCongruent`): two
  sections of the same text that call each other stay apart (`FoldingCongruence.MutualAreNotCongruent`).
- The contents that folding compares leave out where a section refers to itself. Two sections that behave differently
  are folded in `SelfReferences.SwappedIsFolded`; `SelfReferences.FoldingKeepsBehaviour` holds when congruent sections
  refer to themselves in the same places, and `SelfReferences.KeepsBehaviourExactly` is exact for any kept map.
- Safe folding looks for a function's address only in the object that defines the function. An address that another
  object alone takes does not keep the function from being a candidate: `FoldingCandidates.SafeExactlyWithinObjects`.
- Two CIEs are equal if their personality and augmentation data are; their other bytes are not compared.
  `EhFrameMerge.DifferentCiesMerged` merges two different ones, `EhFrameBytes.CieBytesKept` says exactly when every FDE
  keeps the bytes of its CIE.
- An arrangement whose stated source is its target does nothing, wherever the symbol really is
  (`SymbolTableRuns.EachSymbolIsPlaced`).
- A section does not always move as a whole (`Layout.UnevenMove`). `Layout.MovesAsWhole` proves that it does exactly if
  every inner alignment divides the distance, and `Layout.MovesAsWholeAnywhere` that it does wherever it is put exactly
  if every inner alignment divides the section's own.
- A fragment reference takes its distance as a signed number. At 2^63 plus the size of the first fragment and above, the
  walk ends at once and always succeeds; from 2^63 up to there the first subtraction wraps back to a positive number and
  the walk runs off the end (`SectionLayouts.SectionData.CreateRef`).
- A fragment larger than the reduced forward range never gets an island ahead of it (`BranchIslands.NothingInside`).
- The search accepts an island behind a fragment by the fragment's start, and all its branches then use the stubs there.
  Because the next island is never farther than the forward range behind the start of its group, what can go wrong is
  padding between the island and that start, not the length of the fragment. `BranchIslandReach.BackwardReachExactly`
  says exactly for which ranges, reserve and padding every branch is in range; with the same range both ways it is
  padding up to the reserve and one byte (`BranchIslandReach.SymmetricRangesSuit`). In
  `BranchIslandStubs.BackwardStubTooFar` 24 bytes of padding are too much.
- A relocation into the middle of a debug string is looked up by a string that may not be in the table
  (`DebugStrings.SuffixIsMissed`). `DebugStrings.PlaceIsFound` says exactly which places are found.
- `? :` and the logical operators of a script evaluate all their operands first, so an operand without a value stops
  evaluation even in the branch not taken (`RpnEvaluators.UntakenBranchStops`). `RpnEvaluators.StrictMeans` proves that
  this is the only difference from evaluating what is needed.

## Model

| member | source | states |
|---|---|---|
| ResolveInfos.UnpackInjective | lib/LD/ResolveInfo.cpp:130-211 | the predicates and getters together determine the attribute word: nothing of it is lost in the record used below |
| ResolveInfos.FieldReplaced | lib/LD/ResolveInfo.cpp:72-128 | writing one field of the word changes that field and no other |
| ResolveInfos.ResolveInfo.constructor | lib/LD/ResolveInfo.cpp:236-248 | a fresh symbol with every attribute set reads back as exactly those attributes |
| ResolveInfos.ResolveInfo.SetSource | lib/LD/ResolveInfo.cpp:80-85 | only the source changes |
| ResolveInfos.ResolveInfo.SetDesc | lib/LD/ResolveInfo.cpp:96-99 | only the description changes |
| ResolveInfos.ResolveInfo.SetBinding | lib/LD/ResolveInfo.cpp:101-107 | only the binding changes, though it is kept in two separate bits |
| ResolveInfos.ResolveInfo.SetVisibility | lib/LD/ResolveInfo.cpp:118-121 | only the visibility changes |
| ResolveInfos.ResolveInfo.OverrideAttributes | lib/LD/ResolveInfo.cpp:41-46 | every attribute comes from the other symbol but size, visibility, name and the InDyn mark |
| ResolveInfos.ResolveInfo.OverrideVisibility | lib/LD/ResolveInfo.cpp:48-70 | the result is the stricter of the two visibilities, although the test compares numbers whose order is not that of strictness |
| ResolveInfos.ResolveInfo.Override | lib/LD/ResolveInfo.cpp:35-39 | size and attributes of the other symbol, the stricter visibility, and the name kept |
| StaticResolvers.OrdinateIsLowBits | include/mcld/LD/StaticResolver.h:110-126 | outside absolute, indirect and shared common symbols, the table index is the low four bits of the attribute word |
| StaticResolvers.Perform | lib/LD/StaticResolver.cpp:71-190 | each action, carried out by setters on the two symbols, leaves the attributes, the override answer and the error report that its meaning says |
| StaticResolvers.Resolve | lib/LD/StaticResolver.cpp:22-207 | one resolution of two symbols is the action the table gives for their classes |
| ResolutionOrder.SurvivorTier | lib/LD/StaticResolver.cpp:32-140 | for any sequence, shared objects included, the survivor is as defined as the most defined symbol seen |
| ResolutionOrder.SurvivorRank | lib/LD/StaticResolver.cpp:32-140 | among regular objects the survivor has the highest rank seen: weak undefined, undefined, weak definition or weak common, common, definition |
| ResolutionOrder.SurvivorOrderFree | lib/LD/StaticResolver.cpp:32-140 | hence every order of the same symbols gives the same tier, and among regular objects the same rank |
| ResolutionOrder.LargestCommonSize | lib/LD/StaticResolver.cpp:82-140 | among regular objects a strong common symbol that survives has the largest strong common size seen |
| CommonSizes.CommonAdjusts | lib/LD/StaticResolver.cpp:42-140 | two common symbols leave the larger size if and only if the newcomer is not a larger weak one, nor a smaller strong one that meets a weak one |
| CommonSizes.WeakCommonMeets | lib/LD/StaticResolver.cpp:42-140 | with a weak common symbol among the two: the old size if the newcomer is weak, the newcomer's if it is strong, the larger if it is shared |
| CommonSizes.WeakCommonSize | lib/LD/StaticResolver.cpp:42-140 | over any sequence, a weak or shared common symbol that survives is the first symbol that was not undefined, grown to the largest shared common size seen |
| CommonSizes.StrongCommonSize | lib/LD/StaticResolver.cpp:42-140 | over any sequence, a strong common symbol that survives has the largest size of all strong ones, of the shared ones after the first strong one, and of those before it if the first symbol that was not undefined is a shared one |
| ResolutionOrder.SoleDefinitionSurvives | lib/LD/StaticResolver.cpp:38-140 | a sole strong regular definition survives with type, description, binding, source, size and value wherever it comes in any sequence, and no error is reported |
| ResolutionOrder.EveryExtraDefinitionReported | lib/LD/StaticResolver.cpp:171-190 | without absolute symbols, each strong definition after the first is reported as an error, and nothing else is |
| ResolutionOrder.EveryDroppedDefinitionReported | lib/LD/StaticResolver.cpp:171-190 | with absolute ones too, the errors are exactly the later strong definitions that are not the same absolute symbol as the first |
| ResolutionOrder.StepReports | lib/LD/StaticResolver.cpp:171-190 | one resolution reports an error exactly for two strong definitions that are not one absolute value |
| ResolutionOrder.VisibilityKept | lib/LD/StaticResolver.cpp:77-190 | a resolution keeps the stricter visibility if and only if it does not drop a stricter common or second definition that meets a definition |
| ResolutionOrder.StrictestVisibilitySurvives | lib/LD/StaticResolver.cpp:77-190 | over any sequence, the strictest visibility seen survives if and only if some symbol that has it is not dropped by the first strong definition |
| ResolutionOrder.DefinedStaysDefined | lib/LD/StaticResolver.cpp:32-190 | no resolution turns a defined or common symbol undefined |
| ResolutionOrder.BindingDependsOnOrder | lib/LD/StaticResolver.cpp:93-108 | a weak reference and a shared definition leave a weak or a global symbol depending on which comes first |
| BindingOrder.BindingOrderFree | lib/LD/StaticResolver.cpp:32-140 | every order of the same symbols leaves the same binding if and only if the set of them fixes it: strong definitions of one binding; or a strong common symbol; or a weak definition and no global shared common symbol; or definitions and common symbols of one binding, shared definitions agreeing with regular references; or a global regular reference, or references of one binding |
| BindingOrder.RegularOrderFree | lib/LD/StaticResolver.cpp:32-140 | among regular objects the order decides the binding exactly if absolute and other strong definitions are mixed |
| SurvivorOrigins.ClassExactly | include/mcld/LD/StaticResolver.h:110-126 | the classes of the table, by description, binding and whether a shared object has the symbol |
| SurvivorOrigins.OverridesExactly | lib/LD/StaticResolver.cpp:32-190 | which newcomer overrides which entry, by their attributes: if and only if |
| SurvivorOrigins.ErrorExactly | lib/LD/StaticResolver.cpp:171-190 | which newcomer is reported, by the attributes and values: if and only if |
| SurvivorOrigins.AnswerExactly | lib/LD/StaticResolver.cpp:71-206 | a newcomer that overrides leaves its own type, description, source, size, binding and value, except that a shared definition leaves a regular reference its binding and no shared symbol leaves a value; one that does not override leaves the entry as it is, the size of a common symbol aside |
| SurvivorOrigins.NoneBefore | lib/LD/StaticResolver.cpp:32-140 | an undefined survivor means that only references were seen; a shared definition, that no regular definition was; anything but a strong regular definition, that none of those was |
| SurvivorOrigins.SurvivorOrigin | lib/LD/StaticResolver.cpp:32-190 | over any sequence, the survivor has type, description and source of one symbol seen, its size if it is no common symbol, and its value if it is regular: of the first that is not undefined, for a shared definition; of the first weak regular definition, for one of those; of the first strong one, or one that is the same absolute symbol |
| NamePools.PoolResolvesEachName | lib/LD/NamePool.cpp:55-112 | the pool holds, for each name, the resolution of all symbols of that name in order, and of no other |
| NamePools.EntryHasOrigin | lib/LD/NamePool.cpp:55-112 | after any inputs, every entry has the description, type and source of one of the symbols of its name as they were read, its size if it is no common symbol, and its value if it is regular |
| NamePools.InsertAllKeepsDefined | lib/LD/NamePool.cpp:55-112 | reading any input keeps every defined name defined |
| NamePools.NamePool.InsertSymbol | lib/LD/NamePool.cpp:56-112 | inserting resolves against the entry of that name if there is one, makes one otherwise, leaves all others, and answers existent, overriden and error |
| NamePools.NamePool.InsertSymbols | lib/LD/NamePool.cpp:56-112 | an input's symbols inserted one after another give the pool that the fold over them gives |
| GroupReaders.AppendLoad | lib/LD/GNUArchiveReader.cpp:123-133 | each thing is read at most once, and each member only for a name that is undefined and not weak at that time |
| GroupReaders.StaysTracked | lib/LD/GNUArchiveReader.cpp:108-135 | reading anything keeps every archive's decisions in agreement with the pool |
| GroupReaders.GrownTotal | lib/LD/GroupReader.cpp:111-126 | archives that only grow and whose member counts add up to the same total have included nothing |
| GroupReaders.CountTellsMembers | lib/LD/GroupReader.cpp:74-97 | after the first pass the count of members is positive exactly if one has been read |
| GroupReaders.StateWithinCapacity | lib/LD/GroupReader.cpp:111-126 | the count never exceeds the members the archives hold, which bounds the rereading |
| GroupReaders.ClosedExactly | lib/LD/GroupReader.cpp:74-126 | after a group no archive is left with a wanted name if and only if there is an object, or some archive is called for by what is read before it, or none is called for by all inputs that are no archives |
| GroupReaders.SharedReferenceIsMissed | lib/LD/GroupReader.cpp:74-126 | with an archive and a shared object whose reference it answers, no rereading takes place and the member is left out |
| ArchiveReferences.PulledForReference | lib/LD/GNUArchiveReader.cpp:108-135 | each member is read because its archive lists it under a name that the pool, as it was just before, refers to other than weakly and has no definition of |
| ArchiveReferences.ClosedExactlyFor | lib/LD/GNUArchiveReader.cpp:108-135 | archives are closed if and only if every member listed under such a name has been read |
| ArchiveReferences.StaysWeak | lib/LD/NamePool.cpp:55-112 | a name referred to only weakly by the pool and by all newcomers stays so |
| ArchiveReferences.WeakReferencesPullNothing | lib/LD/GNUArchiveReader.cpp:330-346 | if the names listed are referred to only weakly by what was read before and by all inputs, no member is ever read |
| ArchiveReferences.WeakGroupReadsNoMember | lib/LD/GroupReader.cpp:37-146 | a whole group of which that holds reads no member, and no archive has one included |
| GroupReaders.GroupReader.ShouldIncludeSymbol | lib/LD/GNUArchiveReader.cpp:330-346 | include exactly for a name in the pool that is undefined and not weak, exclude exactly for one in the pool that is not undefined, unknown otherwise |
| GroupReaders.GroupReader.IncludeMember | lib/LD/GNUArchiveReader.cpp:349-410 | one member more in the archive, in the list of what has been read and in the pool |
| GroupReaders.GroupReader.ExamineSymbol | lib/LD/GNUArchiveReader.cpp:112-134 | after an entry of the symbol map has been looked at, its member is included if its name is wanted |
| GroupReaders.GroupReader.ReadArchive | lib/LD/GNUArchiveReader.cpp:85-138 | the nested loops end, and leave no name of the map wanted whose member is not included |
| GroupReaders.GroupReader.ReadInputs | lib/LD/GroupReader.cpp:52-109 | the first pass reads every readable input once, in order, with each archive's members where the archive stands, and counts objects and members |
| GroupReaders.GroupReader.ReadArchivesAgain | lib/LD/GroupReader.cpp:111-126 | a round that includes nothing leaves every archive of the group with nothing to include |
| GroupReaders.GroupReader.ReadUntilStable | lib/LD/GroupReader.cpp:111-126 | the rereading ends; if it takes place, every wanted name of every archive has its member, and otherwise nothing changes |
| GroupReaders.GroupReader.ReadGroup | lib/LD/GroupReader.cpp:37-146 | a whole group: the pool is that of what was read, everything was read once and with reason, the first pass pulls members in exactly if an archive is called for in its turn, and the archives are all closed if it read a member or an object |
| FoldingCandidates.ScanObject | lib/LD/IdenticalCodeFolding.cpp:122-164 | an object's possible candidates are its text sections, each with the last relocation section for it; in safe mode the functions whose address it lets be seen are known |
| FoldingCandidates.FindCandidates | lib/LD/IdenticalCodeFolding.cpp:119-178 | the candidates are exactly the text sections that may be folded, once each, and the index of each in the kept map is its place in the list |
| FoldingCandidates.SafeExactlyWithinObjects | lib/LD/IdenticalCodeFolding.cpp:119-178 | the candidates found in safe mode are exactly the sections whose address no relocation lets be seen, if and only if each address that another object's relocation lets be seen is let be seen at home too |
| FoldingCandidates.TakenElsewhereIsCandidate | lib/LD/IdenticalCodeFolding.cpp:122-170 | a section whose address only another object takes is a candidate in safe mode |
| CodeFolding.SameContentMakesTwins | lib/LD/IdenticalCodeFolding.cpp:278-296 | equal contents, computed from different states of the kept map, belong to sections that no unfolding of any depth tells apart |
| CodeFolding.AdvanceKeepsSound | lib/LD/IdenticalCodeFolding.cpp:180-211 | every step of a pass keeps each candidate and its kept candidate indistinguishable, and kept indices no larger than their own |
| CodeFolding.PassKeepsSound | lib/LD/IdenticalCodeFolding.cpp:180-211 | so does every part of every pass |
| CodeFolding.FoldingIsSound | lib/LD/IdenticalCodeFolding.cpp:64-70 | so does any number of passes, whatever the checksum |
| CodeFolding.OnePassIsFlat | lib/LD/IdenticalCodeFolding.cpp:180-211 | after at most one pass nothing is folded onto a section that is folded itself |
| CodeFolding.FoldingCandidate.InitConstantContent | lib/LD/IdenticalCodeFolding.cpp:213-276 | one loop over the relocations yields the constant content and the variable relocations, self-references dropped |
| CodeFolding.IdenticalCodeFolding.ContentWithVariables | lib/LD/IdenticalCodeFolding.cpp:278-296 | the content as the kept map stands now |
| CodeFolding.IdenticalCodeFolding.MatchCandidates | lib/LD/IdenticalCodeFolding.cpp:180-211 | the in-place pass over the array does what the pass on values does, and tells whether anything matched |
| CodeFolding.IdenticalCodeFolding.FoldIdenticalCode | lib/LD/IdenticalCodeFolding.cpp:54-117 | the kept map is that of the passes and sound, exactly the folded are marked, and each function symbol is redirected as often as the symbol tables of objects with a folded section list it |
| CodeFolding.SymbolLeavesFolded | lib/LD/IdenticalCodeFolding.cpp:97-116 | a symbol ends in a section that is not folded if and only if it is visited as often as its chain of foldings is long |
| CodeFolding.FlatChains | lib/LD/IdenticalCodeFolding.cpp:97-116 | the kept map is flat if and only if one visit is enough for every symbol |
| FoldingChains.FlatExactlyForOnePass | lib/LD/IdenticalCodeFolding.cpp:64-70 | for every checksum that tells the contents of the failing program apart, the kept map is flat for all programs whose relocations lie inside their sections if and only if at most one pass is allowed |
| FoldingChains.LastPassBends | lib/LD/IdenticalCodeFolding.cpp:180-211 | the state in which the next pass folds a section onto one and another one onto that section |
| FoldingPasses.AdvanceToFirst | lib/LD/IdenticalCodeFolding.cpp:186-207 | with a checksum that tells contents apart, a candidate is folded onto the first one with an equal content, and onto none if there is none |
| FoldingPasses.MatchesExactly | lib/LD/IdenticalCodeFolding.cpp:180-211 | a pass matches something if and only if two contents are equal under the map it starts with, although the map changes during the pass |
| FoldingPasses.StopsEarlyExactly | lib/LD/IdenticalCodeFolding.cpp:64-70 | all allowed passes are made if and only if two candidates have equal constant contents and refer to the same sections; otherwise one, which folds nothing |
| FoldingCongruence.FoldsOnlyCongruent | lib/LD/IdenticalCodeFolding.cpp:54-211 | whatever the checksum and the number of passes, a section is folded onto one that every congruence of the program relates it to |
| FoldingCongruence.CongruentExactly | lib/LD/IdenticalCodeFolding.cpp:278-296 | two sections are congruent if and only if they have the same constant content and refer to congruent sections |
| FoldingCongruence.CongruentAreTwins | lib/LD/IdenticalCodeFolding.cpp:278-296 | congruent sections cannot be told apart at any depth |
| FoldingCongruence.MutualAreNotCongruent | lib/LD/IdenticalCodeFolding.cpp:278-296 | two sections that cannot be told apart and that no folding joins |
| FoldingNames.CongruentAgree | lib/LD/IdenticalCodeFolding.cpp:226-276 | congruent sections have the same text and, place by place, relocations of the same kind that name the same symbols or none; the candidates they call are congruent one by one |
| FoldingNames.FoldedNamesAgree | lib/LD/IdenticalCodeFolding.cpp:54-276 | for every checksum and number of passes: a section is folded onto one with the same text and, at each place, a relocation of the same kind; where the one names a symbol, preemptible or in no candidate, the other names one of the same name, and of the same object if both are local |
| FoldingNames.AlikeAreFolded | lib/LD/IdenticalCodeFolding.cpp:54-211 | with a checksum that tells contents apart, something is folded as soon as two candidates have the same text and relocations that say the same |
| SelfReferences.TwinsBehaveAlike | lib/LD/IdenticalCodeFolding.cpp:226-276 | where contents show their self-references, indistinguishable sections behave alike to every depth |
| SelfReferences.CongruentBehaveAlike | lib/LD/IdenticalCodeFolding.cpp:226-276 | congruent sections behave alike to every depth if congruent sections agree on where they refer to themselves |
| SelfReferences.FoldingKeepsBehaviour | lib/LD/IdenticalCodeFolding.cpp:54-117 | every section is then folded onto one that behaves like it, in any number of passes |
| SelfReferences.KeepsBehaviourExactly | lib/LD/IdenticalCodeFolding.cpp:226-276 | any kept map keeps behaviour if and only if there is a matching of sections that look alike outside, closed under what they call, that has each section with its kept one |
| SelfReferences.SwappedIsFolded | lib/LD/IdenticalCodeFolding.cpp:248-255 | without that, two sections that behave differently are folded, whatever the checksum |
| EhFrames.MovedKeepsWellBuilt | lib/LD/EhFrame.cpp:295-352 | moving one CIE keeps the output well built: no fragment twice, each CIE followed at once by its FDEs, each FDE pointing to its CIE, no two mergeable CIEs equal |
| EhFrameMerge.MergedWellBuilt | lib/LD/EhFrame.cpp:160-208 | so does merging one input, with parsed CIEs or without |
| EhFrameMerge.MergesAreExact | lib/LD/EhFrame.cpp:160-208 | any sequence of merges is well built and has exactly the FDEs of its inputs, each under a CIE equal to its own; the counts add up |
| EhFrameMerge.FdeInOneCie | lib/LD/EhFrame.cpp:295-352 | an FDE belongs to one CIE, once |
| EhFrameMerge.EveryFdeFindsItsCie | lib/LD/EhFrame.cpp:160-208 | every input FDE is in exactly one place of the output, under a CIE equal to its original one, to which it points |
| EhFrameBytes.CieBytesKept | lib/LD/EhFrame.cpp:160-208 | over any sequence of inputs, every FDE keeps a CIE with the bytes of its own if and only if each mergeable CIE that has an FDE has the bytes of the first CIE that equals it |
| EhFrameBytes.FoundUnderKeeper | lib/LD/EhFrame.cpp:183-206 | an FDE ends up under its own CIE's record if that is not mergeable, and under that of the first equal CIE of all inputs otherwise |
| EhFrameMerge.DifferentCiesMerged | lib/LD/EhFrame.cpp:368-372 | two equal CIEs with different bytes are merged, and the second one's bytes are lost |
| EhFrameSections.ExactlyTheLiveSurvive | lib/LD/EhFrame.cpp:210-293 | the FDEs that remain are exactly those whose first relocation has a fragment, although relocations are removed while later CIEs are looked at |
| EhFrameSections.AttributedIsValid | lib/LD/EhFrame.cpp:210-293 | preparing an input leaves one that can be merged |
| EhFrameRuns.LiveEntriesFindTheirCie | lib/LD/EhFrame.cpp:160-293 | from inputs as they are read, prepared and merged: an FDE whose function is discarded is nowhere in the output, and every other one is there once, under a CIE equal to its own, to which it points |
| EhFrameRoutines.DiscardedExactly | lib/LD/EhFrame.cpp:253-270 | an entry is discarded if and only if the first relocation at its offset and 8 is by a symbol without a fragment |
| EhFrameRoutines.RangeExactly | lib/LD/EhFrame.cpp:283-291 | removing a range keeps every relocation outside it as often as it was there, and none inside |
| EhFrameRoutines.PreparedRelocs | lib/LD/EhFrame.cpp:246-293 | what is left at any place when the first CIEs have been prepared: nothing if a discarded entry of theirs covers it, and what was there otherwise |
| EhFrameRoutines.PreparedExactly | lib/LD/EhFrame.cpp:210-244 | from the input as it is read: a prepared CIE has the symbol of the first relocation at its personality pointer as its routine, unless a discarded entry covers that; it is mergeable if and only if it was so, has no personality or has such a relocation; all else stays |
| EhFrameRoutines.SharedCieSharesRoutine | lib/LD/EhFrame.cpp:160-244 | two FDEs of any inputs as they are read that end under one output CIE have the same personality routine and the same augmentation data |
| EhFrameRoutines.SameRoutineSharesCie | lib/LD/EhFrame.cpp:160-244 | and conversely, two live FDEs of mergeable CIEs with the same routine and augmentation data end under one output CIE |
| EhFrameRelocs.RelocationsLeft | lib/LD/EhFrame.cpp:295-311 | after a merge exactly the relocations are left that name no routine, or that of a CIE whose record is in the output |
| EhFrameObjects.RelocData.RemoveRange | lib/LD/EhFrame.cpp:283-291 | exactly the relocations in the entry's range are removed |
| EhFrameObjects.EhFrame.RemoveDiscardedFde | lib/LD/EhFrame.cpp:246-293 | the discarded FDEs of a CIE go, with all their relocations |
| EhFrameObjects.EhFrame.SetupAttributes | lib/LD/EhFrame.cpp:210-244 | every CIE is prepared, against the relocations left by those before it |
| EhFrameObjects.EhFrame.MoveAllFragments | lib/LD/EhFrame.cpp:313-324 | all fragments move, in order, and none is left |
| EhFrameObjects.EhFrame.MoveFragments | lib/LD/EhFrame.cpp:326-352 | the fragments leave the input's list and stand in order behind the given place of the output's |
| EhFrameObjects.EhFrame.MergeCie | lib/LD/EhFrame.cpp:183-206 | the loop over the output's CIEs and the list operations move the CIE as the function on values does; the input's list and relocations lose what they should |
| EhFrameObjects.EhFrame.Merge | lib/LD/EhFrame.cpp:160-208 | merging an input in place gives the merged frame, well built again |
| EhFrameEmit.PointerRoundTrip | lib/LD/ELFObjectWriter.cpp:435-442 | below 2^31 bytes the stored pointer decodes, by the reader's arithmetic, to the CIE if and only if the CIE does not come later |
| EhFrameEmit.PointerIsDistance | lib/LD/ELFObjectWriter.cpp:435-442 | the four bytes stored are the distance from the pointer back to the CIE, least significant first |
| EhFrameEmit.EmittedPointersDecode | lib/LD/EhFrameReader.cpp:333-346 | in the emitted bytes of any well built frame below 2^31 bytes, each FDE's pointer decodes to its own CIE's offset |
| EhFrameEmit.PatchedFlatten | lib/LD/ELFObjectWriter.cpp:435-442 | writing four bytes at an FDE's pointer changes that record and no other |
| EhFrameEmit.ComputeOffsetSize | lib/LD/EhFrame.cpp:354-366 | each fragment's offset is the sum of the sizes before it, and the section's size the sum of all |
| EhFrameEmit.EmitSectionData | lib/LD/ELFObjectWriter.cpp:649-704 | every record's bytes stand at its offset |
| EhFrameEmit.EmitEhFrame | lib/LD/ELFObjectWriter.cpp:401-445 | the nested loops write the section with every FDE's pointer in place and nothing else changed |
| EhFrameRead.Read | lib/LD/EhFrameReader.cpp:89-160 | the automaton's loop accepts or rejects a section, and finds its records, as the recursive reader does |
| EhFrameRead.ReadExactly | lib/LD/EhFrameReader.cpp:43-160 | a section that is not empty is accepted with certain entries if and only if it is made of these records, one behind another up to its end or a length of 0, each CIE of id 0 and parsed, each FDE with a CIE of the section before it at the signed distance that its pointer says; or if it is one FDE without a CIE |
| EhFrameRead.AcceptedFdesHaveCies | lib/LD/EhFrameReader.cpp:89-160 | whatever is accepted begins with a CIE, and each FDE in it points to a CIE before it |
| EhFrameRead.EmittedFrameReadsBack | lib/LD/EhFrameReader.cpp:45-352 | what is emitted for a merged frame is accepted and reads back record by record, each FDE under the CIE it was merged to |
| EhFrameWhole.OutputIsValid | lib/LD/EhFrame.cpp:160-293 | inputs of parsed records, prepared and merged, give a frame that the writer and the reader accept |
| EhFrameWhole.InputsReadBack | lib/LD/EhFrame.cpp:160-293 | from inputs as they are read to the bytes of the output: these read back whole; an FDE whose function is not discarded is among the records under a CIE equal to its own, and one that is discarded is not |
| SymbolCategories.StepDown | lib/MC/SymbolCategory.cpp:148-163 | a swap with the rear of a region and a boundary shift move one symbol to the next region, all others staying in theirs, regions empty or not |
| SymbolCategories.StepUp | lib/MC/SymbolCategory.cpp:169-185 | the same upward |
| SymbolCategories.SymbolCategory.AddTo | lib/MC/SymbolCategory.cpp:67-87 | the six regions still tile the array, and the new symbol is in the target region |
| SymbolCategories.SymbolCategory.ForceLocal | lib/MC/SymbolCategory.cpp:94-96 | the symbol is added to the locals whatever its attributes |
| SymbolCategories.SymbolCategory.Add | lib/MC/SymbolCategory.cpp:89-92 | the symbol is added to the region of its category |
| SymbolCategories.SymbolCategory.Arrange | lib/MC/SymbolCategory.cpp:98-188 | the symbol moves to the target, from the stated source or else from the first region that holds it, all others staying in theirs; nothing happens when source and target agree |
| SymbolCategories.SymbolCategory.ArrangeFrom | lib/MC/SymbolCategory.cpp:190-196 | the same, from the category of the old attributes to that of the new ones |
| SymbolCategories.SymbolCategory.ChangeToDynamic | lib/MC/SymbolCategory.cpp:222-227 | the symbol moves to the dynamic locals |
| SymbolCategories.SymbolCategory.ChangeCommonsToGlobal | lib/MC/SymbolCategory.cpp:198-220 | the loop ends with no commons, each former one in the dynamic or regular region by its category, all others in theirs |
| SymbolTableRuns.EachSymbolIsPlaced | lib/MC/SymbolCategory.cpp:67-227 | over every run of calls each symbol is once, and only, in the region that its last effective call names |
| SymbolTableRuns.BoundariesAreSums | lib/MC/SymbolCategory.cpp:301-391 | each boundary is the sum of the sizes of the regions before it, as the iterators compute it |
| SymbolTableRuns.LocalsComeFirst | lib/Target/GNULDBackend.cpp:751-752 | after every run the first entries, as many as files, locals and dynamic locals, are exactly the symbols placed there |
| SymbolTableAttributes.PlaceAgrees | lib/MC/SymbolCategory.cpp:20-36 | over every run of calls on symbols with their attributes, a symbol is where its attributes in the last call that counted put it: the files, those of local binding and those made local by a call in the first three regions, the common ones in theirs, and those of default or protected visibility in the dynamic one |
| SymbolTableAttributes.SymbolsStandByAttributes | lib/MC/SymbolCategory.cpp:20-227 | so in the array: an entry is among the first, as many as files, locals and dynamic locals, if and only if it is a file symbol, of local binding, or was made local by a call; of the others the dynamic region holds exactly those that are not common and of default or protected visibility |
| SymbolTableAttributes.Perform | lib/MC/SymbolCategory.cpp:89-227 | each call on the table, with its symbol's attributes as they are, is one step of such a run |
| SymbolTableAttributes.PerformSettling | lib/MC/SymbolCategory.cpp:198-220 | so is the settling of all commons |
| GarbageCollections.ClosedHoldsAll | lib/LD/GarbageCollection.cpp:287-323 | a set that no reference leaves holds all that is reachable from it |
| GarbageCollections.GarbageCollection.AddReferences | lib/LD/GarbageCollection.cpp:131-177 | a relocation section adds exactly the references of its live relocations between sections of the handled kinds |
| GarbageCollections.ReferredExactly | lib/LD/GarbageCollection.cpp:61-179 | which section refers to which, by kinds and relocations: from text, data, bss or an exception table to one of these, by a relocation with a symbol defined in it, of a relocation section that is not ignored |
| GarbageCollections.GarbageCollection.SetUpReachedSections | lib/LD/GarbageCollection.cpp:125-179 | the map has exactly the references of all live relocation sections |
| GarbageCollections.GarbageCollection.FindReferencedSections | lib/LD/GarbageCollection.cpp:287-323 | the worklist ends, and has found exactly the sections reachable from the entries |
| GarbageCollections.GarbageCollection.StripSections | lib/LD/GarbageCollection.cpp:325-355 | the kind of every section afterwards: ignored if handled and not referenced, or if a relocation section of an ignored one, and as before otherwise |
| GarbageCollections.Collected | lib/LD/GarbageCollection.cpp:61-355 | ignored in the end are the unreachable sections of these four kinds, and the relocation sections of those and of what was ignored before; all others keep their kind |
| GarbageCollections.Kept | lib/LD/GarbageCollection.cpp:325-355 | a handled section survives exactly if reachable, and no live relocation of a kept section names a stripped one |
| GarbageCollections.GarbageCollection.Run | lib/LD/GarbageCollection.cpp:107-123 | the whole run: the references, the final kind of every section, exactly the reachable of the four kinds kept, nothing dangling |
| Layout.SizeAt | lib/Fragment/AlignFragment.cpp:30-40 | padding is less than the alignment and no more than the bytes allowed, and reaches a multiple of the alignment if and only if that many are enough |
| Layout.LayoutShifts | lib/Object/ObjectBuilder.cpp:147-156 | moved by a multiple of an alignment that all inner ones divide, every fragment moves by that distance |
| Layout.RestFollows | lib/Object/ObjectBuilder.cpp:147-157 | fragments put behind others are laid out from where those end |
| Layout.ShiftsExactly | lib/Object/ObjectBuilder.cpp:147-156 | laid out from another base, all fragments keep their distances if and only if every padding has an alignment that divides the base, or pads in neither place |
| Layout.MovesAsWhole | lib/Object/ObjectBuilder.cpp:130-163 | with padding that is never given up: if and only if every inner alignment divides the base |
| Layout.MovesAsWholeAnywhere | lib/Object/ObjectBuilder.cpp:130-163 | for every base that the section's alignment allows: if and only if every inner alignment divides that one |
| Layout.UnevenMove | lib/Object/ObjectBuilder.cpp:130-163 | a section that does not move as a whole |
| SectionLayouts.SectionData.AppendFragment | lib/Object/ObjectBuilder.cpp:179-214 | the fragment stands aligned behind the rest with an empty one behind it, the answer is the growth, and every place up to the end can then be referred to |
| SectionLayouts.SectionData.MoveSectionData | lib/Object/ObjectBuilder.cpp:130-163 | all fragments move, in order, to a base that is a multiple of the section's alignment; each one's offset, and the end, is the base plus the old one exactly if every inner alignment divides the base; the output's own fragments stay |
| SectionLayouts.MergeSections | lib/Object/ObjectBuilder.cpp:130-163 | after any number of moves, each fragment of each input still stands its old offset behind that input's base |
| SectionLayouts.SectionData.CreateRef | lib/Fragment/FragmentRef.cpp:50-74 | a reference is made if and only if the place is inside, or at the end behind an empty fragment, or the distance is at least 2^63 plus the first fragment's size; it denotes the place modulo 2^64, inside its fragment or at its start, and in the last case from the first fragment |
| SectionLayouts.SectionData.CreateSectionRef | lib/Fragment/FragmentRef.cpp:76-96 | the same for a whole section, which must not be empty |
| BranchIslands.BranchIslandFactory.constructor | lib/LD/BranchIslandFactory.cpp:26-33 | the ranges less the reserve for an island |
| BranchIslands.BranchIslandFactory.GetIslands | lib/LD/BranchIslandFactory.cpp:77-102 | the first island ahead within range if there is any, and the one before it in the list exactly if it is behind within range |
| BranchIslands.ProducedServes | lib/LD/BranchIslandFactory.cpp:50-53 | an island behind the last fragment that is no padding serves every fragment waiting for one |
| BranchIslands.BranchIslandFactory.GroupSection | lib/LD/BranchIslandFactory.cpp:44-60 | the islands are those of the grouping on values, and every fragment of size 1 up to the reduced range that is no padding has one ahead |
| BranchIslands.NothingInside | lib/LD/BranchIslandFactory.cpp:86-89 | a fragment larger than the range has none |
| BranchIslands.BranchIslandFactory.Group | lib/LD/BranchIslandFactory.cpp:40-63 | in all text sections, a non-empty fragment that is no padding has an island ahead if and only if it is no larger than the reduced range |
| BranchIslandStubs.BranchIsland.AddStub | lib/LD/BranchIsland.cpp:97-124 | padding and stub are inserted, once for each key |
| BranchIslandStubs.BranchIsland.FindStub | lib/LD/BranchIsland.cpp:86-95 | a stub is found if and only if one has been asked for with the key: the one made for the first such request, aligned and inside the island |
| BranchIslandStubs.StubsStandApart | lib/LD/BranchIsland.cpp:59-70 | every stub stands aligned inside the island's size, and no two overlap |
| BranchIslandReach.SearchExactly | lib/LD/BranchIslandFactory.cpp:77-102 | by offsets and sizes: the search finds the first island of the list that stands behind the fragment's start within range, if there is one, and the one before it in the list if and only if that stands before the start within the backward range |
| BranchIslandReach.GroupedIsSpaced | lib/LD/BranchIslandFactory.cpp:40-63 | after grouping, what fits between two islands next to each other in the list ends within the reduced range and the padding behind the first one |
| BranchIslandReach.FoundIsNear | lib/LD/BranchIslandFactory.cpp:77-102 | so does every fragment for which the search finds an island behind it, and it starts no nearer than that padding |
| BranchIslandReach.BackwardReachExactly | lib/LD/BranchIslandFactory.cpp:26-102 | for all sections with padding up to a bound, every branch reaches the island behind it that grouping and search give, if and only if the lesser of that bound and the reduced backward range, with the reduced forward range less one, is within the target's backward range |
| BranchIslandStubs.ForwardStubInRange | lib/LD/BranchIslandFactory.cpp:26-33 | a stub that ends within the reserve of an island ahead is within the target's own forward range of every branch of the fragment |
| BranchIslandStubs.ForwardStubsExactly | lib/LD/BranchIslandFactory.cpp:26-33 | all branches of a fragment reach all stubs of an island if and only if its end is in range of the fragment's start, as for an island ahead that has not outgrown its reserve |
| BranchIslandStubs.BackwardStubsInRange | lib/LD/StubFactory.cpp:47-59 | if the ranges suit the padding, all branches of a fragment reach all stubs of the island behind it that grouping and search give, however long the fragment is |
| BranchIslandStubs.BackwardStubTooFar | lib/LD/StubFactory.cpp:47-59 | grouping and search run on a section with too much padding: a stub of the island found behind a fragment is out of range of one of its branches |
| RpnEvaluators.PostfixMeans | lib/Script/RpnEvaluator.cpp:33-99 | the postfix form of a well-formed expression leaves exactly its value on whatever the stack held |
| RpnEvaluators.EvalMeans | lib/Script/RpnEvaluator.cpp:100-113 | so evaluation gives the expression's value with nothing left below it, and none if a part has none |
| RpnEvaluators.StrictMeans | lib/Script/TernaryOp.cpp:20-30 | the value is that of evaluating only the operands that matter, if and only if every skipped operand has a value; otherwise there is none |
| RpnEvaluators.UntakenBranchStops | lib/Script/RpnEvaluator.cpp:76-99 | an unknown symbol in the branch not taken leaves no value |
| ScriptOperators.SumsExactly | lib/Script/BinaryOp.cpp:50-64 | subtraction undoes addition and addition undoes subtraction; both are those of the integers where the result has 64 bits |
| ScriptOperators.ProductExactly | lib/Script/BinaryOp.cpp:26-32 | multiplication is that of the integers modulo 2^64 |
| ScriptOperators.DivisionExactly | lib/Script/BinaryOp.cpp:34-48 | quotient and remainder, if and only if the divisor is not 0 |
| ScriptOperators.ShiftingExactly | lib/Script/BinaryOp.cpp:66-80 | a shift by one place more doubles or halves; there is none by 64 or more |
| ScriptOperators.BitsExactly | lib/Script/BinaryOp.cpp:130-155 | and, or and exclusive or, bit by bit |
| Words.BitsDetermine | lib/Script/BinaryOp.cpp:130-155 | numbers of the same bits are the same, so that these laws fix the results |
| ScriptOperators.SignsExactly | lib/Script/UnaryOp.cpp:25-59 | minus is subtraction from 0, logical negation tells 0 from the rest, and complement turns every bit |
| ScriptOperators.ComparesExactly | lib/Script/BinaryOp.cpp:82-112 | the four comparisons |
| ScriptOperators.EqualsExactly | lib/Script/BinaryOp.cpp:114-128 | equality and its negation |
| ScriptOperators.LogicExactly | lib/Script/BinaryOp.cpp:157-173 | the logical operators answer 1 or 0 |
| ScriptOperators.ExtremesExactly | lib/Script/BinaryOp.cpp:199-219 | the greater and the smaller of two numbers |
| ScriptOperators.AlignmentExactly | lib/Script/BinaryOp.cpp:175-197 | alignment to a power of two, with its mask, gives the least multiple not below, if that has 64 bits |
| ScriptOperators.DataSegmentExactly | lib/Script/TernaryOp.cpp:30-57 | the start of the data segment is the least multiple of the maximal page size not below the dot |
| ScriptOperators.SegmentStartExactly | lib/Script/BinaryOp.cpp:221-247 | the address given for the section that the segment is named for, else the default, which must be a number of the script |
| ScriptOperators.LookupsExactly | lib/Script/NullaryOp.cpp:18-43 | what comes from the sections and the target |
| ScriptOperators.ChoiceExactly | lib/Script/TernaryOp.cpp:18-28 | the chosen operand, which must be a number |
| ScriptOperators.SymbolsExactly | lib/Script/RpnEvaluator.cpp:76-99 | a symbol's value counts as a number, but not as a segment's default; one that is not in the pool has none |
| ScriptOperators.FirstComesFirst | lib/Script/RpnEvaluator.cpp:39-75 | the operand pushed first is the one that the other is subtracted from |
| RpnEvaluators.Operator.AppendOperand | include/mcld/Script/BinaryOp.h:41-45 | operands fill the slots in turn, and the next use starts at the first slot again |
| RpnEvaluators.Operator.Eval | lib/Script/BinaryOp.cpp:21-248 | the result is a fresh integer operand with the operator's value of the slots |
| RpnEvaluators.RpnEvaluator.Operate | lib/Script/RpnEvaluator.cpp:39-75 | an operator takes its operands off the stack in the order they were pushed and leaves the shared object ready for its next use |
| RpnEvaluators.RpnEvaluator.Eval | lib/Script/RpnEvaluator.cpp:33-113 | the loop over shared operator and operand objects computes what the machine on values computes |
| DebugStrings.DebugString.Merge | lib/LD/DebugString.cpp:40-59 | exactly the strings of the section are added |
| DebugStrings.DebugString.MergeAll | lib/LD/DebugString.cpp:40-59 | after all sections the table holds exactly their strings |
| DebugStrings.DebugString.ApplyOffset | lib/LD/DebugString.cpp:67-84 | a relocation gets an offset if and only if the string from its place on is in the table; that string and its end are emitted there |
| DebugStrings.MergedStringTable.InsertString | lib/LD/MergedStringTable.cpp:13-15 | each string is held once, in any order of the table |
| DebugStrings.MergedStringTable.FinalizeOffset | lib/LD/MergedStringTable.cpp:17-26 | every string has the offset at which it will stand, and the size is that of the image |
| DebugStrings.MergedStringTable.Emit | lib/LD/MergedStringTable.cpp:28-35 | a zero-filled region holds the image afterwards, and is unchanged beyond it |
| DebugStrings.PlacesTile | lib/LD/MergedStringTable.cpp:17-26 | every byte of the output belongs to exactly one string |
| DebugStrings.PlaceIsFound | lib/LD/DebugString.cpp:61-84 | any place of any input has an offset if and only if the string from there on starts somewhere in an input, and what is emitted there is that string and its end |
| DebugStrings.EveryStringIsFound | lib/LD/DebugString.cpp:61-84 | so every string of every input has an offset |
| DebugStrings.SuffixIsMissed | lib/LD/DebugString.cpp:67-84 | a place in the middle of a string need not be found |
| WeakAliases.Module.LinkRun | lib/LD/ELFReader.cpp:179-189 | a weak symbol and all that follow it with its value make one list, and none if there is none |
| WeakAliases.Module.AnalyzeWeakAliases | lib/LD/ELFReader.cpp:169-195 | the loop with its jump ends, and adds a list for each run that a weak symbol starts |
| WeakAliases.ListsAreGroups | lib/LD/ELFReader.cpp:169-195 | every list is all symbols of one value, two or more and one of them weak, and no two lists share a value |
| WeakAliases.ListsOfAll | lib/LD/ELFReader.cpp:164-195 | for the symbols as read, those of one value have a list if and only if they are aliases, and only one |

## Left out

- Resolution through indirect symbols: no reader makes one, and the cycle at lib/LD/StaticResolver.cpp:191-200 needs a link chain that ends. `Resolve` asks that neither symbol is indirect.
- StaticResolvers.Perform: the actions of indirect symbols are not modelled, for the same reason.
- StaticResolvers.Resolve: the results about sequences ask for what the readers produce: no local symbols in the pool, and only defined symbols absolute.
- ResolveInfos.ResolveInfo.constructor: the length of the name, which is written into the upper bits of the word and which nothing here changes, is 0.
- StaticResolvers.Step: a symbol of a regular object that meets an entry without an output symbol also gives it its value when it does not override (lib/Core/IRBuilder.cpp:517-523); here it does not, and no result depends on that value.
- NamePools.NamePool.InsertSymbol: the InDyn mark, the rename map, --exclude-libs, the copy of the old attributes for the caller, and entries that are strings only are not modelled.
- SelfReferences.FoldingKeepsBehaviour: the condition on the program is sufficient; folded sections with self-references in different places can still behave alike.
- GroupReaders.GroupReader.IncludeMember: nested archives and the building of the input tree are not modelled.
- GroupReaders.GroupReader.ReadInputs: inputs with a type fixed beforehand are not modelled.
- GroupReaders.GroupReader.ReadArchive: archives read as a whole, nested and thin archives, and the parsing of member headers and name tables are not modelled; a member is its offset and the symbols it defines and refers to.
- GroupReaders.GroupReader.ReadGroup: an archive is a value in a list of the reader, not an object of its own, so that two references to one archive are not captured.
- CodeFolding.IdenticalCodeFolding.ContentWithVariables: the code appends kept indices as hexadecimal text without a separator; here a content is a pair, so contents that agree only as text are not modelled.
- FoldingCandidates.FindCandidates: whether a relocation lets a function's address be seen is decided by the target and by the function's name, and is given with each relocation here.
- FoldingChains.FlatExactlyForOnePass: that CRC-32 in particular tells the contents of the chain apart is not proved, but asked for.
- CodeFolding.IdenticalCodeFolding.FoldIdenticalCode: the objects are visited in the order of their numbers; the result depends on the number of visits only. The candidates are given, each with its text and relocations; how those are read from fragments is not modelled.
- EhFrameEmit.EmittedPointersDecode: sections of 2^31 bytes or more, where the 32-bit distance overflows, are not covered.
- EhFrameEmit.EmitSectionData: the section's fragments are records with bytes; padding, fill and stub fragments are not modelled.
- EhFrameEmit.EmitEhFrame: the FDE that a target generates for its PLT is patched by the target and not modelled; nor is byte swapping.
- EhFrameRead.Read: whether a CIE's augmentation can be parsed is a parameter, also for one whose length does not cover its id; record lengths of 2^32-4 or more, which wrap, and reads beyond a truncated section are taken as rejected.
- EhFrameWhole.InputsReadBack: asks that every CIE of every input was parsed; an input of which none was is moved as it is.
- EhFrameObjects.EhFrame.MoveAllFragments: the fragments' parent pointers are not modelled.
- EhFrameObjects.EhFrame.MoveFragments: the fragments' parent pointers are not modelled.
- EhFrameObjects.EhFrame.Merge: fragments are values with an identity in the lists; a fragment's parent pointer is not modelled here.
- SymbolCategories.SymbolCategory.ChangeCommonsToGlobal: asks that each common belongs to the dynamic or the regular region by then; the code stops otherwise.
- SymbolTableRuns.EachSymbolIsPlaced: a run adds each symbol once.
- GarbageCollections.GarbageCollection.Run: the entry sections and the references that a target adds are parameters; matching section names against patterns is not modelled. Relocation sections link to ordinary sections of the inputs, and are of no handled kind.
- SectionLayouts.SectionData.MoveSectionData: asks that the output's header size is the end of its last fragment, as it is after every move; offsets are unbounded, so a section beyond 2^64 bytes is not modelled.
- SectionLayouts.SectionData.CreateRef: asks that the section ends below 2^63; in a larger one the walk can wrap again.
- BranchIslands.BranchIslandFactory.constructor: asks that an island is no larger than the forward range; otherwise the difference wraps.
- BranchIslands.BranchIslandFactory.Group: fragments and islands are values; inserting stubs moves later fragments, and the layout that follows it is not modelled.
- BranchIslandStubs.BranchIsland.AddStub: two symbols that were folded together are one symbol here; the variant without a prototype, lib/LD/BranchIsland.cpp:126-149, is not modelled.
- RpnEvaluators.RpnEvaluator.Eval: a stop of the program and undefined behaviour, such as division by 0, are both the absence of a result; the value of a dot or of a fragment operand is given.
- DebugStrings.DebugString.ApplyOffset: a string that is not in the table stops the program by an assertion here; without assertions it would be added with offset 0.
- DebugStrings.DebugString.Merge: asks that the last string of a section ends; otherwise the code reads beyond the section.
- WeakAliases.Module.AnalyzeWeakAliases: the sort is given by its result, any sorted permutation. The potential aliases, the data symbols of a shared object that are not undefined and global or weak (lib/LD/ELFReader.cpp:152-161), are given already chosen.
- File and memory access, diagnostics, option parsing, target backends, relocation application, and the ELF and program header writers.
