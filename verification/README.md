# A model of the build tools and the asynchronous native interface

This project models, in Dafny, the parts of the repository in which several pieces of code have to fit
together, and proves that they do. `dafny verify dfyconfig.toml` checks all of it.

**Class-file compaction (`src/tools/jcc`).** Methods are scanned for constant-pool references, the references are
counted, the constant table is compacted to the entries in use, and the bytecode is patched in place.
`Classes.ClassInfo.FindAndFinalize` is the end-to-end result: all steps succeed, exactly the entries in use are
left, and every instruction still names the same constant. The pieces are the instruction walk (`Bytecode`), the
scan, the counts and the patching (`Methods`), tables and their compaction (`SlotTable`), and counting through
components (`Constants`). `LabelTargets` adds jump targets and the replacement of instructions.

**The interning pool.** `Pools` has the pool of constants as a class; `Interning` says what adding does, on
values; `PoolFormat` has the class-file form as a stream of primitive items. Adding and smashing keep the pool
free of duplicates with components before their users, and a pool that is written is read back as it was.

**Include graphs (`makedep`).** `FileLists` has the depth-first walk with its flags and its cycle trace,
`Databases` runs it over all C files and splits the headers by how often they are used. `IncludeGraph` and
`GrandInclude` have the facts about graphs, orders and counts. `Databases.Database.Put` is the end-to-end result:
it says which header goes where, and that splitting them never breaks the order of inclusion.

**Pool threads (`anilib`).** `AniProtocol` is a state machine with one step for each thing that other threads can
observe; `AniInvariants` proves an invariant over every interleaving, `AniTheorems` draws the conclusions, and
`AniFunctions` says which function a pool thread runs, and settles exactly when it can find its function cleared.
Events are counting semaphores.

**String identifiers (`Str2ID`).** `StringIds` has the chained hash tables as a class; `Primes` has the number
theory that makes the search for a size and the probing end.

**Method tables.** `MethodTables` has `buildMethodtable` with lookup along the superclass chain as its reference.

**Smaller parts.** `ProfView` and `CallSummary` (call-graph summaries), `JniNames` (C names of native methods),
`Rounding` (rounding of decimal digits), `Pauses` (paused time in a sliding window).

Conventions. The end of the program and thrown exceptions are results that say so (`fatal`, `ok`, an option or an
error value). A ghost parameter `g` is a picture of the object graph as it stands; `Drawn(g)` says that it is
true. The ghost `marks` of a pool are what is known of the entries that may be added to it, its members included;
`Learn` makes new entries known. Bytes are unsigned; signed readings are written out. Java `int` values are unbounded
except where wrap-around matters: hashes, packed identifiers, jump targets and indices cut to a byte or a short are
written out.

Properties that the code does not have in general are settled exactly: `PoolFormat.ReadBackExactly` (a pool with
65536 slots or more is not read back), `MethodTables.ChainAgreesExactly` (a virtual `finalize()V` in a root class
loses a method), `AniFunctions.HastyCanCallNothing` with `AniFunctions.PatientRunsCallFunctions` (a null function
can be called), and `JniNames.OnlyName` with `JniNames.OneReadable` (`/1` and `_` have the same C form).
`Primes.IsPrime` and `Primes.StepsStayInside` say where the prime test and the steps in small tables fail, and
`StringIds.RehashFitsExactly` for how many strings a rehash can fail.

## Model

| member | source | states |
|---|---|---|
| `Bytecode.FitsIsPositive` | src/tools/jcc/components/MethodInfo.java:413-441 | an instruction that lies inside the code has positive length, so a walk over instruction lengths ends |
| `Bytecode.LengthByNumber` | src/tools/jcc/jcc/OpcodeConst.java:330-354 | by opcode number, how long every instruction is: the table of lengths, and switches and wide instructions |
| `Bytecode.ReferencesByNumber` | src/tools/jcc/components/MethodInfo.java:361-393 | by opcode number, which instructions have a pool index of one byte and which of two, which are switches and which can be widened |
| `Bytecode.StartsIncrease` | src/tools/jcc/components/MethodInfo.java:320-402 | of two boundaries of one walk, the instruction at the earlier ends at or before the later |
| `Bytecode.SelectExact` | src/tools/jcc/components/MethodInfo.java:361-397 | selecting the boundaries of one kind of reference keeps exactly those, in their order |
| `Bytecode.WalkSplits` | src/tools/jcc/components/MethodInfo.java:536-538 | a well-formed walk through an intermediate boundary is the walk up to it followed by the walk from it |
| `Bytecode.WalkJoins` | src/tools/jcc/components/MethodInfo.java:536-538 | two well-formed walks that meet make one walk |
| `Bytecode.WalkDependsOn` | src/tools/jcc/components/MethodInfo.java:413-441 | two codes whose instructions have the same lengths at the boundaries of one are walked alike |
| `Bytecode.SliceDecides` | src/tools/jcc/components/MethodInfo.java:413-441 | the length of an instruction depends on that instruction's own bytes only |
| `Methods.MethodInfo.FindConstantReferences` | src/tools/jcc/components/MethodInfo.java:312-411 | fails exactly on code that is not well formed (an unknown wide instruction); otherwise lists exactly the one-byte and the two-byte references, at instruction boundaries, in increasing order; the length/2 and length/3 buffers are never overrun |
| `Methods.SitesAreExact` | src/tools/jcc/components/MethodInfo.java:361-397 | the references met by the walk are exactly those that stand at instruction boundaries |
| `Methods.SitesExtend` | src/tools/jcc/components/MethodInfo.java:320-402 | the scanner's step leads to the next boundary of `opcodeLength`, adding the site it stands on if that is a reference |
| `Methods.BoundariesApart` | src/tools/jcc/components/MethodInfo.java:361-397 | of two different instructions one ends before the other begins, so the operands of two references share no byte |
| `Methods.FoundSitesAreOk` | src/tools/jcc/components/MethodInfo.java:403-410 | the lists that the scan leaves have room for every operand and no overlap |
| `Constants.ConstantObject.IncReference` | src/tools/jcc/components/FMIrefConstant.java:111-115 | counts the entry once and each component as often as it is met below the entry; nothing else changes |
| `Constants.MetOnce` | src/tools/jcc/components/FMIrefConstant.java:111-115 | visiting an entry meets it once |
| `Constants.ComponentUses` | src/tools/jcc/components/FMIrefConstant.java:111-115 | counting meets a component at least as often as the entry that has it |
| `Constants.ComponentUsesAll` | src/tools/jcc/components/NameAndTypeConstant.java:99-103 | the same for any list of counted entries |
| `Constants.RankBoundsUses` | src/tools/jcc/components/ClassConstant.java:99-102 | components are never counted back up: an entry is not met below one of lower rank |
| `Methods.MethodInfo.CountConstantReferences` | src/tools/jcc/components/MethodInfo.java:447-471 | counts exactly the constants the method holds and those its code selects from the table, each with its components |
| `Methods.MethodInfo.RelocateConstantReferences` | src/tools/jcc/components/MethodInfo.java:473-508 | succeeds exactly if no selected entry is shared, deleted or, for a one-byte operand, above 255, and then every operand is the new index; else reports what is wrong with the first such reference, one-byte ones first; no byte outside operands changes |
| `Methods.PatchOne` | src/tools/jcc/components/MethodInfo.java:478-506 | patching one more reference leaves the ones already patched and the ones to come as they were |
| `Classes.ClassInfo.FindReferences` | src/tools/jcc/components/ClassInfo.java:728-738 | succeeds exactly if every method's code is well formed, and then every method has been scanned |
| `Classes.ClassInfo.SmashConstantPool` | src/tools/jcc/components/ClassInfo.java:159-189 | the new table is the stable compaction of the old one to the own entries in use; own entries get their new index or -1, shared ones keep theirs |
| `SlotTable.CompactPlaces` | src/tools/jcc/components/ClassInfo.java:177-186 | a kept entry stands at its position in the compacted table, followed by its place holder if it takes two slots |
| `SlotTable.OrderKept` | src/tools/jcc/components/ClassInfo.java:163-186 | entries that stay keep their order |
| `SlotTable.NeverRaised` | src/tools/jcc/components/ClassInfo.java:163-175 | compaction never gives an entry a higher index than it had |
| `SlotTable.CompactIsTable` | src/tools/jcc/components/ClassInfo.java:177-186 | the compacted table is again a table, of exactly the kept entries |
| `Classes.IndexSelects` | src/tools/jcc/components/MethodInfo.java:482-490 | the new index of a kept entry is no higher than the old one and selects that very entry from the compacted table |
| `Classes.NothingToReport` | src/tools/jcc/components/MethodInfo.java:482-505 | for code that refers to own entries in use, none of the "shared", "deleted" and "out of range" errors can arise after a smash |
| `Classes.SameBoundaries` | src/tools/jcc/components/MethodInfo.java:413-441 | changing only operand bytes of references changes no instruction boundary |
| `Classes.PatchingKeepsMeaning` | src/tools/jcc/components/MethodInfo.java:473-508 | main theorem on values: in patched code every reference selects from the compacted table the same constant object as before, with the same instructions at the same boundaries and every other byte unchanged |
| `Classes.ClassInfo.CountReferences` | src/tools/jcc/components/ClassInfo.java:740-764 | every entry's count grows by the number of times it is met from the class's own entries and from its methods |
| `Classes.ClassInfo.RelocateReferences` | src/tools/jcc/components/ClassInfo.java:766-776 | succeeds exactly if every method may be relocated, and then every method's code is patched |
| `Classes.UsesAreKept` | src/tools/jcc/components/ClassInfo.java:740-764 | if counted own entries are kept, so is everything that any counted code selects |
| `Classes.MetExactly` | src/tools/jcc/components/ClassInfo.java:740-764 | an entry is met exactly if it is held by the class or a method, or selected by a reference at an instruction boundary of the raw code, or a component, all the way down, of such an entry |
| `Classes.ClassInfo.Finalize` | src/tools/jcc/JavaCodeCompact.java:484-491 | count, smash and relocate one after the other: every count grows by what the class and its methods use; kept are exactly the own entries whose old count and uses together are not 0, compacted and renumbered, the others get -1; and every method of the class means what it meant before |
| `Bytecode.WellFormedIsScannable` | src/tools/jcc/components/MethodInfo.java:320-402 | the scan gets through well-formed code without meeting bytes it cannot step over |
| `Classes.ClassInfo.FindAndFinalize` | src/tools/jcc/components/ClassInfo.java:728-776 | from raw code: for well-formed methods that refer to the class's own entries, find, count, smash and relocate succeed; the old table is kept aside, the new one is its compaction to exactly the own entries that were in use or are met from what the class and its methods hold or the old code selects; every method means what it meant before |
| `LabelTargets.TargetsOfAll` | src/tools/jcc/components/MethodInfo.java:536-568 | the targets known after one more instruction are those known before and those of that instruction |
| `LabelTargets.JumpsByNumber` | src/tools/jcc/components/MethodInfo.java:550-565 | by opcode number, which instructions are jumps with a two-byte and with a four-byte offset |
| `LabelTargets.JumpReads` | src/tools/jcc/components/MethodInfo.java:550-566 | a jump leads to its own position plus the offset written after its opcode, and `jsr` and `jsr_w` also mark the instruction after them; nothing else but a switch has targets |
| `LabelTargets.SwitchReads` | src/tools/jcc/components/MethodInfo.java:541-548 | in a table of offsets each is a target; in a list of pairs, the second number of each pair, not the first |
| `Methods.MethodInfo.GetLabelTargets` | src/tools/jcc/components/MethodInfo.java:531-570 | returns exactly the targets of jumps and switches and the return points of jsr, added up in 32 bits; fails exactly if one of them is negative |
| `LabelTargets.TargetWraps` | src/tools/jcc/components/MethodInfo.java:563-566 | a well-formed method of six bytes whose `goto_w` leads, by wrap-around, to a negative target |
| `Methods.MethodInfo.ReplaceCode` | src/tools/jcc/components/MethodInfo.java:572-594 | puts the new bytes and then nops into the range and nothing elsewhere, unless they do not fit or an exception range starts or ends there |
| `LabelTargets.SplicedKeepsBoundaries` | src/tools/jcc/components/MethodInfo.java:572-594 | replacing an instruction-aligned range by well-formed bytes keeps the code well formed, its length, and every instruction boundary outside the range |
| `LabelTargets.SplicedKeepsInstructions` | src/tools/jcc/components/MethodInfo.java:587-594 | and every instruction outside the range, byte for byte |
| `Interning.InternFine` | src/tools/jcc/components/ConstantPool.java:108-138 | adding a value keeps the pool free of duplicates with components before users, moves nothing, and puts the value in |
| `Interning.InternTwice` | src/tools/jcc/components/ConstantPool.java:111-112 | adding a value that is there changes nothing |
| `Interning.RunIsFine` | src/tools/jcc/components/ConstantPool.java:108-138 | after any run of additions from the empty pool there are no duplicates, components stand before users, and every added value is there |
| `Interning.InternTableAgain` | src/tools/jcc/components/ConstantPool.java:205-207 | adding a pool's entries in order to an empty pool gives each its old index |
| `Pools.ConstantPool.Add` | src/tools/jcc/components/ConstantPool.java:108-138 | returns the member equal to the given constant if there is one; else the given constant itself becomes the member, after its missing components, or a new copy of it if another pool owns it; what is returned stands in the table at its index; a locked pool refuses a new value; everything already in the pool stays as it is |
| `Pools.ConstantPool.Dup` | src/tools/jcc/components/ConstantPool.java:165-169 | as `add`, but the given object stays as it is: it is returned only if it was a member before, and otherwise the new member is a new object |
| `Pools.ConstantPool.Clone` | src/tools/jcc/components/ConstantObject.java:83-96 | an unshared copy with the original's components and no references |
| `Pools.ConstantPool.Externalize` | src/tools/jcc/components/FMIrefConstant.java:84-87 | replaces the components by members of this pool, added in the source's order |
| `Pools.ConstantPool.ReplacePart` | src/tools/jcc/components/NameAndTypeConstant.java:74-77 | one component becomes the pool's own entry of the same meaning: the one that is there, else the component itself, or a copy if it is shared or the class of a reference; the others stay |
| `Pools.ConstantPool.Register` | src/tools/jcc/components/ConstantPool.java:124-134 | the entry takes the next free index, and the table grows by its slots |
| `Pools.RegisteredOk` | src/tools/jcc/components/ConstantPool.java:124-134 | entering an entry whose components are members keeps table, hash table, indices and component order consistent |
| `Pools.ConstantPool.ClearAllReferences` | src/tools/jcc/components/ConstantPool.java:212-219 | every member's count becomes zero |
| `Pools.CountingClosesUse` | src/tools/jcc/components/ConstantPool.java:227-229 | counting the uses of any members from a cleared pool leaves in use whatever they need, and components of entries in use are in use |
| `Pools.ConstantPool.Reduce` | src/tools/jcc/components/ConstantPool.java:212-262 | clearing the counts, counting the uses of any members and smashing leaves a consistent pool: the compaction of the old one to exactly the members met |
| `Pools.ConstantPool.SmashConstantPool` | src/tools/jcc/components/ConstantPool.java:230-262 | drops the members not in use from table and hash table, closes the gaps, renumbers; the result is again a consistent pool exactly if the components of members in use are in use |
| `Pools.SmashedOk` | src/tools/jcc/components/ConstantPool.java:230-262 | compaction keeps the pool duplicate-free, with each member at its index and components before users |
| `Pools.SmashedOkExactly` | src/tools/jcc/components/ConstantPool.java:230-262 | and only compaction with closed use does |
| `Pools.SmashedMarks` | src/tools/jcc/components/ConstantPool.java:236-241 | a member in use keeps its identity and gets an index that is positive and no higher than before |
| `Pools.ComesFrom` | src/tools/jcc/components/ConstantPool.java:248-258 | whatever stands in the compacted table was a kept entry of the old one, at the slot that maps here |
| `Pools.NothingDropped` | src/tools/jcc/components/ConstantPool.java:245 | when the count of new slots equals the old one, the compacted table is the old table, so returning early is right |
| `Pools.OkIsFine` | src/tools/jcc/components/ConstantPool.java:108-138 | a consistent pool has an image that adding alone could have produced |
| `PoolFormat.ReadEntry` | src/tools/jcc/components/ConstantObject.java:100-127 | an unknown tag fails; an entry that is read takes at least one item from the front and leaves the rest, so reading ends |
| `PoolFormat.ReferenceWritten` | src/tools/jcc/components/FMIrefConstant.java:89-95 | item by item, the form of a pool of one member reference of any kind, with the tags of section 4.4 and the components in the order in which they are added |
| `PoolFormat.NumbersWritten` | src/tools/jcc/components/ConstantPool.java:269-279 | the same for numbers and a string: a long or a double takes two indices |
| `PoolFormat.EntryReadsBack` | src/tools/jcc/components/StringConstant.java:70-79 | an entry that was written is read back with the same tag, data and indices, and leaves the rest of the stream |
| `PoolFormat.RefResolvesBack` | src/tools/jcc/components/FMIrefConstant.java:72-82 | a member reference resolves to the class and the name and type it was written with |
| `PoolFormat.PartResolves` | src/tools/jcc/components/NameAndTypeConstant.java:67-72 | a component's index leads back to it |
| `PoolFormat.ReadBackExactly` | src/tools/jcc/components/ConstantPool.java:191-210 | reading what was written gives the same constants at the same indices exactly if the number of slots fits a short (section 4.4 of the Java Virtual Machine Specification) |
| `PoolFormat.FullPool` | src/tools/jcc/components/ConstantPool.java:191-210 | there is a consistent pool of 65536 slots, and it is not read back |
| `PoolFormat.RoundTrip` | src/tools/jcc/components/ConstantPool.java:191-210 | the same for any pool that adding can produce, and adding the entries read to an empty pool gives the same pool |
| `Pools.PoolReadsBack` | src/tools/jcc/components/ConstantPool.java:269-279 | hence for any consistent pool, smashed or not |
| `Pools.PartIndices` | src/tools/jcc/components/StringConstant.java:73 | the index that an entry writes for a component is the slot where that component's value stands |
| `Pools.ConstantPool.Write` | src/tools/jcc/components/ConstantPool.java:269-279 | writes exactly the class-file form of the pool |
| `Pools.ConstantPool.Read` | src/tools/jcc/components/ConstantPool.java:191-210 | succeeds exactly on a readable table, if locked only on one whose entries are all there; adds, in order, what `Added` says, which is nothing for a malformed stream or a failing cast, and the entries before the first with a missing component otherwise; a locked pool does not change |
| `Pools.ConstantPool.AddAll` | src/tools/jcc/components/ConstantPool.java:205-207 | adds entries in order; a locked pool stops at the first it does not have |
| `PoolFormat.ReadIsAdded` | src/tools/jcc/components/ConstantPool.java:191-207 | of a readable table everything is added |
| `PoolFormat.ResolvableCasts` | src/tools/jcc/components/StringConstant.java:61-65 | an entry whose components are all there has passed every cast |
| `PoolFormat.FailsHalfway` | src/tools/jcc/components/StringConstant.java:61-65 | a stream of two entries that fails after its first entry was added: an index names an empty slot, and only the hash code notices |
| `Interning.AddsNothingExactly` | src/tools/jcc/components/ConstantPool.java:205-207 | adding a table, whole or in part, leaves a pool as it was exactly if the pool has all its entries |
| `Pools.ResolvedParts` | src/tools/jcc/components/FMIrefConstant.java:72-82 | the components of an entry with a meaning are entries with the meanings that its indices promise |
| `FileLists.FileList.DoFiles` | src/tools/buildtool/makedep/FileList.java:172-188 | puts everything this list leads to into the output, each file once and after its own includes, fatal only if there is a cycle; a source of a platform dependent include is reported, and then forgotten, exactly if this list or a newly walked file includes it; the status is true exactly if no file of this list was still known as one when its turn came |
| `FileLists.TurnNext` | src/tools/buildtool/makedep/FileList.java:172-188 | how many files stand in order when the turn of each file of a list comes is determined by the final order |
| `FileLists.AllProperStep` | src/tools/buildtool/makedep/FileList.java:172-188 | the status after one more file |
| `FileLists.FileList.DoHFile` | src/tools/buildtool/makedep/FileList.java:209-221 | the same for one header, which ends up in the output; flags say exactly which files are done and which are being walked |
| `FileLists.FileList.DoCFile` | src/tools/buildtool/makedep/FileList.java:223-233 | returns exactly the reachable headers, each once and after its includes, with all flags reset; ends the program exactly if a cycle is reachable |
| `FileLists.FileList.TraceCycle` | src/tools/buildtool/makedep/FileList.java:190-207 | if it returns, every file it marked leads, among the files being walked, only to marked files other than the one it started from |
| `FileLists.FileList.TraceOwnCycle` | src/tools/buildtool/makedep/FileList.java:210-213 | started from a file met again while it is being walked, it always reaches the fatal error, and there is a cycle |
| `FileLists.TraceComesBack` | src/tools/buildtool/makedep/FileList.java:197-205 | because a chain of inclusions that closes cannot be passed through completely |
| `FileLists.FileList.Unmark` | src/tools/buildtool/makedep/FileList.java:227-230 | resetting the flags of the files found makes calls independent |
| `IncludeGraph.OrderedIsAcyclic` | src/tools/buildtool/makedep/FileList.java:209-221 | a file that can be put in order is in no cycle |
| `IncludeGraph.WalkedAll` | src/tools/buildtool/makedep/FileList.java:223-233 | what has been put in order from a list is its whole closure and nothing else |
| `IncludeGraph.ChainCloses` | src/tools/buildtool/makedep/FileList.java:210-213 | meeting a file that is being walked is a cycle |
| `Databases.Database.ComputeIndividual` | src/tools/buildtool/makedep/Database.java:606-611 | one list for each C file, of exactly the headers it needs in order; fatal exactly if some C file reaches a cycle |
| `Databases.Database.ComputeGrand` | src/tools/buildtool/makedep/Database.java:616-629 | the grand list has the headers of exactly the files that take it, each once and in order, and each header's count is the number of such files that need it; no cycle can be met here |
| `Databases.Database.Compute` | src/tools/buildtool/makedep/Database.java:606-630 | both of these together |
| `GrandInclude.IncludedIsUsedMore` | src/tools/buildtool/makedep/Database.java:625-628 | a header is used no more often than anything it includes |
| `GrandInclude.FrequentIsClosed` | src/tools/buildtool/makedep/Database.java:98-100 | so the headers that reach the threshold are closed under inclusion, whatever the threshold |
| `GrandInclude.SelectIsOrdered` | src/tools/buildtool/makedep/FileList.java:251-260 | selecting from an ordered list keeps it in order as long as what is left out stands before |
| `GrandInclude.SplitKeepsOrder` | src/tools/buildtool/makedep/FileList.java:251-260 | the precompiled header followed by a C file's remaining headers has each header of its closure, none twice, each after its includes |
| `Databases.Database.WriteGrandInclude` | src/tools/buildtool/makedep/Database.java:750-765 | names exactly the headers of the grand list that reach the threshold, in order |
| `Databases.Database.PutInclFile` | src/tools/buildtool/makedep/FileList.java:251-260 | names exactly the headers of the list that are not in the precompiled header |
| `Databases.Database.Put` | src/tools/buildtool/makedep/Database.java:641-643 | a header is in the precompiled header exactly if some C file that takes it needs that header and its count reaches the threshold, and in the include file of a C file exactly if the file needs it and does not get it from there; so every C file sees all headers it needs, none twice, each after its includes, whether it takes the precompiled header or refuses it |
| `AniProtocol.FirstUnused` | src/anilib/share/poolthread.cpp:66-69 | finds the first pool thread that is not used |
| `AniInvariants.PoolEffectKeeps` | src/anilib/share/poolthread.cpp:142-173 | every step of a pool thread keeps the invariant |
| `AniInvariants.StartKeeps` | src/anilib/share/ani.cpp:41-79 | starting a native method, with or without a pool thread to give it, keeps the invariant |
| `AniInvariants.StartKeepsPoolThread` | src/anilib/share/poolthread.cpp:62-116 | allocating, spawning or failing to spawn a pool thread keeps every pool thread consistent |
| `AniInvariants.NativeStepKeeps` | src/anilib/share/ani.cpp:81-150 | every other step of a native method keeps the invariant, and the assertions in it hold |
| `AniInvariants.VmStepKeeps` | src/anilib/share/ani.cpp:152-190 | waking waiters, waiting, timing out and scanning keep the invariant |
| `AniInvariants.RunKeeps` | src/anilib/linux/os_port.cpp:52-66 | the invariant holds throughout every run, whatever the interleaving of signals and waits |
| `AniTheorems.AssertionsHold` | src/anilib/share/poolthread.cpp:187-191 | in no reachable state can these assertions fail: the pool thread is idle at start and at release of an execution; a blocking record that is used is there, and one that waits has no pool thread; some thread is blocked when waiters are woken |
| `AniTheorems.Ownership` | src/anilib/share/poolthread.cpp:62-116 | a pool thread is held by at most one live blocking record, and is used exactly while it is held or being spawned |
| `AniTheorems.TokenConserved` | src/anilib/share/poolthread.cpp:187-191 | not being idle is one token: with the VM thread about to signal, in the execute event, or with the running function; so every started execution runs exactly once |
| `AniTheorems.NoLostCompletion` | src/anilib/share/poolthread.cpp:193-238 | a blocked Java thread whose pool thread is idle again has a finish signal pending, a pool thread about to give it, or a scan that has not passed it |
| `AniTheorems.NoPrematureUnblocking` | src/anilib/share/poolthread.cpp:210-237 | a Java thread is unblocked only when everything it started has run, or, without a pool thread, when there is a free one |
| `AniTheorems.WaitersCounted` | src/anilib/share/ani.cpp:159-184 | `waiter_count` is the number of Java threads blocked without a pool thread |
| `AniTheorems.WakesAsMany` | src/anilib/share/ani.cpp:152-190 | before it waits, the VM thread unblocks as many waiters as there are pool threads that are not used, or all of them if they are fewer, and nobody else |
| `AniTheorems.PoolThreadFinishes` | src/anilib/share/poolthread.cpp:153-167 | left alone, a pool thread with something to do gets idle and gives its signal |
| `AniTheorems.ScanFinds` | src/anilib/share/poolthread.cpp:215-237 | a scan unblocks whoever waits for an idle pool thread it has not passed |
| `AniTheorems.CompletionPossible` | src/anilib/share/poolthread.cpp:199-213 | while the VM thread waits, even forever, every Java thread that waits for its pool thread can still be unblocked |
| `AniTheorems.BlockedUserMoves` | src/anilib/share/poolthread.cpp:199-205 | while a Java thread waits for its pool thread there is a signal to wait for, given or still to come |
| `AniTheorems.WaiterCanBeWoken` | src/anilib/share/ani.cpp:152-190 | while the VM thread waits forever no pool thread is free for those that wait for one; each of them can still be woken exactly if a signal has been given or a pool thread is on its way to one, or the wait has a timeout |
| `AniTheorems.NothingMoves` | src/anilib/share/poolthread.cpp:199-205 | if not, no step of any thread is possible |
| `AniFunctions.PatientRunsCallFunctions` | src/anilib/share/poolthread.cpp:162-165 | as long as no function is set for a pool thread that is idle but has not cleared its old one, a running pool thread runs the function, never null, that its holder, by the events of the run, set last before it blocked |
| `AniFunctions.HastyCanCallNothing` | src/anilib/share/poolthread.cpp:164-165 | whenever a function is set at such a moment, the pool thread can come to call a null function |
| `AniFunctions.HastyIsReachable` | src/anilib/share/poolthread.cpp:210-237 | a concrete run in which such a moment comes: the finish of one pool thread starts a scan that finds another idle |
| `Primes.IsPrime` | src/tools/jcc/jcc/Str2ID.java:191-200 | exact for every number except 1, which it accepts, and 2, which it rejects |
| `Primes.NoDivisorAbove` | src/tools/jcc/jcc/Str2ID.java:194-199 | trial division up to the square root is enough |
| `Primes.PrimeAbove` | src/tools/jcc/jcc/Str2ID.java:66-69 | there is a prime above any number, so the search for a table size ends |
| `Primes.DefaultSizeIsPrime` | src/tools/jcc/jcc/Str2ID.java:54 | 2003 is prime |
| `StringIds.FirstPrime` | src/tools/jcc/jcc/Str2ID.java:65-69 | the first odd size from the given one on that is prime; 1 only if the given size is at most 1 |
| `StringIds.Str2ID.Sized` | src/tools/jcc/jcc/Str2ID.java:64-75 | a valid empty table of that size if it is above 8 |
| `Primes.NoSmallMultiple` | src/tools/jcc/jcc/Str2ID.java:122-125 | fewer steps than the prime size do not add up to a full cycle |
| `Primes.PlaceForm` | src/tools/jcc/jcc/Str2ID.java:122-125 | after `j` steps the index is `j` steps lower, plus a multiple of the table size |
| `Primes.EverySlotIsVisited` | src/tools/jcc/jcc/Str2ID.java:122-125 | a full cycle of double-hash steps visits every slot |
| `Primes.StepsStayInside` | src/tools/jcc/jcc/Str2ID.java:122-125 | a step stays inside the table for every hash exactly if the table has at least 8 slots |
| `StringIds.HashString` | src/tools/jcc/jcc/Str2ID.java:91-98 | the 32-bit hash |
| `StringIds.HashOfTwo` | src/tools/jcc/jcc/Str2ID.java:91-98 | the first of two characters counts 37 times |
| `StringIds.ProbingEnds` | src/tools/jcc/jcc/Str2ID.java:112-126 | in a table of prime size above 8 that is not full, probing reaches the string or an empty slot within one cycle |
| `StringIds.EndedMeansAbsent` | src/tools/jcc/jcc/Str2ID.java:112-128 | if probing ends at an empty slot, the string is not in the table |
| `StringIds.PuttingKeepsFound` | src/tools/jcc/jcc/Str2ID.java:142-143 | a string put there can be found, and so can all others |
| `StringIds.Str2ID.Search` | src/tools/jcc/jcc/Str2ID.java:111-126 | finds the string, or the empty slot where it belongs |
| `StringIds.Str2ID.SearchChain` | src/tools/jcc/jcc/Str2ID.java:110-133 | finds the identifier of a string exactly if it has one in some table of the chain |
| `StringIds.Str2ID.GetID` | src/tools/jcc/jcc/Str2ID.java:101-153 | a known string keeps its identifier, a new one gets one unless the table is locked; all others are unchanged, across overflow tables |
| `StringIds.Str2ID.AddNew` | src/tools/jcc/jcc/Str2ID.java:135-152 | a table below its overflow point takes the string; one that has reached it is left as it is, and the string goes to a new table behind it |
| `StringIds.IdsInjective` | src/tools/jcc/jcc/Str2ID.java:117 | no two strings of a chain share an identifier |
| `StringIds.GetIDs` | src/tools/jcc/jcc/Str2ID.java:101-157 | over any calls in a row, equal strings get equal identifiers and different strings different ones |
| `StringIds.Str2ID.GetPairID` | src/tools/jcc/jcc/Str2ID.java:159-165 | packs the two identifiers into 32 bits |
| `StringIds.PairReads` | src/tools/jcc/jcc/Str2ID.java:159-165 | below 65536, the upper half of a packed pair is the identifier of the name and the lower that of the signature |
| `StringIds.PairsStayApart` | src/tools/jcc/jcc/Str2ID.java:159-165 | packed pairs are different for different pairs exactly as long as identifiers stay below 65536 |
| `StringIds.PairsIdentify` | src/tools/jcc/components/FMIrefConstant.java:137-156 | packed identifiers below 65536 are equal exactly for equal names and types, so they can stand for them |
| `StringIds.StringCount` | src/tools/jcc/jcc/Str2ID.java:174-176 | as many strings are stored as identifiers have been given |
| `StringIds.Str2ID.Rehash` | src/tools/jcc/jcc/Str2ID.java:171-189 | with at least 6 strings, the new table holds the same strings without a second table |
| `StringIds.SmallSizes` | src/tools/jcc/jcc/Str2ID.java:64-75 | the sizes of the tables made for few strings; no table made for a number of strings overflows before it has them |
| `StringIds.RehashFitsExactly` | src/tools/jcc/jcc/Str2ID.java:171-189 | a table made for a number of strings can take any strings of that number, in any order, exactly if they are at most one or at least 6 |
| `StringIds.ClashFails` | src/tools/jcc/jcc/Str2ID.java:112-126 | for 2 to 5 strings: strings of one character that all start at slot 0 and step by 8, so that the second leaves the table |
| `MethodTables.LinkedClass.BuildMethodtable` | src/tools/jcc/components/ClassInfo.java:598-659 | builds the tables of the superclasses of the same kind and then its own; every method in the table knows its slot and is neither static nor private nor a constructor; without a root `finalize()V` every such method of the class is in it; no other method gets an index |
| `MethodTables.LinkedClass.LayOut` | src/tools/jcc/components/ClassInfo.java:616-654 | enters the class's methods into a copy of the inherited table, each into the slot it overrides or a new one |
| `MethodTables.AddedIsPartly` | src/tools/jcc/components/ClassInfo.java:627-648 | one more method keeps the signatures of inherited slots and puts no signature in twice |
| `MethodTables.TableAgrees` | src/tools/jcc/components/FMIrefConstant.java:145-162 | no signature stands in a table twice and every slot holds what lookup of virtual methods along the chain finds; without a virtual `finalize()V` in the root, whatever lookup finds has a slot |
| `MethodTables.SlotsAlwaysAgree` | src/tools/jcc/components/ClassInfo.java:616-654 | the first half of that needs nothing of the root: what a root's `finalize()V` overwrites is lost, but no slot is wrong |
| `MethodTables.SlotsStay` | src/tools/jcc/components/ClassInfo.java:611-613 | a subclass keeps every inherited slot number, whatever the root declares |
| `MethodTables.Dispatch` | src/tools/jcc/components/FMIrefConstant.java:145-162 | the slot found in the class named by a call holds, in any subclass, the method that lookup finds from there, whatever the root declares |
| `MethodTables.FindIsLookup` | src/tools/jcc/components/FMIrefConstant.java:145-162 | a reference resolves to the method the table holds exactly unless it resolves to a static, private or constructor method |
| `MethodTables.BuiltTableAgrees` | src/tools/jcc/components/ClassInfo.java:598-659 | the same for the tables that are built, whose methods know their slots |
| `MethodTables.FinalizeGoesFirst` | src/tools/jcc/components/ClassInfo.java:627-631 | in a class without superclass, `finalize()V` replaces whatever stands in slot 0, and nothing else |
| `MethodTables.FinalizeLosesOne` | src/tools/jcc/components/ClassInfo.java:627-631 | once a root class's `finalize()V` has been entered, one of its virtual methods is missing from the table |
| `MethodTables.RootTableComplete` | src/tools/jcc/components/ClassInfo.java:627-631 | the table of a class without superclass has all its virtual methods exactly if none of them is `finalize()V` |
| `MethodTables.ChainAgreesExactly` | src/tools/jcc/components/ClassInfo.java:627-648 | for a whole chain: the tables of all its classes agree with lookup exactly if the root has no virtual `finalize()V` |
| `MethodTables.ClassTablesAgreeExactly` | src/tools/jcc/components/ClassInfo.java:598-659 | for classes: the tables on the way to a class, its own included, hold exactly what lookup finds exactly if its root has no virtual `finalize()V` |
| `MethodTables.ChainHasRootFirst` | src/tools/jcc/components/ClassInfo.java:604-611 | only the first class of a chain can be without superclass |
| `MethodTables.LosesFinalize` | src/tools/jcc/components/ClassInfo.java:627-631 | a root class whose only method is a virtual `finalize()V`, and whose table is empty |
| `ProfView.CallGraphNode.ComputeSummary` | src/tools/profview/ProfView.java:577-634 | one record for each name below the node, saying what it should; the root of a profile gets its inclusive cycles; and so for every node with callees below this one |
| `ProfView.CallGraphNode.MergeChildren` | src/tools/profview/ProfView.java:582-611 | the table after all children has, for every name, the node and its children added up |
| `ProfView.CallGraphNode.MergeSummary` | src/tools/profview/ProfView.java:593-602 | a child's records are added one by one; those with this node's name without their callees |
| `CallSummary.WithItself` | src/tools/profview/ProfView.java:582-584 | a node on top of its children: own name counted for all occurrences, inclusive cycles for the outermost only |
| `CallSummary.OneMoreChild` | src/tools/profview/ProfView.java:586-611 | what one more child adds to each record |
| `CallSummary.CyclesConserved` | src/tools/profview/ProfView.java:623-628 | no cycle is lost or counted twice: the records of all names add up to the total |
| `CallSummary.RootGetsTotal` | src/tools/profview/ProfView.java:623-632 | a root that starts without inclusive cycles ends with the total |
| `JniNames.StringToJNI` | src/tools/jcc/jcc/Util.java:228-252 | appends the C form of a name |
| `JniNames.EscapesSpelled` | src/tools/jcc/jcc/Util.java:232-249 | which escape stands for which character |
| `JniNames.HexStringOfEscape` | src/tools/jcc/jcc/Util.java:243-248 | a character plus 0x100000 has the hexadecimal digits 1, 0 and its own four |
| `JniNames.ReadEscape` | src/tools/jcc/jcc/Util.java:232-249 | the C form of a character other than a slash is read back, whatever follows |
| `JniNames.ReadIsWritten` | src/tools/jcc/jcc/Util.java:228-252 | what is read from a C form at any place is written with exactly the text that was read |
| `JniNames.ReadsAsName` | src/tools/jcc/jcc/Util.java:228-252 | every text of letters, digits and underscores is read as some name and is that name's C form |
| `JniNames.ContinuesAlike` | src/tools/jcc/jcc/Util.java:232-249 | a name starts with 1, 2, 3 or 0 and four digits of an escape exactly if its C form does |
| `JniNames.ReadBackExactly` | src/tools/jcc/jcc/Util.java:228-252 | a name is read back from its C form exactly if none of its slashes is followed by 1, 2, 3 or by 0 and the four digits of an escaped character |
| `JniNames.OneReadable` | src/tools/jcc/jcc/Util.java:228-252 | every C form is that of exactly one such name, so every other name collides with one |
| `JniNames.OnlyName` | src/tools/jcc/jcc/Util.java:228-252 | without reference to any reading: no other name has the same C form exactly if the name is readable and consists of plain characters and slashes |
| `JniNames.Collision` | src/tools/jcc/jcc/Util.java:234-236 | `/1` and `_` have the same C form, while `/0` is readable |
| `JniNames.ConvertToJNIName` | src/tools/jcc/jcc/Util.java:214-226 | the C form of class, method and, if given, parameter types, joined by slashes |
| `JniNames.NameSpelled` | src/tools/jcc/jcc/Util.java:214-226 | two names in full, with and without parameter types |
| `JniNames.NamesDiffer` | src/tools/jcc/jcc/Util.java:214-226 | classes, methods and parameter types with readable names that are not all the same have different C names |
| `Rounding.CheckForCarry` | src/tools/profview/PrintfFormat.java:1681-1698 | says exactly when cutting off digits rounds up |
| `Rounding.StartSymbolicCarry` | src/tools/profview/PrintfFormat.java:1713-1732 | adds one to the digits of the range and says whether that overflows; no other digit changes |
| `Rounding.IncreasedByOne` | src/tools/profview/PrintfFormat.java:1716-1731 | the new digits, with the overflow in front, are worth one more than the old ones |
| `Rounding.RoundsToNearest` | src/tools/profview/PrintfFormat.java:1681-1698 | rounding up or not as the check says gives the nearest value, the even one of two equally near |
| `Rounding.NearestIsUnique` | src/tools/profview/PrintfFormat.java:1681-1698 | there is only one such value |
| `Rounding.RoundAt` | src/tools/profview/PrintfFormat.java:1266-1268 | check and carry together: the digits before the cut and the returned carry are the digit string rounded half to even |
| `Pauses.FindStartIdx` | src/tools/profview/ParsePauses.java:120-141 | finds the last event that is not after the given time, from the given start on; -1 if there is no event |
| `Pauses.CursorResumes` | src/tools/profview/ParsePauses.java:107 | resuming from the previous cursor finds what a search from the start would |
| `Pauses.TotalPaused` | src/tools/profview/ParsePauses.java:155-184 | adds up exactly the paused time inside the window, up to the last event |
| `Pauses.WindowsAdd` | src/tools/profview/ParsePauses.java:155-184 | paused time is a measure: the two parts of a window add up |
| `Pauses.PausedAtMost` | src/tools/profview/ParsePauses.java:155-184 | and never more than the part of the window after the first event |
| `Pauses.BetweenEvents` | src/tools/profview/ParsePauses.java:155-184 | a window between an event and the next is paused for its whole length or not at all, as the event says |
| `Pauses.OutsideEvents` | src/tools/profview/ParsePauses.java:155-184 | time before the first event or after the last does not count |
| `Pauses.AddPauses` | src/tools/profview/ParsePauses.java:143-200 | compares exactly that time with the threshold |
| `Pauses.CountPauses` | src/tools/profview/ParsePauses.java:103-115 | counts the windows whose paused time is above the threshold, one start for each millisecond |

## Left out

- Files, sockets, processes, windows and the text of what is written: output is a sequence of entries, items or headers.
- jcc: attributes, fields and interfaces are a list of held constants; stack maps, `relocateAndPackCode` and the writers of native tables are not modelled.
- jcc: code with the zero-length opcodes 186 and 213 or opcodes above 225 is not well formed here, nor are switches whose length needs more than 32 bits, which the source computes with wrap-around.
- Constants.ConstantObject.IncReference: reference counts are unbounded, so overflow of a 32-bit count is not modelled; `decReference` and the counts of `ldc` references are not modelled.
- Classes.ClassInfo.Finalize: starts from what `findReferences` leaves behind; it and `FindAndFinalize` assume tables of at most 65536 slots and that code refers only to the class's own unshared constants, as the source's error messages demand.
- Pools.ConstantPool.Read: an entry's meaning is fixed when its object is made, which is after the whole table has been read; the source makes the object first and resolves it in place. Entries without a meaning get no object.
- Pools.ConstantPool.Add: the cached array of constants, `appendElement` and `doSort` are not modelled, and constants removed by a smash are not added again.
- PoolFormat.ReadEntry: the bytes of primitive items and the encoding of strings are not modelled; writing and reading an item are taken to be inverse.
- The hash codes of constants: the hash table of a pool is a map from meanings to entries.
- FileLists.FileList.DoFiles: the text of error messages is not modelled; what has been reported before a fatal cycle is not stated.
- makedep: parsing the database of includes, reading paths, makefiles, sorting by name and merging of source files are not modelled; the line that includes the precompiled header itself is not written.
- AniProtocol.NativeStep: the static variables of the C++ files are fields of one state value, and a step maps it to the next; what happens in memory within one step is not captured.
- ANI: parameter blocks, timeouts as times, and disposal are not modelled; a timed wait either times out without effect or consumes one signal, although the Linux version lowers the count after any return but a timeout.
- ANI: native methods are taken to follow the call order of ani.h, blocking records to end when an unblocked native method returns, and the allocation of a blocking record to succeed.
- AniTheorems.AssertionsHold: the assertions about created events and threads in `PoolThread_Allocate` and `PoolThread_Free` and those of the parameter-block functions are not modelled.
- StringIds.Str2ID.GetID: the string constants kept beside the strings are not modelled, and identifiers are unbounded; tables of fewer than 9 slots, which the source only makes for fewer than 6 strings, are left out of the class because probing them can leave the table; `RehashFitsExactly` says on values when it does.
- The overflow point of a table is four fifths of its size in integers, not in floating point; the square root in the prime test is the bound on the square.
- MethodTables.TableAgrees: assumes different signatures within a class; signatures are compared as such, not by identifier, which `StringIds.PairsIdentify` justifies below 65536 identifiers. Interface method tables beyond the chain of one kind, and field tables, are left out.
- ProfView.CallGraphNode.ComputeSummary: records are values, so the one record that the table and the summary share is updated explicitly; milliseconds, percentages, start and end times and averaged records are not modelled; cycles are unbounded integers.
- Rounding: only the carry pair; the formatting around it is left out because its rounding position is not right for every exponent.
- Pauses: times are reals, events are taken to be in time order, and parsing the log and verbose output are left out.
