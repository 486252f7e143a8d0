# Verified models of SELinux userspace

Dafny models of the parts of the SELinux userspace tree whose correctness is hard to
see from the code: a small compiler with wrapping arithmetic, two concurrent
protocols, a cache with caller-held references, a streaming hash, two-pass and
two-ended list algorithms, and two text formats. `dafny verify dfyconfig.toml` checks
the whole project.

| file | component |
|---|---|
| `IoctlXperms.dfy`, `XpermBits.dfy` | the compiler of ioctl extended-permission rules in checkpolicy |
| `Expressions.dfy` | postfix conditional and constraint expressions: builders, depth checker, evaluator, inversion |
| `OrderedContexts.dfy` | node and genfs context lists kept most specific first |
| `Scopes.dfy` | the two-pass scope machine of the module compiler |
| `Avc.dfy` | the userspace access vector cache |
| `StatusPage.dfy` | the reader of the kernel status page, interleaved with its writer |
| `RestoreconWalk.dfy` | the relabel walk with any number of threads |
| `FileSpecs.dfy` | the inode association table of restorecon |
| `FileContexts.dfy`, `PathKeys.dfy` | file-context lookup: sorting, stems, key cleaning, backward scan |
| `Sha1.dfy`, `Arithmetic.dfy` | the streaming SHA-1, against FIPS 180-4 |
| `ContextString.dfy` | parsing and printing security contexts |
| `Wrappers.dfy` | what several models share |

Objects that the source updates in place are classes; linked nodes of the cache are
numbered, and a pointer is a node number with -1 for NULL. Concurrent code is a state
machine whose steps are single loads and stores (status page) or whole locked
sections (relabel walk), and the theorems are about every run. Where a promise does
not hold for every input, the model keeps what the code does and the exact condition
is proved:

- A `~` list of ioctl ranges is complemented if and only if the listed commands do
  not include 0xffff and are not just 0 to h for some h; otherwise the command on
  which the rules go wrong is named (`IoctlXperms.DefineIoctl`; two statements in
  `IoctlXperms.TildeFailures`).
- Printing a parsed context loses a final colon exactly when the string ends in a
  colon and has at most three of them (`ContextString.PrintParse`; `u:r:t:` in
  `ContextString.DanglingLost`), and a printed context parses back exactly when user,
  role and type are present, the last component is not empty and the range has at
  most two colons (`ContextString.ParsePrint`; an empty type in
  `ContextString.EmptyTypeLost`).
- For every list of file-context specifications, key, mode and partial flag, the stem
  index leaves the result of a lookup as it is if and only if the specification that
  decides without it passes the test of stems, or gives no label and no earlier one
  that passes would (`FileContexts.StemFilterExactly`, and `StemFilterExactlyAll` for
  all matches). `get_stem_from_spec` does not treat a backslash as special, so an
  escaped character in the first path component makes a specification fail the test
  for keys that it spells (`FileContexts.EscapedStem`).
- Two IPv4 masks rank alike on hosts of both byte orders if and only if the first and
  the last byte in which they differ compare the same way
  (`OrderedContexts.ByteOrdersAgree`; two that do not in
  `OrderedContexts.ByteOrderShows`). Contiguous masks rank by prefix length on both.
- A call of `selinux_status_updated` that returns 0 before any change was handled
  leaves the reader with the page's policy number if and only if that number is what
  it was when the page was opened (`StatusPage.FirstCallIsSilent`; a run with an
  unreported load in `StatusPage.UnreportedLoadExists`).
- `Sha1Update` stays within its buffer if and only if the bytes buffered and the size
  of the data add up to less than 2^32 (`Sha1.UpdateDemand`), and that is what
  `Sha1.Context.Update` asks for.

Where code and comments differ the code is followed: `end_avrule_block` exempts
optional blocks of a base policy, not its global block, from needing a require
section.

## Model

| member | source | states |
|---|---|---|
| `XpermBits.RangeMaskBit` | checkpolicy/policy_define.c:2150-2178 | the shift-built word mask has exactly the bits of the range that fall into that word, for first, middle, last and only words |
| `XpermBits.SetRangeBits` | checkpolicy/policy_define.c:2158-2178 | after the word loop exactly the old bits and the bits low..high are set |
| `XpermBits.Used` | checkpolicy/policy_define.c:2180-2189 | true if and only if some of the 256 bits is set |
| `IoctlXperms.ReadRanges` | checkpolicy/policy_define.c:1908-1958 | refuses exactly the lists with a range whose high is below its low, and keeps the rest in order |
| `IoctlXperms.InsertRange` | checkpolicy/policy_define.c:1847-1876 | inserting keeps the list sorted by low and adds exactly the new range |
| `IoctlXperms.SortRanges` | checkpolicy/policy_define.c:1840-1886 | the list becomes sorted and is a permutation of the input |
| `IoctlXperms.FuseKeepsListed` | checkpolicy/policy_define.c:1893-1902 | fusing two neighbours that touch or overlap keeps the set of listed commands |
| `IoctlXperms.MergeRanges` | checkpolicy/policy_define.c:1888-1906 | the merged list is ascending and strictly separated and lists the same commands |
| `IoctlXperms.FlipRanges` | checkpolicy/policy_define.c:1961-2007 | the 16-bit rewriting leaves exactly the gaps before, between and after the ranges, or the one wrapped range for a lone initial range |
| `IoctlXperms.GapsAreComplement` | checkpolicy/policy_define.c:1961-2007 | when the last high is below 0xffff and the list is not one initial range, the gaps are ascending, separated and list exactly the other commands |
| `IoctlXperms.LastGapWraps` | checkpolicy/policy_define.c:1984-1992 | when the last high is 0xffff the wrapped last gap lists 0xffff, which the input listed too |
| `IoctlXperms.ComplementableMerged` | checkpolicy/policy_define.c:1974-1992 | on merged lists the condition on the listed commands is the guard of the failing branches |
| `IoctlXperms.TildeFailures` | checkpolicy/policy_define.c:1961-2007 | the rules for `~{ 0x0-0x5 }` do not permit 0xffff, and those for `~{ 0x10-0xffff }` do |
| `IoctlXperms.CompleteDrivers` | checkpolicy/policy_define.c:2239-2279 | a driver's bit is set if and only if some range contains all its 256 functions |
| `IoctlXperms.PartialDrivers` | checkpolicy/policy_define.c:2200-2237 | a driver's bit is set if and only if it is an end driver of some range and not wholly covered |
| `IoctlXperms.ClipIsIntersection` | checkpolicy/policy_define.c:2293-2314 | the clipped function range is the intersection of the range with the driver |
| `IoctlXperms.FunctionBits` | checkpolicy/policy_define.c:2281-2329 | the function bitmap of a driver holds exactly the functions that ranges ending in that driver cover |
| `IoctlXperms.NextBit` | checkpolicy/policy_define.c:2331-2342 | finds the lowest set bit from a position on and clears just that bit |
| `IoctlXperms.PartialRules` | checkpolicy/policy_define.c:2430-2456 | one rule per partial driver, each with exactly its functions, and no other rule |
| `IoctlXperms.SplitIsTidy` | checkpolicy/policy_define.c:2393-2461 | no driver is both whole and partial and no driver has two function rules |
| `IoctlXperms.SplitMeaning` | checkpolicy/policy_define.c:2393-2461 | whole-driver and per-driver rules permit a command if and only if some range contains it, and every touched driver that is not whole has its rule |
| `IoctlXperms.EmitRules` | checkpolicy/policy_define.c:2393-2461 | the emitted rules are tidy and, for ascending ranges, permit exactly the listed commands |
| `IoctlXperms.FlippedMeaning` | checkpolicy/policy_define.c:1961-2035 | the rules of a flipped list permit exactly the unlisted commands if and only if the list is complementable |
| `IoctlXperms.DefineIoctl` | checkpolicy/policy_define.c:2009-2035 | meaning preserved for every non-empty list: listed commands without `~`, unlisted ones with `~` if and only if complementable, and otherwise the command that comes out wrong |
| `IoctlXperms.CompileStatement` | checkpolicy/policy_define.c:1908-2035 | the same from the items of one statement, with its error cases; for 16-bit numbers in terms of the numbers written: refused if and only if there is none or a span descends, and the commands permitted are those named, or with `~` those not named, with the same exact condition |
| `Expressions.ParsePostfix` | checkpolicy/policy_define.c:3941-3996 | reading the postfix form of a tree on a stack pushes exactly that tree, if and only if the stack has room for all its slots |
| `Expressions.ParseSound` | checkpolicy/policy_define.c:3941-3996 | whatever is read, the trees on the stack spell the tokens read |
| `Expressions.PostfixIsInjective` | checkpolicy/policy_define.c:4029-4102 | a token list is the postfix form of at most one tree |
| `Expressions.AcceptedMeansTree` | checkpolicy/policy_define.c:3541-3578 | accepted if and only if the list is the postfix form of one legal tree that fits in the stack, and that tree is unique |
| `Expressions.CheckDepth` | checkpolicy/policy_define.c:3957-3996 | the depth counter accepts exactly the lists that encode a tree of at most that many slots with legal leaves |
| `Expressions.CheckConstraint` | checkpolicy/policy_define.c:3541-3578 | the same for constraints: accepted if and only if the tokens are the postfix form of a tree of at most five slots and, but for a validatetrans rule, no leaf is about the old or new object |
| `Expressions.LinkNot` | checkpolicy/policy_define.c:4056-4070 | appending the operator cell in place makes the list of the operand's tokens and the operator, or fails for an empty operand |
| `Expressions.LinkBinary` | checkpolicy/policy_define.c:4071-4102 | the same for two operand lists: first, second, operator |
| `Expressions.BuildCells` | checkpolicy/policy_define.c:4029-4102 | the cells linked for a whole tree, from the leaves up, spell its postfix form |
| `Expressions.BuildIsPostfix` | checkpolicy/policy_define.c:3783-3855 | building bottom up gives the postfix form of the tree |
| `Expressions.NotKeepsAcceptance` | checkpolicy/policy_define.c:3947-3954 | a list is accepted if and only if its negation is |
| `Expressions.Evaluate` | libsepol/src/conditional.c:211-273 | on every accepted list the stack evaluator returns the value of its tree, and -1 exactly when it runs out of operands or stack or has no tokens |
| `Expressions.DefineConditional` | checkpolicy/policy_define.c:3930-3996 | the node kept, inverted or not, has the same rules in force under every assignment, and it is refused exactly when it has rules and no tree that fits |
| `OrderedContexts.MemCmpAbove` | checkpolicy/policy_define.c:5505-5507 | byte-wise comparison is comparison of the masks as numbers |
| `OrderedContexts.WordIsBinary` | checkpolicy/policy_define.c:5376-5378 | the host integer of a mask is the number that its bits spell, with the bytes turned round on a little-endian host |
| `OrderedContexts.LongerIsGreater4` | checkpolicy/policy_define.c:5376-5378 | for contiguous IPv4 masks the host integers order as the prefix lengths, on either byte order |
| `OrderedContexts.LongerIsGreater6` | checkpolicy/policy_define.c:5505-5507 | the same for IPv6 masks |
| `OrderedContexts.WordComparison` | checkpolicy/policy_define.c:5376-5378 | a big-endian host decides by the first differing byte of two masks and a little-endian one by the last |
| `OrderedContexts.ByteOrdersAgree` | checkpolicy/policy_define.c:5376-5378 | any two masks that differ rank alike on both hosts if and only if those two bytes compare the same way |
| `OrderedContexts.ByteOrderShows` | checkpolicy/policy_define.c:5376-5378 | two masks that rank one way on a big-endian host and the other way on a little-endian one |
| `OrderedContexts.NodeList.Define` | checkpolicy/policy_define.c:5373-5386 | after any declarations the list has each once, from the highest mask down, equal masks in declaration order |
| `OrderedContexts.InsertKeepsOrder` | checkpolicy/policy_define.c:5502-5515 | inserting before the first lower mask keeps that order |
| `OrderedContexts.FirstIsLongest` | checkpolicy/policy_define.c:5371-5386 | among contiguous masks the first entry that covers an address has the longest prefix, and of equal ones the earliest declared |
| `OrderedContexts.GenfsList.Define` | checkpolicy/policy_define.c:5677-5699 | refused if and only if any entry clashes, despite the early exit; otherwise placed behind all names as long, keeping the list tidy |
| `OrderedContexts.DefineAllGenfs` | checkpolicy/policy_define.c:5570-5699 | a sequence of statements is accepted if and only if no two clash, and the list then holds all of them, longer names first |
| `OrderedContexts.FirstGenfsIsLongest` | checkpolicy/policy_define.c:5677-5699 | the first entry that applies to a path is the only one of the greatest length |
| `OrderedContexts.ClashMeans` | checkpolicy/policy_define.c:5677-5690 | two entries clash if and only if they have one name and both apply to some path of some class |
| `Scopes.Step1KeepsInv` | checkpolicy/module_compiler.c:1305-1371 | on well-nested events the first pass keeps frames on the newest declaration of distinct blocks, and only extends the chain |
| `Scopes.FirstPassAsserts` | checkpolicy/module_compiler.c:1305-1371 | no assert of the first pass can fail |
| `Scopes.PoliciesNest` | checkpolicy/policy_parse.y:977-990 | whatever statements the grammar nests, with or without else branches, the events are well nested |
| `Scopes.NumbersInOrder` | checkpolicy/module_compiler.c:118-131 | declarations get the numbers 2, 3, ... in the order of the events that open them |
| `Scopes.RequirementsRecorded` | checkpolicy/module_compiler.c:716-734 | after the first pass a declaration requires exactly the symbols that some event requires while that declaration is the innermost one open, and the stack is where the events alone put it |
| `Scopes.RefusedMeans` | checkpolicy/module_compiler.c:1422-1450 | the first pass refuses an event if and only if it is a requirement in an else branch, or the end of a main branch in which no event required anything, outside the optionals of a base policy |
| `Scopes.PassesUnlessRefused` | checkpolicy/module_compiler.c:1305-1450 | a well-nested input passes if and only if none of its events is refused so |
| `Scopes.SecondPass` | checkpolicy/module_compiler.c:1317-1335 | replaying the events, the second pass fails no assert and refuses nothing and stands at the first pass's declaration after every prefix |
| `Scopes.SameDeclaration` | checkpolicy/module_compiler.c:1343-1371 | at each begin and else both passes are on one declaration, whose number counts those opened before |
| `Scopes.RequirementsInherited` | checkpolicy/module_compiler.c:1373-1431 | a closed branch ends up requiring what was recorded for it and for every branch around it, and nothing else |
| `Scopes.EventsInherited` | checkpolicy/module_compiler.c:1373-1431 | from the events alone: after the second pass a closed branch requires x if and only if some event of the input requires x inside it or inside a declaration around it |
| `Scopes.EventsNumber` | checkpolicy/module_compiler.c:1305-1371 | from the events alone: the declaration that an event opens is found under the number that counts those opened before |
| `Scopes.Compiler.DefinePolicy` | checkpolicy/module_compiler.c:118-131 | the stack is reset to the global block with number 2 next, keeping the chain of blocks |
| `Scopes.Compiler.BeginOptional` | checkpolicy/module_compiler.c:1305-1335 | creates or selects the next block and pushes its scope |
| `Scopes.Compiler.BeginElse` | checkpolicy/module_compiler.c:1344-1371 | creates or selects the second declaration of the block and switches the scope to it |
| `Scopes.Compiler.RequireSymbol` | checkpolicy/module_compiler.c:716-734 | in the first pass adds exactly the one requirement to the declaration on top of the stack, is refused in an else branch, and changes nothing in the second pass |
| `Scopes.Compiler.CopyRequirements` | checkpolicy/module_compiler.c:1373-1416 | merging in place from the inside out adds exactly what the frames required before |
| `Scopes.Compiler.EndBlock` | checkpolicy/module_compiler.c:1422-1450 | the require check of the first pass and the inheritance of the second |
| `Scopes.Compile` | checkpolicy/module_compiler.c:1305-1494 | both passes over any well-nested input, no assert failing: accepted if and only if no event is refused by what the events before it say; then every closed branch requires exactly what events require inside it or around it, and declarations are numbered in the order they are opened |
| `Avc.Everywhere` | libselinux/src/avc.c:301-408 | every node of the pool is free or on the chain of the slot its key hashes to |
| `Avc.SweepOrderDistinct` | libselinux/src/avc.c:307-325 | one sweep visits no node twice |
| `Avc.Cache.Search` | libselinux/src/avc.c:377-408 | finds the newest entry for a key, and misses if and only if no node of the whole pool has the key |
| `Avc.Cache.SweepChain` | libselinux/src/avc.c:310-321 | takes exactly the marks of the nodes before the first unmarked one of a chain |
| `Avc.Cache.Sweep` | libselinux/src/avc.c:307-325 | the same over all slots in cyclic order from the hint, whatever the hint |
| `Avc.Cache.Choose` | libselinux/src/avc.c:301-325 | two sweeps pick the first unmarked node in cyclic order, or the first of all after clearing every mark; nothing if and only if all chains are empty |
| `Avc.Cache.Detach` | libselinux/src/avc.c:330-337 | unlinking keeps every other chain and sets the hint to the victim's slot |
| `Avc.Cache.Reclaim` | libselinux/src/avc.c:301-337 | fails if and only if there is nothing to reclaim; otherwise the victim is as chosen and the passed-over nodes are left unmarked |
| `Avc.Cache.Claim` | libselinux/src/avc.c:344-375 | takes the first free node or the victim, clears and pushes it, fails if and only if the pool has no node, and touches no other entry |
| `Avc.Cache.Insert` | libselinux/src/avc.c:467-493 | refuses exactly answers older than the latest notification or an empty pool; otherwise the entry carries the answer for its key |
| `Avc.Cache.Lookup` | libselinux/src/avc.c:425-446 | gives the newest entry for the key if and only if it has decided all that is requested, and marks it |
| `Avc.Cache.Obtain` | libselinux/src/avc.c:771-799 | the server is asked if and only if neither the kept reference nor the newest entry for the key has decided the request; a hit changes no entry, and a miss fails exactly when the server gives no usable answer or there is no node |
| `Avc.Cache.FlushSlot` | libselinux/src/avc.c:512-523 | all nodes of a slot go to the free list with cleared entries, other chains stay |
| `Avc.Cache.Reset` | libselinux/src/avc.c:500-526 | after a flush every entry is cleared, every node free and no earlier answer is in use |
| `Avc.Cache.SsReset` | libselinux/src/avc.c:1121-1133 | flush, then the latest notification becomes the maximum |
| `Avc.Cache.ProcessSetenforce` | libselinux/src/avc_internal.c:56-75 | entering enforcing mode flushes what was widened; a pinned mode does not change |
| `Avc.Cache.ProcessPolicyload` | libselinux/src/avc_internal.c:78-96 | a policy load flushes and raises the latest notification |
| `Avc.Cache.Decide` | libselinux/src/avc.c:800-815 | says exactly when it grants and what it widens; grants in enforcing mode only what the entry's answer covers, denies only what a binding answer does not allow, widens only where nothing binds |
| `Avc.Cache.HasPermNoaudit` | libselinux/src/avc.c:744-822 | the exact verdict, on a hit from that entry and on a miss from the server's reply; a grant in enforcing mode rests on an answer for that very key since the last flush, not older than the latest notification, even through a kept reference; a refusal rests on one too, or the server was asked and gave nothing to go by |
| `Avc.Cache.ComputeCreate` | libselinux/src/avc.c:839-887 | the identifier returned was computed for that key since the last flush: the saved one if the newest entry for the key has one, else the reply, which is then saved in that entry, new or found, with all other saved identifiers kept |
| `Avc.CreateAgain` | libselinux/src/avc.c:839-887 | after any events that flush nothing, make no other entry for the key and for whose misses the pool has room, a second creation for the key returns the identifier of the first, whatever the server would now reply |
| `Avc.Cache.constructor` | libselinux/src/avc.c:172-203 | the cache starts with all nodes free in the given mode |
| `Avc.Replay` | libselinux/src/avc.c:744-822 | over every run of queries, creations, mode changes and policy loads, with references kept across them, each verdict is justified by the answers that the server was asked for and gave since the last flush |
| `StatusPage.StepKeepsInv` | libselinux/src/sestatus.c:61-143 | every step of reader or writer keeps: what was loaded is the page's own unless the sequence number has moved on |
| `StatusPage.PublishedWereHeld` | libselinux/src/sestatus.c:124-131 | what counts as published was complete on the page between two updates |
| `StatusPage.AcceptIsAtomic` | libselinux/src/sestatus.c:124-131 | under every interleaving the accepted pair is the whole pair on the page at the last read of the number, and newer than the one handled before |
| `StatusPage.OneMeansPublished` | libselinux/src/sestatus.c:133-143 | after a return of 1 the policy number, and the mode unless pinned, equal one pair that was complete on the page under a newer number than the one before |
| `StatusPage.HandleReports` | libselinux/src/sestatus.c:133-143 | a change is reported with 1 if and only if the mode is unchanged or its handler succeeds and the policy number is unchanged or its handler succeeds; else -1 with both numbers as before |
| `StatusPage.ChangeIsReported` | libselinux/src/sestatus.c:124-143 | in every run, each change handled is the pair complete on the page at the last read of the number, only writes lie in between, and the call reports it so: with 1 the reader has that pair and number |
| `StatusPage.QuietCallReports` | libselinux/src/sestatus.c:94-143 | a call that the kernel leaves alone handles a change if and only if an earlier call saw another number, and then reports the page's pair; otherwise it returns 0; so a change whose handler failed is found again |
| `StatusPage.ZeroMeansUnchanged` | libselinux/src/sestatus.c:118-122 | a later return of 0 means no update began since the one handled last, and the reader's state is the page's if that was handled with success |
| `StatusPage.FirstCallIsSilent` | libselinux/src/sestatus.c:111-122 | in every run a call that returns 0 before any change was handled, as the first call always does, leaves the reader with the page's policy number if and only if that is still what it was when the page was opened |
| `StatusPage.UnreportedLoadExists` | libselinux/src/sestatus.c:111-122 | a run in which a policy loaded between opening and the first call goes unreported |
| `StatusPage.SnapshotIsAtomic` | libselinux/src/sestatus.c:152-178 | the one-field calls, and opening, return what the page held at their last read |
| `StatusPage.QuietCallEnds` | libselinux/src/sestatus.c:124-131 | while the writer rests every retry loop ends within six reads with the page's pair |
| `StatusPage.TornPairExists` | libselinux/src/sestatus.c:124-131 | a run in which the two loads alone give a pair that was never published |
| `RestoreconWalk.WalkIsDue` | libselinux/src/selinux_restorecon.c:892-1010 | the sequential walk relabels exactly the entries whose own verdict is to relabel and that lie below no entry to skip |
| `RestoreconWalk.DueMeans` | libselinux/src/selinux_restorecon.c:898-975 | from the flags alone: those are the entries on a walked device, no second visits, that are neither themselves nor below an unreadable entry or a directory excluded, unmatched on sysfs or with a matching digest, and that do not end the walk |
| `RestoreconWalk.ReadLoop` | libselinux/src/selinux_restorecon.c:892-1010 | the loop under the lock, with its rules in the order of the source, takes the steps of the walk, records digests and notes the errors |
| `RestoreconWalk.RunKeepsInv` | libselinux/src/selinux_restorecon.c:876-1026 | in every interleaving the entries handed out and those left make up the sequential walk, every started entry has one result or one thread, and no failure is lost |
| `RestoreconWalk.NothingTwice` | libselinux/src/selinux_restorecon.c:876-1026 | entries are handed out in walk order, each once, and no two threads hold the same |
| `RestoreconWalk.CompleteRun` | libselinux/src/selinux_restorecon.c:876-1026 | a run that ends without abort has relabelled exactly the entries due |
| `RestoreconWalk.StartedAreClear` | libselinux/src/selinux_restorecon.c:898-985 | in every run no entry is started that is, or lies below, one left out by the flags, nor one on another device |
| `RestoreconWalk.RunTells` | libselinux/src/selinux_restorecon.c:876-1026 | in every run the walk is aborted if and only if it came past a cycle or a path too long, or a result failed and failures are to end it; else failures are counted, or the error is set, exactly when there are any |
| `RestoreconWalk.ClearAreRelabelled` | libselinux/src/selinux_restorecon.c:876-1026 | a run that ends without abort has a result for exactly the entries that the flags leave in |
| `RestoreconWalk.AtMostOneLateStart` | libselinux/src/selinux_restorecon.c:985-992 | a thread starts at most one entry after an abort, and a thread already at work starts none |
| `RestoreconWalk.RunsAreBounded` | libselinux/src/selinux_restorecon.c:876-1026 | no run takes more steps than there are threads and entries of the walk |
| `RestoreconWalk.StuckMeansFinal` | libselinux/src/selinux_restorecon.c:876-1026 | a run that cannot go on has all its threads done |
| `RestoreconWalk.DigestsMeanSuccess` | libselinux/src/selinux_restorecon.c:1288-1312 | digests are written if and only if the walk was complete and every result was 0, for exactly the directories walked, in order |
| `RestoreconWalk.DigestsOfClearDirectories` | libselinux/src/selinux_restorecon.c:949-972 | the digests written are those of the directories that the flags leave in and whose digest is known and differs, each once and in order |
| `FileSpecs.Locate` | libselinux/src/selinux_restorecon.c:470-508 | the early break of the chain scan hides no association |
| `FileSpecs.Table.Add` | libselinux/src/selinux_restorecon.c:453-538 | the ordered hash chains refine one add on a map, with its return value |
| `FileSpecs.FirstContextWins` | libselinux/src/selinux_restorecon.c:448-452 | over any adds an association is never lost and its context stays while the stored path names the inode |
| `FileSpecs.FirstAddWins` | libselinux/src/selinux_restorecon.c:448-452 | the first add of an inode fixes the context in the same way |
| `FileSpecs.ResultMeans` | libselinux/src/selinux_restorecon.c:453-538 | 0 if and only if the inode had no association, -1 if and only if conflicts are errors and another context is held by a path that still names the inode, else 1; with the context and path that remain |
| `FileSpecs.ZeroMeansFirst` | libselinux/src/selinux_restorecon.c:453-538 | in any history the result is 0 exactly for the first add of each inode |
| `FileSpecs.ChangeMeansStale` | libselinux/src/selinux_restorecon.c:472-500 | a context changes if and only if an add for that inode finds the stored path stale and brings another context |
| `PathKeys.CleanIsCanonical` | libselinux/src/label_file.c:934-968 | collapsing slashes and dropping a trailing one gives the path's components joined by single slashes |
| `PathKeys.Clean` | libselinux/src/label_file.c:934-968 | the copying loop yields that spelling for every key but the empty one |
| `FileContexts.HasMetaChars` | libselinux/src/label_file.h:157-196 | finds the first meta character with an even number of backslashes before it, if there is one |
| `FileContexts.SplitEnds` | libselinux/src/label_file.h:211-219 | patterns fill the front in order, exact paths the back in reverse |
| `FileContexts.TurnRound` | libselinux/src/label_file.h:226-236 | swapping from both ends reverses that stretch and nothing else |
| `FileContexts.SortSpecs` | libselinux/src/label_file.h:199-242 | the result is the stable partition: patterns in load order, then exact paths in load order |
| `FileContexts.ScanBack` | libselinux/src/label_file.c:983-1029 | the loop reports what the backward scan reports, for one match or all |
| `FileContexts.ScanAllMeans` | libselinux/src/label_file.c:983-1029 | with a match count, exactly the matches behind which nothing ends the scan |
| `FileContexts.ScanOneIsFirst` | libselinux/src/label_file.c:1044-1056 | ordinary lookup is the first of all matches |
| `FileContexts.OrdinaryLookup` | libselinux/src/label_file.c:983-1029 | in load order: the last exact path that has a say, else the last pattern; `<<none>>` and errors give no label |
| `FileContexts.WinnerOrNothing` | libselinux/src/label_file.c:983-1029 | there is such a winner, or nothing has a say and there is no label |
| `FileContexts.StemsMeet` | libselinux/src/label_file.c:31-38 | the stem of a key equals that of a specification if and only if the key lies below it |
| `FileContexts.FindStem` | libselinux/src/label_file.h:264-276 | finds a stem if and only if it is stored |
| `FileContexts.StemOfSpec` | libselinux/src/label_file.h:246-259 | the literal text before the second slash, none if it has a meta character |
| `FileContexts.SavedData.FindStemFromSpec` | libselinux/src/label_file.h:305-329 | stems stay distinct and a stem is stored at most once |
| `FileContexts.StemFilterHarmless` | libselinux/src/label_file.c:983-998 | if every expression keeps to its stem, filtering by stem changes no lookup, of one or all matches |
| `FileContexts.StemFilterExactly` | libselinux/src/label_file.c:983-998 | for every list, key, mode and partial flag filtering leaves the lookup as it is if and only if the deciding specification passes, or gives no label and no earlier one that passes would |
| `FileContexts.StemFilterExactlyAll` | libselinux/src/label_file.c:983-998 | the exact condition for all matches |
| `FileContexts.StemFilterExact` | libselinux/src/label_file.c:983-998 | for one specification filtering is harmless for all keys if and only if no key outside the stem would be labelled |
| `FileContexts.EscapedStem` | libselinux/src/label_file.h:254-257 | an expression with an escaped character in its stem that the filter drops for a key it spells |
| `FileContexts.SavedData.Load` | libselinux/src/label_file.h:473-535 | a line is appended with its stem number and with the meta flag set if and only if it has a live meta character |
| `FileContexts.SavedData.Sort` | libselinux/src/label_file.h:199-242 | sorting keeps every specification's stem valid |
| `FileContexts.SavedData.LookupAll` | libselinux/src/label_file.c:901-1041 | the key is cleaned, its stem found and the scan run; no result for no specifications or an empty key |
| `FileContexts.LabelOf` | libselinux/src/label_file.c:901-1056 | from the lines of a file to the label, for ordinary and partial lookups: of the lines that have a say on the cleaned path and the file type, an exact path decides before patterns and else the last line; the label is its context if its expression matches and it is not `<<none>>`; no label if no line has a say |
| `FileContexts.SayMeans` | libselinux/src/label_file.c:983-1029 | a line has a say if and only if the path lies below its stem or partial matches are asked for, it is for that type of file or either type is open, and its expression does not miss |
| `FileContexts.FormatIsKind` | libselinux/src/label_file.c:977 | the type is what the bits 0xf000 of the mode leave |
| `Sha1.PaddingIsMinimal` | libselinux/src/sha1.c:205-209 | the number of zero bytes is the least that completes a block, as section 5.1.1 of FIPS 180-4 asks |
| `Sha1.PadEndsInLength` | libselinux/src/sha1.c:204-213 | the last eight bytes of the padded message are the base-256 digits of its length in bits, most significant first |
| `Sha1.RotationByOne` | libselinux/src/sha1.c:43 | a rotation by one moves the top bit to the bottom and the others up |
| `Sha1.Rotations` | libselinux/src/sha1.c:43 | a rotation by five is five rotations by one, and one by thirty is undone by two |
| `Sha1.ChoiceMeaning` | libselinux/src/sha1.c:53-54 | rounds 0 to 19 take the bit of y where x has one and that of z elsewhere |
| `Sha1.MajorityMeaning` | libselinux/src/sha1.c:56 | rounds 40 to 59 take the common bit of x and y where they agree and that of z elsewhere |
| `Sha1.ParityMeaning` | libselinux/src/sha1.c:55-57 | the other rounds give nothing for nothing, and complementing any one word complements the result |
| `Sha1.SumCounts` | libselinux/src/sha1.c:113-117 | words are added modulo 2^32 |
| `Sha1.ConstantsAreRoots` | libselinux/src/sha1.c:53-57 | the round constants are the integer parts of 2^30 times the square roots of 2, 3, 5 and 10 |
| `Sha1.InitialBytes` | libselinux/src/sha1.c:136-140 | the initial words, read least significant byte first, are the three arithmetic runs 01 to ef, fe to 10 and f0 to c3 |
| `Sha1.ChainBytesSpell` | libselinux/src/sha1.c:216-219 | the twenty digest bytes, read most significant first, are the words of the state |
| `Sha1.MacroFunctionIsRoundFunction` | libselinux/src/sha1.c:51-57 | the rewritten choice and majority are those of section 4.1.1 of FIPS 180-4 |
| `Sha1.SwapWordMakesBigEndian` | libselinux/src/sha1.c:45-46 | the byte swap of a little-endian load gives the big-endian word |
| `Sha1.NextScheduleWord` | libselinux/src/sha1.c:47-48 | the 16-word circular workspace yields the 80-word message schedule |
| `Sha1.MacroRoundIsRound` | libselinux/src/sha1.c:51-57 | one macro with its rotated arguments is one round of section 6.1.2 of FIPS 180-4 |
| `Sha1.Transform` | libselinux/src/sha1.c:65-118 | the 80 unrolled rounds equal the compression of section 6.1.2 of FIPS 180-4 for every block and state |
| `Sha1.AbsorbAppend` | libselinux/src/sha1.c:151-186 | hashing block by block does not depend on where the input is cut |
| `Sha1.AddToCounters` | libselinux/src/sha1.c:163-167 | the two 32-bit counters with carry hold the bit count modulo 2^64 |
| `Sha1.Context.AbsorbBlocks` | libselinux/src/sha1.c:171-175 | the loop hashes all whole blocks of the input without wrapping |
| `Sha1.Context.Update` | libselinux/src/sha1.c:151-186 | the context stands for the message so far plus the new data, for every size that the source's buffer takes |
| `Sha1.UpdateDemand` | libselinux/src/sha1.c:169-185 | the short branch stays within the buffer if and only if the 32-bit sum does not wrap |
| `Sha1.Context.Finalise` | libselinux/src/sha1.c:194-220 | the padding loop ends and the digest is the FIPS 180-4 hash of the message: its bytes, four by four and most significant first, are the five words of the final state |
| `Sha1.HashChunks` | libselinux/src/sha1.c:129-220 | any sequence of updates yields the hash of the concatenation, spelled in the same way |
| `ContextString.Check` | libselinux/src/context.c:40-60 | accepts exactly strings without control characters, with blanks only behind the third colon and two to five colons |
| `ContextString.JoinSplit` | libselinux/src/context.c:62-75 | the components joined give the string, less a final colon that separates nothing |
| `ContextString.PrintParse` | libselinux/src/context.c:22-141 | parsing then printing is the identity if and only if there is no such colon |
| `ContextString.EmptyRangeLost` | libselinux/src/context.c:22-141 | every accepted string with an empty range comes back without its last colon |
| `ContextString.DanglingLost` | libselinux/src/context.c:22-141 | `u:r:t:` is accepted and comes back as `u:r:t` |
| `ContextString.ParsedIsWellformed` | libselinux/src/context.c:22-81 | every parsed component would be accepted by its setter |
| `ContextString.ParsePrint` | libselinux/src/context.c:117-166 | printing then parsing recovers the components if and only if the context is restorable |
| `ContextString.EmptyTypeLost` | libselinux/src/context.c:117-166 | a context with an empty type and no range, which the setters accept, is not recovered |
| `ContextString.Context.New` | libselinux/src/context.c:22-81 | the scanning loops build exactly the parsed components, or nothing for a refused string |
| `ContextString.Context.Str` | libselinux/src/context.c:117-141 | the string of the components that are present |
| `ContextString.Context.SetComp` | libselinux/src/context.c:145-166 | refuses exactly strings with a forbidden character and otherwise changes one component |

## Left out

- libsepol symbol tables, type sets, ebitmaps, conditional normalisation, and the yacc grammar: requirements and rules are plain values and events are given directly.
- Regular-expression matching, fts, lstat, xattrs and the security server: parameters, finite streams or replies.
- Allocation failure, logging, audit text, statistics and reset callbacks: branches without properties.
- The range lists of the ioctl compiler are values here, not relinked cells; the order and contents of every list are modelled, sharing of cells is not.
- Cache, in-place updates through two threads: runs are sequential; `avc_ss_reset` lets the lock go between its two halves.
- Grant, revoke and audit events of the cache (`avc_control`), `avc_compute_member` and the SID table.
- The netlink fallback of the status page, wrap-around of its sequence number and weak memory order: one total order of steps.
- Key substitution (`selabel_sub_key`), loading of compiled file contexts, digests of partial matches and `selabel_cmp`.
- The chain of genfs file system types: only the list of one type is modelled.
- Conditional blocks on the scope stack and the queries over it: only optional blocks, which carry declarations.
- Sha1.Context.Update: asks that the bytes buffered and the new size add up to less than 2^32, because beyond that the source's own sum wraps and its copy leaves the buffer (`Sha1.UpdateDemand`).
- Sha1.HashChunks: asks the same of each chunk, given what is buffered before it.
- Scopes.Compiler.RequireSymbol: leaves out the refusals of the symbol table, such as a duplicate or a type used as an attribute.
- Security identifiers are addresses as unbounded numbers and access vectors are sets of permission numbers: width plays no part in the properties.
