# uACPI core model

This project models the core of uACPI, the ACPI runtime under `src/kern/acpi`, and proves
properties of it. The sources are modelled as written; a build that defines
`UACPI_BAREBONES_MODE` compiles most of them out. `dafny verify dfyconfig.toml` checks
everything.

The modules, by area:

- **Bit-field I/O.** `Bits` gives bytes a meaning as bits; `BitCopy`, `BufferField`,
  `FieldUnit` and `FieldList` prove the byte loops of io.c, their aligned fast paths and
  the field layout of interpreter.c against a map from bit number to bit.
- **Locks.** `SyncLevels` runs any number of threads through the AML Acquire and Release
  opcodes, and `SyncDepths` counts the acquires along its runs; `InlineArray` and
  `HeldMutexes` are the storage behind them. `GlobalLock` interleaves the operating system,
  its interrupt and firmware on the lock word. `RwLock` and `RecursiveLock` are the two
  native locks.
- **Namespace.** `NamespaceTree` describes the linked nodes by a value; `NamespaceWalk`
  and `NamespaceTeardown` prove the two stackless walks against it, and `NamespaceTour`
  says which calls the walk makes without reference to a walk. `NamespacePath` has the path
  printer and the path resolver, `NameString` the resolver for encoded names.
- **General-purpose events.** `GpeMask` is the step system of one register with interrupts
  and work items in flight; `GpeHandlers` has the calls that change users and handlers.
- **Operation regions.** `OpRegion` has the tree walk that binds regions to handlers,
  `RegionWalk` proves it to be what the callback does along the general namespace walk, and
  `RegionList` has the list operations on pointers.
- **Resource templates.** `ResourceTemplate` has the iterator and the concatenation opcode.
  `ResourceCodec` gives instruction tables a meaning in both directions and a check on a
  table that makes it reversible, `ResourceInterpreter` has the two loops, `ResourceTables`
  the tables, `ResourceExtents` how far they reach, `ResourceFields` what every field of a
  native structure holds, `ResourceConvert` the round trip of one descriptor,
  `ResourceRoundTrip` that of a template, and `ResourceSizes` compares the sizing passes with
  the bytes the conversions touch.

Where code and documentation disagree, or the code falls short of the obvious claim, the
model follows the code and says exactly when the claim holds:

- Two name decoders (`NameString.DecodersAgree`): they agree except on a bare NullName and
  on a MultiNamePrefix with one segment that only an outer scope has
  (`BareNullNameDiffers`, `LoneMultiNameDiffers`).
- A mask call drops the result of its register access. The enable bit stays clear until an
  unmask exactly if that access worked or the bit was clear already
  (`GpeMask.MaskedStaysDisabled`); otherwise the bit can even go and come back while masked
  (`GpeMask.MaskedBitComesBack`).
- Installing and removing a native handler gives the user count back exactly if the two
  register accesses behind the last user worked (`GpeHandlers.RoundTrip`); otherwise a user
  can be counted twice (`FailedAccessAddsAUser`).
- Descriptors whose numbers and source string do not end where the descriptor ends change
  length when converted and converted back (`ResourceConvert.LengthReturns`,
  `TrailingByteIsLost`).
- An extended interrupt without numbers has one byte copied all the same. With a source
  string it lands on the string's first character; with an index alone it lies behind the
  structure, on the first byte of the next one, and is replaced by that one's type number.
  A filled descriptor comes back exactly if it has neither, or if that character is the
  index, or the index that type number (`ResourceConvert.ReturnsIffIntact`, and for whole
  templates `ResourceRoundTrip.TemplateReturnsIffIntact`; `FirstCharacterIsLost` and
  `IndexIsReplaced` are inputs that do not).
- A wake-capable interrupt that may be written without its flags loses that property
  (`ResourceFields.WakeIsLost`), because only the other three flags are compared.
- The native size of an extended interrupt is too small when it claims more numbers than it
  holds, because the sizing pass subtracts without a comparison; it is enough exactly if
  the numbers exceed the descriptor by at most four bytes, and for an empty list, of which
  one byte is copied, exactly if the descriptor has four bytes or more
  (`ResourceSizes.NativeFits`, `ResourceRoundTrip.ShortListIsAccepted`). The conversion
  reads inside such a descriptor exactly if the numbers are inside (`ResourceSizes.ReadsFit`).
- When a conversion is given up over a source string without terminator, the call succeeds
  with a partial list (`ResourceRoundTrip.NativeFromAml`).
- Resolving a path without a parent follows a null pointer exactly when the search is to go
  upwards for a lone name that the root does not have (`NamespacePath.Resolve`).
- The sync-level discipline confines deadlocks to one level but does not exclude them
  (`SyncLevels.SameLevelCanDeadlock` builds one).
- Uninstalling an address-space handler leaves its regions without any, it does not fall
  back to an outer handler (`OpRegion.UninstalledKeepsInv`).

## Model

| member | source | states |
|---|---|---|
| BitCopy.Copy | src/kern/acpi/io.c:44-89 | for all shifts and lengths the byte loop sets destination bit i to source bit i, zero past the source, changes no other bit of the buffer, and stores only to bytes that hold some of these bits |
| BitCopy.CopiedUnique | src/kern/acpi/io.c:44-89 | that bit description determines the bytes, so two copies that meet it are equal |
| BitCopy.CopyStep | src/kern/acpi/io.c:51-87 | one turn of the loop extends the finished part by the next eight bits |
| BitCopy.StoreChunkBits | src/kern/acpi/io.c:58-78 | a chunk stored across two bytes lands on exactly its bits |
| BufferField.CopyZeroExtended | src/kern/acpi/io.c:105-118 | the bytes past the source become zero, bytes outside the target stay |
| BufferField.BytesAreSpan | src/kern/acpi/io.c:16-33 | copying whole bytes and cutting the last one is the same as copying the bit span |
| BufferField.Read | src/kern/acpi/io.c:91-118 | aligned and misaligned reads both give the field's bits, for every buffer size |
| BufferField.BytesIntoSpan | src/kern/acpi/io.c:136-162 | the aligned write with its restored tail is the same as copying the bit span |
| BufferField.Write | src/kern/acpi/io.c:120-162 | both paths replace exactly the field's bits by the value, cut or zero-extended |
| BufferField.ReadAfterWrite | src/kern/acpi/io.c:91-162 | a written field reads back as the value cut or zero-extended to its length, whichever paths were taken |
| FieldUnit.ReadMisaligned | src/kern/acpi/io.c:374-421 | the chunked loop over access words gives the field's bits, or fails exactly if an access leaves the region |
| FieldUnit.Read | src/kern/acpi/io.c:423-469 | the one-word path and the loop give the same bits and fail in the same cases; a field of no bits costs one access and reads zero |
| FieldUnit.FastReadIsSpan | src/kern/acpi/io.c:437-463 | the one-access path, with its cut tail, is the general bit-span read |
| FieldUnit.PrepareWord | src/kern/acpi/io.c:499-517 | a partly covered word starts from its old content, ones or zeros by update rule; the reserved rule is refused |
| FieldUnit.WriteStep | src/kern/acpi/io.c:484-534 | a stored word holds what it held, by rule, with the field's share replaced |
| FieldUnit.Write | src/kern/acpi/io.c:471-535 | the field's bits become the value, the rest of the stored words follows the update rule, and an error stops after a whole number of words, short of the last one |
| FieldList.CreateFields | src/kern/acpi/interpreter.c:1560-1760 | every named element gets the bits after those before it, with the width of the access type in force, and the fields never overlap |
| FieldList.AccessWidths | src/kern/acpi/interpreter.c:1656-1686 | any, byte and buffer access are one byte wide, word, doubleword and quadword access two, four and eight, and nothing else has a width |
| FieldList.ReadAfterFieldWrite | src/kern/acpi/io.c:374-535 | a field unit reads back what was written, cut or zero-extended to its length, under every rule |
| FieldList.PreserveFrame | src/kern/acpi/io.c:499-517 | Preserve changes no bit outside the field |
| FieldList.FillFrame | src/kern/acpi/io.c:499-517 | the other rules fill exactly the rest of the stored words and change nothing else |
| FieldList.ListFieldsIndependent | src/kern/acpi/interpreter.c:1665-1699 | under Preserve a write to one field of a list, even an interrupted one, never changes what another field reads |
| InlineArray.InlineArray.Push | include/uacpi/internal/dynamic_array.h:28-78 | appends and keeps all elements across growth; fails only without memory and then changes nothing |
| InlineArray.InlineArray.At | include/uacpi/internal/dynamic_array.h:139-148 | finds element i of the one sequence behind inline and heap storage |
| InlineArray.InlineArray.Last | include/uacpi/internal/dynamic_array.h:179-183 | the last element of that sequence, if any |
| InlineArray.InlineArray.Pop | include/uacpi/internal/dynamic_array.h:164-171 | drops the last element |
| InlineArray.InlineArray.RemoveIdx | src/kern/acpi/interpreter.c:122-167 | deletes exactly element i, on either side of the storage split or across it |
| InlineArray.AcrossWithout | src/kern/acpi/interpreter.c:141-166 | closing the inline part, pulling the first heap element over and closing the heap part deletes one element of the sequence |
| HeldMutexes.Search | src/kern/acpi/interpreter.c:211-220 | the backward search finds the last entry for a mutex |
| HeldMutexes.RemoveAndRelease | src/kern/acpi/interpreter.c:174-231 | on the split array and the mutexes the function does what the step system decides: refuse, ignore, undo one nesting, or delete the last entry and free the mutex; `SyncDepths` says which by the acquires outstanding |
| HeldMutexes.PushHeld | src/kern/acpi/interpreter.c:109-120 | the mutex is appended, or nothing changes |
| HeldMutexes.ReleaseMutex | src/kern/acpi/mutex.c:225-236 | one nesting less, or owner, depth and host mutex cleared; at depth zero the depth wraps around |
| SyncLevels.StepKeepsInv | src/kern/acpi/interpreter.c:3488-3577 | every step of every thread keeps the array sorted, bounded by the sync level, without repeats, and in agreement with owner, depth and host mutex |
| SyncLevels.HeldSortedAndBounded | src/kern/acpi/interpreter.c:3488-3577 | in every state of every run the held mutexes are sorted by level, bounded by the sync level and held once each, and who is the owner has the host mutex |
| SyncLevels.HeldByOneThread | src/kern/acpi/mutex.c:186-236 | in every run no mutex one thread holds is in use by another |
| SyncLevels.WaitsUpwards | src/kern/acpi/interpreter.c:3503-3533 | a thread blocked by a waiting thread waits for a level no higher than that one does |
| SyncLevels.CycleHasOneLevel | src/kern/acpi/interpreter.c:3488-3577 | in every run all mutexes of a wait-for cycle have one and the same sync level |
| SyncLevels.NoCycleWithDistinctLevels | src/kern/acpi/interpreter.c:3488-3577 | with pairwise different levels no run reaches a wait-for cycle |
| SyncLevels.SameLevelCanDeadlock | src/kern/acpi/mutex.c:186-223 | two mutexes of the same level can deadlock: a run of ten steps that ends in a cycle |
| SyncDepths.StepCounts | src/kern/acpi/interpreter.c:3488-3577 | every step moves the depth of a mutex and the count of its owner's acquires alike |
| SyncDepths.DepthIsCount | src/kern/acpi/interpreter.c:3488-3577 | in every run the depth of a held mutex is the number of successful acquires that no release has undone, and its holder is the owner |
| SyncDepths.LastReleaseFrees | src/kern/acpi/interpreter.c:174-231 | a release by the owner takes the mutex out of the held array if and only if it is carried out and that number is one; otherwise the mutex stays held, one acquire less deep if the release is carried out |
| GlobalLock.AcquireWordBits | src/kern/acpi/mutex.c:21-41 | acquiring leaves the word owned, pending exactly if it was owned, other bits kept |
| GlobalLock.ReleaseWordBits | src/kern/acpi/mutex.c:43-52 | releasing clears both bits and keeps the others |
| GlobalLock.StepKeepsInv | src/kern/acpi/mutex.c:54-110 | every atomic step of the operating system, its interrupt and firmware keeps the protocol invariant |
| GlobalLock.MutualExclusion | src/kern/acpi/mutex.c:21-110 | in every interleaving at most one side owns the lock, and the owned bit says whether one does |
| GlobalLock.NoLostWakeUp | src/kern/acpi/event.c:1958-1982 | a sleeping operating system is signalled already or has its pending flag set with a notice coming, and no signal outlives its attempt |
| GlobalLock.HelpfulIsEnabled | src/kern/acpi/mutex.c:54-98 | while it sleeps, some enabled step of another side brings the wake-up closer |
| GlobalLock.WakeUpOnlyComesCloser | src/kern/acpi/mutex.c:54-110 | no step of any side moves the wake-up further away |
| GlobalLock.SleeperWakes | src/kern/acpi/mutex.c:54-98 | from every reachable sleeping state at most nine steps wake it, only the last its own |
| GlobalLock.GivesUpAtLast | src/kern/acpi/mutex.c:54-96 | in every run a failed attempt is followed by sleep, and the 65535th since the beginning is the last: it gives up without the lock |
| RwLock.StepKeepsInv | src/kern/acpi/mutex.c:329-366 | every step of every thread keeps the counter and both mutexes in agreement with who is where |
| RwLock.WritersRunAlone | src/kern/acpi/mutex.c:329-366 | in every run, with either mutex refused at any time, a writer is alone, and the counter is the number of readers inside plus one for a waiting first reader |
| RwLock.FreeWhenEmpty | src/kern/acpi/mutex.c:329-366 | in every run, once all threads are outside neither mutex is taken and the counter is zero |
| RecursiveLock.StepKeepsInv | src/kern/acpi/mutex.c:267-292 | every step keeps owner and depth in agreement with the holder |
| RecursiveLock.OwnerIsHolder | src/kern/acpi/mutex.c:267-292 | in every run a thread reads its own id as owner exactly while it holds the lock, at the depth of its acquires |
| RecursiveLock.HeldByOneThread | src/kern/acpi/mutex.c:267-292 | in every run no two threads hold the lock |
| NamespaceWalk.ListCallsLegal | src/kern/acpi/namespace.c:773-873 | every call of the recursive walk is of a type in the mask, within the maximum depth and at the end of a path of nodes that each let the walk in: a node on it whose type is in the mask is not skipped and, in a walk that calls on the way down, was called before and answered Continue |
| NamespaceWalk.DoForEachChild | src/kern/acpi/namespace.c:773-873 | the stackless walk ends and makes exactly the calls of the recursive walk, in order and with the same depths |
| NamespaceTour.WalkMakesLegalCalls | src/kern/acpi/namespace.c:773-873 | on the tour around the whole tree, down and up at every node, the walk makes exactly the calls that are legal after those before, in the order of the tour and up to the first that stops it; so no call is missing |
| NamespaceTour.ListMakes | src/kern/acpi/namespace.c:773-873 | the same for any list of trees whose nodes are distinct, at any depth and after any earlier calls |
| NamespaceTour.MadeIffLegal | src/kern/acpi/namespace.c:773-873 | each call of the tour is made if and only if the walk has not stopped and it is legal |
| NamespaceTour.ChildrenOnce | src/kern/acpi/namespace.c:773-873 | linked nodes are in one place of the tree each |
| NamespaceTeardown.Uninstall | src/kern/acpi/namespace.c:328-420 | a childless node leaves its parent's list, which keeps the others in order; a dangling node, one with a child and one in no list are refused, and then no link changes |
| NamespaceTeardown.BelowIsComplete | src/kern/acpi/namespace.c:197-253 | the teardown order names every node but the root exactly once |
| NamespaceTeardown.ChildrenFirst | src/kern/acpi/namespace.c:197-253 | it names every node after all nodes below it |
| NamespaceTeardown.RemoveFirst | src/kern/acpi/namespace.c:215-231 | uninstalling the first child is never refused and moves the parent's pointer to the next one |
| NamespaceTeardown.DeinitializeNamespace | src/kern/acpi/namespace.c:197-253 | the two-cursor loop ends, uninstalls exactly the nodes of that order, and reads no pointer of an uninstalled node |
| NamespacePath.Resolve | src/kern/acpi/namespace.c:463-591 | the cursor loops compute the meaning of a path: prefix, dotted segments, search in enclosing scopes; without a parent they do so from the root, or follow a null pointer exactly for a stranded name |
| NamespacePath.SearchParents | src/kern/acpi/namespace.c:545-561 | the search finds the name in the nearest enclosing scope that has it, and follows a null pointer exactly if no parent was given |
| NamespacePath.StrandedFindsNothing | src/kern/acpi/namespace.c:474-475 | where that happens, giving the root instead finds nothing |
| NamespacePath.CaretsLeadUp | src/kern/acpi/namespace.c:487-527 | k carets lead to the node k levels up, or nowhere exactly if there are fewer levels |
| NamespacePath.CaretsFindChild | src/kern/acpi/namespace.c:463-591 | carets and a name find the child of that name of the ancestor so many levels up |
| NamespacePath.TooManyCarets | src/kern/acpi/namespace.c:502-512 | more carets than levels make the path invalid |
| NamespacePath.RootAfterCarets | src/kern/acpi/namespace.c:491-501 | a backslash is the root, and invalid behind a caret |
| NamespacePath.LoneName | src/kern/acpi/namespace.c:540-561 | a lone name is searched upwards on demand only |
| NamespacePath.SearchFindsNearest | src/kern/acpi/namespace.c:545-561 | the upward search finds the child of the nearest node above that has one of the name |
| NamespacePath.FindFirst | src/kern/acpi/namespace.c:422-440 | of several children with the name the first is found |
| NamespacePath.SegmentPads | src/kern/acpi/namespace.c:442-461 | a short segment is filled up with underscores, a long one is cut at four characters |
| NamespacePath.PermitDenies | src/kern/acpi/namespace.c:463-591 | the permanent-only filter denies temporary nodes and nothing else |
| NamespacePath.GenerateAbsolutePath | src/kern/acpi/namespace.c:955-992 | the buffer, sized before it is filled from its end, holds exactly the path and a terminator |
| NamespacePath.PathLength | src/kern/acpi/namespace.c:940-975 | the size computed from the depth is the length of the path |
| NamespacePath.PathRoundTrip | src/kern/acpi/namespace.c:463-591 | the generated path of a node resolves to that node from every scope |
| NamespacePath.PassesThrough | src/kern/acpi/namespace.c:568-584 | resolving a longer path passes through the node whose path comes first |
| NameString.NameStringToPath | src/kern/acpi/interpreter.c:340-448 | the text buffer is sized and filled exactly with the decoded name, or the string is malformed |
| NameString.ResolveNameString | src/kern/acpi/interpreter.c:450-605 | both behaviours: the direct lookup of a name, or the place of a new one that must not exist yet; and where the code goes on, whatever the outcome |
| NameString.CreatedIsFound | src/kern/acpi/interpreter.c:557-585 | what one behaviour creates the other finds: once the node is installed the same code in the same scope names it |
| NameString.TakenIsFound | src/kern/acpi/interpreter.c:557-585 | a name already exists if and only if the lookup finds it, but for a NullName and a lone name that only an outer scope has |
| NameString.EncodedParses | src/kern/acpi/interpreter.c:340-605 | a prefix and up to 255 names, written as the format says, are read back as they were |
| NameString.CaretsNameChild | src/kern/acpi/interpreter.c:462-500 | carets and a name name the child of the ancestor so many levels up |
| NameString.LoneNameIsNearest | src/kern/acpi/interpreter.c:576-585 | a lone name names the child of the nearest node above that has one |
| NameString.SplitJoin | src/kern/acpi/namespace.c:442-461 | cutting joined names at the dots gives the names back |
| NameString.TextOfParsed | src/kern/acpi/interpreter.c:340-448 | the text form has the prefix and the segments of the encoded name |
| NameString.DecodersAgree | src/kern/acpi/interpreter.c:340-605 | for valid names both decoders find the same node or neither does, if and only if the string is no bare NullName and no lone MultiNamePrefix name that only an outer scope has |
| NameString.BareNullNameDiffers | src/kern/acpi/interpreter.c:340-605 | a bare NullName names the scope to one decoder and nothing to the other |
| NameString.LoneMultiNameDiffers | src/kern/acpi/interpreter.c:340-605 | a lone MultiNamePrefix name that only the parent has is found by one decoder alone |
| GpeMask.StepKeepsInv | src/kern/acpi/event.c:311-384 | every step of management thread, interrupts and work items keeps masks, user counts and spinlock in agreement |
| GpeMask.UsersMatchRuntimeMask | src/kern/acpi/event.c:1111-1172 | in every run, also after failed register accesses, an event has users exactly when its runtime bit is set |
| GpeMask.UsersSetRegister | src/kern/acpi/event.c:1127-1237 | the first user of an event and its last one set off a register access, and only if it fails does the count go back; an unmask of an event in use restores it |
| GpeMask.ApplyOutcome | src/kern/acpi/event.c:663-698 | disabling all clears the register, enabling all for runtime leaves the unmasked runtime events, enabling all for wake the wake events |
| GpeMask.DisablingMakesQuiet | src/kern/acpi/event.c:1190-1236 | the disabling write between the two waits leaves nothing in flight that could set the bit |
| GpeMask.EndMakesQuiet | src/kern/acpi/event.c:1216-1217 | the access, however it ends, leaves the bit quiet if and only if it worked or had nothing to do |
| GpeMask.QuietUntilUnmasked | src/kern/acpi/event.c:469-535 | no step but an unmask or a wake action brings a quiet bit back |
| GpeMask.MaskedStaysDisabled | src/kern/acpi/event.c:1190-1236 | from the register access of a mask call on, the hardware enable bit is clear in every state up to the first unmask if and only if the access worked or the bit was clear already |
| GpeMask.MaskedBitComesBack | src/kern/acpi/event.c:1216-1232 | after a failed access, a run without unmask in which the masked bit is cleared with all others and set again by an interrupt of a second enabled event |
| GpeHandlers.RemoveOutcome | src/kern/acpi/event.c:1127-1144 | count, masks, enable register and status in each case: only the last user going writes the register, and then clears the bit, or fails and stays |
| GpeHandlers.AddOutcome | src/kern/acpi/event.c:1151-1172 | count, masks, enable register and status in each case: only the first user of an unmasked event writes the register, and then sets the bit, or fails and goes |
| GpeHandlers.MaskOutcome | src/kern/acpi/event.c:1190-1237 | masking clears the bit of an event that was not masked if the access works; unmasking sets it exactly for a masked event that has users, is not blocked and is to be on |
| GpeHandlers.Refusals | src/kern/acpi/event.c:1328-1461 | which installs and uninstalls are refused, and then nothing changes |
| GpeHandlers.MaskingFrame | src/kern/acpi/event.c:1190-1251 | masking and unmasking change only the masked bit and the enable register |
| GpeHandlers.InstallOutcome | src/kern/acpi/event.c:1328-1396 | what a successful install leaves: handler with the old one saved, type, triggering, user count, runtime bit and masks |
| GpeHandlers.UninstallOutcome | src/kern/acpi/event.c:1416-1468 | what uninstall restores from the saved handler, and when the user comes back |
| GpeHandlers.RoundTrip | src/kern/acpi/event.c:1328-1468 | install and uninstall restore handler, type and triggering; the user count and runtime bit if and only if both last-user accesses worked |
| GpeHandlers.RoundTripRestoresAll | src/kern/acpi/event.c:1328-1468 | with working accesses and a settled event the whole state is as before |
| GpeHandlers.FailedAccessAddsAUser | src/kern/acpi/event.c:1328-1468 | an event with one user whose access fails during install ends up with two |
| GpeHandlers.GpEvent.SetGpeState | src/kern/acpi/event.c:323-363 | the update of the event's fields in place is the transition of the specification: enabling is skipped while masked, conditional enabling also without current bit, a failed access changes nothing |
| GpeHandlers.GpEvent.GpeRemoveUser | src/kern/acpi/event.c:1127-1149 | in place, the transition of RemoveOutcome: the last user's masks are put back if the access fails |
| GpeHandlers.GpEvent.GpeAddUser | src/kern/acpi/event.c:1151-1172 | in place, the transition of AddOutcome: a full count is refused and a first user that fails leaves no bit behind |
| GpeHandlers.GpEvent.GpeMaskUnmask | src/kern/acpi/event.c:1190-1242 | in place, masks and disables, or unmasks and enables again an event with users that is not blocked; refuses an event that is already in the wanted state |
| GpeHandlers.GpEvent.InstallHandler | src/kern/acpi/event.c:1328-1396 | in place, the transition of InstallOutcome, refused for an event that has a native handler |
| GpeHandlers.GpEvent.UninstallHandler | src/kern/acpi/event.c:1416-1468 | in place, the transition of UninstallOutcome, refused without native handler or for another callback |
| OpRegion.SearchHandler | src/kern/acpi/opregion.c:176-189 | the loop finds the first handler of a list for a space |
| OpRegion.Climb | src/kern/acpi/opregion.c:726-768 | the climb finds the handler of the nearest ancestor that has one |
| OpRegion.ReachedSplits | src/kern/acpi/opregion.c:392-435 | what the pruned walk reaches from a child on: the child, what hangs below it unless it has its own handler, and the rest |
| OpRegion.WalkReaches | src/kern/acpi/opregion.c:392-435 | the walk rebinds exactly the regions of the space with no other handler on the way up |
| RegionWalk.CallsRebind | src/kern/acpi/opregion.c:392-435 | the callback, along the calls that the general namespace walk makes, rebinds exactly what the recursive walk does |
| RegionWalk.ListFollows | src/kern/acpi/namespace.c:773-873 | the same for any list of children, at any depth and after any calls |
| OpRegion.InstalledKeepsInv | src/kern/acpi/opregion.c:573-648 | an install keeps every region bound by the rule |
| OpRegion.UninstalledKeepsInv | src/kern/acpi/opregion.c:657-708 | an uninstall unbinds all regions of the handler and no others, and empties its list |
| OpRegion.InstallOutcome | src/kern/acpi/opregion.c:573-648 | an install is carried out exactly on a node that can have handlers and has none for the space, and moves exactly the regions with a free way up to it |
| OpRegion.UninstallOutcome | src/kern/acpi/opregion.c:657-724 | an uninstall is carried out exactly on a node that has a handler for the space, which leaves its list |
| OpRegion.NearestIsNearest | src/kern/acpi/opregion.c:726-768 | the rule names the handler of the first node upwards that has one for the space |
| OpRegion.CreatedKeepsInv | src/kern/acpi/opregion.c:726-768 | a new region is bound by the rule and the others stay |
| OpRegion.RuleMoves | src/kern/acpi/opregion.c:392-442 | a changed handler of one node changes the rule exactly for the regions the walk reaches |
| OpRegion.BoundToNearest | src/kern/acpi/opregion.c:573-768 | in every run each region is bound to the handler of its nearest ancestor with one for its space, and each handler's list is exactly its regions, none twice |
| RegionList.RegionInstallHandler | src/kern/acpi/opregion.c:274-284 | the region becomes the head of the linked list, the rest stays linked in order: the change `OpRegion.Bind` makes to the list |
| RegionList.FindPreviousRegionLink | src/kern/acpi/opregion.c:191-208 | the walk ends at the region before, or at the region itself when it is the head |
| RegionList.RegionUninstallHandler | src/kern/acpi/opregion.c:291-352 | the region leaves the list wherever it was, all others stay linked in order: the change `OpRegion.Unbind` makes to the list |
| ResourceTemplate.ResourceSize | src/kern/acpi/resources.c:1299-1323 | the claimed size, or an error exactly when header or body do not fit |
| ResourceTemplate.CheckItem | src/kern/acpi/resources.c:1335-1390 | accepts exactly the valid descriptors |
| ResourceTemplate.FirstBytes | src/kern/acpi/resources.c:1291-1370 | the first bytes and sizes that are accepted are those of the standard |
| ResourceTemplate.SerialTypes | src/kern/acpi/resources.c:1324-1383 | a serial connection is accepted exactly for the bus types one to four in its sixth byte |
| ResourceTemplate.ForEachResource | src/kern/acpi/resources.c:1335-1407 | the loop ends, stays inside the buffer, and visits what the recursive iteration visits |
| ResourceTemplate.IterateParses | src/kern/acpi/resources.c:1335-1407 | a callback that goes on sees exactly the parsed descriptors |
| ResourceTemplate.ItemsAreContiguous | src/kern/acpi/resources.c:1335-1407 | descriptors follow each other without gap inside the buffer; complete templates end with their only end tag |
| ResourceTemplate.FindEndTag | src/kern/acpi/resources.c:1432-1453 | finds the end tag of complete templates, and none otherwise |
| ResourceTemplate.ItemMoves | src/kern/acpi/resources.c:1291-1390 | a descriptor is recognised by its own bytes wherever they are |
| ResourceTemplate.ConcatenateRes | src/kern/acpi/interpreter.c:2929-2973 | the buffer it fills, or an error exactly when one operand is neither complete nor empty |
| ResourceTemplate.ConcatenationIsTemplate | src/kern/acpi/interpreter.c:2929-2973 | the result parses to the descriptors of the first, then of the second, both without end tag, then one end tag |
| ResourceInterpreter.AmlToNative | src/kern/acpi/resources.c:1571-1830 | the loop with program counter and accumulator does what the table means, and fails exactly on an unterminated source string |
| ResourceInterpreter.NativeToAml | src/kern/acpi/resources.c:2050-2288 | the loop in the other direction does what the table means, constants included |
| ResourceInterpreter.CollectBits | src/kern/acpi/resources.c:1604-1627 | the numbers of the set bits, in order |
| ResourceInterpreter.GatherBits | src/kern/acpi/resources.c:2090-2104 | the mask of the listed numbers |
| ResourceCodec.RebuiltFrom | src/kern/acpi/resources.c:1604-1627 | listing the bits of a mask and setting them again gives the mask |
| ResourceCodec.NativeIsFaithful | src/kern/acpi/resources.c:1571-1830 | after a run without overlaps the native structure still tells everything that was read |
| ResourceCodec.StepShows | src/kern/acpi/resources.c:2050-2288 | one instruction back that stores no constant restores exactly its bits |
| ResourceCodec.CheckedIsClean | src/kern/acpi/resources.c:565-790 | a table that passes the static check overwrites nothing on any descriptor, whatever it skips or repeats |
| ResourceCodec.ProgramRoundTrip | src/kern/acpi/resources.c:1571-2288 | a checked table without constants, decoded and encoded, gives back exactly the bits it covers |
| ResourceConvert.EncodesNoConstants | src/kern/acpi/resources.c:565-790 | no encoding table stores a constant |
| ResourceConvert.TableChecked | src/kern/acpi/resources.c:565-790 | every modelled decoding table passes this static check on overlaps |
| ResourceConvert.CoverOf | src/kern/acpi/resources.c:565-790 | for a descriptor that its numbers and source fill, and that is no StartDependentFnNoPri, the encoding table covers all but its reserved bits and nothing behind it, but for the one byte behind an extended interrupt of two bytes |
| ResourceConvert.LengthReturns | src/kern/acpi/resources.c:154-331 | the size for the AML form is the old length if and only if numbers and source fill the descriptor |
| ResourceConvert.TrailingByteIsLost | src/kern/acpi/resources.c:258-307 | an address with a byte behind its terminated string comes back one byte shorter |
| ResourceConvert.DecodedIsCorrect | src/kern/acpi/resources.c:258-274 | the size function finds nothing to correct in a decoded source |
| ResourceConvert.BytesReturn | src/kern/acpi/resources.c:1571-2288 | a descriptor that its numbers and source fill has all its bits that are not reserved when decoded and encoded, but for one byte of the source behind an empty list: the first character of a string becomes the index, an index alone the type number of the next structure; nothing behind it changes but one byte after a StartDependentFnNoPri or an extended interrupt that ends before its empty list |
| ResourceConvert.ReturnsIffIntact | src/kern/acpi/resources.c:771-790 | the bits of a filled descriptor come back if and only if, with an empty list, there is no source, or the string begins with the index, or the index alone is the type number of the next structure |
| ResourceConvert.FirstCharacterIsLost | src/kern/acpi/resources.c:771-790 | the string "A" behind an empty list comes back without its character |
| ResourceFields.DecodedFields | include/uacpi/resources.h:105-330 | for every modelled kind each native field is the number or the bits of the descriptor that its name says, or a constant where the optional byte is missing; interrupt and channel lists are the set bits in ascending order |
| ResourceFields.StoredFields | include/uacpi/resources.h:105-330 | the same in memory, and the source is index and string of the descriptor |
| ResourceFields.UnterminatedIs | src/kern/acpi/resources.c:1648-1706 | a source is unterminated exactly if there is something behind its index and no zero in it |
| ResourceFields.EncodedSource | src/kern/acpi/resources.c:258-274 | from any structure a string is written behind an index and both count in the length; only the index behind an empty list is overwritten |
| ResourceFields.ShortIrq | src/kern/acpi/resources.c:154-180 | an interrupt is written without its flags exactly if the length kind lets it be and triggering, polarity and sharing are those that the short form is read with |
| ResourceFields.ShortStart | src/kern/acpi/resources.c:182-207 | the same for the priorities of StartDependentFn |
| ResourceFields.WakeIsLost | src/kern/acpi/resources.c:154-180 | a wake-capable interrupt can get the short form, which is read as not wake-capable |
| ResourceRoundTrip.TerminatedIs | src/kern/acpi/resources.c:1648-1706 | a conversion of a modelled descriptor is given up exactly if its source string is unterminated |
| ResourceRoundTrip.PlaceReturns | src/kern/acpi/resources.c:2050-2288 | one descriptor in its place in the output, with zeros behind it |
| ResourceRoundTrip.ConvertToNative | src/kern/acpi/resources.c:1571-1830 | the table loop run on the own table of a modelled kind gives its native form, every field with its value, or nothing exactly for an unterminated string |
| ResourceRoundTrip.ConvertToAml | src/kern/acpi/resources.c:2050-2288 | header and table loop fill the place of one resource of a modelled kind and report where the next one starts |
| ResourceRoundTrip.NativeFromAml | src/kern/acpi/resources.c:1867-1904 | for a template of modelled descriptors the status is that of the sizing pass and its limit, a successful call has a partial list if and only if some source string is unterminated, and where no conversion writes over the next structure the list is that of the descriptors before it, each structure with its kind and its fields |
| ResourceRoundTrip.AddSizes | src/kern/acpi/resources.c:1832-1848 | the sizing pass adds up the native sizes in 64 bits and refuses a size of zero or an overflow |
| ResourceRoundTrip.NoSizeRefused | src/kern/acpi/resources.c:1832-1848 | it refuses no modelled descriptor of a template below 4 GB |
| ResourceRoundTrip.ConvertAll | src/kern/acpi/resources.c:1571-1588 | the second pass converts modelled descriptors in order up to the first that is given up, each to its native form if no conversion writes over the next structure; the type of each structure is stored first, over the last byte of an empty list before it |
| ResourceRoundTrip.PartOrAll | src/kern/acpi/resources.c:1571-1830 | of modelled descriptors nothing is missing exactly if every source string is terminated |
| ResourceRoundTrip.ResourcesToAml | src/kern/acpi/resources.c:2290-2382 | the sizing pass and the conversion pass agree on resources of modelled kinds up to the first end tag, adding one where there is none, and a size above 5 MB is refused; strings without index get one |
| ResourceRoundTrip.NothingBehind | src/kern/acpi/resources.c:2290-2382 | whatever the native structures hold, no write passes the computed size |
| ResourceRoundTrip.TemplateReturns | src/kern/acpi/resources.c:1867-2382 | for every template of modelled descriptors that their numbers and terminated source strings fill, AML to native to AML keeps length, order and all bits that are not reserved, but for the one byte behind an empty list; only the end tag's checksum is lost, and nothing is written behind the computed size |
| ResourceRoundTrip.TemplateReturnsIffIntact | src/kern/acpi/resources.c:1867-2382 | it is the identity on all bits that are not reserved if and only if no empty list stands before a string that does not begin with the index, or before an index alone that is not the type number of the next descriptor |
| ResourceRoundTrip.OutputParses | src/kern/acpi/resources.c:1867-2382 | the output parses to the same descriptors in the same places, and is complete |
| ResourceRoundTrip.IndexIsReplaced | src/kern/acpi/resources.c:1585-1588 | an empty list with index 5 and no string, before an end tag, comes back with index 29 |
| ResourceSizes.CountBits | src/kern/acpi/resources.c:131-152 | the sizing pass counts as many numbers as the conversion lists |
| ResourceSizes.WritesFit | src/kern/acpi/resources.c:565-790 | no decoding table writes past its structure, its numbers, and one byte for an empty list of numbers |
| ResourceSizes.NativeFits | src/kern/acpi/resources.c:1422-1430 | all the conversion writes lies inside the size computed before if and only if an extended interrupt claims at most four bytes more than it holds, or, with an empty list, has at least four bytes; the same bound for the source string |
| ResourceSizes.SizeIsTight | src/kern/acpi/resources.c:1422-1430 | for all but extended interrupts the size is header, fields and what is behind them, rounded up to eight bytes |
| ResourceSizes.OneByteBehind | src/kern/acpi/resources.c:1571-1588 | if the numbers exceed the descriptor by four bytes at most, the only byte a conversion can write behind its structure is that of an empty list without string, the first byte of the next structure |
| ResourceSizes.RoomMissing | src/kern/acpi/resources.c:309-319 | two numbers claimed by a descriptor of two bytes: the size wraps to that of an empty list |
| ResourceRoundTrip.ShortListIsAccepted | src/kern/acpi/resources.c:1335-1390 | the iterator accepts such a descriptor: five bytes that get the size of an empty list |
| ResourceSizes.ReadsFit | src/kern/acpi/resources.c:1571-1830 | the conversion reads inside the descriptor if and only if the numbers it claims are inside |
| ResourceSizes.EncodeFits | src/kern/acpi/resources.c:2050-2288 | whatever the native structure holds, encoding writes at most one byte behind the length computed for it, and an end tag none |

## Left out

- Host and hardware: `uacpi_kernel_*` calls, port, memory and PCI access and logging are a byte array, an event counter, plain mutexes, or a parameter that says whether an access works. Allocation failure is a parameter where it changes the result.
- The AML interpreter loop (`exec_op`), objects and reference counts, table handling, and the kernel's own files.
- Field units: index and bank fields and the handling of buffer-access spaces (SMBus, IPMI, GPIO), the lock rule, and 32-bit overflow of offsets.
- GAS access and `registers.c`.
- BufferField.Write: a field of no bits at the start of the buffer is excluded, since the aligned path then reads the byte before the buffer.
- SyncLevels: serialized methods and the fields with a lock rule are not steps; the Global Lock counts as one more mutex that firmware may refuse; a thread runs one context at a time.
- Global Lock: the host mutex in front of the lock makes the operating system one agent; steps are atomic in one order, so weak memory ordering is not captured; sequence numbers are left out, since the one handed out is not the one release compares with (mutex.c:160, 168-169); hardware without the lock is left out.
- RwLock.WritersRunAlone: callers bracket their calls properly; a reader whose unlock was refused is still inside.
- RecursiveLock.OwnerIsHolder: calls are bracketed properly; creation and destruction are left out.
- NamespaceWalk.DoForEachChild: callbacks do not change the tree, every node has an object, and releasing the namespace lock around a callback is not modelled.
- Namespace teardown: objects, handlers and reference counts of the nodes.
- Namespace paths: nodes are numbered in creation order, and a list of children is the nodes with that parent in that order; the locks are left out. Round trips are for names without a dot or NUL.
- NameString.ResolveNameString: code bytes are modelled as characters; installing a created node is `With`, and allocation is a parameter.
- GpeMask.QuietUntilUnmasked: the wake-enable action is excluded like an unmask, because it ignores the mask (event.c:680-682).
- GpeMask.MaskedStaysDisabled: the wait for interrupts and work in flight is taken to return when the calls that were in flight have ended.
- GPE blocks: creation, removal, lookup of events, method matching, status clearing and the polling path.
- GpeHandlers.RoundTripRestoresAll: an event that is masked before the install is excluded, since the install unmasks it (event.c:1244-1251, 1391-1392).
- Operation regions: nodes are permanent; `_REG` calls, attach and detach callbacks and reference counts are left out.
- Resource conversion: GPIO, pin, serial, clock and vendor descriptors. The vendor length is 8 bits wide in the native form, and the others follow stored offsets.
- ResourceRoundTrip.TemplateReturns: native structures are kept one by one as byte functions with source strings as values, not in one buffer with pointers into it. A filled descriptor writes outside its own structure and string in two cases only (`ResourceSizes.NativeFits`, `OneByteBehind`), which `ResourceConvert.Overlaid` and `Followed` put in; type numbers are little endian. The limits of 5 MB are in the contracts of the two calls.
- ResourceSizes.NativeFits: sizes and offsets are those of 64-bit pointers.
- ResourceRoundTrip.NativeFromAml: templates with other than the modelled descriptors, which the sizing pass can refuse and the second pass can give up for more reasons; what the list holds when the numbers of an extended interrupt exceed it by more than four bytes, which overwrites the structures behind it; the fields of the resource at which a conversion is given up; and running out of memory.
- Uninstalling an address-space handler keeps no nearest-ancestor rule, since its regions fall back to none.
