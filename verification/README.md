# Emulite's bookkeeping in Dafny

Emulite runs Android native libraries inside a CPU engine. The engine is foreign code; what Emulite itself keeps is
state: which guest memory is mapped and allocated, which import slots are hooked, which JNI references are alive,
which descriptors are open, which libraries are loaded. This project models that state with the operations that
change it, and proves what each operation keeps over every run.

| file | component |
|---|---|
| `Common.dfy` | types and facts shared by the components |
| `Heap.dfy`, `Align.dfy` | the guest `malloc` arena |
| `Regions.dfy`, `MemoryManager.dfy` | the region list, the engine's page map, `mmap`, `brk`, library space |
| `InitialStack.dfy`, `CStrings.dfy`, `Bytes.dfy` | the initial process stack, guest strings, little-endian buffers |
| `Trap.dfy`, `Hooks.dfy`, `HookCalls.dfy` | trampoline slots, import-slot hook chains, guest call trees through them |
| `DalvikRefs.dfy`, `NativeCalls.dfy` | JNI references, redirected native calls, local frames |
| `Loader.dfy`, `Segments.dfy` | recursive loading, the symbol table, the page runs of an image |
| `LinkerImage.dfy`, `LinkerDebug.dfy`, `LinkMap.dfy` | emitted ELF images and their symbol lookup, the link_map list |
| `CallConv32.dfy`, `CallConv64.dfy` | argument marshalling, register and va_list readers |
| `Streams.dfy`, `Descriptors.dfy` | pipes, sockets, the descriptor table |
| `Mutf8.dfy`, `Mangler.dfy` | modified UTF-8, JNI symbol names |

Objects whose methods change fields are classes, and their methods are specified by functions on the abstract state
or by what a caller observes (lowest fit, page map, handles named by a descriptor). The engine is a page map whose
operations succeed whole or change nothing. Each ghost history (bytes sent and taken, symbols registered, modules
loaded) records what an operation did, so that order and conservation can be stated.

Where the code and its own text differ, the code is followed:

* The documentation of `hook_symbol` (src/emulite/hooks/hook_manager.py:145-149) says a return callback runs only when
  the original is called. It runs without the original if and only if some hook skips and a newer one has a return side
  (`HookCalls.SkippedCallStillPosts`, with a run in `HookCalls.SkippedCallRun`).
* A failing `mmap` leaves the cursor advanced if and only if no hole fits, the top has room below the library base and
  a page there is in use (`MemoryManager.MemoryManager.Mmap`, with a run in `MemoryManager.FixedMappingOnTop`).
* `fcntl(F_DUPFD)` installs a negative descriptor if and only if some number from the argument up to -1 is free
  (`Descriptors.AndroidFileSystem.Fcntl`). Both system call tables pass unsigned register values, so only a host caller
  of `AndroidFileSystem.fcntl` can give a negative argument.
* The hash table emitted for an empty symbol list points outside its chain (`LinkerDebug.LookupFinds`).
* An auxiliary-vector key that is zero in pointer width ends the vector early (`InitialStack.AllVisible`).
* Wrapping `None` again after its handle was forgotten leaves a handle that is held but resolves to nothing
  (`DalvikRefs.NullBreaksLiveness`); nothing else does (`DalvikRefs.LiveIsHeldThroughout`). A host call of a native on
  `None` wraps it (src/emulite/android_emulator.py:500).

## Model

| member | source | states |
|---|---|---|
| Blocks.CoveredOnce | src/emulite/memory/heap_allocator.py:21-23 | in a tiled arena every address below the cursor lies in exactly one block, live or free |
| Blocks.SizesAddUp | src/emulite/memory/heap_allocator.py:21-23 | conservation: the sizes of live (rounded) and free blocks add up to the used part of the arena |
| Heap.LiveAndFreeAddUp | src/emulite/memory/heap_allocator.py:21-23 | conservation over the allocator's own tables: the rounded live sizes and the free sizes, each summed over the arena, make up its used part |
| Heap.NoEarlierFit | src/emulite/memory/heap_allocator.py:43-51 | an address below which every free block is too small starts no range clear of the live blocks |
| Heap.CursorIsTop | src/emulite/memory/heap_allocator.py:91-108 | the cursor is the end of the highest live block, or the base when nothing is live |
| Heap.FreeListIsDetermined | src/emulite/memory/heap_allocator.py:82-108 | two reachable states with the same live blocks have the same free map and cursor, so the order of frees is forgotten |
| Heap.EmptyHeapIsReset | src/emulite/memory/heap_allocator.py:91-108 | with no live block the cursor is at the base and the free map is empty |
| Heap.TakingKeepsInv | src/emulite/memory/heap_allocator.py:43-51 | reusing the first fitting free block, split or whole, keeps the tiling and takes the lowest fitting address |
| Heap.BumpingKeepsInv | src/emulite/memory/heap_allocator.py:34-41 | bumping the cursor keeps the tiling, and no lower address would have fitted |
| Heap.FullMeansNoFit | src/emulite/memory/heap_allocator.py:34-37 | when the arena refuses, no range of that size clear of the live blocks exists anywhere in it |
| Heap.AligningKeepsInv | src/emulite/memory/heap_allocator.py:126-132 | an aligned block on top, with the padding listed as free, keeps the tiling and the no-adjacent-free rule |
| Heap.HeapAllocator.TakeFree | src/emulite/memory/heap_allocator.py:43-51 | takes the lowest free block that is large enough and relists a remainder of at least one unit; None exactly when none is large enough |
| Heap.HeapAllocator.MergeNext | src/emulite/memory/heap_allocator.py:92-94 | joins the free block that starts where the freed one ends; afterwards none does |
| Heap.HeapAllocator.MergePrevious | src/emulite/memory/heap_allocator.py:95-98 | joins the free block that ends where the freed one starts; afterwards none does |
| Heap.HeapAllocator.Retract | src/emulite/memory/heap_allocator.py:99-106 | leaves no free block at the cursor; when none ended there, as after coalescing, the loop does not turn and nothing changes |
| Heap.HeapAllocator.File | src/emulite/memory/heap_allocator.py:99-108 | a coalesced block at the top gives the cursor back exactly its own size, any other is listed; the invariant is restored |
| Heap.HeapAllocator.InsertFree | src/emulite/memory/heap_allocator.py:91-108 | filing any freed block restores the tiling with no adjacent free blocks and none at the cursor |
| Heap.HeapAllocator.Malloc | src/emulite/memory/heap_allocator.py:28-41 | succeeds exactly when some free range fits, at the lowest such address over the live blocks; zero and negative sizes as in the source |
| Heap.HeapAllocator.Free | src/emulite/memory/heap_allocator.py:82-89 | removes exactly that live block; a pointer that starts no live block is an error and changes nothing |
| Heap.HeapAllocator.Calloc | src/emulite/memory/heap_allocator.py:53-62 | zeroes the whole block and no other byte; refuses a product that overflows the pointer width |
| Heap.HeapAllocator.Realloc | src/emulite/memory/heap_allocator.py:64-80 | moves the first min(old, new) bytes, frees the old block only on success, and leaves everything as it was when there is no room |
| Heap.HeapAllocator.Memalign | src/emulite/memory/heap_allocator.py:116-132 | returns the least multiple of the alignment at or above the cursor, disjoint from every live block, or fails because that would leave the arena |
| Heap.HeapAllocator.UsableSize | src/emulite/memory/heap_allocator.py:110-114 | the rounded size of the block, which is at least the requested one and clear of every other live block; 0 for an address that starts no block; foreign pointers are refused |
| Align.RoundUp | src/emulite/memory/heap_allocator.py:13-15 | the least multiple of the alignment not below the value |
| Align.PowersHaveNoOddDivisor | src/emulite/memory/heap_allocator.py:116-118 | the alignments accepted are exactly the positive numbers without an odd divisor above one |
| Align.PowersDivide | src/emulite/memory/memory_manager.py:138-150 | a power of two not below another is a multiple of it, so a larger alignment implies the smaller |
| Regions.CarvedView | src/emulite/memory/memory_manager.py:88-98 | carving a range out of the region list unmaps exactly that range and keeps every other address's permissions and label |
| Regions.CarvedOrdered | src/emulite/memory/memory_manager.py:88-98 | carving keeps the regions disjoint, non-empty and in address order |
| Regions.CarvedPaged | src/emulite/memory/memory_manager.py:88-98 | carving on page bounds keeps every region on page bounds |
| Regions.SortedMerge | src/emulite/memory/memory_manager.py:58-73 | sorting an ordered list with disjoint newcomers appended gives an ordered list for the union of the two page maps |
| MemoryManager.Recorded | src/emulite/memory/memory_manager.py:100-103 | carve, append and sort replace exactly the recorded range in the page map |
| MemoryManager.Protected | src/emulite/memory/memory_manager.py:58-73 | splitting off the touched pieces changes permissions inside the range and nothing else; labels stay |
| MemoryManager.ProtectHasPieces | src/emulite/memory/memory_manager.py:68-71 | once the engine accepted the change, the fallback piece without a label is never used |
| MemoryManager.AllCleared | src/emulite/memory/memory_manager.py:52-56 | clearing each overlapping region's share of a range clears the whole range |
| MemoryManager.StillMapped | src/emulite/memory/memory_manager.py:52-56 | each share is still mapped when its turn comes, so no unmap of a replace can fail |
| MemoryManager.BlockedIsMapped | src/emulite/memory/memory_manager.py:130-136 | with no mapping straddling the arena's base, the hole scan's test of regions and the page map agree |
| MemoryManager.SweptIsMapped | src/emulite/memory/memory_manager.py:130-136 | every start the hole scan passed over has a mapped address in its range |
| MemoryManager.MemoryManager.Carve | src/emulite/memory/memory_manager.py:88-98 | the loop computes the carved list; the page map loses exactly the range |
| MemoryManager.MemoryManager.UnmapOverlap | src/emulite/memory/memory_manager.py:52-56 | clears the range in both the engine and the list, whatever was mapped there |
| MemoryManager.MemoryManager.Map | src/emulite/memory/memory_manager.py:39-50 | succeeds exactly on a free range of addresses that fit a pointer, or always there with replace; the list equals the engine's page map afterwards, and a failure changes neither |
| MemoryManager.MemoryManager.Unmap | src/emulite/memory/memory_manager.py:75-86 | succeeds exactly when every page that holds a byte of the request is mapped, and then an address goes exactly when its page holds such a byte |
| MemoryManager.MeetsTouched | src/emulite/memory/memory_manager.py:58-64 | the rounded range is exactly the addresses that share a page with a byte of the request |
| MemoryManager.MemoryManager.AddressLimit | src/emulite/memory/memory_manager.py:342-344 | the limit is the number of values a pointer of the machine's width can take |
| MemoryManager.MemoryManager.Protect | src/emulite/memory/memory_manager.py:58-73 | address by address: permissions change exactly on the pages that hold a byte of the request, labels and everything else stay; fails exactly when such a page is unmapped |
| MemoryManager.MemoryManager.Brk | src/emulite/memory/memory_manager.py:160-175 | moves whole pages with the break, maps or unmaps exactly the difference; fails exactly when the break would enter the arena or the difference is not free (growing) or not mapped (shrinking), and then moves nothing |
| MemoryManager.MemoryManager.FindHole | src/emulite/memory/memory_manager.py:130-136 | the first hole below the cursor that no region blocks; every earlier start is blocked; None when all are |
| MemoryManager.MemoryManager.Mmap | src/emulite/memory/memory_manager.py:116-128 | exactly which address is returned, when it fails, and when a failure moves the cursor (no hole fits and the range claimed on top is in use); without a straddling region it fails with an unmoved cursor only by exhaustion, and in disciplined runs it never fails otherwise or passes the library base |
| MemoryManager.HoleFacts | src/emulite/memory/memory_manager.py:130-136 | the scan's answer is the first unblocked start, no start below it is free, and it is free itself unless a region straddles the arena's base |
| MemoryManager.FixedMappingOnTop | src/emulite/memory/memory_manager.py:116-128 | a concrete run: a fixed mapping at the arena's base makes the next anonymous mapping fail with the cursor advanced |
| MemoryManager.MemoryManager.ReserveLib | src/emulite/memory/memory_manager.py:138-150 | successive reservations are aligned, disjoint with a guard page between them, and end below the return sentinel |
| Bytes.ValueOfWord | src/emulite/memory/memory_manager.py:302-309 | writing a masked little-endian word and reading it gives the value modulo the word's capacity |
| Bytes.ByteOfWord | src/emulite/memory/memory_manager.py:302-309 | byte i of a written word is digit i of the value in base 256, lowest first |
| Bytes.WordAt | src/emulite/memory/memory_manager.py:206-209 | each word of a table written in order reads back, masked |
| Bytes.CStringAt | src/emulite/memory/memory_manager.py:190-193 | a terminated copy of a string reads back as the string up to its first NUL |
| CStrings.ReadCStrBytes | src/emulite/memory/memory_manager.py:322-337 | page-wise reading returns exactly the bytes up to the first NUL, unmapped page or 64 KiB |
| InitialStack.ResolvedIsADictionary | src/emulite/memory/memory_manager.py:195-197 | no key occurs twice; AT_RANDOM and AT_PLATFORM are the loader's own; every other key has the caller's last value |
| InitialStack.PutKeepsOrder | src/emulite/memory/memory_manager.py:195-197 | setting a key keeps the order of the keys there are and puts a new one last |
| InitialStack.StackBuilder.Push | src/emulite/memory/memory_manager.py:182-188 | data goes to the aligned address below the top, or nothing is written when that is below the stack |
| InitialStack.StackBuilder.PushStrings | src/emulite/memory/memory_manager.py:192-193 | fails exactly when the strings do not fit; otherwise each is in place, terminated, and nothing above changed |
| InitialStack.StackBuilder.WriteTable | src/emulite/memory/memory_manager.py:199-209 | the word table lies 16-aligned below the strings, or the stack is too small; nothing above changed |
| InitialStack.StackBuilder.SetupStack | src/emulite/memory/memory_manager.py:177-216 | succeeds exactly when everything fits; from the top down, each directly below the one before: random bytes, platform name, argv strings, envp strings, and then the aligned table |
| InitialStack.ProcessReads | src/emulite/memory/memory_manager.py:177-216 | reading from SP as a process does gives argc, the argv and envp strings up to their first NUL, both terminators and the resolved auxiliary vector |
| InitialStack.AllVisible | src/emulite/memory/memory_manager.py:200-202 | the process sees the whole auxiliary vector if and only if no key is zero in pointer width, and then each pair masked |
| InitialStack.StackTopsFit | src/emulite/memory/memory_layout32.py:9 | the stack tops of both layouts leave a whole stack of addresses that fit a pointer |
| InitialStack.StacksAreMappable | src/emulite/memory/memory_manager.py:342-344 | the stack range of either layout is one the memory manager of that pointer width accepts |
| Trap.SvcRoundTrip | src/emulite/cpu/arch/arm64.py:31-44 | a trap's immediate is recovered from its instruction, and a return instruction is never taken for a trap |
| Trap.DecodedCarries | src/emulite/cpu/arch/arm32.py:34-39 | an instruction word decodes to a number exactly when it is the trap with that number in the immediate field, for A32, Thumb and AArch64 |
| Trap.ReturnsThroughLink | src/emulite/cpu/arch/arm64.py:25 | the word after the trap is the return through the link register: register 30, or 14 on Arm |
| Trap.PageOfSlots | src/emulite/hooks/svc_trap.py:43 | the trampoline addresses are exactly the strides of one page |
| Trap.FreeListedPop | src/emulite/hooks/svc_trap.py:33-46 | reusing the last freed slot keeps the free list exact |
| Trap.FreeListedPush | src/emulite/hooks/svc_trap.py:48-57 | freeing a live slot keeps the free list exact and without repetition |
| Trap.SvcTrap.AllocSlot | src/emulite/hooks/svc_trap.py:33-46 | a new trampoline on the page differs from every live one, traps with its own number and then returns; allocation fails only when all slots are live |
| Trap.SvcTrap.FreeSlot | src/emulite/hooks/svc_trap.py:48-57 | succeeds exactly for the address of a live trampoline, and only that one goes |
| Trap.SvcTrap.OnInterrupt | src/emulite/hooks/svc_trap.py:59-75 | each answer exactly: number 0 is a system call, a live slot's number runs that slot's handler, any other number is a missing slot, and an instruction that is no trap is an unexpected interrupt; Arm, Thumb and AArch64 |
| Hooks.ValueIsIdentity | src/emulite/hooks/_got_hook.py:4-7 | comparing hooks by their two addresses identifies them, so list index and remove are right |
| Hooks.HookManager.Install | src/emulite/hooks/hook_manager.py:168-211 | the slot holds the new trampoline, the chain gains the hook as newest, the original is the word before all hooking; no other trampoline and no return-address stack changes; it fails only for want of trampolines, changing nothing |
| Hooks.HookManager.Remove | src/emulite/hooks/hook_manager.py:213-221 | the chain loses exactly that hook and keeps the others in their order; the slot holds the last remaining trampoline, or the pre-hook word after the last; exactly the hook's own trampolines are released |
| Hooks.WithoutAt | src/emulite/hooks/hook_manager.py:213-216 | older hooks keep their place in the chain, newer ones move down by one |
| Hooks.HookManager.OnHandler | src/emulite/hooks/hook_manager.py:187-199 | a hook that lets the call through jumps to the next older hook or the original; with a return side, that side is in the link register and the caller's link register is on top of the hook's stack |
| HookCalls.ReturnSide | src/emulite/hooks/hook_manager.py:179-185 | the return side undoes the call side: control and link register are those the call was entered with, and every return-address stack is as before it |
| HookCalls.ChainReturns | src/emulite/hooks/hook_manager.py:177-199 | from any hook of a chain, a call returns to the link register it was entered with, all return-address stacks as before |
| HookCalls.CallReturns | src/emulite/hooks/hook_manager.py:177-199 | every well-nested call tree through import slots, hooked or not, recursion included, runs to its end and each call returns to its own caller |
| HookCalls.CallOrder | src/emulite/hooks/hook_manager.py:187-199 | hooks are entered newest first down to the one that skips or to the original; return callbacks newer than that run oldest first |
| HookCalls.LeafCall | src/emulite/hooks/hook_manager.py:187-199 | with nobody skipping, each remaining hook is entered once, newest first, then the original |
| HookCalls.SkippedCallStillPosts | src/emulite/hooks/hook_manager.py:145-149 | for every call: a return callback runs although the original did not if and only if some hook skips and a newer one has a return side |
| HookCalls.NotesOfSkipped | src/emulite/hooks/hook_manager.py:187-199 | a call some hook skips does not reach the original, and the return callbacks that run are exactly those of the newer hooks that have one |
| HookCalls.SkippedCallRun | src/emulite/hooks/hook_manager.py:145-149 | a concrete run: two hooks installed on one slot, the older skips; the call returns to its caller, the original never ran, the newer hook's callback did |
| HookCalls.ManagerIsEnv | src/emulite/hooks/hook_manager.py:168-221 | whatever was installed and removed, the manager's state meets the assumptions of the call-tree theorems |
| DalvikRefs.DalvikVM.AddLocal | src/emulite/android/dalvik_vm.py:91-94 | the new reference is held as local and resolves to the object's canonical form; the invariant is kept |
| DalvikRefs.HandleResolves | src/emulite/android/dalvik_vm.py:80-109 | whatever kind of reference is made, its handle resolves to the object, and what resolved before still does |
| DalvikRefs.HandlesInOrder | src/emulite/android/dalvik_vm.py:80-89 | over any run the handles ever live are consecutive numbers: none is left out, whatever is forgotten in between |
| DalvikRefs.DeletedWeak | src/emulite/android/dalvik_vm.py:116-118 | a deleted weak reference is gone; its object resolves exactly while a local or global holds it, and nothing else changes |
| DalvikRefs.DeletedLocal | src/emulite/android/dalvik_vm.py:120-122 | a deleted local reference is gone; its object resolves exactly while a global or weak one holds it, and nothing else changes |
| DalvikRefs.DeletedGlobal | src/emulite/android/dalvik_vm.py:131-138 | one deletion undoes one addition: the global goes with its last one; the object still resolves exactly while something else holds the handle, and every other reference is untouched |
| DalvikRefs.DalvikVM.LocalRelease | src/emulite/android/dalvik_vm.py:124-129 | deleting the unmarked locals one by one, in any order, equals deleting them at once |
| DalvikRefs.ReleasedAre | src/emulite/android/dalvik_vm.py:124-129 | a release leaves exactly the marked locals; a handle stops resolving exactly when it was an unmarked local held no other way |
| DalvikRefs.ReleaseStep | src/emulite/android/dalvik_vm.py:127-129 | one deletion of an unmarked local leaves the result of the whole release unchanged |
| DalvikRefs.RunInv | src/emulite/android/dalvik_vm.py:80-138 | over any run of reference operations the object and handle maps stay mutual inverses and global counts positive |
| DalvikRefs.LiveExactlyHeld | src/emulite/android/dalvik_vm.py:80-138 | in every run, every handle but the one None was given is live exactly while it is held, live handles are their object's own, and a global's count is positive exactly while it is global |
| DalvikRefs.WhenLiveIsHeld | src/emulite/android/dalvik_vm.py:80-138 | after any run the equality holds for None's handle too, if and only if that handle is not held after having been forgotten |
| DalvikRefs.LiveIsHeldThroughout | src/emulite/android/dalvik_vm.py:80-109 | live equals held at every point of a run if and only if the run never wraps None again after None's handle was forgotten |
| DalvikRefs.ForgottenForever | src/emulite/android/dalvik_vm.py:105-109 | a forgotten reference never resolves again |
| DalvikRefs.NullBreaksLiveness | src/emulite/android/dalvik_vm.py:80-109 | wrapping None, forgetting it and wrapping it again gives a held handle that resolves to nothing |
| NativeCalls.DispatchedKeeps | src/emulite/android/jni/jni_env.py:244-256 | dispatching a native leaves every reference of the caller resolving as before and local if it was; the declaring class and every object argument have a local reference |
| NativeCalls.JNIEnv.NativeReturn | src/emulite/android/jni/jni_env.py:258-267 | restores the newest dispatch; refused when none is pending |
| NativeCalls.JNIEnv.PopLocalFrame | src/emulite/android/jni/jni_env.py:730-735 | without a frame returns the reference and changes nothing; otherwise releases the frame and promotes the result |
| NativeCalls.PromotionKeepsResult | src/emulite/android/jni/jni_env.py:258-267 | after a release the surviving locals are the marked ones plus the promoted result, which still resolves to the same object |
| NativeCalls.InvocationReturns | src/emulite/android/jni/jni_env.py:244-267 | every well-nested tree of native calls returns to the link register and stack pointer of its dispatch; of the locals made since, only the promoted result is left |
| Loader.Winner | src/emulite/loader/elf_loader.py:226-241 | the definition that wins a name: its first strong one in registration order, else its first weak one |
| Loader.TableGrows | src/emulite/loader/elf_loader.py:238-241 | one registration keeps both dictionaries equal to the winners of all registrations so far |
| Loader.ElfLoader.RegisterExports | src/emulite/loader/elf_loader.py:226-241 | after any number of registrations each exported name has the address and binding of its winner |
| Loader.ElfLoader.ApplyRelocations | src/emulite/loader/elf_loader.py:281-288 | exactly the imports nothing answers yet are deferred, in relocation order |
| Loader.MissingAre | src/emulite/loader/elf_loader.py:281-288 | a relocation is deferred exactly when its symbol is imported and not answered |
| Loader.MissingConcat | src/emulite/loader/elf_loader.py:281-288 | what is deferred follows the order of the relocations |
| Loader.ElfLoader.ResolvePendingSymbols | src/emulite/loader/elf_loader.py:317-332 | what stays deferred is exactly, and in order, the relocations whose symbol still has no definition |
| Loader.StillMissingConcat | src/emulite/loader/elf_loader.py:317-332 | what stays deferred keeps its order |
| Loader.ElfLoader.LoadNeeded | src/emulite/loader/elf_loader.py:156-160 | tries every dependency, passes over those that fail, and leaves each loadable one in the module table |
| Loader.ElfLoader.Admit | src/emulite/loader/elf_loader.py:142-168 | registers before recursing, queues the module exactly when it is eligible and its relocations succeed, keeps every table invariant on each way out, and has taken in its soname, exports, dependencies and imports |
| Loader.SonameIsKey | src/emulite/loader/elf_loader.py:151-154 | a non-empty soname nothing else has taken becomes a key of the module |
| Loader.ElfLoader.RegisterModule | src/emulite/loader/elf_loader.py:150-155 | the module is a key under its name and its free soname, its exports are registered unless only scanned, and one fewer name is left to load |
| Loader.ElfLoader.FinishLoad | src/emulite/loader/elf_loader.py:162-168 | defers exactly the unanswered imports; the module is queued exactly when its relocations are supported, it is not only scanned, and it is asked for directly or shipped with the application |
| Loader.ElfLoader.LoadFile | src/emulite/loader/elf_loader.py:127-168 | a missing or unusable file changes nothing and gives its own error; any other file is registered under its name |
| Loader.ElfLoader.Load | src/emulite/loader/elf_loader.py:105-125 | ends on every finite graph, cycles included; each name is registered once and never replaced; what a load newly registers has its soname, exports, loadable dependencies and imports taken in; the circular-dependency error cannot occur; an outermost load leaves no resolvable relocation pending |
| Loader.BasenameIsLastPart | src/emulite/loader/elf_loader.py:105-107 | a module's name is the part of the path after its last separator of either kind |
| Loader.BasenameIn | src/emulite/loader/elf_loader.py:105-107 | a file in a directory has its own name, and a name without separators is its own |
| Loader.LoadKnown | src/emulite/loader/elf_loader.py:105-109 | loading by name or by path a library already loaded answers that module and changes nothing |
| Loader.LoadByName | src/emulite/loader/elf_loader.py:105-109 | after a load by path succeeds, a load by the bare name answers the same module |
| Loader.OutOfOrderOnlyOnCycles | src/emulite/loader/elf_loader.py:156-165 | a module queued before a dependency it had resolved lies with it on a dependency cycle |
| Loader.QueueFollowsDependencies | src/emulite/loader/elf_loader.py:156-165 | on an acyclic graph every dependency of a queued module whose file can be loaded is registered, and if its module is queued it is queued before |
| Loader.QueueFollowsResolved | src/emulite/loader/elf_loader.py:156-165 | on an acyclic graph a queued module follows each queued module that answered one of its dependencies by file name or soname while it was being loaded |
| Loader.FewerLeft | src/emulite/loader/elf_loader.py:105-150 | each registration leaves strictly fewer names to load, which bounds the recursion |
| Segments.MapSegments | src/emulite/loader/elf_loader.py:198-218 | the runs cover the image's pages without gap or overlap, neighbours differ, and each page has the join of the permissions of all segments that touch it |
| Segments.TouchesItsBytes | src/emulite/loader/elf_loader.py:201-206 | a segment gives its permissions to exactly the pages that hold a byte of it; an empty one only to a page it starts inside |
| Segments.RunsAreUnique | src/emulite/loader/elf_loader.py:211-218 | the page permissions determine the runs: no other list of unlike neighbours shows the same pages |
| LinkerImage.FieldAt | src/emulite/android/linker_debug.py:204-222 | every field of a packed header, program header or symbol is found at its offset |
| LinkerImage.PhdrReads | src/emulite/android/linker_debug.py:204-222 | a program header's type, flags, offset, addresses, sizes and alignment are where each ELF class has them |
| LinkerDebug.LayoutOf | src/emulite/android/linker_debug.py:112-122 | the seven sections of an image follow one another without overlap and end at its size |
| LinkerDebug.EmitModule | src/emulite/android/linker_debug.py:104-140 | filling the buffer section by section gives the sections in order with zeros between, and the returned addresses point into it; it fails exactly when a symbol value does not fit the pointer width |
| LinkerDebug.EmittedIsImage | src/emulite/android/linker_debug.py:124-138 | a buffer with every section and gap in place is that one image, so the slice assignments leave nothing undetermined |
| LinkerDebug.SectionOffsets | src/emulite/android/linker_debug.py:112-122 | laid one after another, the sections end exactly where the computed offsets say the next begins: they are disjoint and cover the image |
| LinkerDebug.TablesFound | src/emulite/android/linker_debug.py:112-137 | from the ELF header a reader finds the program headers, the dynamic section, and through it the hash, string and symbol tables |
| LinkerDebug.ImageReads | src/emulite/android/linker_debug.py:104-140 | what a reader of the image finds: magic, class, type, machine, header sizes, the three segments with their offsets and sizes, the string table's size, the library's own name and the code |
| LinkerDebug.SymbolReads | src/emulite/android/linker_debug.py:131-134 | each symbol's name, value, size, type and section index, at their offsets in its row |
| LinkerDebug.WalkFinds | src/emulite/android/linker_debug.py:224-227 | following the chain from any symbol meets every later symbol once and then ends |
| LinkerDebug.LookupFinds | src/emulite/android/linker_debug.py:104-140 | the System V lookup over the image's bytes finds the first listed name or rejects, for every name and hash; it runs outside its tables if and only if the list is empty |
| LinkerDebug.ListedNamesAreFound | src/emulite/android/linker_debug.py:104-140 | for NUL-free names, a listed name gives the value computed for it and every other name is rejected |
| LinkMap.Rebuild | src/emulite/android/linker_debug.py:165-188 | the nodes are the main program, the loaded modules with a base address in load order (all of them, or as many of the first as fit), the synthetic libraries and the linker, in that order, each with its words at their offsets; nothing follows them |
| LinkMap.NodesAre | src/emulite/android/linker_debug.py:169-181 | a placed module is listed unless the list is full and every listed one was loaded before it; one without a base address never is |
| LinkMap.NextWalk | src/emulite/android/linker_debug.py:182-187 | following l_next from the head gives the images in that order and stops |
| LinkMap.PreviousWalk | src/emulite/android/linker_debug.py:182-187 | following l_prev gives the same images backwards and stops |
| CallConv32.ReadsOne | src/emulite/android/cformat/register_args32.py:25-47 | reading an argument where marshalling placed it, word or aligned pair, register or stack, gives its bits and ends at the next argument's place |
| CallConv32.SameOne | src/emulite/android/cformat/valist_args32.py:22-30 | from matching places the va_list reader and the register reader take the same bits and stay in step |
| CallConv32.ReadersAgree | src/emulite/android/cformat/valist_args32.py:17-30 | over the words a variadic prologue saves (AAPCS32, section 6.5), the va_list reader returns what the register reader returns, for every list and start |
| CallConv32.Emulator32.MarshalNative | src/emulite/android_emulator32.py:115-151 | each argument's words are in the registers and stack slots the procedure call standard gives it, the first one's in registers 2 and 3; every value reads back; SP stays 8-aligned and memory above it is untouched |
| CallConv32.MarshalledReadsBack | src/emulite/android_emulator32.py:115-151 | the register reader started at register 2 returns each wide value modulo 2^64 and each other one modulo 2^32, in order, for every argument list |
| CallConv64.ReadsOne | src/emulite/android/cformat/register_args64.py:24-40 | reading an integer or real where marshalling placed it gives its bits and ends at the next argument's place |
| CallConv64.VaListRead | src/emulite/android/cformat/valist_args64.py:15-22 | the reader recovers the five va_list fields from memory, negative offsets included |
| CallConv64.ReadersAgree | src/emulite/android/cformat/valist_args64.py:24-40 | over a va_list laid out as in the "Variable Argument Lists" appendix of AAPCS64, both readers return the same values for every list |
| CallConv64.Emulator64.MarshalNative | src/emulite/android_emulator64.py:113-136 | integers and reals fill their own registers and share the stack in argument order, the first of each in X2 and Q0; every value reads back; SP stays 16-aligned and memory above it is untouched |
| CallConv64.MarshalledReadsBack | src/emulite/android_emulator64.py:113-136 | the register reader started at register 2 returns each value modulo 2^64, in order, for every argument list |
| Streams.PipeIO.Read | src/emulite/android/io/pipe_io.py:23-34 | returns exactly the oldest min(count, buffered, limit) bytes; an empty read for a positive count means a drained buffer and no writer |
| Streams.PipeIO.Write | src/emulite/android/io/pipe_io.py:36-45 | exactly the counted prefix enters the buffer; refused as broken exactly when no reader is left |
| Streams.PipeIO.Close | src/emulite/android/io/pipe_io.py:50-57 | an end is taken off its pipe's count once, however often it is closed |
| Streams.SocketIO.SendTo | src/emulite/android/io/socket_io.py:27-41 | on a linked socket every byte counted as sent reaches the peer's inbox; the closed-peer answer never occurs |
| Streams.SocketIO.RecvFrom | src/emulite/android/io/socket_io.py:43-55 | returns exactly the oldest min(count, buffered, limit) bytes, which stay under MSG_PEEK; an empty receive for a positive count means a drained inbox and a closed peer |
| Streams.SocketIO.Close | src/emulite/android/io/socket_io.py:66-73 | unlinks both sockets, tells the peer, and touches nothing else of it |
| Descriptors.EndCounts | src/emulite/android/io/pipe_io.py:11-21 | a pipe's reader and writer counts equal the numbers of its read and write handles some descriptor still names |
| Descriptors.TrackedInstall | src/emulite/android/android_file_system.py:165-168 | installing a descriptor for a waiting handle makes it open and named |
| Descriptors.TrackedRemoval | src/emulite/android/android_file_system.py:156-163 | removing a descriptor leaves its handle to be closed exactly when no other descriptor names it |
| Descriptors.TrackedShare | src/emulite/android/android_file_system.py:286-303 | another descriptor for the same handle opens and closes nothing |
| Descriptors.AndroidFileSystem.Close | src/emulite/android/android_file_system.py:156-163 | removes one descriptor; a handle is closed exactly when its last descriptor goes, a socket's peer is then told, and no buffered byte of any pipe or socket is touched |
| Descriptors.AndroidFileSystem.OpenPipe | src/emulite/android/android_file_system.py:189-193 | two fresh ends of one empty pipe under the two least free numbers; no live descriptor is displaced |
| Descriptors.AndroidFileSystem.SocketPair | src/emulite/android/android_file_system.py:178-187 | two fresh sockets, each the other's peer, under the two least free numbers; other domains are refused |
| Descriptors.AndroidFileSystem.Dup | src/emulite/android/android_file_system.py:286-292 | shares the handle under the least free number from the minimum up |
| Descriptors.AndroidFileSystem.DupTo | src/emulite/android/android_file_system.py:294-303 | replaces exactly the target descriptor, closing what it named last; onto itself it does nothing; no buffered byte is touched |
| Descriptors.AndroidFileSystem.Fcntl | src/emulite/android/android_file_system.py:305-323 | each command's answer and its whole effect on the table, errors included |
| Descriptors.AndroidFileSystem.CloseRange | src/emulite/android/android_file_system.py:280-284 | exactly the descriptors of the range go, in whatever order, and their number is returned; no buffered byte is touched |
| Descriptors.AndroidFileSystem.Read | src/emulite/android/android_file_system.py:353-359 | a read on a pipe's read end answers exactly the oldest bytes, or an error as in the source; an empty answer for a positive count means exactly that nothing is buffered and no descriptor names a write end |
| Descriptors.AndroidFileSystem.Write | src/emulite/android/android_file_system.py:361-365 | a pipe write is refused as broken exactly when no descriptor names a read end; otherwise exactly the counted prefix enters the buffer and its length is the answer |
| Mutf8.Encode | src/emulite/android/jni/mutf8.py:8-24 | the loop computes the encoding the round trips are about |
| Mutf8.Decode | src/emulite/android/jni/mutf8.py:27-64 | the index loop computes the decoding, with the source's error range and reason on every malformed input |
| Mutf8.CharForms | src/emulite/android/jni/mutf8.py:8-24 | each character's bytes, with their lead and continuation bits and the value they carry; one beyond the base plane is its two surrogates |
| Mutf8.TurnErrors | src/emulite/android/jni/mutf8.py:27-64 | exactly which bytes give which reason and range; a raw 0x00 decodes |
| Mutf8.ErrorIsFirst | src/emulite/android/jni/mutf8.py:27-64 | an error is that of the first malformed character, and everything before it decodes |
| Mutf8.TextRoundTrip | src/emulite/android/jni/mutf8.py:8-64 | decoding an encoded text gives it with surrogate pairs joined left to right; it is unchanged if and only if it has no such pair |
| Mutf8.BytesRoundTrip | src/emulite/android/jni/mutf8.py:8-64 | re-encoding decoded bytes restores them if and only if they hold no 0x00 |
| Mutf8.NeverEmitsZero | src/emulite/android/jni/mutf8.py:8-24 | no encoding contains a zero byte |
| Mutf8.DecodedIsPairFree | src/emulite/android/jni/mutf8.py:27-64 | the decoder never leaves a surrogate pair unjoined |
| Mangler.Component | src/emulite/android/jni/jni_mangler.py:6-23 | the loop mangles unit by unit |
| Mangler.UnitForms | src/emulite/android/jni/jni_mangler.py:6-23 | ASCII letters and digits stand for themselves, the separators and the three escapes as written in the JNI rules, anything else is _0 and four lower-case hexadecimal digits of it |
| Mangler.ComponentInvertible | src/emulite/android/jni/jni_mangler.py:6-23 | a reader of the JNI rules recovers the name if and only if it has no dot and no slash whose underscore opens an escape |
| Mangler.SymbolForm | src/emulite/android/jni/jni_mangler.py:26-28 | a short symbol is Java_, the mangled class, an underscore and the mangled method |
| Mangler.SymbolsAreDistinct | src/emulite/android/jni/jni_mangler.py:26-34 | distinct methods get distinct short and distinct overloaded symbols, and no short symbol equals an overloaded one |
| Mangler.Overloaded | src/emulite/android/jni/jni_mangler.py:30-34 | the symbol mangles class, method and the descriptors between the parentheses; a signature without them is an error |
| Mangler.UncleanCollision | src/emulite/android/jni/jni_mangler.py:6-23 | outside those names two class names can share a symbol |

## Left out

- Foreign code: the CPU engine beyond its page map, ELF parsing, Python formatting. A parsed file is a record of what the loader reads from it.
- Guest interference: the guest does not write import slots, trampolines or marshalled stack words during the step modelled.
- Running a trap: the instruction word at an interrupt is a parameter, tied to the trampolines where one was fetched; what a handler or system call does and the result it leaves in the return register are not modelled.
- Floating-point conversion: reals travel as the bit patterns `struct.pack` gives them.
- Bit operations on disjoint fields (`|`, shifts, alignment masks) are written as the arithmetic they compute.
- Heap.HeapAllocator.TakeFree: the sorted scan of the free dictionary is a loop over its least remaining key; the dictionary's insertion order is not modelled, and no result depends on it.
- Hooks.HookManager.Install: the source appends the hook before its trampolines exist and takes it out again on failure; the model appends it once both exist. No call can come in between.
- HookCalls.CallReturns: hooks do not raise and are not installed or removed while a call is under way.
- `HookManager.replace` and address, code and memory hooks: `replace` is the one-hook case of the same return-address stack.
- NativeCalls.InvocationReturns: arguments are marshalled as the references they add and the stack they take; the register placement is proved in CallConv32 and CallConv64.
- `JNIEnv._read_registers`, `method_id` and `field_id`: interning and plain reads that would add only easy members.
- Relocation kinds, TLS descriptors, poison pointers and the written pointer values: the loader model keeps which imports are answered, not what is stored.
- Loader.ElfLoader.Load: a file's load base and whether it can be placed are given per file rather than taken from `MemoryManager.ReserveLib`; virtual modules are not modelled.
- Loader.QueueFollowsDependencies: a dependency whose own file cannot be loaded, and whose name only a module loaded later answers by its soname, is not ordered; the source does not order it either.
- Segments.MapSegments: addresses are counted in pages; mapping, writing and protecting the runs are the operations of MemoryManager.
- LinkerDebug.EmitModule: `base` is the answer of a successful `mmap`, so the image is no larger than the arena; the final write and protect are not repeated.
- LinkMap.Rebuild: the `r_debug` record, name allocation and the identity check on modules already made unique by the loader.
- InitialStack.StackBuilder.SetupStack: mapping the stack is `MemoryManager.Map`; strings come already encoded in UTF-8; the random bytes are a parameter.
- CallConv32.Emulator32.MarshalNative: conversion of Java values to guest words is a parameter; reading unmapped memory is a fault value.
- Streams.PipeIO.Read: non-blocking flags, event files and epoll; a pipe built from a plain byte array.
- Descriptors.AndroidFileSystem.Read: stated for pipe read ends; unknown and write-only descriptors are refused before any handle is reached.
- Descriptors.AndroidFileSystem.Fcntl: status-flag and lock commands are passed to the handle and not modelled further.
- Host files, path resolution, `/proc` text, syscall tables, logging, Java class models: string building and input/output.
